/** `Tuple`: a list of possibly-`null` values, each with an optional name,
    kept in two parallel lists that every method updates in place. The
    methods are modelled on any pair of lists, so a call that reaches a
    list shorter than the other fails where Java's would throw; `Valid`
    is the alignment the methods maintain. */
module Tuples {
  import opened Machine
  import opened Outcomes

  /** `List.indexOf`: the first index of `x`, or -1. */
  function IndexOf<T(==)>(s: seq<T>, x: T): (r: int)
    ensures -1 <= r < |s|
    ensures r >= 0 ==> s[r] == x
    ensures forall i :: 0 <= i < (if r < 0 then |s| else r) ==> s[i] != x
  {
    if |s| == 0 then -1
    else if s[0] == x then 0
    else var t := IndexOf(s[1..], x); if t < 0 then -1 else t + 1
  }

  /** `List.remove(int)` on a valid index. */
  function RemoveAt<T>(s: seq<T>, i: nat): (r: seq<T>)
    requires i < |s|
    ensures |r| == |s| - 1
    ensures forall k :: 0 <= k < |r| ==> r[k] == if k < i then s[k] else s[k + 1]
  {
    s[..i] + s[i + 1..]
  }

  /** `List.add(int, E)` on a valid index. */
  function InsertAt<T>(s: seq<T>, i: nat, x: T): (r: seq<T>)
    requires i <= |s|
    ensures |r| == |s| + 1 && r[i] == x
    ensures forall k :: 0 <= k < |r| && k != i ==> r[k] == if k < i then s[k] else s[k - 1]
  {
    s[..i] + [x] + s[i..]
  }

  /** Every name other than `null` occurs at most once. */
  predicate UniqueNames(names: seq<Option<string>>) {
    forall i, j :: 0 <= i < j < |names| && names[i].Some? ==> names[i] != names[j]
  }

  /** One call of the `forEach` action. */
  datatype Visit<V> = Visit(name: Option<string>, index: int, value: Option<V>)

  class Tuple<V(==)> {
    var values: seq<Option<V>>
    var names: seq<Option<string>>

    /** The lists stay aligned and the names unique. */
    predicate Valid()
      reads this
    {
      |values| == |names| && UniqueNames(names)
    }

    /** `Tuple()`. */
    constructor ()
      ensures values == [] && names == []
      ensures Valid()
    {
      values := [];
      names := [];
    }

    /** `Tuple(Tuple)`: copies of both lists. */
    constructor Copy(other: Tuple<V>)
      ensures values == other.values && names == other.names
      ensures Equals(Some(other))
    {
      values := other.values;
      names := other.names;
    }

    /** `size`: the number of values, which on a valid tuple is also the
        number of names. */
    function Size(): (n: nat)
      reads this
      ensures Valid() ==> n == |names|
      ensures n == 0 ==> forall i :: GetValue(i).Err?
    {
      |values|
    }

    /** `contains(String)`: `null` matches an unnamed entry. */
    function Contains(name: Option<string>): (r: bool)
      reads this
      ensures r <==> IndexOf(names, name) >= 0
      ensures Valid() && r && name.Some? ==> GetValueByName(name).Ok?
      ensures name.Some? && !r ==> GetValueByName(name) == Ok(None)
    {
      name in names
    }

    /** `containsValue`. */
    function ContainsValue(value: Option<V>): (r: bool)
      reads this
      ensures r <==> IndexOf(values, value) >= 0
    {
      value in values
    }

    /** `getValue(int)`. */
    function GetValue(index: int32): (r: Result<Option<V>>)
      reads this
      ensures r.Err? <==> !(0 <= index < |values|)
      ensures r.Err? ==> r.error == IndexOutOfBounds
      ensures r.Ok? ==> r.value == values[index]
    {
      if 0 <= index < |values| then Ok(values[index]) else Err(IndexOutOfBounds)
    }

    /** `getValue(String)`: `null` is rejected, an absent name gives `null`,
        otherwise the value at the name's first index. */
    function GetValueByName(name: Option<string>): (r: Result<Option<V>>)
      reads this
      ensures name.None? ==> r == Err(IllegalArgument)
      ensures name.Some? && name !in names ==> r == Ok(None)
      ensures Valid() && name.Some? && name in names ==>
        exists i :: 0 <= i < |names| && names[i] == name && r == Ok(values[i])
    {
      if name.None? then Err(IllegalArgument)
      else
        var index := IndexOf(names, name);
        if index < 0 then Ok(None)
        else if index < |values| then Ok(values[index])
        else Err(IndexOutOfBounds)
    }

    /** `equals`: another tuple with equal lists. */
    function Equals(obj: Option<Tuple<V>>): (r: bool)
      reads this, if obj.Some? then {obj.value} else {}
      ensures obj == Some(this) ==> r
      ensures r ==> obj.Some?
      ensures r ==> Size() == obj.value.Size()
      ensures r ==> forall name :: GetValueByName(name) == obj.value.GetValueByName(name)
    {
      obj.Some? && values == obj.value.values && names == obj.value.names
    }

    /** `add(Object)`: append the value with no name. */
    method Add(value: Option<V>)
      modifies this
      ensures values == old(values) + [value] && names == old(names) + [None]
      ensures old(Valid()) ==> Valid()
    {
      values := values + [value];
      names := names + [None];
    }

    /** `add(int, Object)`: insert the value and no name at `index` of both
        lists; each insertion checks the index against its own list. */
    method AddAt(index: int32, value: Option<V>) returns (o: Outcome)
      modifies this
      ensures !(0 <= index <= old(|values|)) ==> o == Fail(IndexOutOfBounds) && values == old(values) && names == old(names)
      ensures 0 <= index <= old(|values|) ==> values == InsertAt(old(values), index as nat, value)
      ensures 0 <= index <= old(|values|) && !(index <= old(|names|)) ==> o == Fail(IndexOutOfBounds) && names == old(names)
      ensures 0 <= index <= old(|values|) && index <= old(|names|) ==> o == Pass && names == InsertAt(old(names), index as nat, None)
      ensures old(Valid()) ==> Valid() && (o.Pass? <==> 0 <= index <= old(|values|))
    {
      if !(0 <= index <= |values|) {
        return Fail(IndexOutOfBounds);
      }
      values := InsertAt(values, index as nat, value);
      if !(index <= |names|) {
        return Fail(IndexOutOfBounds);
      }
      ghost var before := names;
      names := InsertAt(names, index as nat, None);
      NoneInsertKeepsUnique(before, index as nat);
      o := Pass;
    }

    /** `add(String, Object)`: a `null` name is rejected; an entry already
        holding the name is removed from both lists; then the pair is
        appended. */
    method AddNamed(name: Option<string>, value: Option<V>) returns (o: Outcome)
      modifies this
      ensures name.None? ==> o == Fail(IllegalArgument) && values == old(values) && names == old(names)
      ensures name.Some? && name !in old(names) ==>
        o == Pass && values == old(values) + [value] && names == old(names) + [name]
      ensures name.Some? && name in old(names) && IndexOf(old(names), name) < old(|values|) ==>
        var i := IndexOf(old(names), name);
        o == Pass && values == RemoveAt(old(values), i) + [value] && names == RemoveAt(old(names), i) + [name]
      ensures name.Some? && name in old(names) && IndexOf(old(names), name) >= old(|values|) ==>
        o == Fail(IndexOutOfBounds) && values == old(values) && names == RemoveAt(old(names), IndexOf(old(names), name))
      ensures old(Valid()) ==> Valid() && (o.Pass? <==> name.Some?)
      ensures old(Valid()) && o.Pass? ==> GetValueByName(name) == Ok(value)
    {
      if name.None? {
        return Fail(IllegalArgument);
      }
      var index := IndexOf(names, name);
      assert index >= 0 <==> name in names;
      if index > -1 {
        o := DropEntry(index);
        if o.Fail? {
          return;
        }
        assert old(Valid()) ==> name !in names;
      }
      ghost var middle := names;
      ghost var middleValues := values;
      values := values + [value];
      names := names + [name];
      if old(Valid()) {
        AppendResolves(middleValues, middle, name, value);
        assert Valid();
        assert GetValueByName(name) == Ok(value);
      }
      o := Pass;
    }

    /** `names.remove(index)` then `values.remove(index)`, the first of
        which may succeed while the second throws. Dropping a name held only
        once keeps the tuple valid and leaves that name absent. */
    method DropEntry(index: nat) returns (o: Outcome)
      requires index < |names|
      modifies this
      ensures names == RemoveAt(old(names), index)
      ensures index < old(|values|) ==> o == Pass && values == RemoveAt(old(values), index)
      ensures index >= old(|values|) ==> o == Fail(IndexOutOfBounds) && values == old(values)
      ensures old(Valid()) ==> Valid() && o == Pass
      ensures old(Valid()) && old(names)[index].Some? ==> old(names)[index] !in names
    {
      ghost var before := names;
      names := RemoveAt(names, index);
      if index >= |values| {
        return Fail(IndexOutOfBounds);
      }
      values := RemoveAt(values, index);
      RemoveUnique(before, index);
      if old(Valid()) && before[index].Some? {
        RemovedNameGone(before, index);
      }
      o := Pass;
    }

    /** `remove(Object)`: remove the first equal value and the name at its
        index, reporting whether one was found. */
    method Remove(value: Option<V>) returns (r: Result<bool>)
      modifies this
      ensures value !in old(values) ==> r == Ok(false) && values == old(values) && names == old(names)
      ensures value in old(values) ==> values == RemoveAt(old(values), IndexOf(old(values), value))
      ensures value in old(values) && IndexOf(old(values), value) < old(|names|) ==>
        r == Ok(true) && names == RemoveAt(old(names), IndexOf(old(values), value))
      ensures value in old(values) && IndexOf(old(values), value) >= old(|names|) ==>
        r == Err(IndexOutOfBounds) && names == old(names)
      ensures old(Valid()) ==> Valid() && r.Ok?
    {
      var index := IndexOf(values, value);
      if index < 0 {
        return Ok(false);
      }
      values := RemoveAt(values, index);
      if index >= |names| {
        return Err(IndexOutOfBounds);
      }
      ghost var before := names;
      names := RemoveAt(names, index);
      RemoveUnique(before, index);
      r := Ok(true);
    }

    /** `removeName` as corrected: the entry is removed from both lists. */
    method RemoveName(name: Option<string>) returns (r: Result<Option<V>>)
      modifies this
      ensures name.None? ==> r == Err(IllegalArgument) && values == old(values) && names == old(names)
      ensures name.Some? && name !in old(names) ==> r == Ok(None) && values == old(values) && names == old(names)
      ensures name.Some? && name in old(names) && IndexOf(old(names), name) < old(|values|) ==>
        var i := IndexOf(old(names), name);
        r == Ok(old(values)[i]) && values == RemoveAt(old(values), i) && names == RemoveAt(old(names), i)
      ensures name.Some? && name in old(names) && IndexOf(old(names), name) >= old(|values|) ==>
        r == Err(IndexOutOfBounds) && values == old(values) && names == old(names)
      ensures old(Valid()) ==> Valid() && (r.Err? <==> name.None?) && (name.Some? ==> name !in names)
    {
      if name.None? {
        return Err(IllegalArgument);
      }
      var index := IndexOf(names, name);
      if index < 0 {
        return Ok(None);
      }
      if index >= |values| {
        return Err(IndexOutOfBounds);
      }
      r := Ok(values[index]);
      values := RemoveAt(values, index);
      ghost var before := names;
      names := RemoveAt(names, index);
      RemoveUnique(before, index);
      if old(Valid()) {
        RemovedNameGone(before, index);
      }
    }

    /** `removeName` as written: the value is removed but the name stays, so
        the lists fall out of step. */
    method RemoveNameAsWritten(name: Option<string>) returns (r: Result<Option<V>>)
      modifies this
      ensures name.None? ==> r == Err(IllegalArgument) && values == old(values)
      ensures name.Some? && name !in old(names) ==> r == Ok(None) && values == old(values)
      ensures name.Some? && name in old(names) && IndexOf(old(names), name) < old(|values|) ==>
        var i := IndexOf(old(names), name);
        r == Ok(old(values)[i]) && values == RemoveAt(old(values), i)
      ensures name.Some? && name in old(names) && IndexOf(old(names), name) >= old(|values|) ==>
        r == Err(IndexOutOfBounds) && values == old(values)
      ensures names == old(names)
      ensures old(Valid()) && name.Some? && name in old(names) ==> |names| == |values| + 1 && !Valid()
    {
      if name.None? {
        return Err(IllegalArgument);
      }
      var index := IndexOf(names, name);
      if index >= 0 {
        if index >= |values| {
          return Err(IndexOutOfBounds);
        }
        r := Ok(values[index]);
        values := RemoveAt(values, index);
        return;
      }
      r := Ok(None);
    }

    /** `removeIndex`: remove from `values`, then from `names`; each removal
        checks the index against its own list. */
    method RemoveIndex(index: int32) returns (r: Result<Option<V>>)
      modifies this
      ensures !(0 <= index < old(|values|)) ==> r == Err(IndexOutOfBounds) && values == old(values) && names == old(names)
      ensures 0 <= index < old(|values|) ==> values == RemoveAt(old(values), index as nat)
      ensures 0 <= index < old(|values|) && index < old(|names|) ==>
        r == Ok(old(values)[index]) && names == RemoveAt(old(names), index as nat)
      ensures 0 <= index < old(|values|) && !(index < old(|names|)) ==> r == Err(IndexOutOfBounds) && names == old(names)
      ensures old(Valid()) ==> Valid() && (r.Ok? <==> 0 <= index < old(|values|))
    {
      if !(0 <= index < |values|) {
        return Err(IndexOutOfBounds);
      }
      var result := values[index];
      values := RemoveAt(values, index as nat);
      if !(index < |names|) {
        return Err(IndexOutOfBounds);
      }
      ghost var before := names;
      names := RemoveAt(names, index as nat);
      RemoveUnique(before, index as nat);
      r := Ok(result);
    }

    /** `forEach`: with an action, call it on (name, index, value) for every
        index of `values` in order; the calls made are returned. A missing
        name entry makes the `names.get` throw. A `null` action does nothing. */
    method ForEach(hasAction: bool) returns (visits: seq<Visit<V>>, o: Outcome)
      ensures !hasAction ==> visits == [] && o == Pass
      ensures hasAction ==> |visits| == Min(|values|, |names|)
      ensures forall i :: 0 <= i < |visits| ==> visits[i] == Visit(names[i], i, values[i])
      ensures o == Pass <==> !hasAction || |values| <= |names|
      ensures o.Fail? ==> o.error == IndexOutOfBounds
    {
      visits := [];
      if !hasAction {
        return [], Pass;
      }
      var i, len := 0, |values|;
      while i < len
        invariant 0 <= i <= len && i <= |names|
        invariant |visits| == i
        invariant forall k :: 0 <= k < i ==> visits[k] == Visit(names[k], k, values[k])
      {
        if i >= |names| {
          return visits, Fail(IndexOutOfBounds);
        }
        visits := visits + [Visit(names[i], i, values[i])];
        i := i + 1;
      }
      o := Pass;
    }
  }

  /** Inserting `null` keeps the names unique. */
  lemma NoneInsertKeepsUnique(names: seq<Option<string>>, i: nat)
    requires i <= |names|
    ensures UniqueNames(names) ==> UniqueNames(InsertAt(names, i, None))
  {
  }

  /** Removing an entry keeps the names unique. */
  lemma RemoveUnique(names: seq<Option<string>>, i: nat)
    requires i < |names|
    ensures UniqueNames(names) ==> UniqueNames(RemoveAt(names, i))
  {
    var r := RemoveAt(names, i);
    if UniqueNames(names) {
      forall a, b | 0 <= a < b < |r| && r[a].Some?
        ensures r[a] != r[b]
      {
        var a', b' := if a < i then a else a + 1, if b < i then b else b + 1;
        assert r[a] == names[a'] && r[b] == names[b'];
      }
    }
  }

  /** The only entry holding a name, once removed, leaves the name absent. */
  lemma RemovedNameGone(names: seq<Option<string>>, i: nat)
    requires i < |names| && names[i].Some? && UniqueNames(names)
    ensures names[i] !in RemoveAt(names, i)
  {
    var r := RemoveAt(names, i);
    forall k | 0 <= k < |r|
      ensures r[k] != names[i]
    {
      if k < i {
        assert r[k] == names[k];
      } else {
        assert r[k] == names[k + 1];
      }
    }
  }

  /** Appending a name that is absent keeps the names unique. */
  lemma AppendFresh(names: seq<Option<string>>, name: Option<string>)
    requires UniqueNames(names) && name !in names
    ensures UniqueNames(names + [name])
  {
  }

  /** An element appended to a list that lacks it is found at the end. */
  lemma IndexOfAppended<T>(s: seq<T>, x: T)
    requires x !in s
    ensures IndexOf(s + [x], x) == |s|
  {
    assert (s + [x])[|s|] == x;
  }

  /** Appending a pair whose name is absent from aligned, unique lists keeps
      them unique and finds the name at the appended index. */
  lemma AppendResolves<V>(values: seq<Option<V>>, names: seq<Option<string>>, name: Option<string>, value: Option<V>)
    requires |values| == |names| && UniqueNames(names) && name !in names
    ensures UniqueNames(names + [name])
    ensures IndexOf(names + [name], name) == |names| < |values + [value]|
    ensures (values + [value])[|names|] == value
  {
    AppendFresh(names, name);
    IndexOfAppended(names, name);
  }

  /** A copy equals its source, and both `equals` directions agree. */
  method CopyEquals<V(==)>(t: Tuple<V>) returns (c: Tuple<V>)
    ensures c.Equals(Some(t)) && t.Equals(Some(c))
    ensures fresh(c)
  {
    c := new Tuple.Copy(t);
  }

  /** Remove-by-name as written: a tuple holding one entry named "a" keeps
      the name after the entry is gone, and a later value appended without a
      name is then returned for "a". */
  method RemovedNameStillResolves() returns (g: Result<Option<int>>)
    ensures g == Ok(Some(2))
  {
    var t := new Tuple<int>();
    var o := t.AddNamed(Some("a"), Some(1));
    var r := t.RemoveNameAsWritten(Some("a"));
    t.Add(Some(2));
    g := t.GetValueByName(Some("a"));
  }

  /** Remove-by-name as corrected: the same calls leave "a" absent. */
  method RemovedNameGoneCorrected() returns (g: Result<Option<int>>)
    ensures g == Ok(None)
  {
    var t := new Tuple<int>();
    var o := t.AddNamed(Some("a"), Some(1));
    var r := t.RemoveName(Some("a"));
    t.Add(Some(2));
    g := t.GetValueByName(Some("a"));
  }
}
