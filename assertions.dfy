/** `Assert`: validators that return normally or throw
    `IllegalArgumentException`. A validator is a function to `Outcome`; the
    message argument of each Java overload only labels the exception and is not
    modelled, so each pair of overloads is one member here. A Java array or
    collection is a sequence (in iteration order) and `null` is `None`. */
module Assertions {
  import opened Outcomes
  import opened StringUtils

  /** `isTrue`: throws exactly when the expression is false. */
  function IsTrue(expression: bool): (o: Outcome)
    ensures o.Fail? <==> !expression
    ensures o.Fail? ==> o.error == IllegalArgument
  {
    if !expression then Fail(IllegalArgument) else Pass
  }

  /** `isNull`: throws exactly when the object is present. */
  function IsNull<T>(obj: Option<T>): (o: Outcome)
    ensures o.Fail? <==> obj.Some?
    ensures o.Fail? ==> o.error == IllegalArgument
  {
    if obj.Some? then Fail(IllegalArgument) else Pass
  }

  /** `notNull`: throws exactly when the object is `null`. */
  function NotNull<T>(obj: Option<T>): (o: Outcome)
    ensures o.Fail? <==> obj.None?
    ensures o.Fail? ==> o.error == IllegalArgument
  {
    if obj.None? then Fail(IllegalArgument) else Pass
  }

  /** `isNull` and `notNull` reject exactly complementary inputs. */
  lemma NullChecksComplementary<T>(obj: Option<T>)
    ensures IsNull(obj).Pass? <==> NotNull(obj).Fail?
  {
  }

  /** `hasLength`: throws on `null` or empty text. */
  function HasLengthCheck(text: Option<string>): (o: Outcome)
    ensures o.Fail? <==> text.None? || |text.value| == 0
    ensures o.Fail? ==> o.error == IllegalArgument
  {
    if !HasLength(text) then Fail(IllegalArgument) else Pass
  }

  /** `hasText`: throws on `null` text or text made only of whitespace. */
  function HasTextCheck(text: Option<string>): (o: Outcome)
    ensures o.Fail? <==> text.None? || forall i :: 0 <= i < |text.value| ==> IsWhitespace(text.value[i])
    ensures o.Fail? ==> o.error == IllegalArgument
  {
    if !HasText(text) then Fail(IllegalArgument) else Pass
  }

  /** Text accepted by `hasText` is accepted by `hasLength`, while a lone blank
      is accepted by `hasLength` only. */
  lemma HasTextStricter(text: Option<string>)
    ensures HasTextCheck(text).Pass? ==> HasLengthCheck(text).Pass?
    ensures HasLengthCheck(Some(" ")).Pass? && HasTextCheck(Some(" ")).Fail?
  {
    HasTextHasLength(text);
    BlankHasNoText();
  }

  /** `sub` occurs in `s` starting at index `i`. */
  predicate OccursAt(s: string, sub: string, i: int) {
    0 <= i && i + |sub| <= |s| && s[i..i + |sub|] == sub
  }

  /** `String.indexOf(String)` searching from index `from`: the first index at
      or after `from` where `sub` occurs, or -1. */
  function IndexOfFrom(s: string, sub: string, from: nat): (r: int)
    ensures r == -1 || (from <= r && OccursAt(s, sub, r))
    ensures forall i :: from <= i < (if r == -1 then |s| + 1 else r) ==> !OccursAt(s, sub, i)
    decreases |s| + 1 - from
  {
    if from + |sub| > |s| then -1
    else if s[from..from + |sub|] == sub then from
    else IndexOfFrom(s, sub, from + 1)
  }

  /** `String.indexOf(String)`. */
  function IndexOfText(s: string, sub: string): (r: int)
    ensures r == -1 <==> forall i :: 0 <= i <= |s| ==> !OccursAt(s, sub, i)
    ensures r != -1 ==> OccursAt(s, sub, r) && forall i :: 0 <= i < r ==> !OccursAt(s, sub, i)
  {
    IndexOfFrom(s, sub, 0)
  }

  /** `doesNotContain`: throws only when both strings have length and the
      substring occurs in the text. */
  function DoesNotContain(textToSearch: Option<string>, substring: Option<string>): (o: Outcome)
    ensures o.Fail? <==>
      HasLength(textToSearch) && HasLength(substring) && exists i :: OccursAt(textToSearch.value, substring.value, i)
    ensures o.Fail? ==> o.error == IllegalArgument
  {
    if HasLength(textToSearch) && HasLength(substring) && IndexOfText(textToSearch.value, substring.value) != -1 then
      Fail(IllegalArgument)
    else
      Pass
  }

  /** The private `isEmpty(Object[])`: `null` or of length 0. */
  predicate IsEmptyArray<T>(arr: Option<seq<T>>) {
    arr.None? || |arr.value| == 0
  }

  /** `notEmpty(Object[])`: throws exactly on a `null` or empty array. */
  function NotEmptyArray<T>(arr: Option<seq<T>>): (o: Outcome)
    ensures o.Fail? <==> arr.None? || |arr.value| == 0
    ensures o.Fail? ==> o.error == IllegalArgument
  {
    if IsEmptyArray(arr) then Fail(IllegalArgument) else Pass
  }

  /** `noNullElements(Object[])`: an index loop that throws at the first
      `null` element; a `null` array is accepted. */
  method NoNullElements<T>(arr: Option<seq<Option<T>>>) returns (o: Outcome)
    ensures o.Fail? <==> arr.Some? && exists i :: 0 <= i < |arr.value| && arr.value[i].None?
    ensures o.Fail? ==> o.error == IllegalArgument
  {
    if arr.Some? {
      var a := arr.value;
      for i := 0 to |a|
        invariant forall j :: 0 <= j < i ==> a[j].Some?
      {
        if a[i].None? {
          return Fail(IllegalArgument);
        }
      }
    }
    return Pass;
  }

  /** `noNullElements(Collection)`: the same test over an iterator, modelled
      by consuming the collection from the front. */
  method NoNullElementsIn<T>(collection: Option<seq<Option<T>>>) returns (o: Outcome)
    ensures o.Fail? <==> collection.Some? && exists i :: 0 <= i < |collection.value| && collection.value[i].None?
    ensures o.Fail? ==> o.error == IllegalArgument
  {
    if collection.Some? {
      var rest := collection.value;
      while rest != []
        invariant |rest| <= |collection.value|
        invariant rest == collection.value[|collection.value| - |rest|..]
        invariant forall j :: 0 <= j < |collection.value| - |rest| ==> collection.value[j].Some?
      {
        if rest[0].None? {
          assert collection.value[|collection.value| - |rest|].None?;
          return Fail(IllegalArgument);
        }
        rest := rest[1..];
      }
    }
    return Pass;
  }

  /** `isEmpty(Collection)` as written: true for a non-`null`, non-empty
      collection, the opposite of what its name and documentation say. */
  predicate IsEmptyAsWritten<T>(collection: Option<seq<T>>)
    ensures IsEmptyAsWritten(collection) <==> !IsEmptyCollection(collection)
  {
    collection.Some? && |collection.value| > 0
  }

  /** `notEmpty(Collection)` as written: throws on a non-empty collection and
      accepts `null` or an empty one. */
  function NotEmptyAsWritten<T>(collection: Option<seq<T>>): (o: Outcome)
    ensures o.Fail? <==> collection.Some? && |collection.value| > 0
    ensures o.Fail? ==> o.error == IllegalArgument
  {
    if IsEmptyAsWritten(collection) then Fail(IllegalArgument) else Pass
  }

  /** The as-written test inverts the documented one: a one-element list is
      rejected and an empty one accepted. */
  lemma IsEmptyInverted<T>(collection: Option<seq<T>>, x: T)
    ensures IsEmptyAsWritten(collection) == !IsEmptyCollection(collection)
    ensures NotEmptyAsWritten(Some([x])).Fail? && NotEmptyAsWritten<T>(Some([])).Pass?
    ensures NotEmptyAsWritten<T>(None).Pass?
  {
  }

  /** `isEmpty(Collection)` as documented: `null` or without elements. */
  predicate IsEmptyCollection<T>(collection: Option<seq<T>>) {
    collection.None? || |collection.value| == 0
  }

  /** `notEmpty(Collection)` as documented: throws on a `null` or empty
      collection. */
  function NotEmptyCollection<T>(collection: Option<seq<T>>): (o: Outcome)
    ensures o.Fail? <==> collection.None? || |collection.value| == 0
    ensures o.Fail? ==> o.error == IllegalArgument
  {
    if IsEmptyCollection(collection) then Fail(IllegalArgument) else Pass
  }

  /** The corrected collection check agrees with the array check on every
      input, and rejects exactly what the as-written one accepts. */
  lemma NotEmptyAgreesWithArray<T>(collection: Option<seq<T>>)
    ensures NotEmptyCollection(collection) == NotEmptyArray(collection)
    ensures NotEmptyCollection(collection).Fail? <==> NotEmptyAsWritten(collection).Pass?
  {
  }
}
