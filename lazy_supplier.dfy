/** `LazySupplier`: a supplier whose first non-`null` result is cached. The
    wrapped `java.util.function.Supplier` is an oracle object that answers its
    `n`-th call with `results(n)` and counts its calls. Without a common
    supplier type, the suppliers `map` and `flatMap` return are classes of
    their own, each with the same caching and `null` check as `LazySupplier`. */
module LazySuppliers {
  import opened Outcomes

  /** A `Supplier` that may answer differently, or `null`, on each call. */
  class Supplier<T> {
    const results: nat -> Option<T>
    var calls: nat

    constructor (results: nat -> Option<T>)
      ensures this.results == results && calls == 0
    {
      this.results := results;
      calls := 0;
    }

    /** What the next call answers. */
    function Next(): Option<T>
      reads this
    {
      results(calls)
    }

    method Get() returns (v: Option<T>)
      modifies this
      ensures v == old(Next()) && calls == old(calls) + 1
    {
      v := results(calls);
      calls := calls + 1;
    }
  }

  class LazySupplier<T> {
    const supplier: Supplier<T>
    var value: Option<T>

    /** `of`: nothing is computed yet. */
    constructor Of(supplier: Supplier<T>)
      ensures this.supplier == supplier && value.None?
    {
      this.supplier := supplier;
      value := None;
    }

    /** What `get` returns in the current state: the cached value, or the
        supplier's next answer, where `null` throws `IllegalStateException`. */
    function Peek(): (r: Result<T>)
      reads this, supplier
      ensures r.Err? ==> r.error == IllegalState && value.None? && supplier.Next().None?
      ensures value.Some? ==> r == Ok(value.value)
    {
      if value.Some? then Ok(value.value)
      else if supplier.Next().None? then Err(IllegalState)
      else Ok(supplier.Next().value)
    }

    /** `get`: calls the supplier only while nothing is cached, and caches a
        non-`null` answer, so every later `get` returns it without a call. */
    method Get() returns (r: Result<T>)
      modifies this, supplier
      ensures r == old(Peek())
      ensures old(value).Some? ==> value == old(value) && supplier.calls == old(supplier.calls)
      ensures old(value).None? ==> supplier.calls == old(supplier.calls) + 1
      ensures value == if r.Ok? then Some(r.value) else None
      ensures r.Ok? ==> Peek() == r
    {
      if value.None? {
        var newValue := supplier.Get();
        if newValue.None? {
          return Err(IllegalState);
        }
        value := newValue;
      }
      return Ok(value.value);
    }

    /** `map`: a new lazy supplier applying `fn` to this one's value;
        neither this supplier nor `fn` is called. */
    method Map<S>(fn: T -> Option<S>) returns (m: MappedSupplier<T, S>)
      ensures fresh(m) && m.source == this && m.fn == fn && m.value.None?
    {
      m := new MappedSupplier(this, fn);
    }

    /** `flatMap`: a new lazy supplier asking the supplier `fn` gives for
        this one's value. `targets` holds every supplier `fn` can give;
        none of them may share state with this one. */
    method FlatMap<S>(fn: T -> Option<LazySupplier<S>>, ghost targets: set<LazySupplier<S>>) returns (m: FlatMappedSupplier<T, S>)
      requires forall v :: fn(v).Some? ==> fn(v).value in targets
      requires forall x: LazySupplier<S> :: x in targets ==> (x as object) != this && (x.supplier as object) != supplier
      ensures fresh(m) && m.source == this && m.fn == fn && m.targets == targets && m.value.None?
    {
      m := new FlatMappedSupplier(this, fn, targets);
    }
  }

  /** The lazy supplier `map` returns. */
  class MappedSupplier<T, S> {
    const source: LazySupplier<T>
    const fn: T -> Option<S>
    var value: Option<S>

    constructor (source: LazySupplier<T>, fn: T -> Option<S>)
      ensures this.source == source && this.fn == fn && value.None?
    {
      this.source := source;
      this.fn := fn;
      value := None;
    }

    /** `get` of the mapped supplier: `fn` applied to the source's `get`
        (whose exception passes through), with a `null` result throwing
        `IllegalStateException`, and cached once not `null`. */
    method Get() returns (r: Result<S>)
      modifies this, source, source.supplier
      ensures old(value).Some? ==> r == Ok(old(value).value) && value == old(value)
      ensures old(value).None? && old(source.Peek()).Err? ==> r == Err(old(source.Peek()).error)
      ensures old(value).None? && old(source.Peek()).Ok? ==>
        r == (if fn(old(source.Peek()).value).None? then Err(IllegalState) else Ok(fn(old(source.Peek()).value).value))
      ensures value == if r.Ok? then Some(r.value) else None
      ensures old(value).Some? ==>
        source.value == old(source.value) && source.supplier.calls == old(source.supplier.calls)
      ensures old(value).None? ==>
        && source.value == (if old(source.Peek()).Ok? then Some(old(source.Peek()).value) else None)
        && source.supplier.calls == old(source.supplier.calls) + (if old(source.value).None? then 1 else 0)
    {
      if value.None? {
        var v := source.Get();
        if v.Err? {
          return Err(v.error);
        }
        var newValue := fn(v.value);
        if newValue.None? {
          return Err(IllegalState);
        }
        value := newValue;
      }
      return Ok(value.value);
    }
  }

  /** The lazy supplier `flatMap` returns. */
  class FlatMappedSupplier<T, S> {
    const source: LazySupplier<T>
    const fn: T -> Option<LazySupplier<S>>
    ghost const targets: set<LazySupplier<S>>
    var value: Option<S>

    constructor (source: LazySupplier<T>, fn: T -> Option<LazySupplier<S>>, ghost targets: set<LazySupplier<S>>)
      ensures this.source == source && this.fn == fn && this.targets == targets && value.None?
    {
      this.source := source;
      this.fn := fn;
      this.targets := targets;
      value := None;
    }

    /** `get` of the flat-mapped supplier: the `get` of the supplier `fn`
        gives for the source's value; a `null` supplier throws
        `NullPointerException`, and either `get`'s exception passes through.
        The suppliers `fn` can give must lie in `targets`, apart from the
        source. */
    method Get() returns (r: Result<S>)
      requires forall v :: fn(v).Some? ==> fn(v).value in targets
      requires forall x: LazySupplier<S> :: x in targets ==> (x as object) != source && (x.supplier as object) != source.supplier
      modifies this, source, source.supplier, targets, set x | x in targets :: x.supplier
      ensures old(value).Some? ==> r == Ok(old(value).value) && value == old(value)
      ensures old(value).None? && old(source.Peek()).Err? ==> r == Err(old(source.Peek()).error)
      ensures old(value).None? && old(source.Peek()).Ok? && fn(old(source.Peek()).value).None? ==> r == Err(NullPointer)
      ensures old(value).None? && old(source.Peek()).Ok? && fn(old(source.Peek()).value).Some? ==>
        r == old(fn(source.Peek().value).value.Peek())
      ensures value == if r.Ok? then Some(r.value) else None
      ensures old(value).Some? ==>
        source.value == old(source.value) && source.supplier.calls == old(source.supplier.calls)
      ensures old(value).None? ==>
        && source.value == (if old(source.Peek()).Ok? then Some(old(source.Peek()).value) else None)
        && source.supplier.calls == old(source.supplier.calls) + (if old(source.value).None? then 1 else 0)
      ensures var p := old(source.Peek());
        old(value).None? && p.Ok? && fn(p.value).Some? ==>
          var t := fn(p.value).value;
          && t.value == (if old(t.Peek()).Ok? then Some(old(t.Peek()).value) else None)
          && t.supplier.calls == old(t.supplier.calls) + (if old(t.value).None? then 1 else 0)
      ensures var p := old(source.Peek());
        var reached := old(value).None? && p.Ok? && fn(p.value).Some?;
        forall x :: x in targets && !(reached && x == fn(p.value).value) ==> x.value == old(x.value)
      ensures var p := old(source.Peek());
        var reached := old(value).None? && p.Ok? && fn(p.value).Some?;
        forall x :: x in targets && !(reached && x.supplier == fn(p.value).value.supplier) ==>
          x.supplier.calls == old(x.supplier.calls)
    {
      if value.None? {
        var v := source.Get();
        if v.Err? {
          return Err(v.error);
        }
        var inner := fn(v.value);
        if inner.None? {
          return Err(NullPointer);
        }
        var w := inner.value.Get();
        if w.Err? {
          return Err(w.error);
        }
        value := Some(w.value);
      }
      return Ok(value.value);
    }
  }
}
