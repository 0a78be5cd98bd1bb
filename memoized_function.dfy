/** `MemoizedFunction`: a function whose non-`null` results are kept in a map
    that only grows. The wrapped function is deterministic here (`fn`, where
    `None` is a `null` result); `calls` records each argument it has been
    applied to, for stating how often it runs. */
module MemoizedFunctions {
  import opened Outcomes

  class MemoizedFunction<T(==), R> {
    const fn: T -> Option<R>
    var cache: map<T, R>
    ghost var calls: seq<T>

    /** Every cached value is the function's non-`null` result for its key,
        every call with a non-`null` result left its argument cached, and an
        argument with a non-`null` result was passed to the function at most
        once. */
    ghost predicate Valid()
      reads this
    {
      && (forall t :: t in cache ==> fn(t) == Some(cache[t]) && t in calls)
      && (forall i :: 0 <= i < |calls| && fn(calls[i]).Some? ==> calls[i] in cache)
      && (forall i, j :: 0 <= i < j < |calls| && calls[i] == calls[j] ==> fn(calls[i]).None?)
    }

    /** The public constructor: an empty cache. */
    constructor (fn: T -> Option<R>)
      ensures this.fn == fn && cache == map[] && calls == [] && Valid()
    {
      this.fn := fn;
      cache := map[];
      calls := [];
    }

    /** `apply`: `null` throws `NullPointerException`; a cached argument
        returns its value without calling the function; otherwise the function
        is called once, and a non-`null` result is cached and returned while
        a `null` one throws `NullPointerException` and is not cached. */
    method Apply(t: Option<T>) returns (r: Result<R>)
      modifies this
      ensures t.None? ==> r == Err(NullPointer) && cache == old(cache) && calls == old(calls)
      ensures t.Some? && t.value in old(cache) ==> r == Ok(old(cache)[t.value]) && cache == old(cache) && calls == old(calls)
      ensures t.Some? && t.value !in old(cache) ==> calls == old(calls) + [t.value]
      ensures t.Some? && t.value !in old(cache) && fn(t.value).None? ==> r == Err(NullPointer) && cache == old(cache)
      ensures t.Some? && t.value !in old(cache) && fn(t.value).Some? ==>
        r == Ok(fn(t.value).value) && cache == old(cache)[t.value := fn(t.value).value]
      ensures old(Valid()) ==> Valid() && (t.Some? ==> r == if fn(t.value).Some? then Ok(fn(t.value).value) else Err(NullPointer))
    {
      if t.None? {
        return Err(NullPointer);
      }
      var key := t.value;
      if key in cache {
        return Ok(cache[key]);
      }
      var value := fn(key);
      calls := calls + [key];
      if value.None? {
        return Err(NullPointer);
      }
      cache := cache[key := value.value];
      return Ok(value.value);
    }
  }
}
