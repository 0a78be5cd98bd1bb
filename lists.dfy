/** `Lists.fromTo`: the list of consecutive `int`s from `from` to `to`. */
module Lists {
  import opened Machine

  /** `fromTo`: appends `first, first + 1, ..., last` in a counting loop; empty
      when `first > last`. With `last == Integer.MAX_VALUE` the Java loop never
      ends (`i <= last` stays true while `i` wraps), so that case is excluded. */
  method FromTo(first: int32, last: int32) returns (result: seq<int32>)
    requires last < INT_MAX
    ensures first > last ==> result == []
    ensures first <= last ==> |result| == last - first + 1 && result[0] == first && result[|result| - 1] == last
    ensures forall k :: 0 <= k < |result| ==> result[k] == first + k
    ensures forall j, k :: 0 <= j < k < |result| ==> result[j] < result[k]
  {
    result := [];
    var i := first;
    while i <= last
      invariant first <= i <= last + 1 || (first > last && i == first)
      invariant |result| == (if first <= last then i - first else 0)
      invariant forall k :: 0 <= k < |result| ==> (result[k] == first + k)
      decreases last - i
    {
      result := result + [i];
      i := i + 1;
    }
  }
}
