/** `InetUtil.match`: among a set of addresses, the one sharing the longest
    common prefix with any of a list of patterns. The set is given as a
    sequence in its iteration order. */
module InetUtil {
  import opened Machine
  import opened Outcomes

  /** The number of leading characters two strings share. */
  function CommonPrefix(a: string, b: string): (n: nat)
    ensures n <= |a| && n <= |b|
    ensures forall k :: 0 <= k < n ==> a[k] == b[k]
    ensures n < |a| && n < |b| ==> a[n] != b[n]
  {
    if |a| == 0 || |b| == 0 || a[0] != b[0] then 0 else 1 + CommonPrefix(a[1..], b[1..])
  }

  /** The common prefix is the only length with those properties. */
  lemma CommonPrefixUnique(a: string, b: string, n: nat)
    requires n <= Min(|a|, |b|) && forall k :: 0 <= k < n ==> a[k] == b[k]
    requires n == Min(|a|, |b|) || a[n] != b[n]
    ensures CommonPrefix(a, b) == n
  {
  }

  /** One (address, pattern) pair the loops consider. */
  datatype Candidate = Candidate(ip: string, like: string)

  /** The loops' state: the best length so far and the address holding it. */
  datatype Search = Search(high: nat, ip: Option<string>)

  function Score(c: Candidate): nat {
    CommonPrefix(c.ip, c.like)
  }

  /** The inner loop's candidates: every address against one pattern. */
  function Row(like: string, ips: seq<string>): (r: seq<Candidate>)
    ensures |r| == |ips| && forall i :: 0 <= i < |ips| ==> r[i] == Candidate(ips[i], like)
  {
    seq(|ips|, i requires 0 <= i < |ips| => Candidate(ips[i], like))
  }

  /** All candidates in loop order: patterns outside, addresses inside. */
  function Pairs(likes: seq<string>, ips: seq<string>): seq<Candidate> {
    if |likes| == 0 then [] else Pairs(likes[..|likes| - 1], ips) + Row(likes[|likes| - 1], ips)
  }

  /** Every candidate in `Pairs` pairs an element of `ips` with one of `likes`. */
  lemma {:induction false} PairsFrom(likes: seq<string>, ips: seq<string>)
    ensures forall k :: 0 <= k < |Pairs(likes, ips)| ==> Pairs(likes, ips)[k].ip in ips && Pairs(likes, ips)[k].like in likes
    decreases |likes|
  {
    if |likes| > 0 {
      var init := likes[..|likes| - 1];
      PairsFrom(init, ips);
      var p: seq<Candidate>, row: seq<Candidate> := Pairs(init, ips), Row(likes[|likes| - 1], ips);
      forall k | 0 <= k < |p + row|
        ensures (p + row)[k].ip in ips && (p + row)[k].like in likes
      {
        if k < |p| {
          assert (p + row)[k] == p[k];
          assert p[k].like in init;
        } else {
          assert (p + row)[k] == row[k - |p|];
        }
      }
    }
  }

  /** One candidate: adopted only when strictly longer than the best. */
  function Step(st: Search, c: Candidate): Search {
    if Score(c) > st.high then Search(Score(c), Some(c.ip)) else st
  }

  /** The reference search over candidates, without the loops' shortcuts. */
  function Run(st: Search, cs: seq<Candidate>): Search {
    if |cs| == 0 then st else Step(Run(st, cs[..|cs| - 1]), cs[|cs| - 1])
  }

  /** The best only grows and bounds every candidate. */
  lemma {:induction false} RunBound(st: Search, cs: seq<Candidate>)
    ensures Run(st, cs).high >= st.high
    ensures forall k :: 0 <= k < |cs| ==> Score(cs[k]) <= Run(st, cs).high
    decreases |cs|
  {
    if |cs| > 0 {
      RunBound(st, cs[..|cs| - 1]);
    }
  }

  /** The best is the start, or the first candidate reaching it. */
  lemma {:induction false} RunWitness(st: Search, cs: seq<Candidate>)
    ensures Run(st, cs) == st || (Run(st, cs).high > st.high && exists k :: 0 <= k < |cs| && FirstReaching(cs, k, Run(st, cs)))
    decreases |cs|
  {
    if |cs| > 0 {
      var init := cs[..|cs| - 1];
      RunWitness(st, init);
      RunBound(st, init);
      var m := Run(st, init);
      var r := Run(st, cs);
      if r != m {
        assert FirstReaching(cs, |cs| - 1, r);
      } else if m != st {
        var k :| 0 <= k < |init| && FirstReaching(init, k, m);
        assert FirstReaching(cs, k, r);
      }
    }
  }

  /** Candidate `k` holds the result's address and length, and every earlier
      one is shorter. */
  predicate FirstReaching(cs: seq<Candidate>, k: nat, r: Search) {
    && k < |cs| && Score(cs[k]) == r.high && r.ip == Some(cs[k].ip)
    && forall j :: 0 <= j < k ==> Score(cs[j]) < r.high
  }

  lemma RunSnoc(st: Search, cs: seq<Candidate>, c: Candidate)
    ensures Run(st, cs + [c]) == Step(Run(st, cs), c)
  {
    assert (cs + [c])[..|cs|] == cs;
  }

  lemma {:induction false} RunAppend(st: Search, p: seq<Candidate>, q: seq<Candidate>)
    ensures Run(st, p + q) == Run(Run(st, p), q)
    decreases |q|
  {
    if |q| == 0 {
      assert p + q == p;
    } else {
      assert (p + q)[..|p + q| - 1] == p + q[..|q| - 1];
      RunAppend(st, p, q[..|q| - 1]);
    }
  }

  /** A candidate that cannot beat the best changes nothing. */
  lemma {:induction false} RunUnchanged(st: Search, cs: seq<Candidate>)
    requires forall k :: 0 <= k < |cs| ==> Score(cs[k]) <= st.high
    ensures Run(st, cs) == st
    decreases |cs|
  {
    if |cs| > 0 {
      RunUnchanged(st, cs[..|cs| - 1]);
    }
  }

  /** The result `match` is specified by. */
  function Best(likes: seq<string>, ips: seq<string>): Search {
    Run(Search(0, None), Pairs(likes, ips))
  }

  /** The inner prefix loop: `s` counts up while the characters agree. */
  method PrefixLength(a: string, like: string) returns (s: nat)
    ensures s == CommonPrefix(a, like)
  {
    var l := Min(|a|, |like|);
    s := 0;
    while s < l
      invariant 0 <= s <= l
      invariant forall k :: 0 <= k < s ==> a[k] == like[k]
    {
      if a[s] != like[s] {
        break;
      }
      s := s + 1;
    }
    CommonPrefixUnique(a, like, s);
  }

  /** The loop over addresses for one pattern, skipping an address whose
      shorter length cannot beat the best. */
  method MatchRow(ips: seq<string>, like: string, high0: nat, ip0: Option<string>) returns (high: nat, ip: Option<string>)
    ensures Search(high, ip) == Run(Search(high0, ip0), Row(like, ips))
  {
    high, ip := high0, ip0;
    var max := |like|;
    var i := 0;
    while i < |ips|
      invariant 0 <= i <= |ips|
      invariant Search(high, ip) == Run(Search(high0, ip0), Row(like, ips[..i]))
    {
      var a := ips[i];
      RowSnoc(like, ips, i);
      RunSnoc(Search(high0, ip0), Row(like, ips[..i]), Candidate(a, like));
      high, ip := MatchOne(a, like, max, high, ip);
      i := i + 1;
    }
    assert ips[..i] == ips;
  }

  lemma RowSnoc(like: string, ips: seq<string>, i: nat)
    requires i < |ips|
    ensures Row(like, ips[..i + 1]) == Row(like, ips[..i]) + [Candidate(ips[i], like)]
  {
  }

  /** The body of the loop over addresses: an address no longer than the
      best is skipped; otherwise a strictly longer prefix replaces the best. */
  method MatchOne(a: string, like: string, max: nat, high0: nat, ip0: Option<string>) returns (high: nat, ip: Option<string>)
    requires max == |like|
    ensures Search(high, ip) == Step(Search(high0, ip0), Candidate(a, like))
  {
    high, ip := high0, ip0;
    var l := Min(|a|, max);
    if l > high {
      var s := PrefixLength(a, like);
      if s > high {
        high := s;
        ip := Some(a);
      }
    }
  }

  /** `match`: the loop over patterns, skipping a pattern shorter than the
      best length found. */
  method Match(ips: seq<string>, likes: seq<string>) returns (ip: Option<string>)
    ensures ip == Best(likes, ips).ip
  {
    ip := None;
    var high: nat := 0;
    var i := 0;
    while i < |likes|
      invariant 0 <= i <= |likes|
      invariant Search(high, ip) == Best(likes[..i], ips)
    {
      var like := likes[i];
      assert likes[..i + 1][..i] == likes[..i];
      RunAppend(Search(0, None), Pairs(likes[..i], ips), Row(like, ips));
      var max := |like|;
      if max < high {
        RunUnchanged(Search(high, ip), Row(like, ips));
      } else {
        high, ip := MatchRow(ips, like, high, ip);
      }
      i := i + 1;
    }
    assert likes[..i] == likes;
  }

  /** A non-`null` result of `match` is an address of `ips`. */
  lemma BestIsAddress(likes: seq<string>, ips: seq<string>)
    ensures Best(likes, ips).ip.Some? ==> Best(likes, ips).ip.value in ips
  {
    var ps := Pairs(likes, ips);
    var r := Best(likes, ips);
    RunWitness(Search(0, None), ps);
    if r.ip.Some? {
      var k :| 0 <= k < |ps| && FirstReaching(ps, k, r);
      PairsFrom(likes, ips);
      assert ps[k].ip in ips;
    }
  }

  /** `match` returns `null` exactly when no address shares even its first
      character with any pattern. */
  lemma {:induction false} BestNullIffNoPrefix(likes: seq<string>, ips: seq<string>)
    ensures Best(likes, ips).ip.None? <==> Best(likes, ips).high == 0
    ensures Best(likes, ips).ip.None? <==> forall k :: 0 <= k < |Pairs(likes, ips)| ==> Score(Pairs(likes, ips)[k]) == 0
  {
    var ps := Pairs(likes, ips);
    RunBound(Search(0, None), ps);
    if Best(likes, ips).ip.Some? {
      var k := BestWitness(ps);
      assert exists j :: 0 <= j < |Pairs(likes, ips)| && Score(Pairs(likes, ips)[j]) != 0 by {
        assert k < |Pairs(likes, ips)| && Score(Pairs(likes, ips)[k]) != 0;
      }
    } else {
      RunWitness(Search(0, None), ps);
    }
  }

  /** A found address is reached by a candidate with a positive score. */
  lemma BestWitness(ps: seq<Candidate>) returns (k: nat)
    requires Run(Search(0, None), ps).ip.Some?
    ensures k < |ps| && Score(ps[k]) == Run(Search(0, None), ps).high > 0
  {
    RunWitness(Search(0, None), ps);
    k :| 0 <= k < |ps| && FirstReaching(ps, k, Run(Search(0, None), ps));
  }

  /** With no patterns or no addresses, `match` returns `null`. */
  lemma BestOfEmpty(likes: seq<string>, ips: seq<string>)
    requires |likes| == 0 || |ips| == 0
    ensures Best(likes, ips).ip.None?
  {
    EmptyPairs(likes, ips);
  }

  lemma {:induction false} EmptyPairs(likes: seq<string>, ips: seq<string>)
    requires |likes| == 0 || |ips| == 0
    ensures Pairs(likes, ips) == []
    decreases |likes|
  {
    if |likes| > 0 {
      EmptyPairs(likes[..|likes| - 1], ips);
    }
  }

  /** A returned address is a longest match: it shares `high` characters with
      some pattern, no pair shares more, and no earlier pair shares as many. */
  lemma BestIsFirstLongest(likes: seq<string>, ips: seq<string>)
    requires Best(likes, ips).ip.Some?
    ensures var r := Best(likes, ips); var ps := Pairs(likes, ips);
      && r.high >= 1
      && (forall k :: 0 <= k < |ps| ==> Score(ps[k]) <= r.high)
      && exists k :: 0 <= k < |ps| && FirstReaching(ps, k, r) && ps[k].like in likes
  {
    var ps := Pairs(likes, ips);
    RunBound(Search(0, None), ps);
    RunWitness(Search(0, None), ps);
    var k :| 0 <= k < |ps| && FirstReaching(ps, k, Best(likes, ips));
    PairsFrom(likes, ips);
    assert ps[k].like in likes;
  }
}
