/** Value-level specifications of the timer wheel's flat slot array: how many
    slots are occupied, the layout after capacity growth, the slot scan that
    `poll` performs and the entries `forEach` reports. The class in
    `DeadlineTimer` is proved against these functions. */
module TimerSlots {
  import opened Machine
  import opened Outcomes
  import opened TimerIds

  /** An empty slot (`Long.MAX_VALUE`). */
  const NULL_DEADLINE: int := LONG_MAX

  /** The most slots the wheel may grow to (`1 << 30`). */
  const MAX_SLOTS: int := 0x4000_0000

  /** Number of occupied (non-`NULL_DEADLINE`) slots. */
  function Live(s: seq<int>): (n: nat)
    ensures n <= |s|
  {
    if s == [] then 0 else (if s[0] != NULL_DEADLINE then 1 else 0) + Live(s[1..])
  }

  function Nulls(n: nat): (s: seq<int>)
    ensures |s| == n && forall k :: 0 <= k < n ==> s[k] == NULL_DEADLINE
  {
    seq(n, _ => NULL_DEADLINE)
  }

  lemma {:induction false} LiveAppend(a: seq<int>, b: seq<int>)
    ensures Live(a + b) == Live(a) + Live(b)
  {
    if a != [] {
      assert (a + b)[0] == a[0];
      assert (a + b)[1..] == a[1..] + b;
      LiveAppend(a[1..], b);
    } else {
      assert a + b == b;
    }
  }

  /** No slot is occupied exactly when the count is zero. */
  lemma {:induction false} LiveZero(s: seq<int>)
    ensures Live(s) == 0 <==> forall k :: 0 <= k < |s| ==> s[k] == NULL_DEADLINE
  {
    if s != [] {
      LiveZero(s[1..]);
      assert forall k :: 1 <= k < |s| ==> s[k] == s[1..][k - 1];
    }
  }

  /** Writing one slot changes the count by what was there and what is written. */
  lemma LiveUpdate(s: seq<int>, i: nat, v: int)
    requires i < |s|
    ensures Live(s[i := v]) ==
            Live(s) - (if s[i] != NULL_DEADLINE then 1 else 0) + (if v != NULL_DEADLINE then 1 else 0)
  {
    assert s == s[..i] + ([s[i]] + s[i + 1..]);
    assert s[i := v] == s[..i] + ([v] + s[i + 1..]);
    LiveAppend(s[..i], [s[i]] + s[i + 1..]);
    LiveAppend(s[..i], [v] + s[i + 1..]);
    LiveAppend([s[i]], s[i + 1..]);
    LiveAppend([v], s[i + 1..]);
  }

  /** Index of the first empty slot in `s[from..from+len]`, relative to `from`;
      `len` when the range is full. */
  function FirstEmpty(s: seq<int>, from: nat, len: nat): (k: nat)
    requires from + len <= |s|
    ensures k <= len
    ensures k < len ==> s[from + k] == NULL_DEADLINE
    ensures forall x :: from <= x < from + k ==> s[x] != NULL_DEADLINE
    decreases len
  {
    if len == 0 then 0
    else if s[from] == NULL_DEADLINE then 0
    else 1 + FirstEmpty(s, from + 1, len - 1)
  }

  /** The slot array after every spoke of `a` slots has been widened to `2a`:
      spoke `q`'s old slots keep their relative index and the new upper half
      of each spoke is empty. `n` is the number of spokes. */
  function Grown(s: seq<int>, a: nat, n: nat): (g: seq<int>)
    requires |s| == n * a
    ensures |g| == n * (2 * a)
    decreases n
  {
    if n == 0 then []
    else
      assert |s[..(n - 1) * a]| == (n - 1) * a;
      Grown(s[..(n - 1) * a], a, n - 1) + s[(n - 1) * a..] + Nulls(a)
  }

  lemma {:induction false} MulMono(x: nat, y: nat, c: nat)
    requires x <= y
    ensures x * c <= y * c
  {
    if x < y {
      MulMono(x, y - 1, c);
      assert y * c == (y - 1) * c + c;
    }
  }

  lemma MulBound(q: nat, m: nat, c: nat, k: nat)
    requires q < m && k < c
    ensures q * c + k < m * c
  {
    MulMono(q + 1, m, c);
    assert (q + 1) * c == q * c + c;
  }

  /** Slot `k` of spoke `q` after growth: the old slot `k` for `k < a`, and
      empty for the new upper half. */
  lemma {:induction false} GrownAt(s: seq<int>, a: nat, n: nat, q: nat, k: nat)
    requires |s| == n * a && q < n && k < 2 * a
    ensures q * (2 * a) + k < n * (2 * a)
    ensures k < a ==> q * a + k < |s|
    ensures Grown(s, a, n)[q * (2 * a) + k] == if k < a then s[q * a + k] else NULL_DEADLINE
  {
    assert q * (2 * a) + k < n * (2 * a) by {
      MulBound(q, n, 2 * a, k);
    }
    assert (q + 1) * a <= |s| by {
      MulMono(q + 1, n, a);
    }
    GrownPrefix(s, a, n, q + 1);
    GrownStep(s, a, q);
    MulSucc(q, 2 * a);
    var g := Grown(s[..q * a], a, q);
    var t := s[q * a..q * a + a];
    assert Grown(s, a, n)[..(q + 1) * (2 * a)] == g + (t + Nulls(a));
    ConcatAt(g, t + Nulls(a), k);
  }

  /** The first `m` widened spokes are the widening of the first `m` spokes. */
  lemma {:induction false} GrownPrefix(s: seq<int>, a: nat, n: nat, m: nat)
    requires |s| == n * a && m <= n
    ensures m * a <= |s| && m * (2 * a) <= n * (2 * a)
    ensures Grown(s, a, n)[..m * (2 * a)] == Grown(s[..m * a], a, m)
    decreases n
  {
    MulMono(m, n, a);
    MulMono(m, n, 2 * a);
    if m < n {
      MulSucc(n - 1, a);
      var p := s[..(n - 1) * a];
      var g := Grown(p, a, n - 1);
      GrownPrefix(p, a, n - 1, m);
      assert p[..m * a] == s[..m * a];
      assert Grown(s, a, n) == g + (s[(n - 1) * a..] + Nulls(a));
      assert m * (2 * a) <= |g| by {
        MulMono(m, n - 1, 2 * a);
      }
    } else {
      assert s[..n * a] == s;
    }
  }

  lemma ConcatAt(u: seq<int>, v: seq<int>, k: nat)
    requires k < |v|
    ensures (u + v)[|u| + k] == v[k]
  {
  }

  lemma {:induction false} GrownLive(s: seq<int>, a: nat, n: nat)
    requires |s| == n * a
    ensures Live(Grown(s, a, n)) == Live(s)
  {
    if n > 0 {
      var p := s[..(n - 1) * a];
      assert |p| == (n - 1) * a;
      assert s == p + s[(n - 1) * a..];
      GrownLive(p, a, n - 1);
      LiveAppend(Grown(p, a, n - 1), s[(n - 1) * a..]);
      LiveAppend(Grown(p, a, n - 1) + s[(n - 1) * a..], Nulls(a));
      LiveAppend(p, s[(n - 1) * a..]);
      LiveZero(Nulls(a));
    }
  }

  /** The result of scanning one spoke: the slots afterwards, where the scan
      stopped, how many expiries were accepted, and whether it stopped because
      the handler declined one. */
  datatype ScanResult = ScanResult(slots: seq<int>, pollIndex: nat, expired: nat, declined: bool)

  /** The poll cursor's successor, wrapping to 0 at the spoke's allocation. */
  function NextIndex(p: nat, len: nat): (q: nat)
    requires p < len
    ensures q < len
  {
    if p + 1 >= len then 0 else p + 1
  }

  /** A slot's timer has expired at `now`: the slot is occupied and its
      deadline has passed. */
  predicate Expired(deadline: int, now: int) {
    deadline != NULL_DEADLINE && now >= deadline
  }

  /** The scan `poll` makes over spoke `spoke`, whose slots are
      `w[base..base+len]`: starting at slot `p`, for at most `steps` slots and
      while fewer than `limit` expiries have been accepted. An expired slot
      slot is offered to `accept` with its handle; an accepted
      one is cleared, a declined one is left in place and stops the scan. */
  function Scan(w: seq<int>, base: nat, len: nat, spoke: int32, p: nat, steps: nat,
                now: int, limit: int, accept: int64 -> bool, expired: nat): (r: ScanResult)
    requires p < len < 0x8000_0000 && base + len <= |w|
    ensures |r.slots| == |w| && r.pollIndex < len
    decreases steps
  {
    if steps == 0 || limit <= expired then ScanResult(w, p, expired, false)
    else if Expired(w[base + p], now) then
      if accept(TimerIdForSlot(spoke, p)) then
        Scan(w[base + p := NULL_DEADLINE], base, len, spoke, NextIndex(p, len), steps - 1,
             now, limit, accept, expired + 1)
      else ScanResult(w, p, expired, true)
    else Scan(w, base, len, spoke, NextIndex(p, len), steps - 1, now, limit, accept, expired)
  }

  /** The scan `poll` makes of spoke `spoke` of an array of `tpw` spokes of `a`
      slots, from cursor `p`, over at most one full turn of the spoke. */
  function SpokeScan(w: seq<int>, tpw: int32, a: int32, spoke: int32, p: nat, now: int, limit: int,
                     accept: int64 -> bool): (r: ScanResult)
    requires 0 < tpw && 0 < a && |w| == tpw * a < 0x8000_0000 && 0 <= spoke < tpw && p < a
    ensures spoke * a + a <= |w|
  {
    SpokeInside(tpw, a, spoke);
    Scan(w, spoke * a, a, spoke, p, a, now, limit, accept, 0)
  }

  /** A scan accepts at least as many expiries as it started with and never
      more than the limit. */
  lemma {:induction false} ScanBounds(w: seq<int>, base: nat, len: nat, spoke: int32, p: nat,
                                      steps: nat, now: int, limit: int, accept: int64 -> bool,
                                      expired: nat)
    requires p < len < 0x8000_0000 && base + len <= |w|
    ensures var r := Scan(w, base, len, spoke, p, steps, now, limit, accept, expired);
      expired <= r.expired <= Max(expired, limit)
    decreases steps
  {
    if steps == 0 || limit <= expired {
    } else if Expired(w[base + p], now) {
      if accept(TimerIdForSlot(spoke, p)) {
        ScanBounds(w[base + p := NULL_DEADLINE], base, len, spoke, NextIndex(p, len), steps - 1,
                   now, limit, accept, expired + 1);
      }
    } else {
      ScanBounds(w, base, len, spoke, NextIndex(p, len), steps - 1, now, limit, accept, expired);
    }
  }

  /** A scan changes only slots of the scanned spoke, and only by clearing a
      slot whose deadline had passed and whose handle the handler accepted. */
  lemma {:induction false} ScanFrame(w: seq<int>, base: nat, len: nat, spoke: int32, p: nat,
                                     steps: nat, now: int, limit: int, accept: int64 -> bool,
                                     expired: nat)
    requires p < len < 0x8000_0000 && base + len <= |w|
    ensures var r := Scan(w, base, len, spoke, p, steps, now, limit, accept, expired);
      forall k :: 0 <= k < |w| ==>
        r.slots[k] == w[k] ||
        (base <= k < base + len && r.slots[k] == NULL_DEADLINE && Expired(w[k], now) &&
         accept(TimerIdForSlot(spoke, k - base)))
    decreases steps
  {
    if steps == 0 || limit <= expired {
    } else if Expired(w[base + p], now) {
      if accept(TimerIdForSlot(spoke, p)) {
        ScanFrame(w[base + p := NULL_DEADLINE], base, len, spoke, NextIndex(p, len), steps - 1,
                  now, limit, accept, expired + 1);
      }
    } else {
      ScanFrame(w, base, len, spoke, NextIndex(p, len), steps - 1, now, limit, accept, expired);
    }
  }

  /** The occupied count drops by exactly the number of accepted expiries. */
  lemma {:induction false} ScanLive(w: seq<int>, base: nat, len: nat, spoke: int32, p: nat,
                                    steps: nat, now: int, limit: int, accept: int64 -> bool,
                                    expired: nat)
    requires p < len < 0x8000_0000 && base + len <= |w|
    ensures var r := Scan(w, base, len, spoke, p, steps, now, limit, accept, expired);
      expired <= r.expired && Live(r.slots) + (r.expired - expired) == Live(w)
    decreases steps
  {
    if steps == 0 || limit <= expired {
    } else if Expired(w[base + p], now) {
      if accept(TimerIdForSlot(spoke, p)) {
        LiveUpdate(w, base + p, NULL_DEADLINE);
        ScanLive(w[base + p := NULL_DEADLINE], base, len, spoke, NextIndex(p, len), steps - 1,
                 now, limit, accept, expired + 1);
      }
    } else {
      ScanLive(w, base, len, spoke, NextIndex(p, len), steps - 1, now, limit, accept, expired);
    }
  }

  /** When a scan stops on a declined expiry, the cursor points at that slot,
      which still holds its (passed) deadline. */
  lemma {:induction false} ScanDeclined(w: seq<int>, base: nat, len: nat, spoke: int32, p: nat,
                                        steps: nat, now: int, limit: int, accept: int64 -> bool,
                                        expired: nat)
    requires p < len < 0x8000_0000 && base + len <= |w|
    ensures var r := Scan(w, base, len, spoke, p, steps, now, limit, accept, expired);
      r.declined ==>
        && r.slots[base + r.pollIndex] == w[base + r.pollIndex]
        && Expired(w[base + r.pollIndex], now)
        && !accept(TimerIdForSlot(spoke, r.pollIndex))
    decreases steps
  {
    if steps == 0 || limit <= expired {
    } else if Expired(w[base + p], now) {
      if accept(TimerIdForSlot(spoke, p)) {
        var w' := w[base + p := NULL_DEADLINE];
        ScanDeclined(w', base, len, spoke, NextIndex(p, len), steps - 1, now, limit, accept, expired + 1);
        ScanFrame(w', base, len, spoke, NextIndex(p, len), steps - 1, now, limit, accept, expired + 1);
      }
    } else {
      ScanDeclined(w, base, len, spoke, NextIndex(p, len), steps - 1, now, limit, accept, expired);
    }
  }

  /** The scan exactly as `poll` writes it: a slot counts as expired when
      `now >= deadline`, so at `now == NULL_DEADLINE` an empty slot expires too. */
  function ScanAsWritten(w: seq<int>, base: nat, len: nat, spoke: int32, p: nat, steps: nat,
                         now: int, limit: int, accept: int64 -> bool, expired: nat): (r: ScanResult)
    requires p < len < 0x8000_0000 && base + len <= |w|
    ensures |r.slots| == |w| && r.pollIndex < len
    decreases steps
  {
    if steps == 0 || limit <= expired then ScanResult(w, p, expired, false)
    else if now >= w[base + p] then
      if accept(TimerIdForSlot(spoke, p)) then
        ScanAsWritten(w[base + p := NULL_DEADLINE], base, len, spoke, NextIndex(p, len), steps - 1,
                      now, limit, accept, expired + 1)
      else ScanResult(w, p, expired, true)
    else ScanAsWritten(w, base, len, spoke, NextIndex(p, len), steps - 1, now, limit, accept, expired)
  }

  /** Below `NULL_DEADLINE` the two tests agree, so the corrected scan differs
      from the written one only at `now == Long.MAX_VALUE`. */
  lemma {:induction false} ScanAsWrittenAgrees(w: seq<int>, base: nat, len: nat, spoke: int32,
                                               p: nat, steps: nat, now: int, limit: int,
                                               accept: int64 -> bool, expired: nat)
    requires p < len < 0x8000_0000 && base + len <= |w|
    requires now < NULL_DEADLINE
    ensures ScanAsWritten(w, base, len, spoke, p, steps, now, limit, accept, expired) ==
            Scan(w, base, len, spoke, p, steps, now, limit, accept, expired)
    decreases steps
  {
    if steps == 0 || limit <= expired {
    } else if now >= w[base + p] {
      if accept(TimerIdForSlot(spoke, p)) {
        ScanAsWrittenAgrees(w[base + p := NULL_DEADLINE], base, len, spoke, NextIndex(p, len),
                            steps - 1, now, limit, accept, expired + 1);
      }
    } else {
      ScanAsWrittenAgrees(w, base, len, spoke, NextIndex(p, len), steps - 1, now, limit, accept,
                          expired);
    }
  }

  /** A step of the written scan past a slot whose deadline is after `now`. */
  lemma ScanSkip(w: seq<int>, base: nat, len: nat, spoke: int32, p: nat, steps: nat,
                 now: int, limit: int, accept: int64 -> bool, expired: nat)
    requires p < len < 0x8000_0000 && base + len <= |w| && steps > 0 && limit > expired
    requires now < w[base + p]
    ensures ScanAsWritten(w, base, len, spoke, p, steps, now, limit, accept, expired) ==
            ScanAsWritten(w, base, len, spoke, NextIndex(p, len), steps - 1, now, limit, accept, expired)
  {
  }

  /** A step of the written scan that clears a slot due at `now` whose handle
      the handler accepts. */
  lemma ScanAccept(w: seq<int>, base: nat, len: nat, spoke: int32, p: nat, steps: nat,
                   now: int, limit: int, accept: int64 -> bool, expired: nat)
    requires p < len < 0x8000_0000 && base + len <= |w| && steps > 0 && limit > expired
    requires now >= w[base + p] && accept(TimerIdForSlot(spoke, p))
    ensures ScanAsWritten(w, base, len, spoke, p, steps, now, limit, accept, expired) ==
            ScanAsWritten(w[base + p := NULL_DEADLINE], base, len, spoke, NextIndex(p, len), steps - 1, now,
                          limit, accept, expired + 1)
  {
  }

  /** The written scan stops at a slot due at `now` that the handler declines. */
  lemma ScanDecline(w: seq<int>, base: nat, len: nat, spoke: int32, p: nat, steps: nat,
                    now: int, limit: int, accept: int64 -> bool, expired: nat)
    requires p < len < 0x8000_0000 && base + len <= |w| && steps > 0 && limit > expired
    requires now >= w[base + p] && !accept(TimerIdForSlot(spoke, p))
    ensures ScanAsWritten(w, base, len, spoke, p, steps, now, limit, accept, expired) ==
            ScanResult(w, p, expired, true)
  {
  }

  /** The written scan, too, expires at least the starting count and never
      more than the limit. */
  lemma {:induction false} ScanAsWrittenBounds(w: seq<int>, base: nat, len: nat, spoke: int32, p: nat,
                                               steps: nat, now: int, limit: int, accept: int64 -> bool,
                                               expired: nat)
    requires p < len < 0x8000_0000 && base + len <= |w|
    ensures var r := ScanAsWritten(w, base, len, spoke, p, steps, now, limit, accept, expired);
      expired <= r.expired <= Max(expired, limit)
    decreases steps
  {
    if steps == 0 || limit <= expired {
    } else if now >= w[base + p] {
      if accept(TimerIdForSlot(spoke, p)) {
        ScanAsWrittenBounds(w[base + p := NULL_DEADLINE], base, len, spoke, NextIndex(p, len), steps - 1,
                            now, limit, accept, expired + 1);
      }
    } else {
      ScanAsWrittenBounds(w, base, len, spoke, NextIndex(p, len), steps - 1, now, limit, accept, expired);
    }
  }

  /** The scan `poll` makes of spoke `spoke` exactly as written; below
      `Long.MAX_VALUE` it is the corrected `SpokeScan`. */
  function SpokeScanAsWritten(w: seq<int>, tpw: int32, a: int32, spoke: int32, p: nat, now: int, limit: int,
                              accept: int64 -> bool): (r: ScanResult)
    requires 0 < tpw && 0 < a && |w| == tpw * a < 0x8000_0000 && 0 <= spoke < tpw && p < a
    ensures spoke * a + a <= |w|
    ensures now < NULL_DEADLINE ==> r == SpokeScan(w, tpw, a, spoke, p, now, limit, accept)
    ensures 0 <= r.expired <= Max(0, limit)
  {
    SpokeInside(tpw, a, spoke);
    ScanAsWrittenBounds(w, spoke * a, a, spoke, p, a, now, limit, accept, 0);
    if now < NULL_DEADLINE then
      ScanAsWrittenAgrees(w, spoke * a, a, spoke, p, a, now, limit, accept, 0);
      ScanAsWritten(w, spoke * a, a, spoke, p, a, now, limit, accept, 0)
    else
      ScanAsWritten(w, spoke * a, a, spoke, p, a, now, limit, accept, 0)
  }

  /** Polling an empty one-slot spoke at `now == Long.MAX_VALUE` as written
      reports one expiry, although no slot was occupied: the timer count would
      drop below the number of occupied slots. */
  lemma ScanAsWrittenExpiresEmptySlot()
    ensures var w := [NULL_DEADLINE];
      var r := ScanAsWritten(w, 0, 1, 0, 0, 1, NULL_DEADLINE, 1, _ => true, 0);
      Live(w) == 0 && r.expired == 1 && Live(r.slots) + r.expired != Live(w)
  {
    var w := [NULL_DEADLINE];
    var r := ScanAsWritten(w, 0, 1, 0, 0, 1, NULL_DEADLINE, 1, _ => true, 0);
    assert r == ScanAsWritten(w, 0, 1, 0, 0, 0, NULL_DEADLINE, 1, _ => true, 1);
    assert Live(w) == 0 && Live(r.slots) == 0;
  }

  /** Where a handle points in the slot array, in the wheel's lookup arithmetic:
      `(spoke << allocationBitsToShift) + index` in 32-bit arithmetic, provided
      the spoke is below `tpw` and the index below `alloc` (either may be
      negative); `None` when the handle is rejected. */
  function Locate(tpw: int32, alloc: int32, id: int64): (ix: Option<int32>)
    ensures ix.Some? <==> TickForTimerId(id) < tpw && IndexInTickArray(id) < alloc
  {
    var spoke := TickForTimerId(id);
    var index := IndexInTickArray(id);
    if spoke < tpw && index < alloc then Some(Wrap32(Wrap32(spoke * alloc) + index)) else None
  }

  /** `deadline(timerId)` on slot array `w`: `NULL_DEADLINE` for a rejected
      handle, the slot's content when the position is inside the array, and an
      array-index error otherwise. */
  function Lookup(w: seq<int>, tpw: int32, alloc: int32, id: int64): (r: Result<int>)
    ensures r.Err? <==> (Locate(tpw, alloc, id).Some? && !(0 <= Locate(tpw, alloc, id).value < |w|))
    ensures r.Err? ==> r.error == ArrayIndexOutOfBounds
  {
    match Locate(tpw, alloc, id)
    case None => Ok(NULL_DEADLINE)
    case Some(ix) => if 0 <= ix < |w| then Ok(w[ix]) else Err(ArrayIndexOutOfBounds)
  }

  /** A handle whose decoded spoke and slot are non-negative and in range
      points at flat slot `spoke*alloc + slot`, which is inside the array. */
  lemma LocateInRange(tpw: int32, alloc: int32, id: int64)
    ensures var t, k := TickForTimerId(id), IndexInTickArray(id);
      0 < tpw && 0 < alloc && tpw * alloc < 0x8000_0000 && 0 <= t < tpw && 0 <= k < alloc ==>
        0 <= t * alloc + k < tpw * alloc && Locate(tpw, alloc, id) == Some(t * alloc + k)
  {
    var t, k := TickForTimerId(id), IndexInTickArray(id);
    if 0 < tpw && 0 < alloc && tpw * alloc < 0x8000_0000 && 0 <= t < tpw && 0 <= k < alloc {
      MulBound(t, tpw, alloc, k);
      MulMono(0, t, alloc);
    }
  }

  /** A handle the wheel issues (spoke `t < tpw`, slot `k < alloc`) points at
      flat slot `t*alloc + k`, which is inside the array. */
  lemma LocateIssued(tpw: int32, alloc: int32, t: int32, k: int32)
    requires 0 < tpw && 0 < alloc && tpw * alloc < 0x8000_0000
    requires 0 <= t < tpw && 0 <= k < alloc
    ensures 0 <= t * alloc + k < tpw * alloc
    ensures Locate(tpw, alloc, TimerIdForSlot(t, k)) == Some(t * alloc + k)
  {
    RoundTrip(t, k);
    MulBound(t, tpw, alloc, k);
    MulMono(0, t, alloc);
  }

  lemma LookupIssued(w: seq<int>, tpw: int32, alloc: int32, t: int32, k: int32)
    requires 0 < tpw && 0 < alloc && |w| == tpw * alloc < 0x8000_0000
    requires 0 <= t < tpw && 0 <= k < alloc
    ensures 0 <= t * alloc + k < |w|
    ensures Lookup(w, tpw, alloc, TimerIdForSlot(t, k)) == Ok(w[t * alloc + k])
  {
    LocateIssued(tpw, alloc, t, k);
  }

  /** Growing the slot array keeps every issued handle pointing at its timer:
      a handle `(t, k)` with `k` below the old allocation looks up the same
      value before and after the spokes are widened. */
  lemma GrowthKeepsHandles(w: seq<int>, a: int32, n: int32, t: int32, k: int32)
    requires 0 < n && 0 < a && |w| == n * a && n * (2 * a) <= 0x4000_0000
    requires 0 <= t < n && 0 <= k < a
    ensures Lookup(Grown(w, a, n), n, 2 * a, TimerIdForSlot(t, k)) ==
            Lookup(w, n, a, TimerIdForSlot(t, k))
  {
    var g := Grown(w, a, n);
    var id := TimerIdForSlot(t, k);
    assert 2 * a <= n * (2 * a) by {
      MulMono(1, n, 2 * a);
    }
    assert n * a <= n * (2 * a) by {
      MulDouble(n, a);
    }
    var x, y := t * a + k, t * (2 * a) + k;
    assert Lookup(w, n, a, id) == Ok(w[x]) by {
      LookupIssued(w, n, a, t, k);
    }
    assert Lookup(g, n, 2 * a, id) == Ok(g[y]) by {
      LookupIssued(g, n, 2 * a, t, k);
    }
    assert g[y] == w[x] by {
      GrownAt(w, a, n, t, k);
    }
  }

  /** Copying spoke `j` extends the grown prefix by that spoke and its empty
      upper half. */
  lemma GrownStep(s: seq<int>, a: nat, j: nat)
    requires (j + 1) * a <= |s|
    ensures j * a + a == (j + 1) * a
    ensures Grown(s[..(j + 1) * a], a, j + 1) == Grown(s[..j * a], a, j) + s[j * a..j * a + a] + Nulls(a)
  {
    var s' := s[..(j + 1) * a];
    assert j * a + a == (j + 1) * a;
    assert s'[..j * a] == s[..j * a];
    assert s'[j * a..] == s[j * a..j * a + a];
  }

  /** The widened array part-way through the copy: the first `j` of `n` spokes
      widened, followed by empty slots for the rest. */
  function Widened(s: seq<int>, a: nat, n: nat, j: nat): (g: seq<int>)
    requires j <= n && |s| == n * a
    ensures |g| == n * (2 * a)
  {
    MulMono(j, n, a);
    MulSucc2(j, n - j, 2 * a);
    Grown(s[..j * a], a, j) + Nulls((n - j) * (2 * a))
  }

  /** One step of widening: copying spoke `j` of `s` into the lower half of its
      widened range in `Widened(s, a, n, j)` gives `Widened(s, a, n, j + 1)`. */
  lemma WidenStep(s: seq<int>, a: nat, n: nat, j: nat, before: seq<int>, after: seq<int>)
    requires |s| == n * a && j < n && 0 < a
    requires before == Widened(s, a, n, j)
    ensures j * a + a <= |s| && j * (2 * a) + a <= |before|
    ensures after == before[..j * (2 * a)] + s[j * a..j * a + a] + before[j * (2 * a) + a..] ==>
      after == Widened(s, a, n, j + 1)
  {
    SpokeInside(n, a, j);
    SpokeInside(n, 2 * a, j);
    if after == before[..j * (2 * a)] + s[j * a..j * a + a] + before[j * (2 * a) + a..] {
      var g := Grown(s[..j * a], a, j);
      var rest := (n - j - 1) * (2 * a);
      MulSucc(j, a);
      MulSucc(n - j - 1, 2 * a);
      Splice(g, s[j * a..j * a + a], a, rest, before, after);
      GrownStep(s, a, j);
    }
  }

  lemma MulDouble(x: nat, c: nat)
    ensures x * (2 * c) == 2 * (x * c)
  {
  }

  lemma MulSucc2(x: nat, y: nat, c: nat)
    ensures x * c + y * c == (x + y) * c
  {
  }

  lemma MulSucc(x: nat, c: nat)
    ensures (x + 1) * c == x * c + c
  {
  }

  /** Overwriting the `a` empty slots just past prefix `g` with `t`. */
  lemma Splice(g: seq<int>, t: seq<int>, a: nat, rest: nat, before: seq<int>, after: seq<int>)
    requires |t| == a && before == g + Nulls(rest + 2 * a)
    requires after == before[..|g|] + t + before[|g| + a..]
    ensures after == g + t + Nulls(a) + Nulls(rest)
  {
    assert before[..|g|] == g;
    NullsAppend(a, a + rest);
    NullsAppend(a, rest);
    assert rest + 2 * a == a + (a + rest);
    assert before[|g| + a..] == Nulls(a + rest);
  }

  lemma NullsAppend(x: nat, y: nat)
    ensures Nulls(x) + Nulls(y) == Nulls(x + y)
  {
  }

  /** The handle `forEach` builds for flat slot `i`: spoke `i / alloc`, slot
      index `i % modulus`. */
  function SlotHandle(i: nat, alloc: nat, modulus: nat): int64
    requires i < 0x8000_0000 && alloc > 0 && modulus > 0
  {
    DivBelow(i, alloc);
    DivBelow(i, modulus);
    TimerIdForSlot(i / alloc, i % modulus)
  }

  /** The entries `forEach` reports from slot `i` on: each occupied slot's
      deadline with the handle built from slot `i` as spoke `i / alloc` and slot
      index `i % modulus`. */
  function Entries(w: seq<int>, i: nat, alloc: nat, modulus: nat): (e: seq<(int, int64)>)
    requires i <= |w| < 0x8000_0000 && alloc > 0 && modulus > 0
    decreases |w| - i
  {
    if i == |w| then []
    else
      (if w[i] != NULL_DEADLINE then [(w[i], SlotHandle(i, alloc, modulus))] else [])
      + Entries(w, i + 1, alloc, modulus)
  }

  /** One entry per occupied slot. */
  lemma {:induction false} EntriesLength(w: seq<int>, i: nat, alloc: nat, modulus: nat)
    requires i <= |w| < 0x8000_0000 && alloc > 0 && modulus > 0
    ensures |Entries(w, i, alloc, modulus)| == Live(w[i..])
    decreases |w| - i
  {
    if i < |w| {
      EntriesLength(w, i + 1, alloc, modulus);
      assert w[i..][0] == w[i];
      assert w[i..][1..] == w[i + 1..];
    }
  }

  /** An entry `(deadline, id)` names an occupied slot holding `deadline`: the
      handle decodes to a spoke `t` and a slot `k < alloc` with `w[t*alloc + k]`
      equal to the deadline. */
  predicate Resolves(w: seq<int>, alloc: nat, e: (int, int64)) {
    var t := TickForTimerId(e.1);
    var k := IndexInTickArray(e.1);
    0 <= t && 0 <= k < alloc && t * alloc + k < |w| && w[t * alloc + k] == e.0 &&
    e.0 != NULL_DEADLINE
  }

  lemma DivBelow(x: nat, d: nat)
    requires d > 0
    ensures x == (x / d) * d + x % d && x / d <= x && 0 <= x % d < d && x % d <= x
  {
    MulMono(1, d, x / d);
    MulMono(0, x / d, d);
    assert (x / d) * d == d * (x / d);
  }

  lemma SlotResolves(w: seq<int>, x: nat, alloc: nat)
    requires x < |w| < 0x8000_0000 && alloc > 0 && w[x] != NULL_DEADLINE
    ensures Resolves(w, alloc, (w[x], SlotHandle(x, alloc, alloc)))
  {
    DivBelow(x, alloc);
    ResolvesAt(w, x, alloc, x / alloc, x % alloc);
  }

  lemma ResolvesAt(w: seq<int>, x: nat, alloc: nat, t: int32, k: int32)
    requires x < |w| && w[x] != NULL_DEADLINE
    requires 0 <= t && 0 <= k < alloc && x == t * alloc + k
    ensures Resolves(w, alloc, (w[x], TimerIdForSlot(t, k)))
  {
    RoundTrip(t, k);
  }

  /** With slot indices taken modulo the allocation, every reported entry
      resolves to the slot it came from. */
  lemma {:induction false} EntriesResolve(w: seq<int>, i: nat, alloc: nat)
    requires i <= |w| < 0x8000_0000 && alloc > 0
    ensures forall j :: 0 <= j < |Entries(w, i, alloc, alloc)| ==>
      Resolves(w, alloc, Entries(w, i, alloc, alloc)[j])
    decreases |w| - i
  {
    if i < |w| {
      var e := Entries(w, i, alloc, alloc);
      var rest := Entries(w, i + 1, alloc, alloc);
      EntriesResolve(w, i + 1, alloc);
      if w[i] != NULL_DEADLINE {
        SlotResolves(w, i, alloc);
        assert e == [(w[i], SlotHandle(i, alloc, alloc))] + rest;
        assert forall j :: 1 <= j < |e| ==> e[j] == rest[j - 1];
      } else {
        assert e == rest;
      }
    }
  }

  /** With nothing occupied from `i` on, no further entries are reported. */
  lemma {:induction false} EntriesOfEmpty(w: seq<int>, i: nat, alloc: nat, modulus: nat)
    requires i <= |w| < 0x8000_0000 && alloc > 0 && modulus > 0
    requires Live(w[i..]) == 0
    ensures Entries(w, i, alloc, modulus) == []
    decreases |w| - i
  {
    if i < |w| {
      assert w[i..][1..] == w[i + 1..];
      EntriesOfEmpty(w, i + 1, alloc, modulus);
    }
  }

  /** With one spoke of two slots and a timer in slot 1, the handle built with
      the slot index taken modulo `ticksPerWheel` (as `forEach` writes it) is
      handle 0, which looks up the empty slot 0 instead of the timer. */
  lemma EntriesAsWrittenMisresolve()
    ensures var w := [NULL_DEADLINE, 5];
      Entries(w, 0, 2, 1) == [(5, 0)] && Lookup(w, 1, 2, 0) == Ok(NULL_DEADLINE)
  {
    var w := [NULL_DEADLINE, 5];
    assert Entries(w, 2, 2, 1) == [];
    assert SlotHandle(1, 2, 1) == 0;
    assert Entries(w, 1, 2, 1) == [(5, 0)];
    RoundTrip(0, 0);
  }

  /** `FirstEmpty` is the first free slot: an index with every earlier slot
      occupied and itself free (or the end of the range) is the one it returns. */
  lemma {:induction false} FirstEmptyAt(s: seq<int>, from: nat, len: nat, i: nat)
    requires from + len <= |s| && i <= len
    requires forall x :: from <= x < from + i ==> s[x] != NULL_DEADLINE
    requires i == len || s[from + i] == NULL_DEADLINE
    ensures FirstEmpty(s, from, len) == i
    decreases len
  {
    if len > 0 && i > 0 {
      FirstEmptyAt(s, from + 1, len - 1, i - 1);
    }
  }

  /** An entry that resolves is found again by `deadline` on its handle. */
  lemma ResolvesLookup(w: seq<int>, tpw: int32, alloc: int32, e: (int, int64))
    requires 0 < tpw && 0 < alloc && |w| == tpw * alloc < 0x8000_0000
    requires Resolves(w, alloc, e)
    ensures Lookup(w, tpw, alloc, e.1) == Ok(e.0)
  {
    var t := TickForTimerId(e.1);
    var k := IndexInTickArray(e.1);
    SpokeOf(t, k, alloc, tpw);
    Reencode(e.1);
    LookupIssued(w, tpw, alloc, t, k);
  }

  /** A flat position `t*a + k` below `tpw*a`, with `k < a`, lies in a spoke below `tpw`. */
  lemma SpokeOf(t: nat, k: nat, a: nat, tpw: nat)
    requires k < a && t * a + k < tpw * a
    ensures t < tpw
  {
    if t >= tpw {
      MulMono(tpw, t, a);
      assert false;
    }
  }

  /** Spoke `spoke`'s slots lie inside the array. */
  lemma SpokeInside(tpw: nat, a: nat, spoke: nat)
    requires spoke < tpw && 0 < a
    ensures 0 <= spoke * a && spoke * a + a <= tpw * a
  {
    MulBound(spoke, tpw, a, a - 1);
    MulMono(0, spoke, a);
  }

  /** `tickAllocation << 1` wraps the `int` exactly when the allocation has
      reached 2^30, and then the wheel has a single spoke and the doubled
      capacity is a negative `int`. */
  lemma DoubledAllocation(tpw: int32, a: int32)
    requires 0 < tpw && 0 < a && tpw * a < 0x8000_0000
    ensures a < 0x4000_0000 ==> Wrap32(2 * a) == 2 * a
    ensures a >= 0x4000_0000 ==> tpw == 1 && Wrap32(tpw * Wrap32(2 * a)) < 0
  {
    if a >= 0x4000_0000 && tpw > 1 {
      MulMono(2, tpw, a);
    }
  }

  /** Every slot of spoke `spoke` is occupied. */
  predicate SpokeFull(w: seq<int>, tpw: int32, a: int32, spoke: int32)
    requires 0 < tpw && 0 < a && |w| == tpw * a && 0 <= spoke < tpw
  {
    SpokeInside(tpw, a, spoke);
    FirstEmpty(w, spoke * a, a) == a
  }

  /** What `scheduleTimer` leaves behind: the slots, the per-spoke allocation,
      and the handle or the exception. */
  datatype Placement = Placement(slots: seq<int>, alloc: int, id: Result<int64>)

  /** `scheduleTimer` once the spoke is chosen: the deadline goes into the first
      free slot of the spoke; a full spoke makes `increaseCapacity` double the
      allocation of every spoke (an `IllegalStateException` past 2^30 slots, a
      `NegativeArraySizeException` when the doubled allocation wraps the
      `int`) and the deadline goes into the first slot of the new half. */
  function Place(w: seq<int>, tpw: int32, a: int32, spoke: int32, deadline: int): (p: Placement)
    requires 0 < tpw && 0 < a && |w| == tpw * a < 0x8000_0000 && 0 <= spoke < tpw
    ensures p.id.Err? ==> p.slots == w && p.alloc == a
    ensures p.alloc == a || (p.alloc == 2 * a && |p.slots| == tpw * p.alloc <= MAX_SLOTS)
  {
    SpokeInside(tpw, a, spoke);
    DoubledAllocation(tpw, a);
    var k := FirstEmpty(w, spoke * a, a);
    if k < a then Placement(w[spoke * a + k := deadline], a, Ok(TimerIdForSlot(spoke, k)))
    else
      var newAlloc := Wrap32(2 * a);
      var newCapacity := tpw * newAlloc;
      if newCapacity > MAX_SLOTS then Placement(w, a, Err(IllegalState))
      else if Wrap32(newCapacity) < 0 then Placement(w, a, Err(NegativeArraySize))
      else
        assert newAlloc == 2 * a;
        SpokeInside(tpw, 2 * a, spoke);
        Placement(Grown(w, a, tpw)[spoke * (2 * a) + a := deadline], 2 * a,
                  Ok(TimerIdForSlot(spoke, a)))
  }

  /** `Place` on a full spoke, step by step as `increaseCapacity` computes it. */
  lemma PlaceGrows(w: seq<int>, tpw: int32, a: int32, spoke: int32, deadline: int)
    requires 0 < tpw && 0 < a && |w| == tpw * a < 0x8000_0000 && 0 <= spoke < tpw
    requires SpokeFull(w, tpw, a, spoke) && deadline != NULL_DEADLINE
    ensures var newCapacity := tpw * Wrap32(2 * a);
      var p := Place(w, tpw, a, spoke, deadline);
      if newCapacity > MAX_SLOTS then p == Placement(w, a, Err(IllegalState))
      else if Wrap32(newCapacity) < 0 then p == Placement(w, a, Err(NegativeArraySize))
      else
        && a < 0x4000_0000 && Wrap32(2 * a) == 2 * a && newCapacity == tpw * (2 * a)
        && spoke * (2 * a) + a < tpw * (2 * a)
        && p == Placement(Grown(w, a, tpw)[spoke * (2 * a) + a := deadline], 2 * a,
                          Ok(TimerIdForSlot(spoke, a)))
        && Live(p.slots) == Live(w) + 1
  {
    SpokeInside(tpw, a, spoke);
    DoubledAllocation(tpw, a);
    var newCapacity := tpw * Wrap32(2 * a);
    if newCapacity <= MAX_SLOTS && Wrap32(newCapacity) >= 0 {
      SpokeInside(tpw, 2 * a, spoke);
      GrownAt(w, a, tpw, spoke, a);
      GrownLive(w, a, tpw);
      LiveUpdate(Grown(w, a, tpw), spoke * (2 * a) + a, deadline);
    }
  }

  /** Placing fails only on a full spoke: with `IllegalStateException` when
      doubling would pass 2^30 slots, with `NegativeArraySizeException` when the
      allocation is already 2^30. */
  lemma PlaceFails(w: seq<int>, tpw: int32, a: int32, spoke: int32, deadline: int)
    requires 0 < tpw && 0 < a && |w| == tpw * a < 0x8000_0000 && 0 <= spoke < tpw
    ensures spoke * a + a <= |w|
    ensures var full := FirstEmpty(w, spoke * a, a) == a;
      var p := Place(w, tpw, a, spoke, deadline);
      && (p.id == Err(IllegalState) <==> full && a < 0x4000_0000 && tpw * (2 * a) > MAX_SLOTS)
      && (p.id == Err(NegativeArraySize) <==> full && a >= 0x4000_0000)
      && (p.id.Err? ==> p.id == Err(IllegalState) || p.id == Err(NegativeArraySize))
  {
    SpokeInside(tpw, a, spoke);
    DoubledAllocation(tpw, a);
    var p := Place(w, tpw, a, spoke, deadline);
    var k := FirstEmpty(w, spoke * a, a);
    if k < a {
      assert p.id.Ok?;
    } else if a < 0x4000_0000 {
      var c := tpw * (2 * a);
      assert tpw * Wrap32(2 * a) == c;
      if c > MAX_SLOTS {
        assert p.id == Err(IllegalState);
      } else {
        assert Wrap32(c) == c;
        assert p.id.Ok?;
      }
    } else {
      assert p.id == Err(NegativeArraySize);
    }
  }

  /** A successful placement adds exactly one occupied slot and issues a handle
      on the chosen spoke that looks the new deadline up. */
  lemma PlaceFinds(w: seq<int>, tpw: int32, a: int32, spoke: int32, deadline: int)
    requires 0 < tpw && 0 < a && |w| == tpw * a < 0x8000_0000 && 0 <= spoke < tpw
    requires deadline != NULL_DEADLINE
    ensures var p := Place(w, tpw, a, spoke, deadline);
      p.id.Ok? ==>
        && 0 < p.alloc < 0x8000_0000 && |p.slots| == tpw * p.alloc
        && Live(p.slots) == Live(w) + 1
        && TickForTimerId(p.id.value) == spoke
        && Lookup(p.slots, tpw, p.alloc, p.id.value) == Ok(deadline)
  {
    SpokeInside(tpw, a, spoke);
    DoubledAllocation(tpw, a);
    var k := FirstEmpty(w, spoke * a, a);
    var p := Place(w, tpw, a, spoke, deadline);
    if k < a {
      PlacedAt(w, tpw, a, spoke, k, deadline);
    } else if p.id.Ok? {
      PlacedAt(Grown(w, a, tpw), tpw, 2 * a, spoke, a, deadline);
      GrownAt(w, a, tpw, spoke, a);
      GrownLive(w, a, tpw);
    }
  }

  /** Writing a deadline into free slot `k` of spoke `spoke` adds one occupied
      slot, and the handle `(spoke, k)` looks it up. */
  lemma PlacedAt(w: seq<int>, tpw: int32, a: int32, spoke: int32, k: int32, deadline: int)
    requires 0 < tpw && 0 < a && |w| == tpw * a < 0x8000_0000 && 0 <= spoke < tpw && 0 <= k < a
    requires deadline != NULL_DEADLINE
    ensures 0 <= spoke * a + k < |w|
    ensures w[spoke * a + k] == NULL_DEADLINE ==> Live(w[spoke * a + k := deadline]) == Live(w) + 1
    ensures TickForTimerId(TimerIdForSlot(spoke, k)) == spoke
    ensures Lookup(w[spoke * a + k := deadline], tpw, a, TimerIdForSlot(spoke, k)) == Ok(deadline)
  {
    LookupIssued(w, tpw, a, spoke, k);
    LiveUpdate(w, spoke * a + k, deadline);
    LookupIssued(w[spoke * a + k := deadline], tpw, a, spoke, k);
    RoundTrip(spoke, k);
  }

  /** A placement never disturbs a timer already scheduled: every issued
      handle on an occupied slot looks up the same deadline afterwards. */
  lemma PlaceKeeps(w: seq<int>, tpw: int32, a: int32, spoke: int32, deadline: int,
                   t: int32, k: int32)
    requires 0 < tpw && 0 < a && |w| == tpw * a < 0x8000_0000 && 0 <= spoke < tpw
    requires 0 <= t < tpw && 0 <= k < a
    requires Lookup(w, tpw, a, TimerIdForSlot(t, k)) != Ok(NULL_DEADLINE)
    ensures var p := Place(w, tpw, a, spoke, deadline);
      Lookup(p.slots, tpw, p.alloc, TimerIdForSlot(t, k)) == Lookup(w, tpw, a, TimerIdForSlot(t, k))
  {
    SpokeInside(tpw, a, spoke);
    DoubledAllocation(tpw, a);
    var f := FirstEmpty(w, spoke * a, a);
    var p := Place(w, tpw, a, spoke, deadline);
    if f < a {
      LookupIssued(w, tpw, a, t, k);
      LookupIssued(p.slots, tpw, a, t, k);
    } else if p.id.Ok? {
      GrownKeeps(w, tpw, a, spoke, deadline, t, k);
    }
  }

  lemma GrownKeeps(w: seq<int>, tpw: int32, a: int32, spoke: int32, deadline: int,
                   t: int32, k: int32)
    requires 0 < tpw && 0 < a && |w| == tpw * a && tpw * (2 * a) <= MAX_SLOTS
    requires 0 <= spoke < tpw && 0 <= t < tpw && 0 <= k < a
    ensures spoke * (2 * a) + a < tpw * (2 * a)
    ensures Lookup(Grown(w, a, tpw)[spoke * (2 * a) + a := deadline], tpw, 2 * a, TimerIdForSlot(t, k)) ==
            Lookup(w, tpw, a, TimerIdForSlot(t, k))
  {
    GrownAt(w, a, tpw, spoke, a);
    var a2: int32 := 2 * a;
    var g := Grown(w, a, tpw);
    var slot := spoke * a2 + a;
    var g' := g[slot := deadline];
    var id := TimerIdForSlot(t, k);
    var idx := t * a2 + k;
    GrowthKeepsHandles(w, a, tpw, t, k);
    LookupIssued(g, tpw, a2, t, k);
    LookupIssued(g', tpw, a2, t, k);
    assert idx != slot by {
      if t == spoke {
      } else {
        SlotsApart(t, spoke, a2, k, a);
      }
    }
    assert g'[idx] == g[idx];
    assert Lookup(g', tpw, a2, id) == Ok(g'[idx]);
    assert Lookup(g, tpw, a2, id) == Ok(g[idx]);
  }

  /** Slots of different spokes are different flat slots. */
  lemma SlotsApart(t: nat, u: nat, c: nat, k: nat, l: nat)
    requires t != u && k < c && l < c
    ensures t * c + k != u * c + l
  {
    if t < u {
      MulBound(t, u, c, k);
      MulMono(0, 1, l);
    } else {
      MulBound(u, t, c, l);
    }
  }
}
