/** `DeadlineTimerWheel`: a hashed timing wheel of `ticksPerWheel` spokes, each
    holding `tickAllocation` deadline slots in one flat `long[]`. A timer is a
    deadline in a slot; its handle packs spoke and slot (module `TimerIds`).
    The methods are proved against the slot-array functions of `TimerSlots`. */
module DeadlineTimer {
  import opened Machine
  import opened Outcomes
  import opened BitUtil
  import opened TimerIds
  import opened TimerSlots

  const INITIAL_TICK_ALLOCATION: int32 := 16

  /** The three constructor checks: each of `ticksPerWheel`, `tickResolution`
      and `initialTickAllocation` must be a power of two, otherwise
      `IllegalArgumentException`. */
  function CheckConfig(tickResolution: int64, ticksPerWheel: int32, initialTickAllocation: int32): (o: Outcome)
    ensures o == Pass <==>
      IsPowerOfTwo(ticksPerWheel) && IsPowerOfTwo(tickResolution) && IsPowerOfTwo(initialTickAllocation)
    ensures o != Pass ==> o == Fail(IllegalArgument)
  {
    if !IsPowerOfTwo(ticksPerWheel) then Fail(IllegalArgument)
    else if !IsPowerOfTwo(tickResolution) then Fail(IllegalArgument)
    else if !IsPowerOfTwo(initialTickAllocation) then Fail(IllegalArgument)
    else Pass
  }

  class DeadlineTimerWheel {
    const tickResolution: int64
    const ticksPerWheel: int32
    const tickMask: int32
    const resolutionBitsToShift: nat
    var startTime: int64
    var currentTick: int64
    var timerCount: int64
    var tickAllocation: int32
    var allocationBitsToShift: nat
    var pollIndex: int32
    var wheel: array<int>

    /** Resolution and allocation are the powers of two their shift amounts
        name, the array holds `ticksPerWheel * tickAllocation` slots, the poll
        cursor is a slot of a spoke and `timerCount` is the number of occupied
        slots. */
    predicate Valid()
      reads this, wheel
    {
      && tickResolution == Pow2(resolutionBitsToShift)
      && IsPowerOfTwo(ticksPerWheel) && tickMask == ticksPerWheel - 1
      && tickAllocation == Pow2(allocationBitsToShift)
      && Shape()
      && timerCount == Live(wheel[..])
    }

    /** The layout part of `Valid`. */
    predicate Shape()
      reads this
    {
      && 0 < ticksPerWheel && 0 < tickAllocation
      && wheel.Length == ticksPerWheel * tickAllocation < 0x8000_0000
      && 0 <= pollIndex < tickAllocation
    }

    /** The wheel with every slot empty. The caller has passed `CheckConfig`;
        the slot count `ticksPerWheel * initialTickAllocation` is an `int`. */
    constructor (startTime: int64, tickResolution: int64, ticksPerWheel: int32, initialTickAllocation: int32)
      requires CheckConfig(tickResolution, ticksPerWheel, initialTickAllocation) == Pass
      requires ticksPerWheel * initialTickAllocation < 0x8000_0000
      ensures Valid() && fresh(wheel)
      ensures this.startTime == startTime && this.tickResolution == tickResolution
      ensures this.ticksPerWheel == ticksPerWheel && tickAllocation == initialTickAllocation
      ensures currentTick == 0 && timerCount == 0 && pollIndex == 0
      ensures forall k :: 0 <= k < wheel.Length ==> wheel[k] == NULL_DEADLINE
    {
      this.ticksPerWheel := ticksPerWheel;
      tickAllocation := initialTickAllocation;
      tickMask := ticksPerWheel - 1;
      this.tickResolution := tickResolution;
      resolutionBitsToShift := TrailingZeros(tickResolution);
      allocationBitsToShift := TrailingZeros(initialTickAllocation);
      this.startTime := startTime;
      currentTick := 0;
      timerCount := 0;
      pollIndex := 0;
      wheel := new int[ticksPerWheel * initialTickAllocation](_ => NULL_DEADLINE);
      new;
      LiveZero(wheel[..]);
    }

    /** The constructor with its checks: `IllegalArgumentException` for a value
        that is not a power of two, `NegativeArraySizeException` when the slot
        count wraps to a negative `int`. */
    static method Create(startTime: int64, tickResolution: int64, ticksPerWheel: int32,
                         initialTickAllocation: int32) returns (r: Result<DeadlineTimerWheel>)
      requires CheckConfig(tickResolution, ticksPerWheel, initialTickAllocation) == Pass ==>
               ticksPerWheel * initialTickAllocation < 0x1_0000_0000
      ensures CheckConfig(tickResolution, ticksPerWheel, initialTickAllocation) != Pass ==>
              r == Err(IllegalArgument)
      ensures CheckConfig(tickResolution, ticksPerWheel, initialTickAllocation) == Pass ==>
              (r == Err(NegativeArraySize) <==> ticksPerWheel * initialTickAllocation >= 0x8000_0000)
      ensures r.Ok? ==>
        && fresh(r.value) && fresh(r.value.wheel) && r.value.Valid()
        && r.value.timerCount == 0 && r.value.tickAllocation == initialTickAllocation
        && r.value.startTime == startTime && r.value.tickResolution == tickResolution
        && r.value.ticksPerWheel == ticksPerWheel && r.value.currentTick == 0 && r.value.pollIndex == 0
        && forall k :: 0 <= k < r.value.wheel.Length ==> r.value.wheel[k] == NULL_DEADLINE
    {
      var check := CheckConfig(tickResolution, ticksPerWheel, initialTickAllocation);
      if check != Pass {
        return Err(check.error);
      }
      if Wrap32(ticksPerWheel * initialTickAllocation) < 0 {
        return Err(NegativeArraySize);
      }
      var w := new DeadlineTimerWheel(startTime, tickResolution, ticksPerWheel, initialTickAllocation);
      return Ok(w);
    }

    /** `currentTickTime0`: `((currentTick + 1) << resolutionBitsToShift) + startTime`
        in 64-bit arithmetic, the time at which the current tick ends. */
    function CurrentTickTime(): (t: int64)
      reads this`currentTick, this`startTime
      ensures var e := (currentTick + 1) * tickResolution;
        currentTick < LONG_MAX && LONG_MIN <= e <= LONG_MAX && LONG_MIN <= e + startTime <= LONG_MAX ==>
          t == e + startTime
    {
      Wrap64(Wrap64(Wrap64(currentTick + 1) * tickResolution) + startTime)
    }

    /** The spoke `poll` scans: `(int) currentTick & tickMask`. */
    function PollSpoke(): (s: int32)
      reads this
      requires ticksPerWheel > 0
      ensures 0 <= s < ticksPerWheel
    {
      Wrap32(currentTick) % ticksPerWheel
    }

    /** The spoke `scheduleTimer` picks: the deadline's tick
        `(deadline - startTime) >> resolutionBitsToShift`, but never one before
        the current tick, masked to the wheel. */
    function SpokeFor(deadline: int64): (s: int32)
      reads this
      requires tickResolution > 0 && ticksPerWheel > 0
      ensures 0 <= s < ticksPerWheel
    {
      Max(Wrap64(deadline - startTime) / tickResolution, currentTick) % ticksPerWheel
    }

    /** `deadline(timerId)`: `NULL_DEADLINE` for a handle whose spoke or slot
        is too large, and on a valid wheel the slot's content for a handle
        whose spoke and slot are in range, with no array error. */
    function Deadline(timerId: int64): (r: Result<int>)
      reads this, wheel
      ensures TickForTimerId(timerId) >= ticksPerWheel || IndexInTickArray(timerId) >= tickAllocation ==>
        r == Ok(NULL_DEADLINE)
      ensures var t, k := TickForTimerId(timerId), IndexInTickArray(timerId);
        Valid() && 0 <= t < ticksPerWheel && 0 <= k < tickAllocation ==>
          0 <= t * tickAllocation + k < wheel.Length && r == Ok(wheel[t * tickAllocation + k])
    {
      LocateInRange(ticksPerWheel, tickAllocation, timerId);
      Lookup(wheel[..], ticksPerWheel, tickAllocation, timerId)
    }

    /** `currentTickTime(now)`: winds the current tick forward to the tick of
        `now`, never backwards. */
    method SetCurrentTickTime(now: int64)
      requires Valid()
      modifies this
      ensures Valid() && wheel == old(wheel) && tickAllocation == old(tickAllocation)
      ensures currentTick == Max(Wrap64(now - startTime) / tickResolution, old(currentTick))
      ensures currentTick >= old(currentTick)
      ensures startTime == old(startTime) && timerCount == old(timerCount) && pollIndex == old(pollIndex)
    {
      currentTick := Max(Wrap64(now - startTime) / tickResolution, currentTick);
    }

    /** `resetStartTime`: allowed only with no active timers, otherwise
        `IllegalStateException` and nothing changes. */
    method ResetStartTime(newStartTime: int64) returns (o: Outcome)
      requires Valid()
      modifies this
      ensures Valid() && wheel == old(wheel) && tickAllocation == old(tickAllocation)
      ensures timerCount == old(timerCount)
      ensures o == Fail(IllegalState) <==> old(timerCount) > 0
      ensures o == Pass ==> startTime == newStartTime && currentTick == 0 && pollIndex == 0
      ensures o != Pass ==>
        o == Fail(IllegalState) &&
        startTime == old(startTime) && currentTick == old(currentTick) && pollIndex == old(pollIndex)
    {
      if timerCount > 0 {
        return Fail(IllegalState);
      }
      startTime := newStartTime;
      currentTick := 0;
      pollIndex := 0;
      return Pass;
    }

    /** `clear`: empties every slot. With no timers it returns at once. */
    method Clear()
      requires Valid()
      modifies this, wheel
      ensures Valid() && wheel == old(wheel) && tickAllocation == old(tickAllocation)
      ensures timerCount == 0 && forall k :: 0 <= k < wheel.Length ==> wheel[k] == NULL_DEADLINE
      ensures startTime == old(startTime) && currentTick == old(currentTick) && pollIndex == old(pollIndex)
    {
      var remaining := timerCount;
      if remaining == 0 {
        LiveZero(wheel[..]);
        return;
      }
      var i := 0;
      while i < wheel.Length && remaining > 0
        modifies wheel
        invariant 0 <= i <= wheel.Length
        invariant forall k :: 0 <= k < i ==> wheel[k] == NULL_DEADLINE
        invariant remaining == Live(wheel[i..])
      {
        ghost var rest := wheel[i..];
        assert rest[0] == wheel[i] && rest[1..] == wheel[i + 1..];
        if NULL_DEADLINE != wheel[i] {
          wheel[i] := NULL_DEADLINE;
          remaining := remaining - 1;
        }
        assert wheel[i + 1..] == rest[1..];
        i := i + 1;
      }
      timerCount := 0;
      LiveZero(wheel[i..]);
      assert forall k :: i <= k < wheel.Length ==> wheel[k] == wheel[i..][k - i];
      LiveZero(wheel[..]);
    }

    /** `cancelTimer`: frees the slot the handle names if it is occupied. A
        handle rejected by the bounds checks cancels nothing; one whose slot
        position falls outside the array raises, before anything changes, the
        array-index error. */
    method CancelTimer(timerId: int64) returns (r: Result<bool>)
      requires Valid()
      modifies this, wheel
      ensures Valid() && wheel == old(wheel) && tickAllocation == old(tickAllocation)
      ensures startTime == old(startTime) && currentTick == old(currentTick) && pollIndex == old(pollIndex)
      ensures r.Err? <==> old(Deadline(timerId)).Err?
      ensures r.Err? ==> r == Err(ArrayIndexOutOfBounds)
      ensures r == Ok(true) <==> old(Deadline(timerId)).Ok? && old(Deadline(timerId)).value != NULL_DEADLINE
      ensures r == Ok(true) ==>
        && wheel[..] == old(wheel[..])[Locate(ticksPerWheel, tickAllocation, timerId).value := NULL_DEADLINE]
        && timerCount == old(timerCount) - 1 && Deadline(timerId) == Ok(NULL_DEADLINE)
      ensures r != Ok(true) ==> wheel[..] == old(wheel[..]) && timerCount == old(timerCount)
    {
      var spokeIndex := TickForTimerId(timerId);
      var tickIndex := IndexInTickArray(timerId);
      var wheelIndex := Wrap32(Wrap32(spokeIndex * tickAllocation) + tickIndex);
      if spokeIndex < ticksPerWheel {
        if tickIndex < tickAllocation {
          if !(0 <= wheelIndex < wheel.Length) {
            return Err(ArrayIndexOutOfBounds);
          }
          if NULL_DEADLINE != wheel[wheelIndex] {
            LiveUpdate(wheel[..], wheelIndex, NULL_DEADLINE);
            wheel[wheelIndex] := NULL_DEADLINE;
            timerCount := timerCount - 1;
            return Ok(true);
          }
        }
      }
      return Ok(false);
    }

    /** `System.arraycopy` between two distinct arrays. */
    static method ArrayCopy(src: array<int>, srcPos: nat, dst: array<int>, dstPos: nat, length: nat)
      requires src != dst && srcPos + length <= src.Length && dstPos + length <= dst.Length
      modifies dst
      ensures dst[..] == old(dst[..dstPos]) + src[srcPos..srcPos + length] + old(dst[dstPos + length..])
    {
      var i := 0;
      while i < length
        invariant 0 <= i <= length
        invariant forall x :: 0 <= x < dst.Length ==>
          dst[x] == if dstPos <= x < dstPos + i then src[srcPos + x - dstPos] else old(dst[x])
      {
        dst[dstPos + i] := src[srcPos + i];
        i := i + 1;
      }
      assert dst[..] == old(dst[..dstPos]) + src[srcPos..srcPos + length] + old(dst[dstPos + length..]);
    }

    /** The copy loop of `increaseCapacity`: a fresh array of `n` spokes of
        `2a` empty slots, into which spoke `j` of `src` is copied at `j * 2a`. */
    static method Widen(src: array<int>, n: int32, a: int32) returns (dst: array<int>)
      requires 0 < n && 0 < a && src.Length == n * a && n * (2 * a) <= MAX_SLOTS
      ensures fresh(dst) && dst[..] == Grown(src[..], a, n)
    {
      dst := new int[n * (2 * a)](_ => NULL_DEADLINE);
      assert dst[..] == Widened(src[..], a, n, 0);
      var j := 0;
      while j < n
        invariant 0 <= j <= n
        invariant dst[..] == Widened(src[..], a, n, j)
      {
        CopySpoke(src, dst, n, a, j);
        j := j + 1;
      }
      assert src[..][..n * a] == src[..];
    }

    /** One iteration of the copy loop: spoke `j` of `src` goes to the lower
        half of spoke `j` of `dst`. */
    static method CopySpoke(src: array<int>, dst: array<int>, n: int32, a: int32, j: int32)
      requires src != dst && 0 <= j < n && 0 < a && src.Length == n * a
      requires dst[..] == Widened(src[..], a, n, j)
      modifies dst
      ensures dst[..] == Widened(src[..], a, n, j + 1)
    {
      ghost var before := dst[..];
      WidenStep(src[..], a, n, j, before, before);
      ArrayCopy(src, j * a, dst, j * (2 * a), a);
      assert src[j * a..j * a + a] == src[..][j * a..j * a + a];
      WidenStep(src[..], a, n, j, before, dst[..]);
    }

    /** The store `increaseCapacity` makes into the widened array: slot `a`
        of spoke `spoke`, the first slot of the spoke's new half. */
    static method SetSlot(w: array<int>, n: int32, a: int32, spoke: int32, deadline: int64)
      requires 0 < n && 0 < a && w.Length == n * (2 * a) <= MAX_SLOTS && 0 <= spoke < n
      modifies w
      ensures spoke * (2 * a) + a < w.Length
      ensures w[..] == old(w[..])[spoke * (2 * a) + a := deadline]
    {
      SpokeInside(n, 2 * a, spoke);
      w[spoke * (2 * a) + a] := deadline;
    }

    /** `increaseCapacity`: doubles every spoke's allocation, copying each
        spoke's slots to the lower half of its widened range, and puts the
        deadline in the first slot of the new half of spoke `spoke`. */
    method IncreaseCapacity(deadline: int64, spoke: int32) returns (r: Result<int64>)
      requires Valid() && 0 <= spoke < ticksPerWheel && deadline != NULL_DEADLINE
      requires SpokeFull(wheel[..], ticksPerWheel, tickAllocation, spoke)
      modifies this
      ensures Valid()
      ensures var p := Place(old(wheel[..]), ticksPerWheel, old(tickAllocation), spoke, deadline);
        r == p.id && wheel[..] == p.slots && tickAllocation == p.alloc
      ensures r.Ok? ==> fresh(wheel) && timerCount == old(timerCount) + 1
      ensures r.Err? ==> wheel == old(wheel) && timerCount == old(timerCount)
      ensures startTime == old(startTime) && currentTick == old(currentTick) && pollIndex == old(pollIndex)
    {
      var a := tickAllocation;
      PlaceGrows(wheel[..], ticksPerWheel, a, spoke, deadline);
      var newTickAllocation := Wrap32(2 * (a as int));
      var newCapacity := ticksPerWheel * newTickAllocation;
      if newCapacity > MAX_SLOTS {
        return Err(IllegalState);
      }
      if Wrap32(newCapacity) < 0 {
        return Err(NegativeArraySize);
      }
      Pow2IsPowerOfTwo(allocationBitsToShift + 1);
      var newAllocationBitsToShift := TrailingZeros(newTickAllocation);
      var newWheel := Widen(wheel, ticksPerWheel, a);
      SetSlot(newWheel, ticksPerWheel, a, spoke, deadline);
      r := Ok(TimerIdForSlot(spoke, a));
      timerCount := timerCount + 1;
      tickAllocation := newTickAllocation;
      allocationBitsToShift := newAllocationBitsToShift;
      wheel := newWheel;
    }

    /** `scheduleTimer`: stores the deadline in spoke `SpokeFor(deadline)` as
        `Place` says, and returns the slot's handle. */
    method ScheduleTimer(deadline: int64) returns (r: Result<int64>)
      requires Valid() && deadline != NULL_DEADLINE
      modifies this, wheel
      ensures Valid()
      ensures var p := Place(old(wheel[..]), ticksPerWheel, old(tickAllocation), old(SpokeFor(deadline)), deadline);
        r == p.id && wheel[..] == p.slots && tickAllocation == p.alloc
      ensures r.Ok? ==> timerCount == old(timerCount) + 1
      ensures r.Err? ==> wheel == old(wheel) && timerCount == old(timerCount)
      ensures startTime == old(startTime) && currentTick == old(currentTick) && pollIndex == old(pollIndex)
    {
      var spokeIndex := SpokeFor(deadline);
      SpokeInside(ticksPerWheel, tickAllocation, spokeIndex);
      var tickStartIndex := spokeIndex * tickAllocation;
      var i := 0;
      while i < tickAllocation
        invariant 0 <= i <= tickAllocation
        invariant forall x :: tickStartIndex <= x < tickStartIndex + i ==> wheel[x] != NULL_DEADLINE
      {
        var index := tickStartIndex + i;
        if NULL_DEADLINE == wheel[index] {
          FirstEmptyAt(wheel[..], tickStartIndex, tickAllocation, i);
          LiveUpdate(wheel[..], index, deadline);
          wheel[index] := deadline;
          timerCount := timerCount + 1;
          return Ok(TimerIdForSlot(spokeIndex, i));
        }
        i := i + 1;
      }
      FirstEmptyAt(wheel[..], tickStartIndex, tickAllocation, i);
      r := IncreaseCapacity(deadline, spokeIndex);
    }

    /** One iteration of `poll`'s loop: the slot under the cursor of spoke
        `spoke` (at `base`) is due when `now >= deadline` (an empty slot too,
        at `now == Long.MAX_VALUE`); a due slot is offered to `handler` and
        cleared when accepted or restored when declined; the cursor is not
        moved. The effect is one step of `ScanAsWritten` from any remaining
        step count `steps` and expiry count `e` below `limit`. */
    method ExpireSlot(now: int64, handler: int64 -> bool, spoke: int32, base: nat, length: nat,
                      ghost steps: nat, ghost limit: int, ghost e: nat)
      returns (hit: int32, declined: bool)
      requires 0 <= pollIndex < length < 0x8000_0000 && base + length <= wheel.Length
      requires steps > 0 && limit > e && timerCount > LONG_MIN
      modifies wheel, this`timerCount
      ensures 0 <= hit <= 1 && timerCount == old(timerCount) - hit
      ensures declined ==>
        && hit == 0 && wheel[..] == old(wheel[..])
        && ScanAsWritten(old(wheel[..]), base, length, spoke, pollIndex, steps, now, limit, handler, e)
           == ScanResult(old(wheel[..]), pollIndex, e, true)
      ensures !declined ==>
        ScanAsWritten(old(wheel[..]), base, length, spoke, pollIndex, steps, now, limit, handler, e)
          == ScanAsWritten(wheel[..], base, length, spoke, NextIndex(pollIndex, length), steps - 1, now, limit,
                           handler, e + hit)
    {
      hit := 0;
      declined := false;
      var wheelIndex := base + pollIndex;
      var deadline := wheel[wheelIndex];
      if now >= deadline {
        wheel[wheelIndex] := NULL_DEADLINE;
        timerCount := timerCount - 1;
        hit := 1;
        if !handler(TimerIdForSlot(spoke, pollIndex)) {
          wheel[wheelIndex] := deadline;
          timerCount := timerCount + 1;
          hit := 0;
          declined := true;
          assert wheel[..] == old(wheel[..]);
          ScanDecline(wheel[..], base, length, spoke, pollIndex, steps, now, limit, handler, e);
          return;
        }
        ScanAccept(old(wheel[..]), base, length, spoke, pollIndex, steps, now, limit, handler, e);
      } else {
        ScanSkip(wheel[..], base, length, spoke, pollIndex, steps, now, limit, handler, e);
      }
    }

    /** The loop of `poll`: scans spoke `spokeIndex` from the poll cursor as
        `SpokeScanAsWritten` says, clearing each due slot the handler accepts
        and stopping at the first one it declines, which stays scheduled.
        Below `Long.MAX_VALUE` that is the corrected `SpokeScan`, and the
        count still equals the occupied slots. */
    method ScanSpoke(now: int64, handler: int64 -> bool, expiryLimit: int32, spokeIndex: int32)
      returns (expired: int32, declined: bool)
      requires Shape() && timerCount == Live(wheel[..]) && 0 <= spokeIndex < ticksPerWheel
      modifies this`timerCount, this`pollIndex, wheel
      ensures Shape()
      ensures var r := SpokeScanAsWritten(old(wheel[..]), ticksPerWheel, tickAllocation, spokeIndex,
                                          old(pollIndex), now, expiryLimit, handler);
        && wheel[..] == r.slots && expired == r.expired && declined == r.declined
        && pollIndex == r.pollIndex && timerCount == old(timerCount) - r.expired
      ensures now < NULL_DEADLINE ==> timerCount == Live(wheel[..])
    {
      SpokeInside(ticksPerWheel, tickAllocation, spokeIndex);
      expired, declined := ScanLoop(now, handler, expiryLimit, spokeIndex, spokeIndex * tickAllocation);
      if now < NULL_DEADLINE {
        ScanLive(old(wheel[..]), spokeIndex * tickAllocation, tickAllocation, spokeIndex, old(pollIndex),
                 tickAllocation, now, expiryLimit, handler, 0);
      }
    }

    /** The `for` loop of `poll` over the slots of one spoke, starting at the cursor. */
    method ScanLoop(now: int64, handler: int64 -> bool, expiryLimit: int32, spokeIndex: int32, base: nat)
      returns (expired: int32, declined: bool)
      requires Shape() && 0 <= timerCount && base + tickAllocation <= wheel.Length
      modifies this`timerCount, this`pollIndex, wheel
      ensures Shape()
      ensures var r := ScanAsWritten(old(wheel[..]), base, tickAllocation, spokeIndex, old(pollIndex),
                                     tickAllocation, now, expiryLimit, handler, 0);
        && wheel[..] == r.slots && expired == r.expired && declined == r.declined
        && pollIndex == r.pollIndex && timerCount == old(timerCount) - r.expired
    {
      expired := 0;
      declined := false;
      var length := tickAllocation;
      ghost var target := ScanAsWritten(wheel[..], base, length, spokeIndex, pollIndex, length, now,
                                        expiryLimit, handler, 0);
      var i := 0;
      while i < length && expiryLimit > expired
        invariant 0 <= i <= length && 0 <= pollIndex < length
        invariant 0 <= expired <= i && timerCount == old(timerCount) - expired
        invariant ScanAsWritten(wheel[..], base, length, spokeIndex, pollIndex, length - i, now, expiryLimit,
                                handler, expired) == target
      {
        var hit;
        hit, declined := ExpireSlot(now, handler, spokeIndex, base, length, length - i, expiryLimit, expired);
        if declined {
          break;
        }
        expired := expired + hit;
        pollIndex := NextIndex(pollIndex, length);
        i := i + 1;
      }
    }

    /** `poll`: with timers present, scans the current spoke (`ScanSpoke`);
        unless a timer was declined, the tick advances (and the cursor resets)
        when the expiry limit was not reached and `now` has reached the end of
        the current tick. With no timers only the tick may advance. `handler`
        is the handler's answer for each handle. The wheel stays valid for
        every `now` below `Long.MAX_VALUE`; at that value the written test
        can expire empty slots and the count may then fall below the
        occupied slots, while the rest of `Valid` still holds. */
    method Poll(now: int64, handler: int64 -> bool, expiryLimit: int32) returns (expired: int32)
      requires Valid()
      modifies this`timerCount, this`pollIndex, this`currentTick, wheel
      ensures Shape() && wheel == old(wheel) && tickAllocation == old(tickAllocation)
      ensures timerCount == Live(wheel[..]) ==> Valid()
      ensures now < NULL_DEADLINE ==> Valid()
      ensures startTime == old(startTime)
      ensures 0 <= expired <= Max(0, expiryLimit)
      ensures old(timerCount) > 0 ==>
        var spoke := old(PollSpoke());
        var r := SpokeScanAsWritten(old(wheel[..]), ticksPerWheel, tickAllocation, spoke, old(pollIndex),
                                    now, expiryLimit, handler);
        && wheel[..] == r.slots && expired == r.expired
        && timerCount == old(timerCount) - r.expired
        && if !r.declined && expiryLimit > r.expired && now >= old(CurrentTickTime())
           then currentTick == Wrap64(old(currentTick) + 1) && pollIndex == 0
           else currentTick == old(currentTick) && pollIndex == r.pollIndex
      ensures old(timerCount) <= 0 ==>
        && wheel[..] == old(wheel[..]) && expired == 0 && timerCount == old(timerCount)
        && if now >= old(CurrentTickTime())
           then currentTick == Wrap64(old(currentTick) + 1) && pollIndex == 0
           else currentTick == old(currentTick) && pollIndex == old(pollIndex)
    {
      expired := 0;
      if timerCount > 0 {
        expired := PollTimers(now, handler, expiryLimit);
      } else if now >= CurrentTickTime() {
        currentTick := Wrap64(currentTick + 1);
        pollIndex := 0;
      }
    }

    /** The branch of `poll` with timers present. */
    method PollTimers(now: int64, handler: int64 -> bool, expiryLimit: int32) returns (expired: int32)
      requires Valid() && timerCount > 0
      modifies this`timerCount, this`pollIndex, this`currentTick, wheel
      ensures Shape()
      ensures timerCount == Live(wheel[..]) ==> Valid()
      ensures now < NULL_DEADLINE ==> Valid()
      ensures 0 <= expired <= Max(0, expiryLimit)
      ensures var spoke := old(PollSpoke());
        var r := SpokeScanAsWritten(old(wheel[..]), ticksPerWheel, tickAllocation, spoke, old(pollIndex),
                                    now, expiryLimit, handler);
        && wheel[..] == r.slots && expired == r.expired
        && timerCount == old(timerCount) - r.expired
        && if !r.declined && expiryLimit > r.expired && now >= old(CurrentTickTime())
           then currentTick == Wrap64(old(currentTick) + 1) && pollIndex == 0
           else currentTick == old(currentTick) && pollIndex == r.pollIndex
    {
      ghost var tickTime := CurrentTickTime();
      var spokeIndex := PollSpoke();
      var declined;
      expired, declined := ScanSpoke(now, handler, expiryLimit, spokeIndex);
      assert CurrentTickTime() == tickTime;
      assert timerCount == Live(wheel[..]) ==> Valid();
      if declined {
        return;
      }
      if expiryLimit > expired && now >= CurrentTickTime() {
        currentTick := Wrap64(currentTick + 1);
        pollIndex := 0;
      }
    }

    /** The walk `forEach` makes: every occupied slot in array order, with the
        handle built from the slot's position with slot index `i % modulus`. It
        stops once it has seen `timerCount` timers. */
    method Visit(modulus: int32) returns (visits: seq<(int, int64)>)
      requires Valid() && modulus > 0
      ensures visits == Entries(wheel[..], 0, tickAllocation, modulus)
    {
      visits := [];
      var remaining := timerCount;
      var i := 0;
      while i < wheel.Length && remaining > 0
        invariant 0 <= i <= wheel.Length
        invariant remaining == Live(wheel[i..])
        invariant visits + Entries(wheel[..], i, tickAllocation, modulus) == Entries(wheel[..], 0, tickAllocation, modulus)
      {
        ghost var rest := wheel[i..];
        assert rest[0] == wheel[i] && rest[1..] == wheel[i + 1..];
        var deadline := wheel[i];
        if NULL_DEADLINE != deadline {
          visits := visits + [(deadline, SlotHandle(i, tickAllocation, modulus))];
          remaining := remaining - 1;
        }
        i := i + 1;
      }
      assert wheel[..][i..] == wheel[i..];
      EntriesOfEmpty(wheel[..], i, tickAllocation, modulus);
    }

    /** `forEach` as written: the slot index is taken with `i & tickMask`,
        i.e. modulo `ticksPerWheel`. */
    method ForEach() returns (visits: seq<(int, int64)>)
      requires Valid()
      ensures visits == Entries(wheel[..], 0, tickAllocation, ticksPerWheel)
      ensures |visits| == timerCount
    {
      visits := Visit(ticksPerWheel);
      EntriesLength(wheel[..], 0, tickAllocation, ticksPerWheel);
      assert wheel[..][0..] == wheel[..];
    }

    /** `forEach` with the slot index taken modulo `tickAllocation`: one entry
        per timer, each of whose handles `deadline` resolves to its deadline. */
    method ForEachCorrected() returns (visits: seq<(int, int64)>)
      requires Valid()
      ensures visits == Entries(wheel[..], 0, tickAllocation, tickAllocation)
      ensures |visits| == timerCount
      ensures forall j :: 0 <= j < |visits| ==>
        visits[j].0 != NULL_DEADLINE && Deadline(visits[j].1) == Ok(visits[j].0)
    {
      visits := Visit(tickAllocation);
      EntriesLength(wheel[..], 0, tickAllocation, tickAllocation);
      assert wheel[..][0..] == wheel[..];
      EntriesResolve(wheel[..], 0, tickAllocation);
      forall j | 0 <= j < |visits|
        ensures visits[j].0 != NULL_DEADLINE && Deadline(visits[j].1) == Ok(visits[j].0)
      {
        ResolvesLookup(wheel[..], ticksPerWheel, tickAllocation, visits[j]);
      }
    }
  }
}
