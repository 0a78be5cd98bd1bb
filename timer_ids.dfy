/** The timer wheel's opaque 64-bit handle: the spoke index in the upper 32 bits
    and the slot index within the spoke in the lower 32 bits. The three
    functions follow the Java shifts and casts exactly: `>>` on a `long` is
    floor division by 2^32 and the `(int)` cast keeps the low 32 bits as a
    signed value. */
module TimerIds {
  import opened Machine

  const HALF: int := 0x1_0000_0000

  /** `timerIdForSlot`: `((long) tickOnWheel << 32) | tickArrayIndex`. The `int`
      index is sign-extended before the `|`, so a negative index sets every
      upper bit and the handle is the index itself. */
  function TimerIdForSlot(tickOnWheel: int32, tickArrayIndex: int32): (id: int64)
    ensures tickArrayIndex >= 0 ==> (id >= 0 <==> tickOnWheel >= 0)
  {
    if tickArrayIndex < 0 then tickArrayIndex else tickOnWheel * HALF + tickArrayIndex
  }

  /** `tickForTimerId`: `(int) (timerId >> 32)`. */
  function TickForTimerId(timerId: int64): (t: int32)
    ensures t * HALF <= timerId < t * HALF + HALF
  {
    timerId / HALF
  }

  /** `indexInTickArray`: `(int) timerId`. */
  function IndexInTickArray(timerId: int64): (k: int32)
    ensures (timerId - k) % HALF == 0
    ensures 0 <= timerId % HALF < 0x8000_0000 ==> k == timerId % HALF
  {
    Wrap32(timerId)
  }

  /** Decoding an encoded pair gives the pair back whenever the slot index is
      non-negative (every handle the wheel issues has spoke and slot in [0, 2^30)). */
  lemma RoundTrip(tick: int32, index: int32)
    requires index >= 0
    ensures TickForTimerId(TimerIdForSlot(tick, index)) == tick
    ensures IndexInTickArray(TimerIdForSlot(tick, index)) == index
  {
    var id := tick * HALF + index;
    assert TimerIdForSlot(tick, index) == id;
    DivModOf(id, tick, index);
  }

  /** Distinct pairs with non-negative slot indices get distinct handles. */
  lemma Injective(t1: int32, i1: int32, t2: int32, i2: int32)
    requires i1 >= 0 && i2 >= 0
    requires TimerIdForSlot(t1, i1) == TimerIdForSlot(t2, i2)
    ensures t1 == t2 && i1 == i2
  {
    RoundTrip(t1, i1);
    RoundTrip(t2, i2);
  }

  /** A negative slot index erases the spoke: the handle decodes to spoke -1. */
  lemma NegativeIndexLosesTick(tick: int32, index: int32)
    requires index < 0
    ensures TickForTimerId(TimerIdForSlot(tick, index)) == -1
    ensures IndexInTickArray(TimerIdForSlot(tick, index)) == index
  {
    DivModOf(index, -1, index + HALF);
  }

  /** Every handle with a non-negative slot index is the encoding of its own
      decoded pair. */
  lemma Reencode(id: int64)
    requires IndexInTickArray(id) >= 0
    ensures TimerIdForSlot(TickForTimerId(id), IndexInTickArray(id)) == id
  {
    var q, r := id / HALF, id % HALF;
    assert id == q * HALF + r;
    assert IndexInTickArray(id) == if r < 0x8000_0000 then r else r - HALF;
  }

  lemma DivModOf(x: int, q: int, r: int)
    requires 0 <= r < HALF && x == q * HALF + r
    ensures x / HALF == q && x % HALF == r
  {
  }
}
