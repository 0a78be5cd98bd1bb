# watertreestar/commons in Dafny

This project models the computational core of the Java utility library
`com.young.commons` and proves properties of the model. It covers these parts:

- **`DeadlineTimerWheel`**: a hashed timing wheel. It keeps deadlines in one flat `long[]` of
  `ticksPerWheel` spokes with `tickAllocation` slots each, and hands out 64-bit timer handles
  that pack spoke and slot. The model is a class over an `array<int>` with the source's fields.
  Its methods (`scheduleTimer` with capacity growth, `cancelTimer`, `poll`, `clear`, `forEach`,
  `resetStartTime`, `currentTickTime`) are proved against value-level functions on the slot
  sequence (module `TimerSlots`). The handle codec is module `TimerIds`.
- **`SemanticVersion`**: the version-string parser (normalisation, the split at `.` before a
  digit, `Integer.valueOf`, trailing-zero removal), the part-by-part ordering, `equals`/`hashCode`,
  `toString`, and the convenience comparisons.
- **`Tuple`**: two parallel lists of values and names, edited in place.
- **`Triple`**: an immutable triple with replace-one-component methods.
- **`InetUtil.match`**: choosing the address that shares the longest prefix with a pattern.
- **`Retrys`/`RetryPolicy`** and **`RetryOperation`/`OperationBuilder`**: retry loops and the
  policies that drive them.
- **`Assert`**: the argument validators.
- **`LazySupplier`** and **`MemoizedFunction`**: caching wrappers.
- **`StringUtils.limitString`**, **`Files.suffix`** and **`Lists.fromTo`**.

Shared conventions:

- `int` and `long` are the subset types `int32` and `int64` (module `Machine`). Wrap-around is
  written out with `Wrap32`/`Wrap64` wherever the Java arithmetic can overflow.
- `null` is `None` of `Option`.
- A method that throws returns `Err(kind)` of `Result`, or `Fail(kind)` of `Outcome`
  (module `Outcomes`).
- Exception classes are abstract identifiers. A thrown object carries the set of classes it is
  assignable to.
- Callables, consumers, suppliers, handlers and predicates are deterministic oracles (Dafny
  functions). A callable that may answer differently per call is indexed by the call number.
- Sleeping never happens in the model. Where the source sleeps, the model only reports whether
  it would.

The source and its documentation disagree in these places, and the model follows the code:

- `Assert.isEmpty(Collection)` returns the opposite of what its documentation says (see Findings).
- `Tuple.removeName` leaves the name behind (see Findings).
- `DeadlineTimerWheel.forEach` builds handles with the spoke mask (see Findings).
- `poll` with `now == Long.MAX_VALUE` expires empty slots, because its test is `now >= deadline` and an
  empty slot holds `Long.MAX_VALUE` (see Findings). `Poll` follows that test, so at that value the count can
  fall below the number of occupied slots; below it `Poll` keeps the wheel valid.
- `cancelTimer` and `deadline` check only the upper bounds of a handle's spoke and slot. A
  handle with a negative slot index decodes to spoke -1 (`TimerIds.NegativeIndexLosesTick`), and
  its 32-bit position `(spoke << shift) + slot` may name a slot of another spoke. `Locate` and
  `Lookup` model that arithmetic exactly, so `CancelTimer` can clear such a slot, just as the
  source does. A position outside the array gives `Err(ArrayIndexOutOfBounds)`.

## Model

| member | source | states |
|---|---|---|
| Machine.Wrap32 | src/main/java/com/young/commons/timer/DeadlineTimerWheel.java:240 | the `int` that two's-complement arithmetic gives: congruent to the exact value modulo 2^32, and equal to it when it is in range |
| Machine.Wrap64 | src/main/java/com/young/commons/timer/DeadlineTimerWheel.java:344 | the `long` that two's-complement arithmetic gives: congruent modulo 2^64, and equal to the exact value when it is in range |
| BitUtil.TrailingZeros | src/main/java/com/young/commons/timer/DeadlineTimerWheel.java:62-63 | `numberOfTrailingZeros` of a power of two is the exponent `k` with `2^k` equal to it |
| BitUtil.Pow2IsPowerOfTwo | src/main/java/com/young/commons/timer/DeadlineTimerWheel.java:83-97 | every `2^k` passes the power-of-two checks |
| TimerIds.TimerIdForSlot | src/main/java/com/young/commons/timer/DeadlineTimerWheel.java:70-72 | with a non-negative slot index, the handle is non-negative exactly when the spoke is |
| TimerIds.TickForTimerId | src/main/java/com/young/commons/timer/DeadlineTimerWheel.java:74-76 | `(int) (timerId >> 32)`: the spoke is the floor of the handle divided by 2^32 |
| TimerIds.IndexInTickArray | src/main/java/com/young/commons/timer/DeadlineTimerWheel.java:78-80 | `(int) timerId`: congruent to the handle modulo 2^32, and equal to its low 32 bits when they read as a non-negative `int` |
| TimerIds.RoundTrip | src/main/java/com/young/commons/timer/DeadlineTimerWheel.java:70-80 | decoding a handle with a non-negative slot index gives back its spoke and slot |
| TimerIds.Injective | src/main/java/com/young/commons/timer/DeadlineTimerWheel.java:70-72 | distinct (spoke, slot) pairs with non-negative slots get distinct handles |
| TimerIds.NegativeIndexLosesTick | src/main/java/com/young/commons/timer/DeadlineTimerWheel.java:70-80 | a negative slot index sign-extends over the spoke: the handle decodes to spoke -1 and keeps the slot index |
| TimerIds.Reencode | src/main/java/com/young/commons/timer/DeadlineTimerWheel.java:70-80 | every handle whose low half is non-negative is the encoding of its own decoded pair |
| TimerSlots.Live | src/main/java/com/young/commons/timer/DeadlineTimerWheel.java:141-143 | the number of occupied slots, the quantity `timerCount` must equal, is at most the length |
| TimerSlots.LiveZero | src/main/java/com/young/commons/timer/DeadlineTimerWheel.java:187-203 | no slot is occupied exactly when the occupied count is 0 |
| TimerSlots.LiveUpdate | src/main/java/com/young/commons/timer/DeadlineTimerWheel.java:220-222 | writing one slot changes the occupied count by what was removed and what was written |
| TimerSlots.FirstEmpty | src/main/java/com/young/commons/timer/DeadlineTimerWheel.java:217-226 | the index of the lowest free slot of a spoke, or the allocation when the spoke is full; every slot before it is occupied |
| TimerSlots.FirstEmptyAt | src/main/java/com/young/commons/timer/DeadlineTimerWheel.java:217-226 | any index with every earlier slot occupied and itself free (or the end) is the one `FirstEmpty` returns |
| TimerSlots.Grown | src/main/java/com/young/commons/timer/DeadlineTimerWheel.java:356-363 | the widened array has `n * 2a` slots |
| TimerSlots.GrownAt | src/main/java/com/young/commons/timer/DeadlineTimerWheel.java:359-363 | after widening, slot `k` of spoke `q` is the old slot `k` for `k < a` and empty in the new upper half |
| TimerSlots.GrownPrefix | src/main/java/com/young/commons/timer/DeadlineTimerWheel.java:359-363 | the first `m` widened spokes are the widening of the first `m` old spokes |
| TimerSlots.GrownLive | src/main/java/com/young/commons/timer/DeadlineTimerWheel.java:359-367 | widening keeps the occupied count |
| TimerSlots.Widened | src/main/java/com/young/commons/timer/DeadlineTimerWheel.java:359-363 | the partly copied array during the copy loop has the full new size |
| TimerSlots.NextIndex | src/main/java/com/young/commons/timer/DeadlineTimerWheel.java:285 | the advanced poll cursor stays below the allocation |
| TimerSlots.Scan | src/main/java/com/young/commons/timer/DeadlineTimerWheel.java:268-286 | the slot scan of one spoke; the result has the same number of slots and a cursor inside the spoke |
| TimerSlots.SpokeScan | src/main/java/com/young/commons/timer/DeadlineTimerWheel.java:266-286 | the scanned spoke `currentTick & tickMask` lies inside the array |
| TimerSlots.SpokeScanAsWritten | src/main/java/com/young/commons/timer/DeadlineTimerWheel.java:266-286 | the spoke scan with the source's test; for `now < Long.MAX_VALUE` it equals the corrected `SpokeScan`; it expires between 0 and the limit |
| TimerSlots.ScanSkip | src/main/java/com/young/commons/timer/DeadlineTimerWheel.java:272 | the written scan passes over a slot whose deadline is after `now`, without change |
| TimerSlots.ScanAccept | src/main/java/com/young/commons/timer/DeadlineTimerWheel.java:272-276 | with the written test `now >= deadline`, a due slot whose handle the handler accepts is cleared and counted |
| TimerSlots.ScanDecline | src/main/java/com/young/commons/timer/DeadlineTimerWheel.java:277-281 | with the written test, a due slot the handler declines stops the scan and leaves every slot, the cursor and the count as they were |
| TimerSlots.ScanBounds | src/main/java/com/young/commons/timer/DeadlineTimerWheel.java:268 | the accepted expiries never fall below the count at the start and never exceed the expiry limit |
| TimerSlots.ScanFrame | src/main/java/com/young/commons/timer/DeadlineTimerWheel.java:272-273 | a scan changes only slots of the scanned spoke, and only by clearing a slot whose deadline has passed and whose handle was accepted |
| TimerSlots.ScanLive | src/main/java/com/young/commons/timer/DeadlineTimerWheel.java:273-279 | the occupied count drops by exactly the number of accepted expiries |
| TimerSlots.ScanDeclined | src/main/java/com/young/commons/timer/DeadlineTimerWheel.java:277-282 | after a decline the cursor is on the declined slot, which still holds its passed deadline |
| TimerSlots.ScanAsWritten | src/main/java/com/young/commons/timer/DeadlineTimerWheel.java:272 | the scan with the source's test `now >= deadline`; same size and cursor bounds as `Scan` |
| TimerSlots.ScanAsWrittenAgrees | src/main/java/com/young/commons/timer/DeadlineTimerWheel.java:272 | for `now < Long.MAX_VALUE` the written scan and the corrected scan are identical |
| TimerSlots.ScanAsWrittenBounds | src/main/java/com/young/commons/timer/DeadlineTimerWheel.java:268-286 | the written scan, too, expires at least the starting count and at most the limit |
| TimerSlots.ScanAsWrittenExpiresEmptySlot | src/main/java/com/young/commons/timer/DeadlineTimerWheel.java:272-275 | at `now == Long.MAX_VALUE`, the written scan of an empty slot reports one expiry, so the count no longer matches the slots |
| TimerSlots.Locate | src/main/java/com/young/commons/timer/DeadlineTimerWheel.java:238-243 | a handle is accepted exactly when its decoded spoke is below `ticksPerWheel` and its slot below `tickAllocation` |
| TimerSlots.Lookup | src/main/java/com/young/commons/timer/DeadlineTimerWheel.java:329-341 | `deadline(timerId)`: fails only with an array-index error, exactly when an accepted handle's position lies outside the array |
| TimerSlots.LocateInRange | src/main/java/com/young/commons/timer/DeadlineTimerWheel.java:238-240 | a handle whose spoke and slot decode in range points at `spoke * alloc + slot`, inside the array |
| TimerSlots.LocateIssued | src/main/java/com/young/commons/timer/DeadlineTimerWheel.java:238-243 | an issued handle `(t, k)` points at flat slot `t * alloc + k`, which is inside the array |
| TimerSlots.LookupIssued | src/main/java/com/young/commons/timer/DeadlineTimerWheel.java:329-341 | `deadline` of an issued handle returns that slot's content |
| TimerSlots.ResolvesLookup | src/main/java/com/young/commons/timer/DeadlineTimerWheel.java:329-341 | `deadline` finds again the deadline of every entry that resolves |
| TimerSlots.GrowthKeepsHandles | src/main/java/com/young/commons/timer/DeadlineTimerWheel.java:359-363 | after the spokes are doubled, every earlier handle looks up the same value |
| TimerSlots.DoubledAllocation | src/main/java/com/young/commons/timer/DeadlineTimerWheel.java:348-356 | `tickAllocation << 1` wraps only at 2^30, which forces a single spoke and a negative doubled capacity |
| TimerSlots.Place | src/main/java/com/young/commons/timer/DeadlineTimerWheel.java:212-229 | where `scheduleTimer` leaves things once the spoke is chosen; a failure changes nothing, and a success keeps or exactly doubles the allocation within 2^30 slots |
| TimerSlots.PlaceGrows | src/main/java/com/young/commons/timer/DeadlineTimerWheel.java:347-374 | on a full spoke: `IllegalStateException` past 2^30 slots, `NegativeArraySizeException` when the capacity wraps, and otherwise the widened array with the deadline at slot `a` of its spoke, handle `(spoke, a)` and one more occupied slot |
| TimerSlots.PlaceFails | src/main/java/com/young/commons/timer/DeadlineTimerWheel.java:351-356 | placing fails only on a full spoke, with exactly those two exceptions under exactly those conditions |
| TimerSlots.PlaceFinds | src/main/java/com/young/commons/timer/DeadlineTimerWheel.java:220-224 | a successful placement adds one occupied slot and issues a handle on the chosen spoke whose `deadline` is the new deadline |
| TimerSlots.PlacedAt | src/main/java/com/young/commons/timer/DeadlineTimerWheel.java:220-224 | writing a free slot `k` of a spoke adds one occupied slot, and handle `(spoke, k)` looks it up |
| TimerSlots.PlaceKeeps | src/main/java/com/young/commons/timer/DeadlineTimerWheel.java:212-229 | scheduling never disturbs an existing timer: every issued handle of an occupied slot looks up the same deadline afterwards |
| TimerSlots.GrownKeeps | src/main/java/com/young/commons/timer/DeadlineTimerWheel.java:359-365 | growth plus the new store keeps every earlier handle's lookup |
| TimerSlots.EntriesLength | src/main/java/com/young/commons/timer/DeadlineTimerWheel.java:310-320 | the walk reports one entry per occupied slot |
| TimerSlots.EntriesResolve | src/main/java/com/young/commons/timer/DeadlineTimerWheel.java:314 | with the slot index taken modulo the allocation, every reported entry names its own occupied slot |
| TimerSlots.EntriesOfEmpty | src/main/java/com/young/commons/timer/DeadlineTimerWheel.java:316-318 | once no occupied slot remains, nothing more is reported |
| TimerSlots.EntriesAsWrittenMisresolve | src/main/java/com/young/commons/timer/DeadlineTimerWheel.java:314 | with one spoke of two slots and a timer in slot 1, the handle built with `i & tickMask` is 0, and that handle looks up the empty slot 0 |
| DeadlineTimer.CheckConfig | src/main/java/com/young/commons/timer/DeadlineTimerWheel.java:82-98 | passes exactly when resolution, spokes and initial allocation are all powers of two, and otherwise fails with `IllegalArgumentException` |
| DeadlineTimer.DeadlineTimerWheel.constructor | src/main/java/com/young/commons/timer/DeadlineTimerWheel.java:47-68 | a valid wheel with the given timing, every slot empty, and no timers |
| DeadlineTimer.DeadlineTimerWheel.Create | src/main/java/com/young/commons/timer/DeadlineTimerWheel.java:53-67 | `IllegalArgumentException` for a bad configuration, `NegativeArraySizeException` exactly when the slot count overflows `int`, and otherwise a fresh valid wheel with every slot empty, the given start time, resolution and spoke count, and tick, cursor and count at 0 |
| DeadlineTimer.DeadlineTimerWheel.PollSpoke | src/main/java/com/young/commons/timer/DeadlineTimerWheel.java:266 | the spoke `poll` scans is a spoke of the wheel |
| DeadlineTimer.DeadlineTimerWheel.CurrentTickTime | src/main/java/com/young/commons/timer/DeadlineTimerWheel.java:166-168 | `currentTickTime0` (lines 343-345): without overflow, the end of the current tick, `(currentTick + 1) * tickResolution + startTime` |
| DeadlineTimer.DeadlineTimerWheel.Deadline | src/main/java/com/young/commons/timer/DeadlineTimerWheel.java:329-341 | `NULL_DEADLINE` for a handle whose spoke or slot is too large; on a valid wheel, the slot's deadline for a handle decoding in range |
| DeadlineTimer.DeadlineTimerWheel.SpokeFor | src/main/java/com/young/commons/timer/DeadlineTimerWheel.java:213-214 | the spoke chosen for a deadline is a spoke of the wheel |
| DeadlineTimer.DeadlineTimerWheel.SetCurrentTickTime | src/main/java/com/young/commons/timer/DeadlineTimerWheel.java:180-182 | the current tick becomes the maximum of the tick of `now` and the old tick, so it never decreases; nothing else changes |
| DeadlineTimer.DeadlineTimerWheel.ResetStartTime | src/main/java/com/young/commons/timer/DeadlineTimerWheel.java:151-159 | `IllegalStateException` exactly when timers are active, with nothing changed; otherwise the new start and a zero tick and cursor |
| DeadlineTimer.DeadlineTimerWheel.Clear | src/main/java/com/young/commons/timer/DeadlineTimerWheel.java:187-203 | every slot is empty and the count is 0 afterwards; the timing is unchanged |
| DeadlineTimer.DeadlineTimerWheel.CancelTimer | src/main/java/com/young/commons/timer/DeadlineTimerWheel.java:237-252 | returns true exactly when `deadline(timerId)` named an occupied slot; then that one slot is cleared, the count drops by one, and `deadline` now gives `NULL_DEADLINE`; otherwise nothing changes |
| DeadlineTimer.DeadlineTimerWheel.ArrayCopy | src/main/java/com/young/commons/timer/DeadlineTimerWheel.java:362 | `System.arraycopy`: the target range holds the source range, and the rest of the target is unchanged |
| DeadlineTimer.DeadlineTimerWheel.Widen | src/main/java/com/young/commons/timer/DeadlineTimerWheel.java:356-363 | the copy loop builds exactly the widened layout `Grown` |
| DeadlineTimer.DeadlineTimerWheel.CopySpoke | src/main/java/com/young/commons/timer/DeadlineTimerWheel.java:359-363 | one copy step moves the widened prefix on by one spoke |
| DeadlineTimer.DeadlineTimerWheel.SetSlot | src/main/java/com/young/commons/timer/DeadlineTimerWheel.java:365 | the new deadline goes to slot `a` of its spoke, and every other slot is unchanged |
| DeadlineTimer.DeadlineTimerWheel.IncreaseCapacity | src/main/java/com/young/commons/timer/DeadlineTimerWheel.java:347-374 | ends as `Place` on a full spoke: slots, allocation and handle, with one more timer on success and nothing changed on failure |
| DeadlineTimer.DeadlineTimerWheel.ScheduleTimer | src/main/java/com/young/commons/timer/DeadlineTimerWheel.java:212-229 | ends as `Place` at spoke `SpokeFor(deadline)`, counting the new timer; the wheel stays valid |
| DeadlineTimer.DeadlineTimerWheel.ExpireSlot | src/main/java/com/young/commons/timer/DeadlineTimerWheel.java:269-283 | one iteration of the poll loop, with the source's test `now >= deadline`, is one step of `ScanAsWritten`; a decline restores the slot and count |
| DeadlineTimer.DeadlineTimerWheel.ScanSpoke | src/main/java/com/young/commons/timer/DeadlineTimerWheel.java:268-286 | the poll loop leaves the slots, cursor and expiry count of `SpokeScanAsWritten`; below `Long.MAX_VALUE` the count stays equal to the occupied slots |
| DeadlineTimer.DeadlineTimerWheel.ScanLoop | src/main/java/com/young/commons/timer/DeadlineTimerWheel.java:268-286 | the `for` loop over one spoke leaves exactly the slots, cursor, expiry count and decline of `ScanAsWritten`, with the count lowered by the expiries |
| DeadlineTimer.DeadlineTimerWheel.Poll | src/main/java/com/young/commons/timer/DeadlineTimerWheel.java:262-300 | with timers, the spoke is scanned as `SpokeScanAsWritten` says and the tick advances by one (cursor reset) only when nothing was declined, the limit was not reached and `now` has reached the end of the tick; without timers only the tick may advance; the wheel stays valid for every `now` below `Long.MAX_VALUE`, and at that value only the count can drift from the occupied slots; the result lies between 0 and the expiry limit even there |
| DeadlineTimer.DeadlineTimerWheel.PollTimers | src/main/java/com/young/commons/timer/DeadlineTimerWheel.java:265-294 | the branch with timers: the written spoke scan, the tick advance unless declined, limit reached or tick not over, an expiry count between 0 and the limit, and validity below `Long.MAX_VALUE` |
| DeadlineTimer.DeadlineTimerWheel.Visit | src/main/java/com/young/commons/timer/DeadlineTimerWheel.java:307-321 | the walk reports exactly `Entries` of the slot array |
| DeadlineTimer.DeadlineTimerWheel.ForEach | src/main/java/com/young/commons/timer/DeadlineTimerWheel.java:307-321 | `forEach` as written: the entries with slot index modulo `ticksPerWheel`, one per timer |
| DeadlineTimer.DeadlineTimerWheel.ForEachCorrected | src/main/java/com/young/commons/timer/DeadlineTimerWheel.java:307-321 | with slot index modulo `tickAllocation`: one entry per timer, and `deadline` of each reported handle returns its deadline |
| SemVer.Decimal | src/main/java/com/young/commons/SemanticVersion.java:47 | decimal text is non-empty and all digits |
| SemVer.DecimalValue | src/main/java/com/young/commons/SemanticVersion.java:47 | the digits `Integer.toString` writes have the number's value |
| SemVer.IntToString | src/main/java/com/young/commons/SemanticVersion.java:47 | digits, with a leading '-' for a negative value |
| SemVer.ParseInt | src/main/java/com/young/commons/SemanticVersion.java:112 | `Integer.valueOf` accepts only non-empty text; unsigned text reads as a non-negative value |
| SemVer.ParseIntToString | src/main/java/com/young/commons/SemanticVersion.java:112 | `Integer.valueOf` reads back the text of every `int` |
| SemVer.FirstSplit | src/main/java/com/young/commons/SemanticVersion.java:10 | the first match of `\.(?=\d)` at or after a position, or -1 when none |
| SemVer.Split | src/main/java/com/young/commons/SemanticVersion.java:109 | at least one piece; every piece after the first is non-empty and starts with a digit |
| SemVer.SplitJoin | src/main/java/com/young/commons/SemanticVersion.java:109 | splitting undoes the join of pieces without '.' whose later pieces start with a digit |
| SemVer.JoinDigitsDots | src/main/java/com/young/commons/SemanticVersion.java:47 | joining digit strings gives only digits and dots |
| SemVer.ParseAll | src/main/java/com/young/commons/SemanticVersion.java:111-113 | every piece parsed in order, or `None` exactly when some piece is not a number |
| SemVer.StripTrailingZeros | src/main/java/com/young/commons/SemanticVersion.java:117-119 | a prefix of the parts, never empty, whose last part is not zero when several remain; every removed part was zero |
| SemVer.Tokenized | src/main/java/com/young/commons/SemanticVersion.java:106-121 | `RuntimeException` exactly when some split piece is not a number; otherwise canonical parts |
| SemVer.ParsedNonNegative | src/main/java/com/young/commons/SemanticVersion.java:109-112 | every part after the first is non-negative, since its piece starts with a digit |
| SemVer.Tokenize | src/main/java/com/young/commons/SemanticVersion.java:106-121 | the method's list and loop compute `Tokenized` |
| SemVer.RemoveTrailingZeros | src/main/java/com/young/commons/SemanticVersion.java:117-119 | the removal loop computes `StripTrailingZeros` |
| SemVer.Replace | src/main/java/com/young/commons/SemanticVersion.java:42 | `replace('_', '.')`: same length, and exactly the matching characters replaced |
| SemVer.IndexOf | src/main/java/com/young/commons/SemanticVersion.java:43 | the first index of the character, or -1 |
| SemVer.Normalized | src/main/java/com/young/commons/SemanticVersion.java:42-45 | the text with '_' replaced and cut to a prefix; it holds no '_', and no '-' unless the text starts with one |
| SemVer.FromVersion | src/main/java/com/young/commons/SemanticVersion.java:36-48 | `IllegalArgumentException` exactly for `null`, empty or whitespace-containing text; any other failure is the parse's `RuntimeException` |
| SemVer.New | src/main/java/com/young/commons/SemanticVersion.java:32-48 | the constructor and `fromVersion` compute `FromVersion` |
| SemVer.PartStrings | src/main/java/com/young/commons/SemanticVersion.java:47 | one `Integer.toString` per part, in order |
| SemVer.ToString | src/main/java/com/young/commons/SemanticVersion.java:124-130 | `toString`/`getVersion`: non-empty text of digits and dots, with at most a leading '-' |
| SemVer.PartsText | src/main/java/com/young/commons/SemanticVersion.java:47 | the display text is digits and dots, with at most a leading '-' |
| SemVer.PlainText | src/main/java/com/young/commons/SemanticVersion.java:37-45 | such text passes the checks and normalisation unchanged |
| SemVer.PartPieces | src/main/java/com/young/commons/SemanticVersion.java:47 | splitting the display text gives back the part strings |
| SemVer.ParsePartStrings | src/main/java/com/young/commons/SemanticVersion.java:112 | parsing the part strings gives the parts |
| SemVer.ReadText | src/main/java/com/young/commons/SemanticVersion.java:36-47 | reading back the text of parts gives those parts without trailing zeros |
| SemVer.ToStringRoundTrip | src/main/java/com/young/commons/SemanticVersion.java:123-130 | `new SemanticVersion(v.toString())` equals `v` |
| SemVer.TrailingZeroIgnored | src/main/java/com/young/commons/SemanticVersion.java:117-119 | appending ".0" to a version's text gives the same version |
| SemVer.StripsNothing | src/main/java/com/young/commons/SemanticVersion.java:117-119 | constructed parts have no trailing zeros left |
| SemVer.UnderscoreIsDot | src/main/java/com/young/commons/SemanticVersion.java:42 | '_' and '.' give the same result |
| SemVer.QualifierDropped | src/main/java/com/young/commons/SemanticVersion.java:43-45 | text from a '-' that is not the first character on is ignored |
| SemVer.CompareFrom | src/main/java/com/young/commons/SemanticVersion.java:22-27 | the comparison of positions `i` up to `n` is -1, 0 or 1 |
| SemVer.CompareTo | src/main/java/com/young/commons/SemanticVersion.java:15-30 | `compareTo` returns 1 for `null`, and otherwise the part-by-part comparison |
| SemVer.CompareFromZero | src/main/java/com/young/commons/SemanticVersion.java:22-28 | the comparison is 0 exactly when every position agrees, missing parts counting as 0 |
| SemVer.CompareFromSwap | src/main/java/com/young/commons/SemanticVersion.java:22-27 | swapping the arguments negates the comparison |
| SemVer.CompareFromTrans | src/main/java/com/young/commons/SemanticVersion.java:22-27 | the positional comparison is transitive |
| SemVer.CompareFromExtend | src/main/java/com/young/commons/SemanticVersion.java:21 | comparing past the longer list changes nothing |
| SemVer.CompareAntisymmetric | src/main/java/com/young/commons/SemanticVersion.java:15-30 | `a.compareTo(b) == -b.compareTo(a)` |
| SemVer.CompareTransitive | src/main/java/com/young/commons/SemanticVersion.java:15-30 | `compareTo` is transitive, and strict when either step is strict |
| SemVer.CompareZeroIffSame | src/main/java/com/young/commons/SemanticVersion.java:15-30 | on constructed versions, `compareTo` is 0 exactly for equal parts |
| SemVer.EqualsConsistent | src/main/java/com/young/commons/SemanticVersion.java:51-64 | `equals` is equality of parts: symmetric, and equal versions have equal `hashCode` |
| SemVer.Equals | src/main/java/com/young/commons/SemanticVersion.java:51-60 | `equals` holds exactly for a non-null version with the same parts |
| SemVer.HashCode | src/main/java/com/young/commons/SemanticVersion.java:62-64 | `List.hashCode` of the parts: the documented polynomial `31^n + p[0]*31^(n-1) + ... + p[n-1]` reduced to 32 bits; equal versions hash alike by `EqualsConsistent` |
| SemVer.ListHashIsPolynomial | src/main/java/com/young/commons/SemanticVersion.java:62-64 | wrapping after every step of the `31 * h + e` loop gives the same `int` as wrapping the exact polynomial once |
| SemVer.GetMajor | src/main/java/com/young/commons/SemanticVersion.java:86-88 | the first part |
| SemVer.GetMinor | src/main/java/com/young/commons/SemanticVersion.java:94-96 | the second part, or 0 for a single-part version |
| SemVer.IsMajorNewerThanVersion | src/main/java/com/young/commons/SemanticVersion.java:82-84 | throws exactly for `null`; a true answer means the version is also newer |
| SemVer.IsNewerThanVersion | src/main/java/com/young/commons/SemanticVersion.java:74-76 | against a version: true exactly when the other compares below this one, never against itself |
| SemVer.IsAtLeast | src/main/java/com/young/commons/SemanticVersion.java:66-68 | propagates the parse error of the argument; otherwise true exactly when the argument is not newer than this version |
| SemVer.IsNewerThan | src/main/java/com/young/commons/SemanticVersion.java:70-72 | propagates the parse error of the argument; otherwise true exactly when the argument compares below this version |
| SemVer.IsMajorNewerThan | src/main/java/com/young/commons/SemanticVersion.java:78-80 | propagates the parse error of the argument; otherwise true exactly when its major part is smaller |
| SemVer.ComparedWithOwnText | src/main/java/com/young/commons/SemanticVersion.java:66-80 | a version is at least, not newer than, and not major-newer than its own text |
| SemVer.ComparisonsNest | src/main/java/com/young/commons/SemanticVersion.java:66-80 | major-newer implies newer, and newer implies at least |
| SemVer.MajorDecides | src/main/java/com/young/commons/SemanticVersion.java:15-30 | a larger first part makes `compareTo` 1 |
| Tuples.IndexOf | src/main/java/com/young/commons/data/Tuple.java:47 | `List.indexOf`: the first index holding the element, or -1 when there is none |
| Tuples.RemoveAt | src/main/java/com/young/commons/data/Tuple.java:94 | `List.remove(int)`: one shorter, with later elements shifted down |
| Tuples.InsertAt | src/main/java/com/young/commons/data/Tuple.java:61 | `List.add(int, E)`: one longer, the element at the index, and later elements shifted up |
| Tuples.Tuple.constructor | src/main/java/com/young/commons/data/Tuple.java:13-15 | two empty lists, which are valid |
| Tuples.Tuple.Copy | src/main/java/com/young/commons/data/Tuple.java:21-25 | the copy has the same lists, so it equals its source |
| Tuples.Tuple.Size | src/main/java/com/young/commons/data/Tuple.java:27-29 | the number of values, equal to the number of names on a valid tuple; an empty tuple rejects every index |
| Tuples.Tuple.Contains | src/main/java/com/young/commons/data/Tuple.java:31-33 | holds exactly when `indexOf` finds the name; a contained non-null name reads without error on a valid tuple, and an absent one reads as `null` |
| Tuples.Tuple.ContainsValue | src/main/java/com/young/commons/data/Tuple.java:35-37 | holds exactly when `indexOf` finds the value |
| Tuples.Tuple.Equals | src/main/java/com/young/commons/data/Tuple.java:140-153 | a tuple equals itself; equal tuples have the same size and answer every name query alike |
| Tuples.Tuple.GetValue | src/main/java/com/young/commons/data/Tuple.java:39-41 | `IndexOutOfBoundsException` exactly for an index outside `values`, and otherwise the value there |
| Tuples.Tuple.GetValueByName | src/main/java/com/young/commons/data/Tuple.java:43-52 | `IllegalArgumentException` for `null`; `null` for an absent name; otherwise the value at an index holding the name |
| Tuples.Tuple.Add | src/main/java/com/young/commons/data/Tuple.java:55-58 | the value is appended with a `null` name; a valid tuple stays valid |
| Tuples.Tuple.AddAt | src/main/java/com/young/commons/data/Tuple.java:60-63 | the value and a `null` name are inserted at the index, and each insertion checks its own list; on a valid tuple it passes exactly for an index in `0..size` and stays valid |
| Tuples.Tuple.AddNamed | src/main/java/com/young/commons/data/Tuple.java:65-77 | rejects a `null` name; removes the entry already holding the name, then appends the pair; on a valid tuple it stays valid, and the name then reads back the value |
| Tuples.Tuple.DropEntry | src/main/java/com/young/commons/data/Tuple.java:71-74 | drops the name, then the value, at one index (the value list may be too short and throw); on a valid tuple it stays valid and a name held there is gone |
| Tuples.Tuple.Remove | src/main/java/com/young/commons/data/Tuple.java:79-86 | removes the first equal value with the name at its index and reports whether one was found; nothing changes otherwise |
| Tuples.Tuple.RemoveName | src/main/java/com/young/commons/data/Tuple.java:88-97 | corrected: removes the named entry from both lists, so the name is absent afterwards and the tuple stays valid |
| Tuples.Tuple.RemoveNameAsWritten | src/main/java/com/young/commons/data/Tuple.java:88-97 | as written: removes the value only; on a valid tuple holding the name, `names` becomes one longer than `values` and the tuple is no longer valid |
| Tuples.Tuple.RemoveIndex | src/main/java/com/young/commons/data/Tuple.java:99-103 | removes the entry at a valid index from both lists and returns its value; `IndexOutOfBoundsException` otherwise |
| Tuples.Tuple.ForEach | src/main/java/com/young/commons/data/Tuple.java:105-112 | calls the action on (name, index, value) for every index in order; a `null` action calls nothing |
| Tuples.NoneInsertKeepsUnique | src/main/java/com/young/commons/data/Tuple.java:55-63 | inserting a `null` name keeps non-null names unique |
| Tuples.RemoveUnique | src/main/java/com/young/commons/data/Tuple.java:70-74 | removing an entry keeps names unique |
| Tuples.RemovedNameGone | src/main/java/com/young/commons/data/Tuple.java:70-74 | a unique name, once its entry is removed, is absent |
| Tuples.AppendFresh | src/main/java/com/young/commons/data/Tuple.java:75-76 | appending an absent name keeps names unique |
| Tuples.IndexOfAppended | src/main/java/com/young/commons/data/Tuple.java:75-76 | an appended absent element is found at the end |
| Tuples.CopyEquals | src/main/java/com/young/commons/data/Tuple.java:141-153 | a copy equals its source in both directions |
| Tuples.RemovedNameStillResolves | src/main/java/com/young/commons/data/Tuple.java:88-97 | as written, after `add("a", 1)`, `removeName("a")` and `add(2)`, `getValue("a")` returns 2 |
| Tuples.RemovedNameGoneCorrected | src/main/java/com/young/commons/data/Tuple.java:88-97 | with the correction, the same calls make `getValue("a")` return `null` |
| Triples.Of | src/main/java/com/young/commons/data/Triple.java:20-22 | `first()`, `second()` and `third()` of `of(a, b, c)` are `a`, `b` and `c` |
| Triples.WithFirst | src/main/java/com/young/commons/data/Triple.java:27-29 | replaces the first component and keeps the other two |
| Triples.WithSecond | src/main/java/com/young/commons/data/Triple.java:34-36 | replaces the second component and keeps the other two |
| Triples.WithThird | src/main/java/com/young/commons/data/Triple.java:41-43 | replaces the third component and keeps the other two |
| Triples.Equals | src/main/java/com/young/commons/data/Triple.java:66-76 | null-safe component-wise `equals` holds exactly for a non-null equal triple |
| Triples.EqualsLaws | src/main/java/com/young/commons/data/Triple.java:66-84 | reflexive and symmetric, false for `null`, and equal triples hash alike |
| Triples.HashCode | src/main/java/com/young/commons/data/Triple.java:79-84 | the step-by-step 32-bit `31 * (31 * h1 + h2) + h3`, with 0 for `null`, is the exact `961 * h1 + 31 * h2 + h3` reduced once to 32 bits; equal triples hash alike by `EqualsLaws` |
| Triples.ReplaceLaws | src/main/java/com/young/commons/data/Triple.java:27-43 | a second replacement overrides the first, replacing a component by itself changes nothing, and replacing all three gives `of` |
| InetUtil.CommonPrefix | src/main/java/com/young/commons/net/InetUtil.java:82-86 | the leading characters two strings share, ending at the first difference or the shorter end |
| InetUtil.CommonPrefixUnique | src/main/java/com/young/commons/net/InetUtil.java:82-86 | that length is the only one with those properties |
| InetUtil.Row | src/main/java/com/young/commons/net/InetUtil.java:77 | the inner loop pairs every address, in order, with the pattern |
| InetUtil.PairsFrom | src/main/java/com/young/commons/net/InetUtil.java:72-77 | every candidate pairs an address with a pattern |
| InetUtil.RunBound | src/main/java/com/young/commons/net/InetUtil.java:87-90 | the best length only grows and bounds every candidate |
| InetUtil.RunWitness | src/main/java/com/young/commons/net/InetUtil.java:87-90 | the result is the start, or the first candidate reaching the best length |
| InetUtil.RunUnchanged | src/main/java/com/young/commons/net/InetUtil.java:74-81 | candidates that cannot beat the best change nothing, which is why the two skips are sound |
| InetUtil.PrefixLength | src/main/java/com/young/commons/net/InetUtil.java:82-86 | the character loop computes the common prefix length |
| InetUtil.MatchRow | src/main/java/com/young/commons/net/InetUtil.java:77-91 | the loop over addresses, with its skip, ends as the reference search over that row |
| InetUtil.MatchOne | src/main/java/com/young/commons/net/InetUtil.java:78-90 | one address: skipped when too short, adopted only when its prefix is strictly longer |
| InetUtil.Match | src/main/java/com/young/commons/net/InetUtil.java:69-94 | `match`, with both skips, returns the address of the reference search over all pairs |
| InetUtil.BestIsAddress | src/main/java/com/young/commons/net/InetUtil.java:69-93 | a non-null result is an element of `ips` |
| InetUtil.BestNullIffNoPrefix | src/main/java/com/young/commons/net/InetUtil.java:69-93 | the result is `null` exactly when no pair shares even a first character |
| InetUtil.BestOfEmpty | src/main/java/com/young/commons/net/InetUtil.java:69-93 | with no patterns or no addresses the result is `null` |
| InetUtil.BestIsFirstLongest | src/main/java/com/young/commons/net/InetUtil.java:87-90 | a returned address shares at least one character with some pattern; no pair shares more; no earlier pair shares as many |
| Files.LastIndexOf | src/main/java/com/young/commons/file/Files.java:137 | the last index of the character, or -1 |
| Files.Suffix | src/main/java/com/young/commons/file/Files.java:136-139 | `StringIndexOutOfBoundsException` exactly when there is no '.'; otherwise the tail of the name from its last '.', with no other '.' |
| Files.Name | src/main/java/com/young/commons/file/Files.java:125 | `getName`: the '/'-free tail of the path that starts right after its last '/', or the whole path |
| Files.NameIsLongestTail | src/main/java/com/young/commons/file/Files.java:125 | the name is the whole path, or the character before it is the last '/' |
| Files.SuffixIgnoresDirectory | src/main/java/com/young/commons/file/Files.java:124-128 | `suffix(File)` of `dir/name` is `suffix(name)` |
| Files.NameAfterSeparator | src/main/java/com/young/commons/file/Files.java:125 | the name of `dir/name` is `name` |
| Files.LastIndexAfter | src/main/java/com/young/commons/file/Files.java:137 | a match with no later match is the last index |
| Files.SuffixOfFileIsPathSuffix | src/main/java/com/young/commons/file/Files.java:124-128 | a suffix of a file is a tail of its path with no '/' in it |
| Files.SuffixOfFile | src/main/java/com/young/commons/file/Files.java:124-128 | `suffix(File)`: `StringIndexOutOfBoundsException` exactly when the part after the last '/' has no '.' |
| Files.SuffixOfPlainName | src/main/java/com/young/commons/file/Files.java:124-128 | a name without a directory has the same suffix as a file and as a string |
| StringUtils.HasTextHasLength | src/main/java/com/young/commons/Assert.java:152-156 | text that has text has length |
| StringUtils.BlankHasNoText | src/main/java/com/young/commons/Assert.java:116-120 | a lone blank has length but no text |
| StringUtils.LimitString | src/main/java/com/young/commons/StringUtils.java:25-31 | `StringIndexOutOfBoundsException` exactly for a negative limit; a short message is unchanged; a long one is cut to `maxLength` characters plus "..." |
| StringUtils.LimitStringBound | src/main/java/com/young/commons/StringUtils.java:26-27 | with a limit of at least 0 the result has at most `maxLength + 3` characters |
| StringUtils.LimitStringIdempotent | src/main/java/com/young/commons/StringUtils.java:25-31 | limiting twice equals limiting once |
| Lists.FromTo | src/main/java/com/young/commons/collection/Lists.java:7-13 | empty when `from > to`; otherwise `to - from + 1` consecutive values from `from` to `to`, strictly increasing |
| Assertions.IsTrue | src/main/java/com/young/commons/Assert.java:19-23 | throws `IllegalArgumentException` exactly when the expression is false |
| Assertions.IsNull | src/main/java/com/young/commons/Assert.java:52-56 | throws exactly when the object is non-null |
| Assertions.NotNull | src/main/java/com/young/commons/Assert.java:83-87 | throws exactly when the object is `null` |
| Assertions.NullChecksComplementary | src/main/java/com/young/commons/Assert.java:52-87 | `isNull` passes exactly where `notNull` throws |
| Assertions.HasLengthCheck | src/main/java/com/young/commons/Assert.java:116-120 | throws exactly for `null` or empty text |
| Assertions.HasTextCheck | src/main/java/com/young/commons/Assert.java:152-156 | throws exactly for `null` text or text that is all whitespace |
| Assertions.HasTextStricter | src/main/java/com/young/commons/Assert.java:116-156 | whatever `hasText` accepts, `hasLength` accepts; " " separates them |
| Assertions.IndexOfFrom | src/main/java/com/young/commons/Assert.java:190 | `indexOf` from a position: the first occurrence at or after it, or -1 when there is none |
| Assertions.IndexOfText | src/main/java/com/young/commons/Assert.java:190 | -1 exactly when the substring occurs nowhere; otherwise the first occurrence |
| Assertions.DoesNotContain | src/main/java/com/young/commons/Assert.java:186-193 | throws exactly when both strings have length and the substring occurs |
| Assertions.NotEmptyArray | src/main/java/com/young/commons/Assert.java:223-248 | throws exactly for a `null` or empty array |
| Assertions.IsEmptyArray | src/main/java/com/young/commons/Assert.java:246-248 | the private `isEmpty(Object[])`: `null` or of length 0 |
| Assertions.NoNullElements | src/main/java/com/young/commons/Assert.java:262-270 | throws exactly when a non-null array holds a `null` element |
| Assertions.NoNullElementsIn | src/main/java/com/young/commons/Assert.java:295-303 | throws exactly when a non-null collection holds a `null` element |
| Assertions.IsEmptyAsWritten | src/main/java/com/young/commons/Assert.java:311-313 | the public `isEmpty(Collection)` as written: true exactly when the collection is not `null` and not empty |
| Assertions.NotEmptyAsWritten | src/main/java/com/young/commons/Assert.java:311-325 | `notEmpty(Collection)` as written: throws exactly for a non-null, non-empty collection |
| Assertions.IsEmptyInverted | src/main/java/com/young/commons/Assert.java:311-313 | the written `isEmpty` is the negation of the documented one: `[x]` is rejected, while `[]` and `null` are accepted |
| Assertions.NotEmptyCollection | src/main/java/com/young/commons/Assert.java:321-325 | corrected: throws exactly for a `null` or empty collection |
| Assertions.NotEmptyAgreesWithArray | src/main/java/com/young/commons/Assert.java:223-325 | the corrected collection check equals the array check, and throws exactly where the written one passes |
| Retrys.Matches | src/main/java/com/young/commons/function/Retrys.java:133-200 | retryIf and retryWhen always match a failure; retryOn never matches a success; retryWhen matches a success equal to its value; retryOn(classes) matches a failure assignable to one of them |
| Retrys.RetryPolicy.constructor | src/main/java/com/young/commons/function/Retrys.java:94-96 | the maximum as given, no delay and no conditions |
| Retrys.RetryPolicy.InitWithMaxRetries | src/main/java/com/young/commons/function/Retrys.java:118-121 | `IllegalArgumentException` exactly when the maximum is below -1; otherwise a fresh empty policy |
| Retrys.RetryPolicy.Never | src/main/java/com/young/commons/function/Retrys.java:105-107 | a fresh policy with maximum 0 |
| Retrys.RetryPolicy.RetryIfResult | src/main/java/com/young/commons/function/Retrys.java:131-135 | `NullPointerException` for `null`, else one `retryIf` condition appended; the delay is kept |
| Retrys.RetryPolicy.RetryOn | src/main/java/com/young/commons/function/Retrys.java:146-149 | `IllegalArgumentException` exactly for a `null` or empty array, else one class condition appended |
| Retrys.RetryPolicy.RetryOnCollection | src/main/java/com/young/commons/function/Retrys.java:159-162 | with the documented non-empty check: `IllegalArgumentException` exactly for `null` or empty, else one class condition appended |
| Retrys.RetryPolicy.RetryOnStream | src/main/java/com/young/commons/function/Retrys.java:171-176 | `NullPointerException` for `null`, else one class condition appended |
| Retrys.RetryPolicy.RetryOnPredicate | src/main/java/com/young/commons/function/Retrys.java:186-190 | `NullPointerException` for `null`, else one failure-predicate condition appended |
| Retrys.RetryPolicy.RetryWhenResult | src/main/java/com/young/commons/function/Retrys.java:199-202 | one `retryWhen` condition appended |
| Retrys.RetryPolicy.WithDelay | src/main/java/com/young/commons/function/Retrys.java:213-218 | `NullPointerException` for a `null` unit, `IllegalArgumentException` for a delay of at most 0, and otherwise the delay set; the conditions are kept |
| Retrys.RetryPolicy.CanRetryFor | src/main/java/com/young/commons/function/Retrys.java:228-239 | `NullPointerException` exactly for `null`; false once a finite maximum is reached; otherwise, with no conditions, true exactly for a failure, and with conditions, true exactly when one matches |
| Retrys.UnlimitedIgnoresCount | src/main/java/com/young/commons/function/Retrys.java:231-233 | with maximum -1 the retry count never matters |
| Retrys.ConditionKinds | src/main/java/com/young/commons/function/Retrys.java:133-200 | below the maximum, only-retryIf/retryWhen policies retry every failure, and only-retryOn policies never retry a success |
| Retrys.Retrys.With | src/main/java/com/young/commons/function/Retrys.java:38-40 | the executor holds the given policy |
| Retrys.Retrys.Get | src/main/java/com/young/commons/function/Retrys.java:61-81 | the result is that of the first attempt the policy declines to retry, and every earlier attempt was retried; there are at most `maxRetries + 1` attempts when the maximum is not -1 |
| Retrys.Retrys.Retry | src/main/java/com/young/commons/function/Retrys.java:76-78 | the next attempt's result and the count incremented in 32 bits |
| Retrys.Retrys.NoConditionsStopAtSuccess | src/main/java/com/young/commons/function/Retrys.java:228-237 | with no conditions the loop stops at the first success or at a finite maximum |
| Retrys.Wrap32Step | src/main/java/com/young/commons/function/Retrys.java:78 | incrementing a wrapped count wraps the incremented count |
| RetryOperations.RetryOperation.constructor | src/main/java/com/young/commons/RetryOperation.java:17-25 | the fields as given |
| RetryOperations.RetryOperation.IncreaseRetryCountAndSleep | src/main/java/com/young/commons/RetryOperation.java:69-79 | the count plus one, and a sleep exactly when another attempt remains and the delay is positive |
| RetryOperations.RetryOperation.HandleException | src/main/java/com/young/commons/RetryOperation.java:56-67 | rethrows an exception matching no entry of a non-empty list; otherwise counts the attempt and rethrows exactly when it was the last |
| RetryOperations.RetryOperation.Retry | src/main/java/com/young/commons/RetryOperation.java:31-54 | the loop ends with the outcome and evaluation count of the reference run `RetryFrom(0, null)` |
| RetryOperations.RetryOperation.EvaluationsBound | src/main/java/com/young/commons/RetryOperation.java:35 | at most `noOfRetry` evaluations, and none with `null` returned when `noOfRetry` is not positive |
| RetryOperations.RetryOperation.ThrownIsLastEvaluation | src/main/java/com/young/commons/RetryOperation.java:48-62 | a thrown outcome is the exception of the last evaluation made |
| RetryOperations.RetryOperation.FirstValueWithoutPredicate | src/main/java/com/young/commons/RetryOperation.java:37-40 | without a predicate, after retryable exceptions only, the first returned value is the result |
| RetryOperations.RetryOperation.AlwaysRetried | src/main/java/com/young/commons/RetryOperation.java:35-53 | when the predicate always asks to retry, exactly `noOfRetry` evaluations and the last value |
| RetryOperations.RetryOperation.ExceptionPassedOn | src/main/java/com/young/commons/RetryOperation.java:56-66 | an exception matching no entry is passed on at once, and a retryable one on the last allowed attempt |
| RetryOperations.OperationBuilder.constructor | src/main/java/com/young/commons/RetryOperation.java:100-101 | every setting unset and an empty message |
| RetryOperations.OperationBuilder.SetRetryConsumer | src/main/java/com/young/commons/RetryOperation.java:103-106 | sets the consumer and nothing else |
| RetryOperations.OperationBuilder.SetNoOfRetry | src/main/java/com/young/commons/RetryOperation.java:108-111 | sets the count and nothing else |
| RetryOperations.OperationBuilder.SetDelayInterval | src/main/java/com/young/commons/RetryOperation.java:113-117 | sets delay and unit and nothing else |
| RetryOperations.OperationBuilder.SetRetryPredicate | src/main/java/com/young/commons/RetryOperation.java:119-122 | sets the predicate and nothing else |
| RetryOperations.OperationBuilder.SetRetryOn | src/main/java/com/young/commons/RetryOperation.java:125-128 | sets the class array and nothing else |
| RetryOperations.OperationBuilder.SetMessage | src/main/java/com/young/commons/RetryOperation.java:130-133 | sets the message and nothing else |
| RetryOperations.OperationBuilder.Build | src/main/java/com/young/commons/RetryOperation.java:135-148 | `RuntimeException` without a consumer; otherwise a count of 0 becomes 1 and a missing unit becomes milliseconds (both kept in the builder), and the operation gets the given classes, or an empty list when they are `null` or empty |
| LazySuppliers.LazySupplier.Of | src/main/java/com/young/commons/function/LazySupplier.java:12-18 | nothing is cached yet |
| LazySuppliers.LazySupplier.Peek | src/main/java/com/young/commons/function/LazySupplier.java:20-29 | what `get` returns now: the cached value, or the supplier's next answer, where `null` means `IllegalStateException` |
| LazySuppliers.LazySupplier.Get | src/main/java/com/young/commons/function/LazySupplier.java:20-29 | returns `Peek`; calls the supplier exactly once when nothing is cached and never otherwise; caches exactly a non-null answer, so the next `get` returns it again |
| LazySuppliers.LazySupplier.Map | src/main/java/com/young/commons/function/LazySupplier.java:31-33 | a fresh uncached supplier over this one and `fn`; neither is called |
| LazySuppliers.LazySupplier.FlatMap | src/main/java/com/young/commons/function/LazySupplier.java:35-37 | a fresh uncached supplier over this one and `fn`; neither is called |
| LazySuppliers.MappedSupplier.Get | src/main/java/com/young/commons/function/LazySupplier.java:32 | `fn` of the source's `get`, with the source's exception passed on and a `null` result giving `IllegalStateException`; cached once non-null; a cached `get` leaves the source's cache and call count alone, and an uncached one leaves the source caching its answer after at most one supplier call |
| LazySuppliers.FlatMappedSupplier.Get | src/main/java/com/young/commons/function/LazySupplier.java:36 | the `get` of the supplier `fn` gives for the source's `get`: `NullPointerException` for a `null` supplier, and either exception passed on; cached once non-null; the source's cache and call count, and the chosen target's, change as their own `get` says, and every other target keeps its cache and, unless it shares the chosen target's supplier, its call count |
| MemoizedFunctions.MemoizedFunction.constructor | src/main/java/com/young/commons/function/MemoizedFunction.java:13-15 | an empty cache |
| MemoizedFunctions.MemoizedFunction.Apply | src/main/java/com/young/commons/function/MemoizedFunction.java:18-29 | `NullPointerException` for `null`; a cached argument returns its value without a call; otherwise one call, caching and returning a non-null result and throwing for `null`; the cache stays consistent and the function runs at most once per argument with a non-null result |

## Left out

- Everything outside the modelled classes, because it is threads, I/O, networking, reflection or floating point:
  - `TimingWheel`, the thread and executor helpers, the buffer allocators, `UnsafeAccess`, `LazySoftReference`, `Environment`, `Conversions` and `Partition`;
  - the file I/O in `Files`, and `humanReadableByteCount`, which is floating point;
  - the network enumeration in `InetUtil`;
  - `StringUtils.getBytes`/`fromBytes`, which depend on charset encoding.
- The accessors that only return a field: the wheel's `timeUnit`, `tickResolution`, `ticksPerWheel`, `startTime`, `timerCount`, `Triple.first/second/third`, and `RetryPolicy.getDelay`. They are the fields of the model.
- `TimeUnit` is only a label. Sleeping and its `InterruptedException` paths are not modelled: `Retrys.call` at lines 71-73 and `RetryOperation.increaseRetryCountAndSleep` at lines 72-76. `IncreaseRetryCountAndSleep` reports whether it would sleep.
- A callback cannot re-enter the wheel. The timer handler is a pure function of the handle, and `forEach` returns the list of entries it would pass to the consumer.
- `DeadlineTimer.DeadlineTimerWheel.ScheduleTimer` requires `deadline != Long.MAX_VALUE`. The source would count such a timer while its slot still looks empty.
- `DeadlineTimer.DeadlineTimerWheel.constructor` requires a configuration that passes the checks. `Create` models the throwing constructor.
- `DeadlineTimer.DeadlineTimerWheel.Create` requires the slot count to be below 2^32 when the checks pass. A larger product would wrap the `int` multiplication back to a non-negative count, and that is not modelled.
- The branch `else if (pollIndex >= tickAllocation)` of `poll` is not modelled. It cannot be taken, because the cursor always stays below the allocation (part of `Valid`).
- The 64-bit overflow of `deadline - startTime` and `now - startTime` is modelled with `Wrap64`, not excluded.
- `BitUtil.isPowerOfTwo` is defined by what it computes. `TrailingZeros` models the JDK's `Long.numberOfTrailingZeros` and `Integer.numberOfTrailingZeros` only on powers of two, the only arguments the wheel passes them.
- `SemanticVersion`:
  - `toLowerCase` before `indexOf("-")` is left out. It moves no '-' as long as every character lowercases to one character; see the `FromVersion` line below for the text where it does not;
  - `getMajorAsString` and `getMinorAsString` are left out, because they are `Integer.toString` of `GetMajor`/`GetMinor`;
  - `\d` is ASCII digits only, matching Java's default;
  - `equals` against an object of another class is `None`.
- SemVer.ParseInt: accepts only the ASCII digits 0-9. `Integer.valueOf` reads digits with `Character.digit`, which also accepts the decimal digits of other scripts, so `"1.2١"` parses as `[1, 21]` in Java and fails with `RuntimeException` in the model. Unicode digit classes are not modelled.
- SemVer.FromVersion: the model cuts at the first '-' of the text itself. Java takes the index from `toLowerCase()`, and a character such as 'İ' (U+0130) lowercases to two characters. For text such as `"İİ-"` that index lies past the end, and `substring` throws `StringIndexOutOfBoundsException`, which the model does not produce: it gives the parse result of the cut text instead. Locale-dependent case mapping is not modelled.
- InetUtil.Match, InetUtil.MatchOne, InetUtil.PrefixLength, InetUtil.CommonPrefix: lengths and shared prefixes are counted in Unicode scalar values, where Java's `length()` and `charAt` count UTF-16 code units. Two characters outside the Basic Multilingual Plane that share a high surrogate, such as U+1F600 and U+1F601, share one unit in Java and nothing here. So for `ips = {"😀"}` and `likes = ["😁"]` Java returns the address, while the model returns `null`. UTF-16 encoding is not modelled.
- StringUtils.LimitString: `length()` and `substring` count Unicode scalar values here, where Java counts UTF-16 code units. A message with characters outside the Basic Multilingual Plane is therefore cut at a different place than in Java, which can split a surrogate pair.
- `StringUtils.isEmpty`, `containsWhiteSpace`, `hasLength` and `hasText` are defined by their names and their callers' documentation, with `Character.isWhitespace` for whitespace.
- `Tuple` equality of elements is Dafny equality. Its `hashCode` (identity), `toString` and the `Tuple(int)` capacity constructor are left out, because they have no observable list behaviour.
- `Triple`: a component's `hashCode` is a function passed in, assumed consistent with equality.
- `InetUtil.match` receives the `Set` as a sequence in its iteration order. That order is whatever the set gives.
- `Retrys.Retrys.With` does not model the `null` check on the policy. `Retrys.run` (a `CheckedRunnable` turned into a callable) is not modelled, because it is `get` on a callable whose value is `null`. The `null` check on the callable is not modelled either.
- `Retrys.Retrys.Get` requires a non-negative maximum, or that some attempt ends the loop, so that it terminates. With maximum -1 and every attempt retried, the Java loop runs forever.
- Retrys.RetryPolicy.RetryOnStream, and through it `Retrys.Matches` and `Retrys.Retrys.Get`: `retryOn(Stream)` consumes its stream on the first match test, so a second test of the same condition would throw `IllegalStateException`. The model reuses the class list.
- `Retrys.RetryPolicy.RetryOnCollection` uses the documented non-empty check, not the inverted one the source calls (see Findings).
- Callables, consumers, retry predicates and the functions given to `map`/`flatMap` never throw. Throwables that `catch (Exception)` would not catch (`Error`s) are not distinguished.
- A `null` passed where the source dereferences its argument without a check is excluded by the types, so the `NullPointerException` it would throw is not modelled. This covers the pattern list of `InetUtil.match` and its address set once a pattern is tried, the `File` of `Files.suffix(File)`, the string of `Files.suffix(String)` and the message of `StringUtils.limitString`.
- Exception messages are not modelled. An overload that differs only by its message is the same member.
- `LazySupplier.map` and `flatMap` return classes of their own (`MappedSupplier`, `FlatMappedSupplier`), so the model cannot chain a further `map` on them.
- LazySuppliers.LazySupplier.FlatMap and LazySuppliers.FlatMappedSupplier.Get require the suppliers `fn` can return to share no state with the source supplier.
- `MemoizedFunctions.MemoizedFunction.Apply`: the `ConcurrentHashMap` is a `map` used by one thread. `calls` is a ghost record of the arguments passed to the function.
- `Lists.FromTo` requires `to < Integer.MAX_VALUE`, because otherwise the Java loop never ends.

## Findings

| source | as written | input that shows it | evidently intended | confidence | as-written member | corrected member |
|---|---|---|---|---|---|---|
| src/main/java/com/young/commons/timer/DeadlineTimerWheel.java:272 | a slot counts as expired when `now >= deadline`, and an empty slot holds `Long.MAX_VALUE` | `poll(Long.MAX_VALUE, h, 1)` on a wheel with one timer in another slot of the current spoke: the empty slot is "expired", `timerCount` drops, and the handler sees a handle with no timer | expire only occupied slots | not executed | TimerSlots.ScanAsWrittenExpiresEmptySlot | TimerSlots.ScanLive |
| src/main/java/com/young/commons/timer/DeadlineTimerWheel.java:314 | `forEach` builds the slot index as `i & tickMask` (modulo `ticksPerWheel`) | one spoke, allocation 2, a timer in slot 1: it reports handle 0, and `deadline(0)` is the empty slot 0 | `i & (tickAllocation - 1)` | not executed | TimerSlots.EntriesAsWrittenMisresolve | DeadlineTimer.DeadlineTimerWheel.ForEachCorrected |
| src/main/java/com/young/commons/data/Tuple.java:88-97 | `removeName` removes the value but not the name | `add("a", 1); removeName("a"); add(2); getValue("a")` returns 2 | remove the name too | not executed | Tuples.RemovedNameStillResolves | Tuples.RemovedNameGoneCorrected |
| src/main/java/com/young/commons/Assert.java:311-313 | `isEmpty(Collection)` is true for a non-null, non-empty collection, so `notEmpty(Collection)` rejects `[x]` and accepts `[]` and `null` | `notEmpty(List.of(x), m)` throws; `notEmpty(List.of(), m)` passes | `collection == null \|\| collection.isEmpty()` | not executed | Assertions.IsEmptyInverted | Assertions.NotEmptyAgreesWithArray |
