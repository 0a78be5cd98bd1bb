/** `Retrys` and its `RetryPolicy`: a callable is run once and then re-run
    while the policy says the latest result may be retried. The callable is
    an oracle from the attempt number (0 for the first call) to its `Try`,
    and the delay between attempts is recorded but never slept. */
module Retrys {
  import opened Machine
  import opened Outcomes
  import opened TimeUnits
  import Assertions

  /** `Try`: a success holding a possibly-`null` value, or the failure the
      call threw. */
  datatype Try<T> = Success(value: Option<T>) | Failure(cause: Throwable)

  /** The `delay` field: `Duration.NONE` until `withDelay` sets one. */
  datatype Delay = NoDelay | Delay(length: int64, unit: TimeUnit)

  /** One registered retry condition, by the builder that added it. */
  datatype Condition<!T> =
    | RetryIf(resultPredicate: Option<T> -> bool)
    | RetryOnClasses(failures: seq<ClassId>)
    | RetryOnFailure(failurePredicate: Throwable -> bool)
    | RetryWhen(result: Option<T>)

  /** The predicate a condition stands for: the `fold` of its success and
      failure branches. */
  function Matches<T(==)>(c: Condition<T>, t: Try<T>): (r: bool)
    ensures t.Failure? && (c.RetryIf? || c.RetryWhen?) ==> r
    ensures t.Success? && (c.RetryOnClasses? || c.RetryOnFailure?) ==> !r
    ensures t.Success? && c.RetryWhen? ==> (r <==> t.value == c.result)
    ensures t.Failure? && c.RetryOnClasses? ==> (r <==> exists i :: 0 <= i < |c.failures| && IsInstance(t.cause, c.failures[i]))
  {
    match c
    case RetryIf(p) => if t.Success? then p(t.value) else true
    case RetryOnClasses(fs) => t.Failure? && exists i :: 0 <= i < |fs| && IsInstance(t.cause, fs[i])
    case RetryOnFailure(p) => t.Failure? && p(t.cause)
    case RetryWhen(v) => if t.Success? then t.value == v else true
  }

  class RetryPolicy<T(==)> {
    const maxRetries: int32
    var delay: Delay
    var retryConditions: seq<Condition<T>>

    /** The private constructor: no check on `maxRetries`. */
    constructor (maxRetries: int32)
      ensures this.maxRetries == maxRetries && delay == NoDelay && retryConditions == []
    {
      this.maxRetries := maxRetries;
      delay := NoDelay;
      retryConditions := [];
    }

    /** `initWithMaxRetries`: rejects a maximum below -1. */
    static method InitWithMaxRetries(maxRetries: int32) returns (r: Result<RetryPolicy<T>>)
      ensures r.Err? <==> maxRetries < -1
      ensures r.Err? ==> r.error == IllegalArgument
      ensures r.Ok? ==>
        fresh(r.value) && r.value.maxRetries == maxRetries && r.value.delay == NoDelay && r.value.retryConditions == []
    {
      var check := Assertions.IsTrue(maxRetries >= -1);
      if check.Fail? {
        return Err(check.error);
      }
      var p := new RetryPolicy(maxRetries);
      return Ok(p);
    }

    /** `never`: a policy allowing no retry. */
    static method Never() returns (p: RetryPolicy<T>)
      ensures fresh(p) && p.maxRetries == 0 && p.delay == NoDelay && p.retryConditions == []
    {
      var r := InitWithMaxRetries(0);
      p := r.value;
    }

    /** `retryIf`: a success is retried when the predicate holds of its value,
        and a failure always. */
    method RetryIfResult(resultPredicate: Option<Option<T> -> bool>) returns (o: Outcome)
      modifies this
      ensures resultPredicate.None? ==> o == Fail(NullPointer) && retryConditions == old(retryConditions)
      ensures resultPredicate.Some? ==> o == Pass && retryConditions == old(retryConditions) + [RetryIf(resultPredicate.value)]
      ensures delay == old(delay)
    {
      if resultPredicate.None? {
        return Fail(NullPointer);
      }
      retryConditions := retryConditions + [RetryIf(resultPredicate.value)];
      return Pass;
    }

    /** `retryOn(Class...)`: the classes must form a non-empty array. */
    method RetryOn(failures: Option<seq<ClassId>>) returns (o: Outcome)
      modifies this
      ensures o.Fail? <==> failures.None? || |failures.value| == 0
      ensures o.Fail? ==> o == Fail(IllegalArgument) && retryConditions == old(retryConditions)
      ensures o.Pass? ==> retryConditions == old(retryConditions) + [RetryOnClasses(failures.value)]
      ensures delay == old(delay)
    {
      var check := Assertions.NotEmptyArray(failures);
      if check.Fail? {
        return check;
      }
      o := RetryOnStream(failures);
    }

    /** `retryOn(Collection)`, with the documented `notEmpty` check (see
        `Assertions.NotEmptyAsWritten` for the one the code calls). */
    method RetryOnCollection(failures: Option<seq<ClassId>>) returns (o: Outcome)
      modifies this
      ensures o.Fail? <==> failures.None? || |failures.value| == 0
      ensures o.Fail? ==> o == Fail(IllegalArgument) && retryConditions == old(retryConditions)
      ensures o.Pass? ==> retryConditions == old(retryConditions) + [RetryOnClasses(failures.value)]
      ensures delay == old(delay)
    {
      var check := Assertions.NotEmptyCollection(failures);
      if check.Fail? {
        return check;
      }
      o := RetryOnStream(failures);
    }

    /** `retryOn(Stream)`: a failure is retried when its class is assignable to
        one of the given classes; a success never. */
    method RetryOnStream(failures: Option<seq<ClassId>>) returns (o: Outcome)
      modifies this
      ensures failures.None? ==> o == Fail(NullPointer) && retryConditions == old(retryConditions)
      ensures failures.Some? ==> o == Pass && retryConditions == old(retryConditions) + [RetryOnClasses(failures.value)]
      ensures delay == old(delay)
    {
      if failures.None? {
        return Fail(NullPointer);
      }
      retryConditions := retryConditions + [RetryOnClasses(failures.value)];
      return Pass;
    }

    /** `retryOn(Predicate)`: a failure is retried when the predicate holds of
        it; a success never. */
    method RetryOnPredicate(failurePredicate: Option<Throwable -> bool>) returns (o: Outcome)
      modifies this
      ensures failurePredicate.None? ==> o == Fail(NullPointer) && retryConditions == old(retryConditions)
      ensures failurePredicate.Some? ==> o == Pass && retryConditions == old(retryConditions) + [RetryOnFailure(failurePredicate.value)]
      ensures delay == old(delay)
    {
      if failurePredicate.None? {
        return Fail(NullPointer);
      }
      retryConditions := retryConditions + [RetryOnFailure(failurePredicate.value)];
      return Pass;
    }

    /** `retryWhen`: a success equal to `result` is retried, and a failure
        always. */
    method RetryWhenResult(result: Option<T>)
      modifies this
      ensures retryConditions == old(retryConditions) + [RetryWhen(result)]
      ensures delay == old(delay)
    {
      retryConditions := retryConditions + [RetryWhen(result)];
    }

    /** `withDelay`: a `null` unit throws `NullPointerException`, and a delay
        that is not positive `IllegalArgumentException`. */
    method WithDelay(length: int64, timeUnit: Option<TimeUnit>) returns (o: Outcome)
      modifies this
      ensures timeUnit.None? ==> o == Fail(NullPointer)
      ensures timeUnit.Some? && length <= 0 ==> o == Fail(IllegalArgument)
      ensures timeUnit.Some? && length > 0 ==> o == Pass
      ensures delay == if o.Pass? then Delay(length, timeUnit.value) else old(delay)
      ensures retryConditions == old(retryConditions)
    {
      if timeUnit.None? {
        return Fail(NullPointer);
      }
      var check := Assertions.IsTrue(length > 0);
      if check.Fail? {
        return check;
      }
      delay := Delay(length, timeUnit.value);
      return Pass;
    }

    /** `canRetryFor`: never once a finite maximum is reached; otherwise, with
        no conditions, exactly for a failure, and with conditions, when any of
        them matches. */
    function CanRetryFor(result: Option<Try<T>>, retryCount: int32): (r: Result<bool>)
      reads this
      ensures r.Err? <==> result.None?
      ensures r.Err? ==> r.error == NullPointer
      ensures r.Ok? && maxRetries != -1 && retryCount >= maxRetries ==> !r.value
      ensures r.Ok? && (maxRetries == -1 || retryCount < maxRetries) && retryConditions == [] ==>
        (r.value <==> result.value.Failure?)
      ensures r.Ok? && (maxRetries == -1 || retryCount < maxRetries) && retryConditions != [] ==>
        (r.value <==> exists i :: 0 <= i < |retryConditions| && Matches(retryConditions[i], result.value))
    {
      if result.None? then Err(NullPointer)
      else if maxRetries != -1 && retryCount >= maxRetries then Ok(false)
      else if |retryConditions| == 0 then Ok(result.value.Failure?)
      else Ok(exists i :: 0 <= i < |retryConditions| && Matches(retryConditions[i], result.value))
    }
  }

  /** With a maximum of -1 the count never matters. */
  lemma UnlimitedIgnoresCount<T>(p: RetryPolicy<T>, t: Try<T>, c1: int32, c2: int32)
    requires p.maxRetries == -1
    ensures p.CanRetryFor(Some(t), c1) == p.CanRetryFor(Some(t), c2)
  {
  }

  /** A policy whose conditions are all `retryIf` or `retryWhen` retries every
      failure below the maximum, and one whose conditions are all
      `retryOn` never retries a success. */
  lemma ConditionKinds<T>(p: RetryPolicy<T>, t: Try<T>, c: int32)
    requires p.maxRetries == -1 || c < p.maxRetries
    ensures t.Failure? && (forall i :: 0 <= i < |p.retryConditions| ==> p.retryConditions[i].RetryIf? || p.retryConditions[i].RetryWhen?) ==>
      p.CanRetryFor(Some(t), c) == Ok(true)
    ensures t.Success? && (forall i :: 0 <= i < |p.retryConditions| ==> p.retryConditions[i].RetryOnClasses? || p.retryConditions[i].RetryOnFailure?) ==>
      p.CanRetryFor(Some(t), c) == Ok(false)
  {
    if t.Failure? && |p.retryConditions| > 0 {
      assert Matches(p.retryConditions[0], t) || !(p.retryConditions[0].RetryIf? || p.retryConditions[0].RetryWhen?);
    }
  }

  class Retrys<T(==)> {
    const retryPolicy: RetryPolicy<T>

    /** `with`. */
    constructor With(retryPolicy: RetryPolicy<T>)
      ensures this.retryPolicy == retryPolicy
    {
      this.retryPolicy := retryPolicy;
    }

    /** The loop ends after attempt `n` (made with retry count `n` in 32-bit
        arithmetic). */
    predicate StopsAt(callable: nat -> Try<T>, n: nat)
      reads retryPolicy
    {
      retryPolicy.CanRetryFor(Some(callable(n)), Wrap32(n)) == Ok(false)
    }

    /** `get`/`call`: one first attempt, then one more while `canRetryFor`
        holds of the latest result. It returns the result of the first attempt
        the policy declines to retry, so at most `maxRetries + 1` attempts when
        the maximum is not -1. With a maximum of -1 the caller must know that
        some attempt ends the loop. */
    method Get(callable: nat -> Try<T>) returns (result: Try<T>, attempts: nat)
      requires retryPolicy.maxRetries >= 0 || exists n: nat :: StopsAt(callable, n)
      ensures attempts >= 1 && result == callable(attempts - 1)
      ensures StopsAt(callable, attempts - 1)
      ensures forall j: nat :: j < attempts - 1 ==> !StopsAt(callable, j)
      ensures retryPolicy.maxRetries >= 0 ==> attempts <= retryPolicy.maxRetries + 1
    {
      ghost var bound: nat;
      if retryPolicy.maxRetries >= 0 {
        bound := retryPolicy.maxRetries as nat;
      } else {
        bound :| StopsAt(callable, bound);
      }
      var retryCount: int32 := 0;
      attempts := 1;
      result := callable(0);
      while retryPolicy.CanRetryFor(Some(result), retryCount).value
        invariant 1 <= attempts <= bound + 1
        invariant result == callable(attempts - 1) && retryCount == Wrap32(attempts - 1)
        invariant forall j: nat :: j < attempts - 1 ==> !StopsAt(callable, j)
        decreases bound + 1 - attempts
      {
        assert !StopsAt(callable, attempts - 1);
        result, retryCount := Retry(callable, attempts, retryCount);
        attempts := attempts + 1;
      }
    }

    /** One retry: the next attempt, and `++retryCount` in 32 bits. */
    method Retry(callable: nat -> Try<T>, attempts: nat, retryCount: int32) returns (result: Try<T>, next: int32)
      requires attempts >= 1 && retryCount == Wrap32(attempts - 1)
      ensures result == callable(attempts) && next == Wrap32(attempts)
    {
      result := callable(attempts);
      Wrap32Step(attempts - 1);
      next := Wrap32(retryCount + 1);
    }

    /** With no conditions the loop ends at the first success, or when a finite
        maximum is reached. */
    lemma NoConditionsStopAtSuccess(callable: nat -> Try<T>, n: nat)
      requires retryPolicy.retryConditions == [] && n <= INT_MAX
      ensures StopsAt(callable, n) <==> callable(n).Success? || (retryPolicy.maxRetries != -1 && n >= retryPolicy.maxRetries)
    {
    }
  }

  /** Counting in 32 bits: adding one to a wrapped count wraps the next count. */
  lemma Wrap32Step(x: int)
    ensures Wrap32(Wrap32(x) + 1) == Wrap32(x + 1)
  {
  }
}
