/** `RetryOperation` and its `OperationBuilder`: a consumer is evaluated until
    it returns a result the predicate does not want retried, throws an
    exception that is not to be retried, or the allowed number of attempts
    is used up. The consumer is an oracle from the attempt number (0 for the
    first evaluation) to what that evaluation returns or throws; the
    sleeps between attempts are reported but not performed. */
module RetryOperations {
  import opened Machine
  import opened Outcomes
  import opened TimeUnits

  /** What one evaluation of the consumer, or `retry` itself, does: return a
      possibly-`null` value or throw. */
  datatype Evaluation<T> = Returned(value: Option<T>) | Threw(exception: Throwable)

  /** The end of a `retry` call: its outcome and how many evaluations it made. */
  datatype Run<T> = Run(result: Evaluation<T>, evaluations: nat)

  /** Some entry of the list is assignable from the exception's class. */
  predicate AnyAssignable(exceptionList: seq<ClassId>, e: Throwable) {
    exists i :: 0 <= i < |exceptionList| && IsInstance(e, exceptionList[i])
  }

  class RetryOperation<T(==)> {
    const retryConsumer: nat -> Evaluation<T>
    const noOfRetry: int32
    const delayInterval: int32
    const timeUnit: TimeUnit
    const retryPredicate: Option<Option<T> -> bool>
    const exceptionList: seq<ClassId>

    /** The private constructor. */
    constructor (retryConsumer: nat -> Evaluation<T>, noOfRetry: int32, delayInterval: int32, timeUnit: TimeUnit,
                 retryPredicate: Option<Option<T> -> bool>, exceptionList: seq<ClassId>)
      ensures this.retryConsumer == retryConsumer && this.noOfRetry == noOfRetry && this.delayInterval == delayInterval
      ensures this.timeUnit == timeUnit && this.retryPredicate == retryPredicate && this.exceptionList == exceptionList
    {
      this.retryConsumer := retryConsumer;
      this.noOfRetry := noOfRetry;
      this.delayInterval := delayInterval;
      this.timeUnit := timeUnit;
      this.retryPredicate := retryPredicate;
      this.exceptionList := exceptionList;
    }

    /** An exception is passed on at once when the list is non-empty and none
        of its entries matches. */
    predicate Retryable(e: Throwable) {
      exceptionList == [] || AnyAssignable(exceptionList, e)
    }

    /** The reference behaviour of `retry` from attempt `k`, the last returned
        value being `last`: the run it ends in. */
    function RetryFrom(k: nat, last: Option<T>): Run<T>
      decreases noOfRetry - k
    {
      if k >= noOfRetry then Run(Returned(last), k)
      else match retryConsumer(k)
        case Returned(v) =>
          if retryPredicate.None? || !retryPredicate.value(v) then Run(Returned(v), k + 1)
          else RetryFrom(k + 1, v)
        case Threw(e) =>
          if !Retryable(e) || k + 1 == noOfRetry then Run(Threw(e), k + 1)
          else RetryFrom(k + 1, last)
    }

    /** `increaseRetryCountAndSleep`: the next count, and whether it sleeps
        (only before another allowed attempt, and only for a positive delay). */
    method IncreaseRetryCountAndSleep(retries: int32) returns (next: int32, slept: bool)
      ensures INT_MIN <= retries + 1 <= INT_MAX ==> next == retries + 1
      ensures slept <==> next < noOfRetry && delayInterval > 0
    {
      next := Wrap32(retries + 1);
      slept := next < noOfRetry && delayInterval > 0;
    }

    /** `handleException`: rethrows an exception that is not retryable, and
        otherwise counts the attempt and rethrows when it was the last. */
    method HandleException(retries: int32, e: Throwable) returns (next: int32, rethrow: bool)
      ensures !Retryable(e) ==> rethrow
      ensures Retryable(e) && INT_MIN <= retries + 1 <= INT_MAX ==> next == retries + 1 && (rethrow <==> next == noOfRetry)
    {
      if exceptionList != [] && !AnyAssignable(exceptionList, e) {
        return retries, true;
      }
      var slept;
      next, slept := IncreaseRetryCountAndSleep(retries);
      rethrow := next == noOfRetry;
    }

    /** `retry`: the loop over attempts, which ends as the reference run from
        attempt 0 does. */
    method Retry() returns (result: Evaluation<T>, evaluations: nat)
      ensures Run(result, evaluations) == RetryFrom(0, None)
    {
      var last: Option<T> := None;
      var retries: int32 := 0;
      while retries < noOfRetry
        invariant 0 <= retries
        invariant RetryFrom(retries as nat, last) == RetryFrom(0, None)
        decreases noOfRetry - retries
      {
        match retryConsumer(retries as nat)
        case Returned(v) =>
          last := v;
          if retryPredicate.None? || !retryPredicate.value(last) {
            return Returned(last), retries as nat + 1;
          }
          var slept;
          retries, slept := IncreaseRetryCountAndSleep(retries);
        case Threw(e) =>
          var rethrow;
          var next;
          next, rethrow := HandleException(retries, e);
          if rethrow {
            return Threw(e), retries as nat + 1;
          }
          retries := next;
      }
      return Returned(last), retries as nat;
    }

    /** At most `noOfRetry` evaluations, and none at all when it is not
        positive. */
    lemma {:induction false} EvaluationsBound(k: nat, last: Option<T>)
      ensures k <= RetryFrom(k, last).evaluations <= Max(noOfRetry, k)
      ensures noOfRetry <= k ==> RetryFrom(k, last) == Run(Returned(last), k)
      decreases noOfRetry - k
    {
      if k < noOfRetry {
        match retryConsumer(k)
        case Returned(v) =>
          if retryPredicate.Some? && retryPredicate.value(v) {
            EvaluationsBound(k + 1, v);
          }
        case Threw(e) =>
          if Retryable(e) && k + 1 != noOfRetry {
            EvaluationsBound(k + 1, last);
          }
      }
    }

    /** A thrown outcome is the exception of the last evaluation made. */
    lemma {:induction false} ThrownIsLastEvaluation(k: nat, last: Option<T>)
      ensures var r := RetryFrom(k, last);
        r.result.Threw? ==> k < r.evaluations <= noOfRetry && retryConsumer(r.evaluations - 1) == Threw(r.result.exception)
      decreases noOfRetry - k
    {
      if k < noOfRetry {
        match retryConsumer(k)
        case Returned(v) =>
          if retryPredicate.Some? && retryPredicate.value(v) {
            ThrownIsLastEvaluation(k + 1, v);
          }
        case Threw(e) =>
          if Retryable(e) && k + 1 != noOfRetry {
            ThrownIsLastEvaluation(k + 1, last);
          }
      }
    }

    /** Without a predicate, after retryable exceptions only, the first value
        returned is the result. */
    lemma {:induction false} FirstValueWithoutPredicate(i: nat, k: nat, last: Option<T>)
      requires retryPredicate.None? && i <= k < noOfRetry && retryConsumer(k).Returned?
      requires forall j :: i <= j < k ==> retryConsumer(j).Threw? && Retryable(retryConsumer(j).exception)
      ensures RetryFrom(i, last) == Run(retryConsumer(k), k + 1)
      decreases k - i
    {
      if i < k {
        FirstValueWithoutPredicate(i + 1, k, last);
      }
    }

    /** When the predicate asks for a retry after every evaluation, the run
        makes exactly `noOfRetry` evaluations and returns the last value. */
    lemma {:induction false} AlwaysRetried(i: nat, last: Option<T>)
      requires retryPredicate.Some? && i < noOfRetry
      requires forall j :: i <= j < noOfRetry ==> retryConsumer(j).Returned? && retryPredicate.value(retryConsumer(j).value)
      ensures RetryFrom(i, last) == Run(retryConsumer(noOfRetry - 1), noOfRetry as nat)
      decreases noOfRetry - i
    {
      if i + 1 < noOfRetry {
        AlwaysRetried(i + 1, retryConsumer(i).value);
      }
    }

    /** An exception matching no entry of a non-empty list is passed on after
        the evaluation that threw it, and so is a retryable one on the last
        allowed attempt. */
    lemma {:induction false} ExceptionPassedOn(i: nat, k: nat, last: Option<T>)
      requires i <= k < noOfRetry && retryConsumer(k).Threw?
      requires !Retryable(retryConsumer(k).exception) || k + 1 == noOfRetry
      requires forall j :: i <= j < k ==> retryConsumer(j).Threw? && Retryable(retryConsumer(j).exception)
      ensures RetryFrom(i, last) == Run(retryConsumer(k), k + 1)
      decreases k - i
    {
      if i < k {
        ExceptionPassedOn(i + 1, k, last);
      }
    }
  }

  class OperationBuilder<T(==)> {
    var retryConsumer: Option<nat -> Evaluation<T>>
    var noOfRetry: int32
    var delayInterval: int32
    var timeUnit: Option<TimeUnit>
    var retryPredicate: Option<Option<T> -> bool>
    var exceptionClasses: Option<seq<ClassId>>
    var message: string

    /** `newBuilder`: every setting unset. */
    constructor ()
      ensures retryConsumer.None? && noOfRetry == 0 && delayInterval == 0 && timeUnit.None?
      ensures retryPredicate.None? && exceptionClasses.None? && message == ""
    {
      retryConsumer := None;
      noOfRetry := 0;
      delayInterval := 0;
      timeUnit := None;
      retryPredicate := None;
      exceptionClasses := None;
      message := "";
    }

    method SetRetryConsumer(retryConsumer: Option<nat -> Evaluation<T>>)
      modifies this
      ensures this.retryConsumer == retryConsumer
      ensures noOfRetry == old(noOfRetry) && delayInterval == old(delayInterval) && timeUnit == old(timeUnit)
      ensures retryPredicate == old(retryPredicate) && exceptionClasses == old(exceptionClasses) && message == old(message)
    {
      this.retryConsumer := retryConsumer;
    }

    method SetNoOfRetry(noOfRetry: int32)
      modifies this
      ensures this.noOfRetry == noOfRetry
      ensures retryConsumer == old(retryConsumer) && delayInterval == old(delayInterval) && timeUnit == old(timeUnit)
      ensures retryPredicate == old(retryPredicate) && exceptionClasses == old(exceptionClasses) && message == old(message)
    {
      this.noOfRetry := noOfRetry;
    }

    method SetDelayInterval(delayInterval: int32, timeUnit: Option<TimeUnit>)
      modifies this
      ensures this.delayInterval == delayInterval && this.timeUnit == timeUnit
      ensures retryConsumer == old(retryConsumer) && noOfRetry == old(noOfRetry)
      ensures retryPredicate == old(retryPredicate) && exceptionClasses == old(exceptionClasses) && message == old(message)
    {
      this.delayInterval := delayInterval;
      this.timeUnit := timeUnit;
    }

    method SetRetryPredicate(retryPredicate: Option<Option<T> -> bool>)
      modifies this
      ensures this.retryPredicate == retryPredicate
      ensures retryConsumer == old(retryConsumer) && noOfRetry == old(noOfRetry) && delayInterval == old(delayInterval)
      ensures timeUnit == old(timeUnit) && exceptionClasses == old(exceptionClasses) && message == old(message)
    {
      this.retryPredicate := retryPredicate;
    }

    method SetRetryOn(exceptionClasses: Option<seq<ClassId>>)
      modifies this
      ensures this.exceptionClasses == exceptionClasses
      ensures retryConsumer == old(retryConsumer) && noOfRetry == old(noOfRetry) && delayInterval == old(delayInterval)
      ensures timeUnit == old(timeUnit) && retryPredicate == old(retryPredicate) && message == old(message)
    {
      this.exceptionClasses := exceptionClasses;
    }

    method SetMessage(message: string)
      modifies this
      ensures this.message == message
      ensures retryConsumer == old(retryConsumer) && noOfRetry == old(noOfRetry) && delayInterval == old(delayInterval)
      ensures timeUnit == old(timeUnit) && retryPredicate == old(retryPredicate) && exceptionClasses == old(exceptionClasses)
    {
      this.message := message;
    }

    /** `build`: throws `RuntimeException` without a consumer; otherwise a
        count of 0 becomes 1 and a missing unit milliseconds (both written
        back into the builder), and a missing or empty class array an empty
        list. */
    method Build() returns (r: Result<RetryOperation<T>>)
      modifies this
      ensures old(retryConsumer).None? ==> r == Err(Runtime) && noOfRetry == old(noOfRetry) && timeUnit == old(timeUnit)
      ensures old(retryConsumer).Some? ==> r.Ok? && fresh(r.value)
      ensures old(retryConsumer).Some? ==>
        && noOfRetry == (if old(noOfRetry) == 0 then 1 else old(noOfRetry))
        && timeUnit == Some(if old(timeUnit).None? then Milliseconds else old(timeUnit).value)
      ensures retryConsumer == old(retryConsumer) && delayInterval == old(delayInterval)
      ensures retryPredicate == old(retryPredicate) && exceptionClasses == old(exceptionClasses) && message == old(message)
      ensures r.Ok? ==>
        && r.value.retryConsumer == retryConsumer.value && r.value.noOfRetry == noOfRetry
        && r.value.delayInterval == delayInterval && r.value.timeUnit == timeUnit.value
        && r.value.retryPredicate == retryPredicate
        && r.value.exceptionList == (if exceptionClasses.Some? && |exceptionClasses.value| > 0 then exceptionClasses.value else [])
    {
      if retryConsumer.None? {
        return Err(Runtime);
      }
      var exceptionList: seq<ClassId> := [];
      if exceptionClasses.Some? && |exceptionClasses.value| > 0 {
        exceptionList := exceptionClasses.value;
      }
      noOfRetry := if noOfRetry == 0 then 1 else noOfRetry;
      timeUnit := if timeUnit.None? then Some(Milliseconds) else timeUnit;
      var op := new RetryOperation(retryConsumer.value, noOfRetry, delayInterval, timeUnit.value, retryPredicate, exceptionList);
      return Ok(op);
    }
  }
}
