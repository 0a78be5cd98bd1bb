/** Optional values, results and the exceptions the modelled code throws. A Java
    method that throws is modelled as returning `Err(e)`; `null` is `None`. */
module Outcomes {

  datatype Option<+T> = None | Some(value: T)

  /** The exception kinds raised by the modelled code. */
  datatype Error =
    | IllegalArgument
    | IllegalState
    | NullPointer
    | IndexOutOfBounds
    | StringIndexOutOfBounds
    | ArrayIndexOutOfBounds
    | NegativeArraySize
    | Runtime

  datatype Result<+T> = Ok(value: T) | Err(error: Error)

  /** The outcome of a validation that returns nothing or throws. */
  datatype Outcome = Pass | Fail(error: Error)

  /** A class of exceptions, identified abstractly. */
  type ClassId = nat

  /** A thrown object: its own class and the set of classes it is assignable to
      (its class and all of its superclasses). `Class.isAssignableFrom` is
      membership in `ancestors`. */
  datatype Throwable = Throwable(cls: ClassId, ancestors: set<ClassId>)

  predicate IsInstance(e: Throwable, c: ClassId) {
    c in e.ancestors
  }
}
