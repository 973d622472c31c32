/** Failure-compatible result types: a Java `null` return becomes `None`, a thrown
    exception becomes `Failure`/`Fail`. */
module Wrappers {

  datatype Option<+T> = None | Some(value: T)

  datatype Result<+R, +E> = Success(value: R) | Failure(error: E)

  datatype Outcome<+E> = Pass | Fail(error: E)
}
