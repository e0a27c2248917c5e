/** Failure-carrying wrappers used by every module of the model. A Python
    function that raises is modelled as returning `Failure`/`Fail`. */
module Outcomes {

  datatype Option<+T> = None | Some(value: T)

  datatype Result<+T, +E> = Success(value: T) | Failure(error: E)

  datatype Outcome<+E> = Pass | Fail(error: E)
}
