/** Option and Result types used where the JavaScript code produces `undefined`,
    `NaN` or throws. */
module Wrappers {

  datatype Option<+T> = None | Some(value: T)

  datatype Result<+T, +E> = Success(value: T) | Failure(error: E)

  /** The run-time errors the solvers can raise. */
  datatype JsError =
    | TypeError     // a property read on `undefined` or `null`
    | ReferenceError // a call to a name that is not defined
}
