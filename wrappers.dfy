/** Option, Result and the outcome of a call into code outside the model. */
module Wrappers {

  datatype Option<+T> = None | Some(value: T)

  datatype Result<+T, +E> = Ok(value: T) | Err(error: E)

  /** What a call into a collaborator that is not modelled did: it raised
      an exception, or it returned a value. */
  datatype Outcome<+T> = Raised | Returned(value: T)
}
