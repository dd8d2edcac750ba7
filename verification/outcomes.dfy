/** Failure-carrying wrappers used across the queue model. */
module Outcomes {

  /** An optional value: `None` is what the queue's `get` reports when it has nothing to hand out. */
  datatype Option<T> = None | Some(value: T)

  /** A value or the reason it could not be produced. */
  datatype Result<T, E> = Ok(value: T) | Err(error: E)
}
