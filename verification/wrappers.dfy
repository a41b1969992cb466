/** Failure-carrying datatypes shared by the model. */
module Wrappers {

  /** A value that may be absent; also the type of one slot of the classifier's letter pool,
      where `None` stands for a slot already consumed. */
  datatype Option<+T> = None | Some(value: T)

  /** The outcome of an operation that may raise instead of returning. */
  datatype Result<+T, +E> = Success(value: T) | Failure(error: E)
}
