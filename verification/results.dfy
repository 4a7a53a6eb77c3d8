/** Failure-carrying datatypes shared by the model. */
module Results {

  /** The value Python writes as `None`, or a present value. */
  datatype Option<+T> = None | Some(value: T)

  /** The outcome of a call that either returns a value or raises. */
  datatype Result<+R, +E> = Success(value: R) | Failure(error: E)
}
