/** Failure-carrying values used by the model: an optional value for partial
    decoders and a success/failure result for operations that can go wrong. */
module Results {

  datatype Option<+T> = None | Some(value: T)

  datatype Result<+R, +E> = Success(value: R) | Failure(error: E)
}
