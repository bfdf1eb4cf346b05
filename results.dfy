/** Failure-carrying return values: an operation that pandas would answer
    with NaN returns None, one that would raise returns Err. */
module Results {

  datatype Option<+T> = None | Some(value: T)

  datatype Result<+T, +E> = Ok(value: T) | Err(error: E)
}
