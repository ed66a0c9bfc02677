/** Failure-carrying return types shared by the modules of this project. */
module Results {

  /** A value that may be absent, used where the source raises on bad input. */
  datatype Option<+T> = None | Some(value: T)

  /** Either a computed value or the error the source would raise. */
  datatype Result<+T, +E> = Ok(value: T) | Err(error: E)
}
