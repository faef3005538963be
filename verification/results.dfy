/** Failure-carrying outcomes for the capture writer.

    Python's `struct.pack` raises `struct.error` when an argument does not fit
    its format code; here that exception becomes the `Err` arm of a `Result`.
 */
module Results {

  /** The only failure the encoding core can raise: an argument of `pack`
      outside the range of its format code. */
  datatype Error = StructError

  datatype Result<+T> = Ok(value: T) | Err(error: Error)

  datatype Option<+T> = None | Some(value: T)
}
