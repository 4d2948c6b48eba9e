/** The checker's error sentinels, the stream errors `Read` passes through, and
    the result wrappers every operation returns. */
module Errors {

  /** Every way an operation of the checker can fail.
      `MissingBytes` .. `UnixToDOSConversion` are the package's own sentinels;
      `EOF` and `UnexpectedEOF` are `io.EOF` and `io.ErrUnexpectedEOF` from the
      readers; `NegativeLengthPanic` is the runtime panic of `make([]byte, n)`
      for a negative `n`, which ends `Read` just as an error would, and
      `IndexPanic` the runtime panic of an index or slice past the end of a
      byte slice. */
  datatype Error =
    | MissingBytes
    | CRCMismatch
    | NotPNG
    | InvalidHeaderLength
    | DOSToUnixConversion
    | UnixToDOSConversion
    | EOF
    | UnexpectedEOF
    | NegativeLengthPanic
    | IndexPanic

  /** A Go `(value, error)` pair in which exactly one side is meaningful. */
  datatype Result<+T> = Success(value: T) | Failure(error: Error)

  /** A Go `error` that may be nil. */
  datatype Option<+T> = None | Some(value: T)
}
