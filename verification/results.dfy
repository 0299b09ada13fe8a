/** Failure values of the raster codec. Every `die` of the reader becomes one of these. */
module Results {

  /** Why a file could not be decoded. */
  datatype Error =
    | NotRawFormat         // wrong magic token
    | BadHeader            // no digit where the width must start, or a numeric field is missing
    | UnterminatedComment  // a `#` comment runs to the end of the file
    | BadDimension         // width or height outside [1, 32767]
    | ShortRead            // fewer payload bytes than the header announces

  /** Success with a value, or the reason for failure; usable with `:-`. */
  datatype Result<+T> = Ok(value: T) | Err(error: Error) {

    predicate IsFailure() {
      Err?
    }

    function PropagateFailure<U>(): Result<U>
      requires Err?
    {
      Err(error)
    }

    function Extract(): T
      requires Ok?
    {
      value
    }
  }

  datatype Option<+T> = None | Some(value: T)
}
