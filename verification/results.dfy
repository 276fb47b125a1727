/** Optional values and the outcome of a computation that can throw. */
module Results {

  datatype Option<+T> = None | Some(value: T)

  /** What a JavaScript computation ends with: a value, or an exception. */
  datatype Result<+T, +E> = Success(value: T) | Failure(error: E)

  /** The exceptions the modelled code can raise. */
  datatype Thrown =
    | TypeError   // a method called on a value that lacks it, or a non-string path
    | RangeError  // `toISOString` on a date outside the representable range
    | ReadError   // the workbook reader rejected the file
}
