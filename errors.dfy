/** The `io::ErrorKind`s the address code returns, and its result types. */
module Errors {

  datatype ErrorKind =
    | NotFound          // an empty path where a path is required
    | InvalidInput      // oversized input, a NUL in a path, a bad raw pointer or length
    | InvalidData       // the kernel returned a foreign family or a truncated name
    | AddrNotAvailable  // an abstract name on an OS without the abstract namespace
    | Os(errno: int)    // whatever a wrapped kernel call failed with

  datatype Result<T> = Ok(value: T) | Err(error: ErrorKind)

  /** What an operation that may hit a Rust panic does instead of returning. */
  datatype Outcome<T> = Returned(result: T) | Panicked
}
