/** The exceptions the core throws, as values: `NoSolution` from the naive
    discrete logarithm, `InvalidArgument` from size-checked assignment of a
    `Vector`, `OutOfRange` from its bounds-checked access. */
module Errors {

  datatype Error = NoSolution | InvalidArgument | OutOfRange

  /** A value, or the exception that was thrown instead. */
  datatype Result<T> = Ok(value: T) | Err(error: Error)

  /** Completion of an operation that returns nothing, or its exception. */
  datatype Outcome = Pass | Fail(error: Error)
}
