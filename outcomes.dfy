/** The two exceptions the container's operations can end in, as values. */
module Outcomes {

  datatype Error =
    | EndOfInput       // `EOFException`: the input ended inside a record
    | IllegalArgument  // `IllegalArgumentException` from `select`

  datatype Result<T> = Success(value: T) | Failure(error: Error)
}
