/** Values that stand in for Java's null references and for the exceptions the test class can raise. */
module Outcomes {

  /** A reference that may be null. */
  datatype Option<+T> = None | Some(value: T)

  /** The unchecked exceptions the modelled code can throw. */
  datatype Exception =
    | IllegalArgument(message: string)
    | IndexOutOfBounds
    | NegativeArraySize

  /** Either a normal return or a thrown exception. */
  datatype Result<+T> = Success(value: T) | Failure(error: Exception)
}
