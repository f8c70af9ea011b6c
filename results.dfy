/** Values for operations that can fail, and the failures the modelled code raises. */
module Results {

  datatype Option<+T> = None | Some(value: T)

  /** The exceptions of the modelled Python code, by cause. */
  datatype Error =
    | InvalidDimension      // t < 2 for a generator matrix
    | SingularMatrix        // no pivot in some column during GF(2) elimination
    | IndexOutOfRange       // an index past the end of a list or array
    | ShapeMismatch         // numpy shapes that do not broadcast or multiply
    | ZeroDivision          // a division by zero
    | NotFound              // no such element: StopIteration, a KeyError, a node not in the graph
    | WrongShareCount       // a number of chosen shares other than t
    | EmptySequence         // max() of an empty sequence
    | InvalidLiteral        // int() of a string with no digits (a ValueError)

  datatype Result<+T> = Success(value: T) | Failure(error: Error)
}
