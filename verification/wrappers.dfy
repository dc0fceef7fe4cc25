/** Failure-compatible result type for the operations whose source raises. */
module Wrappers {

  /** The exceptions the modelled code raises. */
  datatype Error =
    | MissingDash        // `line.split('-')[1]` on a line without '-' (IndexError)
    | IndexOutOfBounds   // a list index or a NumPy fancy index past the end (IndexError)
    | EmptyCloud         // a reduction or `randint` over zero points (ValueError)

  datatype Result<+T> = Success(value: T) | Failure(error: Error) {

    predicate IsFailure() {
      Failure?
    }

    function PropagateFailure<U>(): Result<U>
      requires Failure?
    {
      Failure(error)
    }

    function Extract(): T
      requires Success?
    {
      value
    }
  }
}
