/** Failure-carrying results shared by every module: the Java code signals its
    errors with exceptions, which the model returns as values. */
module Wrappers {

  /** The exception classes the modelled code throws. */
  datatype Error =
    | IllegalArgument      // java.lang.IllegalArgumentException
    | IllegalState         // java.lang.IllegalStateException
    | NoSuchElement        // java.util.NoSuchElementException
    | OutOfSteps           // GameState.OutOfStepsException
    | IndexOutOfBounds     // java.lang.IndexOutOfBoundsException
    | NumberFormat         // java.lang.NumberFormatException
    | NegativeArraySize    // java.lang.NegativeArraySizeException
    | NullPointer          // java.lang.NullPointerException

  datatype Option<+T> = None | Some(value: T)

  datatype Result<+T> = Ok(value: T) | Err(error: Error)
  {
    predicate IsFailure()
    {
      Err?
    }

    function PropagateFailure<U>(): Result<U>
      requires Err?
    {
      Err(error)
    }

    function Extract(): T
      requires Ok?
    {
      value
    }
  }

  /** The outcome of a `void` Java method: it returns normally or throws. */
  datatype Outcome = Pass | Fail(error: Error)
}
