/** Failure-compatible result types standing in for the exceptions and the
    `null` returns of the vision pipeline. */
module Results {

  /** The exception kinds the modelled code can raise. */
  datatype Error =
    | ArgumentOutOfRange   // String.Substring with a start or length outside the string
    | IndexOutOfRange      // array, list or image access outside its bounds
    | InvalidOperation     // an explicit InvalidOperationException
    | InvalidArgument      // an explicit ArgumentException
    | Overflow             // allocation of an array with a negative size
    | DivideByZero         // integer division by zero

  datatype Result<+T> = Ok(value: T) | Err(error: Error) {

    predicate IsFailure() {
      Err?
    }

    function PropagateFailure<U>(): Result<U>
      requires Err?
    {
      Err(error)
    }

    function Extract(): T
      requires Ok?
    {
      value
    }
  }

  /** A C# reference that may be `null`. */
  datatype Option<+T> = None | Some(value: T)
}
