/** The failures the time library reports instead of throwing.
    `InvalidArgument` stands for std::invalid_argument (bad component, malformed string) and
    `OutOfRange` for std::out_of_range (a time point outside [min, max]); each carries the
    message the library throws with. */
module Errors {

  datatype Error = InvalidArgument(message: string) | OutOfRange(message: string)

  datatype Result<+T> = Ok(value: T) | Err(error: Error) {
    predicate IsFailure() { Err? }

    function PropagateFailure<U>(): Result<U>
      requires Err?
    {
      Err(error)
    }

    function Extract(): T
      requires Ok?
    {
      value
    }
  }
}
