/** Option and Result, the two failure-carrying wrappers the model uses. */
module Wrappers {

  /** A value or its absence; stands for a C# reference that may be null. */
  datatype Option<+T> = None | Some(value: T)

  /**
   * A value, or the exception that the C# code would have thrown instead;
   * `:-` propagates the exception the way an uncaught throw leaves the
   * enclosing expression.
   */
  datatype Result<+T, +E> = Ok(value: T) | Err(error: E) {
    predicate IsFailure() {
      Err?
    }

    function PropagateFailure<U>(): Result<U, E>
      requires Err?
    {
      Err(error)
    }

    function Extract(): T
      requires Ok?
    {
      value
    }
  }
}
