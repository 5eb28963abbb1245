/** Failure-carrying result types shared by every module of the model.

    The pipeline signals errors with Python exceptions; each exception kind
    that an operation of the model can raise is one constructor of `Error`.
 */
module Wrappers {

  datatype Option<+T> = None | Some(value: T)

  /** The exception kinds raised by the modelled code. */
  datatype Error =
    | ValueError(msg: string)
    | KeyError(key: string)
    | IndexError
    | TypeError
    | AttributeError
    | UnboundLocalError
    | ZeroDivisionError
    | MultipleResultsFound
    | NotConverged

  datatype Result<+T> = Ok(value: T) | Err(error: Error) {
    predicate IsFailure() {
      Err?
    }

    function PropagateFailure<U>(): Result<U>
      requires Err?
    {
      Err(error)
    }

    function Extract(): T
      requires Ok?
    {
      value
    }
  }
}
