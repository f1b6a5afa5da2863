/** Failure-carrying result types shared by every module of the model. */
module Common {

  datatype Option<+T> = None | Some(value: T)

  /** A thrown JavaScript exception becomes `Err` carrying its message. */
  datatype Result<+T> = Ok(value: T) | Err(error: string) {
    predicate IsFailure() { Err? }

    function PropagateFailure<U>(): Result<U>
      requires Err?
    {
      Err(error)
    }

    function Extract(): T
      requires Ok?
    {
      value
    }
  }
}
