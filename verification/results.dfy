/** Failure-compatible Option and Result types shared by every module.
    A C++ `throw` in the modelled code becomes an `Err`, a return becomes an `Ok`. */
module Results {

  datatype Option<+T> = None | Some(value: T) {

    /** The held value, or `default` when there is none (std::optional::value_or). */
    function GetOr(default: T): T {
      if Some? then value else default
    }
  }

  datatype Result<+T, +E> = Ok(value: T) | Err(error: E) {

    predicate IsFailure() {
      Err?
    }

    function PropagateFailure<U>(): Result<U, E>
      requires Err?
    {
      Err(error)
    }

    function Extract(): T
      requires Ok?
    {
      value
    }
  }
}
