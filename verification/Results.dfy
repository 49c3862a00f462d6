/** The two ways a call of the codec can end: with a value, or with the ValueError
    that Python raises (UnicodeDecodeError and UnicodeEncodeError are subclasses of it). */
module Results {
  datatype Option<+T> = None | Some(value: T)

  datatype Result<+T> = Ok(value: T) | ValueError {
    predicate IsFailure() {
      ValueError?
    }

    function PropagateFailure<U>(): Result<U>
      requires ValueError?
    {
      ValueError
    }

    function Extract(): T
      requires Ok?
    {
      value
    }
  }

  /** What a call that returns nothing leaves behind: it finished, or it raised. */
  datatype Outcome = Done | Raised {
    predicate IsFailure() {
      Raised?
    }

    function PropagateFailure<U>(): Result<U>
      requires Raised?
    {
      ValueError
    }
  }
}
