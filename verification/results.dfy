/** Failure-carrying return types shared by every module of the model.
    A Rust `panic!`, a failed `assert!`, an `unwrap()` of `None` and an
    out-of-bounds index all become an `Err` carrying a module-specific error. */
module Results {

  datatype Option<+T> = None | Some(value: T)

  datatype Result<+T, +E> = Ok(value: T) | Err(error: E) {

    predicate IsFailure() {
      Err?
    }

    function PropagateFailure<U>(): Result<U, E>
      requires Err?
    {
      Err(error)
    }

    function Extract(): T
      requires Ok?
    {
      value
    }
  }
}
