/** Success or failure of an operation, and the failures the key tool raises. */
module Results {
  /** What an operation can raise. */
  datatype Error =
    | ValueError     // malformed key material
    | OverflowError  // a length that no index can hold
    | StructError    // a length that does not fit its 32-bit prefix
    | FileExists     // exclusive creation found the file
    | OsError        // any other failure of the file system
    | KeygenFailed   // the key generator exited with a failure
    | RuntimeError   // the key generator left something unexpected

  datatype Option<+T> = None | Some(value: T) {
    predicate IsFailure() { None? }

    function PropagateFailure<U>(): Option<U>
      requires None?
    {
      None
    }

    function Extract(): T
      requires Some?
    {
      value
    }
  }

  datatype Result<+T> = Ok(value: T) | Err(error: Error) {
    predicate IsFailure() { Err? }

    function PropagateFailure<U>(): Result<U>
      requires Err?
    {
      Err(error)
    }

    function Extract(): T
      requires Ok?
    {
      value
    }
  }
}
