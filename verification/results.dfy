/**
 The ways an operation of the resource manager can end other than by
 returning normally: the Java exceptions the code lets escape, and the
 `System.exit(1)` it calls after logging a fatal loading error.
 */
module Results {

  datatype Error =
    | FileNotFound(path: string)   // java.io.FileNotFoundException from opening a reader
    | IndexOutOfBounds             // StringIndexOutOfBounds / IndexOutOfBounds exceptions
    | NullPointer                  // dereferencing a missing map entry
    | StackOverflow                // unbounded recursion of the include expansion
    | Exit(status: int)            // System.exit(status) after a logged error

  datatype Option<+T> = None | Some(value: T)

  datatype Result<+T> = Ok(value: T) | Err(error: Error) {
    predicate IsFailure() {
      Err?
    }

    function PropagateFailure<U>(): Result<U>
      requires Err?
    {
      Err(error)
    }

    function Extract(): T
      requires Ok?
    {
      value
    }
  }
}
