/** Option and Result values shared by every module: C# `null` becomes `None`,
    a thrown exception becomes `Err` or `Fail` carrying the exception's kind. */
module Wrappers {
  datatype Option<T> = None | Some(value: T)

  /** The kinds of exception the modelled code throws. */
  datatype Error =
    | Thrown(message: string)   // System.Exception (or a subclass) raised with this message
    | ArgumentOutOfRange        // index or argument outside its range
    | IndexOutOfRange           // System.IndexOutOfRangeException
    | ArgumentNull              // a null argument
    | DuplicateKey              // Dictionary.Add of a key already present
    | KeyNotFound               // dictionary lookup of a missing key
    | HookFailure               // an exception thrown by user code that the library calls back
    | Diverges                  // the code would loop forever on this input

  datatype Result<T> = Ok(value: T) | Err(error: Error)

  /** The outcome of an operation that returns nothing. */
  datatype Outcome = Done | Fail(error: Error)
}
