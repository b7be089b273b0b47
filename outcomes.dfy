/**
  Outcomes of the pipeline's operations: the exceptions the Python source can
  raise become values of `Error`, and every fallible operation returns a
  `Result`.
 */
module Outcomes {

  /** The exceptions the core can raise, one constructor per kind. */
  datatype Error =
    | Base64Error          // binascii.Error: leftover data characters without padding
    | Utf8Error            // UnicodeDecodeError: the decoded bytes are not well-formed UTF-8
    | HexParseError        // ValueError from int(group, 16)
    | ZeroDivision         // ZeroDivisionError from `i % len(key)` with an empty key
    | UnknownStep(name: string)  // AttributeError from getattr(self, step)

  datatype Result<+T> = Ok(value: T) | Err(error: Error) {
    predicate IsFailure() { Err? }

    function PropagateFailure<U>(): Result<U>
      requires Err?
    {
      Err(error)
    }

    function Extract(): T
      requires Ok?
    {
      value
    }
  }

  datatype Option<+T> = None | Some(value: T)
}
