/** Failure-carrying result types shared by the codec, the scanner and the dataset model. */
module Wrappers {

  datatype Option<+T> = None | Some(value: T)

  /** Either a computed value or the error the source would raise instead. */
  datatype Result<+T, +E> = Ok(value: T) | Err(error: E) {

    predicate IsFailure() {
      Err?
    }

    function PropagateFailure<U>(): Result<U, E>
      requires Err?
    {
      Err(error)
    }

    function Extract(): T
      requires Ok?
    {
      value
    }
  }

  /** Why text could not be recovered from bytes or from a quoted string:
      bytes that are not UTF-8, a `%` not followed by two hex digits, or a
      `column=value` string without exactly one `=`. */
  datatype DecodeError = InvalidUtf8 | MalformedEscape | MalformedPair
}
