/** Failure-compatible result type for the alphabet-discovery model.

    The sources report failure in two ways: an index past the end of the word
    list or of a word (Java's IndexOutOfBoundsException, Python's IndexError),
    and a failed `assert` (Java's AssertionError, Python's AssertionError).
    Both are modelled as explicit, always-active failure values. */
module Outcomes {

  datatype Error = IndexOutOfBounds | AssertionFailed

  datatype Result<+T> = Ok(value: T) | Fail(error: Error) {

    predicate IsFailure() {
      Fail?
    }

    function PropagateFailure<U>(): Result<U>
      requires Fail?
    {
      Fail(error)
    }

    function Extract(): T
      requires Ok?
    {
      value
    }
  }
}
