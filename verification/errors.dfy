/** Error values of the library and the failure-compatible wrappers used to
    return them. The Go code returns `(value, error)` pairs; here every
    fallible operation returns a `Result`. */
module Errors {

  /** The sentinel errors of errors.go, plus the two failures the Go code
      produces without a sentinel: the wrapped `strconv` range error of
      "parsing version segment", and the nil-pointer panic of the wildcard
      expansion when no wildcard segment is recognised. */
  datatype Error =
    | InvalidSemVer
    | InvalidCalVer
    | InvalidConstraint
    | SegmentStartsZero
    | InvalidMetadata
    | InvalidPrerelease
    | ParseSegment
    | NoUpperBound

  datatype Option<+T> = None | Some(value: T)

  datatype Result<+T> = Ok(value: T) | Err(error: Error) {
    predicate IsFailure() {
      Err?
    }

    function PropagateFailure<U>(): Result<U>
      requires Err?
    {
      Err(error)
    }

    function Extract(): T
      requires Ok?
    {
      value
    }
  }

  /** The outcome of a validation that has no value to return. */
  datatype Outcome = Pass | Fail(error: Error)
}
