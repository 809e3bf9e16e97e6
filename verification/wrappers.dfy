/** Failure-compatible wrappers shared by the model: an optional value and a
    result that is either a value or an error. Both work with `:-`. */
module Wrappers {

  datatype Option<+T> = None | Some(value: T) {
    predicate IsFailure() { None? }

    function PropagateFailure<U>(): Option<U>
      requires None?
    {
      None
    }

    function Extract(): T
      requires Some?
    {
      value
    }
  }

  datatype Result<+R, +E> = Success(value: R) | Failure(error: E) {
    predicate IsFailure() { Failure? }

    function PropagateFailure<U>(): Result<U, E>
      requires Failure?
    {
      Failure(error)
    }

    function Extract(): R
      requires Success?
    {
      value
    }
  }

  /** Python's truth test on an optional string: `None` and the empty
      string are false. */
  predicate Truthy(s: Option<string>) {
    s.Some? && s.value != ""
  }
}

/** The ways a command of the client can stop without a result. Each one
    stands for a Python exception that leaves the command. */
module Errors {

  datatype CliError =
    /** A `k=v` item that does not split into exactly two parts on `=`
        (the tuple unpacking of the dict comprehension raises). */
    | MalformedAssignment(item: string, parts: nat)
      /** Building the nested payload would turn a scalar into a container or
          a container into a scalar. */
    | PathConflict(key: string)
      /** A group lookup with `unique=True` did not find exactly one group. */
    | NotUnique(found: nat)
      /** A row has no such column (`KeyError`). */
    | MissingColumn(column: string)
      /** `next()` on the row reader after the last row (`StopIteration`). */
    | InputExhausted(rows: nat)
      /** An exception of the remote call other than an HTTP error. */
    | RemoteFailure(message: string)
}
