/** Failure-compatible result types shared by every codec of the model. */
module Wrappers {

  /** The conventional Some/None datatype. */
  datatype Option<+T> = None | Some(value: T)

  /** A value or an error, usable with `:-` exactly like Rust's `?` / `trye!`. */
  datatype Result<+R, +E> = Success(value: R) | Failure(error: E) {

    predicate IsFailure() {
      Failure?
    }

    function PropagateFailure<U>(): Result<U, E>
      requires Failure?
    {
      Failure(error)
    }

    function Extract(): R
      requires Success?
    {
      value
    }
  }

  /** What a reader returns on success: the decoded value and how many bytes it took
      from the front of its input (the cursor position after the read). */
  datatype Parsed<+T> = Parsed(value: T, consumed: nat)
}
