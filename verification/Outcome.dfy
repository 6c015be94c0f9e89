/** How an operation of the code base can end: with a value, with the error of a failed
    `ensure!`, or with a Rust panic (index out of range, failed `assert!`, division by zero). */
module Outcome {

  datatype Failure = Rejected | Panicked

  datatype Option<+T> = None | Some(value: T)

  datatype Result<+T> = Ok(value: T) | Err(why: Failure)
}
