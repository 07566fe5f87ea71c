/** How a call of the account codec ends: it returns a `Result`, whose error is a
    `ProgramError`, or it panics (an out-of-range index or slice in Rust aborts the
    whole program instead of returning). */
module Outcomes {

  /** Rust's `Result<T, E>`. */
  datatype Result<+T, +E> = Success(value: T) | Failure(error: E)

  /** The two `solana_program::program_error::ProgramError` variants the codec raises. */
  datatype ProgramError = InvalidAccountData | InvalidInstructionData

  /** Why a call panicked: `s[index]` with `index >= len`, or `s[start..]` with `start > len`. */
  datatype Panic =
    | IndexOutOfBounds(index: nat, len: nat)
    | SliceStartOutOfRange(start: nat, len: nat)

  /** The end of a call that may panic. A panic is not an error value: the
      program aborts, and no caller can observe or recover from it. */
  datatype Outcome<+T> = Returned(result: Result<T, ProgramError>) | Panicked(panic: Panic)
}
