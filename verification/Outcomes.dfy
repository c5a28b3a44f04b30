/** How a kernel routine ends: it returns a value, or the machine stops for good in
    `panic` or `assertion_failure` (src/kernel/assert.c spins in both). */
module Outcomes {

  /** Why the machine stopped. */
  datatype Stop =
    | OutOfMemory   // the panic of `get_page` when no frame is free
    | CountCheck    // an assertion about `memory_map` or `free_pages` failed
    | Rejected      // an assertion or panic about an argument or a faulting access
    | NoBuffer      // the only task sleeps in `get_free_buffer`

  /** A failure-compatible result, so that `:-` reads like the straight-line C code. */
  datatype Outcome<+T> = Done(value: T) | Halt(why: Stop) {
    predicate IsFailure() {
      Halt?
    }

    function PropagateFailure<U>(): Outcome<U>
      requires Halt?
    {
      Halt(why)
    }

    function Extract(): T
      requires Done?
    {
      value
    }
  }

  datatype Option<+T> = None | Some(value: T)
}
