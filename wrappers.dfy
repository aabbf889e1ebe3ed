/** A failure-compatible optional value: `None` stands for an operation of
    the original program that aborts (an `unwrap` on a missing entry, an
    out-of-range `swap_remove`, an explicit `panic!`). */
module Wrappers {

  datatype Option<+T> = None | Some(value: T) {

    predicate IsFailure() {
      None?
    }

    function PropagateFailure<U>(): Option<U>
      requires None?
    {
      None
    }

    function Extract(): T
      requires Some?
    {
      value
    }
  }
}
