/** Failure-compatible Option: every way a converter of the caster can raise
    (a regular expression that does not match, `int()` or `float()` rejecting its
    argument, a failed `assert`, a missing key, a value of the wrong shape) is `None`. */
module Wrappers {

  datatype Option<+T> = None | Some(value: T) {

    predicate IsFailure() {
      None?
    }

    function PropagateFailure<U>(): Option<U>
      requires None?
    {
      None
    }

    function Extract(): T
      requires Some?
    {
      value
    }
  }
}
