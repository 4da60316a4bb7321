/** The failure-compatible Option type shared by every module of the model. */
module Wrappers {

  /** A value that may be absent: the model's rendering of JavaScript's `null`
      and of a call that throws. */
  datatype Option<+T> = None | Some(value: T) {

    predicate IsFailure() {
      None?
    }

    function PropagateFailure<U>(): Option<U>
      requires None?
    {
      None
    }

    function Extract(): T
      requires Some?
    {
      value
    }
  }
}
