/** The "value or nothing" result used wherever the source reports failure by a
    null result, a `false` return or a raised exception. */
module Wrappers {

  datatype Option<+T> = None | Some(value: T) {

    predicate IsFailure() {
      None?
    }

    function PropagateFailure<U>(): Option<U>
      requires None?
    {
      None
    }

    function Extract(): T
      requires Some?
    {
      value
    }
  }
}
