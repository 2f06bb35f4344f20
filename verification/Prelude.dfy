/** Types shared by every part of the model. */
module Prelude {

  datatype Option<+T> = None | Some(value: T) {
    predicate IsFailure() { None? }
    function PropagateFailure<U>(): Option<U> requires None? { None }
    function Extract(): T requires Some? { value }
  }

  /** An octet of an input or output buffer. */
  type Octet = x: int | 0 <= x < 256
}
