/** Small result wrappers shared by the whole model. */
module Wrappers {

  /** Rust's `Option<T>`. */
  datatype Option<+T> = None | Some(value: T)

  /** How a call of the Rust code ends: it returns a value, or it panics
      (`expect`, `unwrap`, `panic!`, or an arithmetic overflow in a debug build). */
  datatype Completion<+T> = Returns(value: T) | Panics
}
