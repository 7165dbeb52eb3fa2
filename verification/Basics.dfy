/** Shared vocabulary of the model. */
module Basics {

  datatype Option<+T> = None | Some(value: T)

  /** A byte as the wire carries it. */
  type Byte = b: int | 0 <= b < 256

  function Min(a: nat, b: nat): nat {
    if a < b then a else b
  }
}
