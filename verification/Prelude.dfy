/** What several modules share: optional values, bytes and the minimum. */
module Prelude {
  datatype Option<+T> = None | Some(value: T)

  type Byte = b: nat | b < 0x100

  function Min(a: nat, b: nat): nat {
    if a < b then a else b
  }
}
