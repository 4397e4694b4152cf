/** What several of the models use. */
module Basics {

  datatype Option<T> = None | Some(value: T)

  /** unsigned, size_t and uint32_t are 32 bits wide. */
  const U32: nat := 0x1_0000_0000

  function Min(a: nat, b: nat): nat {
    if a < b then a else b
  }

  function Max(a: nat, b: nat): nat {
    if a < b then b else a
  }
}
