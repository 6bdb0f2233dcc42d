/** Optional values and the widths of machine integers. */
module Options {

  datatype Option<+T> = None | Some(value: T)

  const U8: nat := 0x100
  const U32: nat := 0x1_0000_0000
  const U64: nat := 0x1_0000_0000_0000_0000

  function Min(a: nat, b: nat): nat { if a < b then a else b }
}
