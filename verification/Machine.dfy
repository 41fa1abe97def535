/** The ranges of the machine's integer types, and the larger of two numbers. */
module Machine {
  const INT_RANGE := 0x8000_0000
  const UINT_RANGE := 0x1_0000_0000
  const ULONG_RANGE := 0x1_0000_0000_0000_0000
  const PTRDIFF_MAX := 0x7fff_ffff_ffff_ffff

  function Max(a: nat, b: nat): nat {
    if a > b then a else b
  }
}
