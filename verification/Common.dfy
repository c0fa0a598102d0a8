/** Shared by the components: the option type, machine words, the page size, and the backspace character. */
module Common {
  const PAGESIZE: nat := 0x1000
  const BACKSPACE: char := 8 as char

  const TWO31: int := 0x8000_0000
  const TWO32: int := 0x1_0000_0000
  const TWO64: int := 0x1_0000_0000_0000_0000

  datatype Option<T> = None | Some(value: T)

  function Max(a: nat, b: nat): nat {
    if a > b then a else b
  }

  /** A number stored in an int of 32 bits. */
  function AsInt32(x: int): int {
    (x + TWO31) % TWO32 - TWO31
  }

  lemma Int32Range(x: int)
    ensures -TWO31 <= AsInt32(x) < TWO31
    ensures AsInt32(x) == x <==> -TWO31 <= x < TWO31
  {
  }
}
