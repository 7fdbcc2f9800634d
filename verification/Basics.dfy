/** Bytes, machine integers and optional values. */
module Basics {

  datatype Option<+T> = None | Some(value: T)

  type byte = b: int | 0 <= b < 256
  type Bytes = seq<byte>

  /** An ASCII digit. */
  predicate Digit(c: byte) {
    48 <= c <= 57
  }

  function Pow10(n: nat): nat {
    if n == 0 then 1 else 10 * Pow10(n - 1)
  }

  const MIN64: int := -0x8000_0000_0000_0000
  const MAX64: int := 0x7fff_ffff_ffff_ffff
  const WORD: int := 0x1_0000_0000_0000_0000

  type int64 = x: int | MIN64 <= x <= MAX64

  /** Two's-complement wrap-around in 64 bits. */
  function Wrap64(x: int): int64 {
    (x - MIN64) % WORD + MIN64
  }

  lemma WrapFits(x: int)
    requires MIN64 <= x <= MAX64
    ensures Wrap64(x) == x
  {
  }

  lemma WrapAbove(x: int)
    requires MAX64 < x <= MAX64 + WORD
    ensures Wrap64(x) == x - WORD
  {
  }

  lemma WrapBelow(x: int)
    requires MIN64 - WORD <= x < MIN64
    ensures Wrap64(x) == x + WORD
  {
  }
}
