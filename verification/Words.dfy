/** 64-bit unsigned numbers, where their width matters. */
module Words {
  const TWO63: nat := 0x8000_0000_0000_0000
  const TWO64: nat := 0x1_0000_0000_0000_0000
  const MAX64: nat := 0xffff_ffff_ffff_ffff

  type Positive = n: nat | 0 < n witness 1

  type U64 = n: nat | n < TWO64

  /** What is left of a sum or difference in 64 bits. */
  function Wrap(x: int): U64 { x % TWO64 }
}
