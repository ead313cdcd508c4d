/** Go's int64, written out over the integers. */
module Int64 {
  const TWO63: int := 0x8000_0000_0000_0000
  const MAX_INT64: int := 0x7FFF_FFFF_FFFF_FFFF
  const MIN_INT64: int := -0x8000_0000_0000_0000

  /** The int64 result of an operation whose exact result is x. */
  function Wrap64(x: int): int { (x + TWO63) % 0x1_0000_0000_0000_0000 - TWO63 }

  lemma WrapSmall(x: int)
    requires MIN_INT64 <= x <= MAX_INT64
    ensures Wrap64(x) == x
  {
  }

  lemma WrapOver(x: int)
    requires MAX_INT64 < x <= MAX_INT64 + MAX_INT64
    ensures Wrap64(x) == x - 2 * TWO63 < 0
  {
  }
}
