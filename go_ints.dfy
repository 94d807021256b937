/** The fixed-width Go integer types the model needs, as ranges of `int`. */
module GoInts {
  const TwoTo32: int := 0x1_0000_0000
  const TwoTo63: int := 0x8000_0000_0000_0000
  const TwoTo64: int := 0x1_0000_0000_0000_0000

  /** uint64. */
  type Uint64 = x: int | 0 <= x < TwoTo64

  /** Go's int on a 64-bit platform. */
  type Int64 = x: int | -TwoTo63 <= x < TwoTo63

  /** The int64 that an exact result is stored as: two's-complement wrap-around. */
  function WrapInt64(x: int): (w: Int64)
    ensures (w - x) % TwoTo64 == 0
    ensures -TwoTo63 <= x < TwoTo63 ==> w == x
  {
    (x + TwoTo63) % TwoTo64 - TwoTo63
  }
}
