/** Two's-complement 64-bit arithmetic. */
module Int64 {

  const MAX_INT64: int := 0x7fff_ffff_ffff_ffff

  function Wrap(x: int): (w: int)
    ensures -MAX_INT64 - 1 <= x <= MAX_INT64 ==> w == x
  {
    (x + MAX_INT64 + 1) % (2 * MAX_INT64 + 2) - MAX_INT64 - 1
  }

  predicate InRange(x: int) {
    -MAX_INT64 - 1 <= x <= MAX_INT64
  }
}
