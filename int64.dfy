/** Go's 64-bit signed integers: int64, and int on a 64-bit platform. */
module Int64 {
  const Min: int := -0x8000_0000_0000_0000
  const Max: int := 0x7FFF_FFFF_FFFF_FFFF
  const Modulus: int := 0x1_0000_0000_0000_0000

  newtype int64 = x: int | Min <= x <= Max

  /** Two's-complement wrap-around: the int64 congruent to x modulo 2^64,
      which is what Go's +, - and * on int64 produce. */
  function Wrap(x: int): (r: int64)
    ensures (r as int - x) % Modulus == 0
    ensures Min <= x <= Max ==> r as int == x
  {
    ((x - Min) % Modulus + Min) as int64
  }
}
