/**
 * Go's `int64`, the type of a volume's mount counter. The counter is only
 * ever changed with `++` and `--`, which wrap around in two's complement.
 */
module Int64s {

  const MIN: int := -0x8000_0000_0000_0000
  const MAX: int := 0x7fff_ffff_ffff_ffff
  const MODULUS: int := 0x1_0000_0000_0000_0000

  newtype int64 = x: int | -0x8000_0000_0000_0000 <= x < 0x8000_0000_0000_0000

  /** The unique int64 congruent to `i` modulo 2^64. */
  function Wrap(i: int): (r: int64)
    ensures (r as int - i) % MODULUS == 0
    ensures MIN <= i <= MAX ==> r as int == i
  {
    var q := (i - MIN) / MODULUS;
    var rem := (i - MIN) % MODULUS;
    assert i - MIN == q * MODULUS + rem;
    assert rem + MIN - i == -q * MODULUS;
    (rem + MIN) as int64
  }

  /** `x++` on an int64. */
  function Inc(x: int64): (r: int64)
    ensures r == Wrap(x as int + 1)
    ensures x as int < MAX ==> r as int == x as int + 1
  {
    if x as int == MAX then MIN as int64 else x + 1
  }

  /** `x--` on an int64. */
  function Dec(x: int64): (r: int64)
    ensures r == Wrap(x as int - 1)
    ensures MIN < x as int ==> r as int == x as int - 1
  {
    if x as int == MIN then MAX as int64 else x - 1
  }

  /** Incrementing and decrementing undo each other, including across the wrap. */
  lemma IncDecInverse(x: int64)
    ensures Dec(Inc(x)) == x
    ensures Inc(Dec(x)) == x
  {
  }
}
