/**
 * Java's 32-bit `int`. The source stores capacities, booked-seat counts and
 * seat numbers in `int` fields and does its seat arithmetic with `+` and `-`
 * on them, which wraps around modulo 2^32 on overflow.
 */
module JavaInt {

  const MIN_INT: int := -0x8000_0000
  const MAX_INT: int := 0x7FFF_FFFF
  const MODULUS: int := 0x1_0000_0000

  /** The values a Java `int` can hold. */
  type I32 = x: int | -0x8000_0000 <= x <= 0x7FFF_FFFF

  predicate InRange(x: int) {
    MIN_INT <= x <= MAX_INT
  }

  /** The `int` that Java's two's-complement arithmetic yields for the mathematical value `x`. */
  function Wrap32(x: int): (r: I32)
    ensures InRange(x) ==> r == x
    ensures (x - r) % MODULUS == 0
  {
    var m := x % MODULUS;
    if m > MAX_INT then m - MODULUS else m
  }

  /** Two values congruent modulo 2^32 wrap to the same `int`. */
  lemma WrapCongruent(a: int, b: int)
    requires (a - b) % MODULUS == 0
    ensures Wrap32(a) == Wrap32(b)
  {
    assert a % MODULUS == b % MODULUS by {
      var k := (a - b) / MODULUS;
      assert a == b + k * MODULUS;
    }
  }

  /** Wrapping an intermediate sum does not change the wrapped total. */
  lemma WrapAdd(x: int, y: int)
    ensures Wrap32(Wrap32(x) + y) == Wrap32(x + y)
  {
    var w := Wrap32(x);
    assert ((w + y) - (x + y)) % MODULUS == 0 by {
      assert (x - w) % MODULUS == 0;
      var k := (x - w) / MODULUS;
      assert x - w == k * MODULUS;
      assert (w + y) - (x + y) == -k * MODULUS;
    }
    WrapCongruent(w + y, x + y);
  }
}
