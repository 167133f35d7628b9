/**
 Fixed-width machine words as ranges of mathematical integers, and the facts about
 `/` and `%` that the other modules need.  Addition, subtraction and multiplication of
 machine words are written out modulo `2^64` (or `2^32`) wherever the C code can wrap.
 */
module Words {

  const B32: int := 0x1_0000_0000
  const B64: int := 0x1_0000_0000_0000_0000
  const HALF64: int := 0x8000_0000_0000_0000

  type U32 = x: int | 0 <= x < 0x1_0000_0000
  type U64 = x: int | 0 <= x < 0x1_0000_0000_0000_0000
  type S64 = x: int | -0x8000_0000_0000_0000 <= x < 0x8000_0000_0000_0000

  /** Conversion of any integer to `unsigned long`. */
  function ToU64(x: int): U64 {
    x % B64
  }

  /** Conversion of any integer to `u32`. */
  function ToU32(x: int): U32 {
    x % B32
  }

  /** The two's-complement reading of an `unsigned long`, as in a cast to `long`. */
  function ToS64(x: U64): S64 {
    if x < HALF64 then x else x - B64
  }

  /** Any integer, reduced to `long` in two's complement. */
  function ToLong(x: int): S64 {
    ToS64(ToU64(x))
  }

  lemma ToLongAdd(x: int, d: int)
    ensures ToLong(ToLong(x) + d) == ToLong(x + d)
  {
    var k := if ToU64(x) < HALF64 then -(x / B64) else -(x / B64) - 1;
    assert ToLong(x) + d == x + d + k * B64;
    ModAddMultiple(x + d, B64, k);
  }

  lemma ToLongFits(x: int)
    ensures ToLong(x) == x <==> -HALF64 <= x < HALF64
  {
  }

  // ----- division and remainder -----

  lemma DivModUnique(a: int, d: int, q: int, r: int)
    requires 0 < d && 0 <= r < d && a == q * d + r
    ensures a / d == q && a % d == r
  {
    var q', r' := a / d, a % d;
    assert a == q' * d + r';
    if q < q' {
      assert (q' - q) * d >= d by { MulMonotone(1, q' - q, d); }
    } else if q' < q {
      assert (q - q') * d >= d by { MulMonotone(1, q - q', d); }
    }
  }

  lemma MulMonotone(a: int, b: int, c: int)
    requires a <= b && 0 <= c
    ensures a * c <= b * c
  {
    assert (b - a) * c >= 0;
  }

  /** The quotient is the largest `q` whose multiple of `d` does not exceed `a`. */
  lemma QuotientAtLeast(a: int, d: int, q: int)
    requires 0 < d
    ensures q <= a / d <==> q * d <= a
  {
    var q' := a / d;
    assert a == q' * d + a % d;
    if q <= q' {
      MulMonotone(q, q', d);
    } else {
      MulMonotone(q' + 1, q, d);
      assert (q' + 1) * d == q' * d + d;
    }
  }

  /** Adding a multiple of the divisor does not change the remainder. */
  lemma ModAddMultiple(a: int, d: int, k: int)
    requires 0 < d
    ensures (a + k * d) % d == a % d
  {
    assert a + k * d == (a / d + k) * d + a % d by {
      assert a == (a / d) * d + a % d;
      assert (a / d + k) * d == (a / d) * d + k * d;
    }
    DivModUnique(a + k * d, d, a / d + k, a % d);
  }
}
