/**
 The 64-bit divisions of div64.c, uki/div64.h and uki/fls.h, as built for 32-bit machines.
 */
module Division {
  import opened Words

  type S32 = x: int | -0x8000_0000 <= x < 0x8000_0000

  function Pow2(n: nat): (p: nat)
    ensures p >= 1
  {
    if n == 0 then 1 else 2 * Pow2(n - 1)
  }

  lemma Pow2Double(n: nat)
    ensures Pow2(n + 1) == 2 * Pow2(n)
  {
  }

  lemma {:induction false} Pow2Add(m: nat, n: nat)
    ensures Pow2(m + n) == Pow2(m) * Pow2(n)
  {
    if m > 0 {
      Pow2Add(m - 1, n);
      assert Pow2(m) * Pow2(n) == 2 * (Pow2(m - 1) * Pow2(n));
    }
  }

  lemma Pow2UpTo16()
    ensures Pow2(0) == 1 && Pow2(1) == 2 && Pow2(2) == 4 && Pow2(4) == 16 && Pow2(8) == 0x100 && Pow2(16) == 0x1_0000
  {
  }

  lemma Pow2Values()
    ensures Pow2(0) == 1 && Pow2(1) == 2 && Pow2(2) == 4 && Pow2(4) == 16 && Pow2(8) == 0x100
    ensures Pow2(16) == 0x1_0000 && Pow2(31) == 0x8000_0000 && Pow2(32) == B32 && Pow2(64) == B64
  {
    hide Pow2;
    Pow2UpTo16();
    Pow2Add(16, 16);
    Pow2Add(32, 32);
    Pow2Double(31);
  }

  // ----- fls -----

  /** The number of bits of `x`. */
  function Bits(x: nat): (r: nat)
    ensures x > 0 ==> r > 0 && Pow2(r - 1) <= x
    ensures x < Pow2(r)
  {
    if x == 0 then 0 else 1 + Bits(x / 2)
  }

  lemma BitsUnique(x: nat, r: nat)
    requires r > 0 && Pow2(r - 1) <= x < Pow2(r)
    ensures Bits(x) == r
  {
    hide Pow2;
    if Bits(x) < r {
      Pow2Grows(Bits(x), r - 1);
    } else if r < Bits(x) {
      Pow2Grows(r, Bits(x) - 1);
    }
  }

  lemma {:induction false} Pow2Grows(m: nat, n: nat)
    requires m <= n
    ensures Pow2(m) <= Pow2(n)
  {
    if m < n {
      Pow2Grows(m, n - 1);
    }
  }

  /**
   The position of the top bit, by binary search.  The masks of the program keep the bits
   from 16, 24, 28, 30 and 31 up, so that a mask yields 0 exactly below the bound tested.
   */
  method Fls(word: U32) returns (r: int)
    ensures word == 0 ==> r == 0
    ensures word > 0 ==> 1 <= r <= 32 && Pow2(r - 1) <= word < Pow2(r)
    ensures r == Bits(word)
  {
    if word == 0 {
      return 0;
    }
    hide Pow2;
    var x: U32 := word;
    r := 32;
    Pow2Values();
    x, r := FlsStep(word, x, r, 16, 0x1_0000, 0x1_0000);
    x, r := FlsStep(word, x, r, 8, 0x100, 0x100_0000);
    x, r := FlsStep(word, x, r, 4, 0x10, 0x1000_0000);
    x, r := FlsStep(word, x, r, 2, 4, 0x4000_0000);
    x, r := FlsStep(word, x, r, 1, 2, 0x8000_0000);
    TopBit(word, x, r);
    BitsUnique(word, r);
  }

  /** `if (!(x & mask)) { x <<= k; r -= k; }`, with `m` 2 to the `k` and `bound` the mask's lowest bit. */
  method FlsStep(ghost word: U32, x: U32, r: int, k: nat, m: int, bound: int) returns (x': U32, r': int)
    requires m == Pow2(k) && bound * m == B32 && x * m >= bound
    requires k < r <= 32 && x == word * Pow2(32 - r)
    ensures r - k <= r' <= r && x' >= bound && x' == word * Pow2(32 - r')
  {
    hide Pow2;
    x', r' := x, r;
    if x < bound {
      ProductBelow(x, bound, m);
      Pow2Add(32 - r, k);
      MulAssoc(word, Pow2(32 - r), m);
      x', r' := ToU32(x * m), r - k;
    }
  }

  lemma MulAssoc(a: int, b: int, c: int)
    ensures a * (b * c) == (a * b) * c
  {
  }

  lemma TopBit(word: U32, x: U32, r: int)
    requires 1 <= r <= 32 && x == word * Pow2(32 - r) && x >= 0x8000_0000
    ensures Pow2(r - 1) <= word < Pow2(r)
  {
    hide Pow2;
    var p := Pow2(32 - r);
    Pow2Values();
    Pow2Add(r - 1, 32 - r);
    Pow2Add(r, 32 - r);
    ProductBelow(word, Pow2(r), p);
    ProductBelow(word, Pow2(r - 1), p);
  }

  lemma ProductBelow(a: int, b: int, c: int)
    requires c > 0
    ensures a * c < b * c <==> a < b
  {
    if a < b {
      assert (b - a) * c > 0;
    } else {
      MulMonotone(b, a, c);
    }
  }

  // ----- 64 by 32 bits -----

  /** The `divl` instruction: it demands that the quotient fit a word. */
  method Divl(upper: U32, low: U32, divisor: U32) returns (quotient: U32, remainder: U32)
    requires upper < divisor
    ensures upper * B32 + low == quotient * divisor + remainder && remainder < divisor
  {
    var n := upper * B32 + low;
    MulMonotone(upper + 1, divisor, B32);
    QuotientAtLeast(n, divisor, B32);
    quotient, remainder := n / divisor, n % divisor;
  }

  /** `div_u64_rem`: long division in two 32-bit digits. */
  method DivU64Rem(dividend: U64, divisor: U32) returns (quotient: U64, remainder: U32)
    requires divisor > 0
    ensures quotient == dividend / divisor && remainder == dividend % divisor
  {
    var low: U32, upper: U32 := dividend % B32, dividend / B32;
    var high: U32 := 0;
    if upper >= divisor {
      QuotientAtLeast(upper, divisor, B32);
      MulMonotone(1, divisor, B32);
      high := upper / divisor;
      upper := upper % divisor;
    }
    ghost var digit := upper;
    low, remainder := Divl(upper, low, divisor);
    quotient := high * B32 + low;
    assert dividend == (high * divisor + digit) * B32 + dividend % B32;
    assert (high * divisor) * B32 == (high * B32) * divisor;
    DivModUnique(dividend, divisor, quotient, remainder);
  }

  /** `div_u64` */
  method DivU64(dividend: U64, divisor: U32) returns (quotient: U64)
    requires divisor > 0
    ensures quotient == dividend / divisor
  {
    var remainder;
    quotient, remainder := DivU64Rem(dividend, divisor);
  }

  /**
   `__div64_32`: shift-and-subtract.  `b` is `base * d` throughout, and the remainder is
   below `2 * b` from the end of the first loop on, also when doubling stops at 2^63.
   No step overflows a 64-bit word.
   */
  method Div64By32(n: U64, base: U32) returns (res: U64, rem: U64)
    requires base > 0
    ensures res == n / base && rem == n % base
  {
    hide Pow2;
    res, rem := ReduceHighWord(n, base);
    var b: U64, d: U64 := base, 1;
    ghost var e: nat := 0;
    Pow2Values();
    while b < HALF64 && b < rem
      invariant b == base * d && d == Pow2(e) && base <= b
      decreases B64 - b
    {
      Pow2Double(e);
      assert base * (d + d) == b + b;
      MulMonotone(1, base, d + d);
      b := b + b;
      d := d + d;
      e := e + 1;
    }
    res, rem := SubtractAndShift(n, base, res, rem, b, d, e);
  }

  /** The first step of `__div64_32`: the high word is divided on its own. */
  method ReduceHighWord(n: U64, base: U32) returns (res: U64, rem: U64)
    requires base > 0
    ensures n == res * base + rem && rem < base * B32
  {
    res, rem := 0, n;
    var high: U32 := rem / B32;
    if high >= base {
      QuotientParts(n, base);
      QuotientAtLeast(high, base, B32);
      high := high / base;
      res := high * B32;
      rem := rem - high * base * B32;
    } else {
      MulMonotone(high + 1, base, B32);
    }
  }

  /** The second loop of `__div64_32`. */
  method SubtractAndShift(ghost n: U64, ghost base: U32, res0: U64, rem0: U64, b0: int, d0: int, ghost e0: nat)
    returns (res: U64, rem: U64)
    requires base > 0 && n == res0 * base + rem0
    requires b0 == base * d0 && d0 == Pow2(e0) && rem0 - b0 < b0 < B64
    ensures res == n / base && rem == n % base
  {
    hide Pow2;
    res, rem := res0, rem0;
    var b, d := b0, d0;
    ghost var e := e0;
    while true
      invariant d == Pow2(e) && b == base * d && rem - b < b < B64
      invariant n == res * base + rem
      decreases d
    {
      if rem >= b {
        QuotientFits(n, base, res, d, rem);
        rem := rem - b;
        res := res + d;
      }
      if d == 1 {
        break;
      }
      HalfOf(base, b, d, e);
      b := b / 2;
      d := d / 2;
      e := e - 1;
    }
    DivModUnique(n, base, res, rem);
  }

  /** Adding `d` to the partial quotient keeps it a word. */
  lemma QuotientFits(n: U64, base: U32, res: U64, d: int, rem: U64)
    requires base > 0 && d > 0 && n == res * base + rem && rem >= base * d
    ensures n == (res + d) * base + (rem - base * d)
    ensures res + d < B64
  {
    assert (res + d) * base == res * base + base * d;
    MulMonotone(1, base, res + d);
  }

  lemma HalfOf(base: U32, b: int, d: int, e: nat)
    requires d == Pow2(e) && d != 1 && b == base * d
    ensures e > 0 && d / 2 == Pow2(e - 1) && b / 2 == base * (d / 2) && d / 2 < d && b == b / 2 + b / 2
  {
    assert d == 2 * (d / 2);
    assert b == 2 * (base * (d / 2));
  }

  lemma QuotientParts(n: U64, base: U32)
    requires base > 0 && n / B32 >= base
    ensures (n / B32) / base * base <= n / B32
    ensures 0 <= n - (n / B32) / base * base * B32 < base * B32
    ensures n == ((n / B32) / base * B32) * base + (n - (n / B32) / base * base * B32)
  {
    var h := n / B32;
    assert h == (h / base) * base + h % base;
    MulMonotone(h % base, base - 1, B32);
    assert n == h * B32 + n % B32;
  }

  // ----- 64 by 64 bits -----

  /** The quotient from which the correction step of `div64_u64` starts. */
  function LowEstimate(dividend: U64, divisor: U64, n: nat): int
    requires divisor / Pow2(n) > 0
  {
    var estimate := (dividend / Pow2(n)) / (divisor / Pow2(n));
    if estimate != 0 then estimate - 1 else 0
  }

  /** The correction step, in wrapping 64-bit arithmetic. */
  function Corrected(dividend: U64, divisor: U64, quot: int): U64 {
    if ToU64(dividend - ToU64(quot * divisor)) >= divisor then ToU64(quot + 1) else ToU64(quot)
  }

  /** What the shift leaves of the divisor, put back in place. */
  function Kept(divisor: U64, n: nat): int {
    divisor - divisor % Pow2(n)
  }

  lemma NestedDivision(a: int, p: int, m: int)
    requires p > 0 && m > 0 && m * p > 0
    ensures (a / p) / m == a / (m * p)
  {
    var b := a / p;
    var q := b / m;
    var r := (b % m) * p + a % p;
    assert a == b * p + a % p;
    assert b == q * m + b % m;
    MulAssoc(q, m, p);
    assert (q * m + b % m) * p == (q * m) * p + (b % m) * p;
    MulMonotone(b % m, m - 1, p);
    assert (m - 1) * p == m * p - p;
    MulMonotone(0, b % m, p);
    DivModUnique(a, m * p, q, r);
  }

  lemma SmallerDivisor(a: int, c: int, d: int)
    requires 0 < c <= d && 0 <= a
    ensures 0 <= a / d <= a / c <= a
  {
    var q := a / d;
    QuotientAtLeast(a, d, 0);
    QuotientAtLeast(a, d, q);
    MulMonotone(c, d, q);
    QuotientAtLeast(a, c, q);
    var q' := a / c;
    QuotientAtLeast(a, c, q');
    MulMonotone(1, c, q');
  }

  /** Dividing shifted operands is dividing by the divisor without the bits shifted out. */
  lemma ShiftedEstimate(dividend: U64, divisor: U64, n: nat)
    requires divisor / Pow2(n) > 0
    ensures 0 < Kept(divisor, n) <= divisor
    ensures divisor / Pow2(n) > 0
    ensures (dividend / Pow2(n)) / (divisor / Pow2(n)) == dividend / Kept(divisor, n)
    ensures 0 <= dividend / divisor <= dividend / Kept(divisor, n) <= dividend
  {
    hide Pow2;
    var p := Pow2(n);
    var m := divisor / p;
    assert Kept(divisor, n) == m * p;
    QuotientAtLeast(divisor, p, 1);
    MulMonotone(1, m, p);
    NestedDivision(dividend, p, m);
    SmallerDivisor(dividend, Kept(divisor, n), divisor);
  }

  lemma SmallWord(x: int)
    requires 0 <= x < B64
    ensures ToU64(x) == x
  {
  }

  lemma CorrectedBelow(a: U64, d: U64, e: int)
    requires d > 0 && 0 <= e < B64 - 1 && a / d <= e + 1 && e * d <= a
    ensures Corrected(a, d, e) == a / d
  {
    hide ToU64;
    MulMonotone(0, e, d);
    QuotientAtLeast(a, d, e);
    QuotientAtLeast(a, d, e + 1);
    assert (e + 1) * d == e * d + d;
    SmallWord(e * d);
    SmallWord(a - e * d);
    SmallWord(e);
    SmallWord(e + 1);
  }

  /** Correcting an estimate at most one too low gives the quotient iff it was not too high. */
  lemma CorrectedIff(a: U64, d: U64, e: int)
    requires d > 0 && 0 <= e < B64 - 1 && a / d <= e + 1
    ensures Corrected(a, d, e) == a / d <==> e * d <= a
  {
    hide ToU64;
    QuotientAtLeast(a, d, e);
    SmallWord(e);
    SmallWord(e + 1);
    if e * d <= a {
      CorrectedBelow(a, d, e);
    }
  }

  lemma LowEstimateRange(dividend: U64, divisor: U64, n: nat)
    requires divisor / Pow2(n) > 0
    ensures divisor > 0
    ensures 0 <= LowEstimate(dividend, divisor, n) < B64 - 1
    ensures dividend / divisor <= LowEstimate(dividend, divisor, n) + 1
  {
    hide Pow2, Kept;
    ShiftedEstimate(dividend, divisor, n);
  }

  /** For one dividend: the program's quotient is exact iff the low estimate fits under it. */
  lemma ExactIff(dividend: U64, divisor: U64, n: nat)
    requires divisor / Pow2(n) > 0
    ensures divisor > 0
    ensures Corrected(dividend, divisor, LowEstimate(dividend, divisor, n)) == dividend / divisor
        <==> LowEstimate(dividend, divisor, n) * divisor <= dividend
  {
    hide Pow2, LowEstimate, Corrected;
    LowEstimateRange(dividend, divisor, n);
    CorrectedIff(dividend, divisor, LowEstimate(dividend, divisor, n));
  }

  /**
   The condition on a divisor under which no dividend goes wrong: nothing is shifted out, or
   the first dividend to go wrong would need more than 64 bits.
   */
  predicate SafeDivisor(divisor: U64, n: nat) {
    var lost := divisor % Pow2(n);
    lost == 0 || (divisor / lost + 1) * (divisor - lost) >= B64
  }

  /** How far the low estimate overshoots a dividend of `k` shortened divisors. */
  lemma Overshoot(k: int, divisor: int, lost: int)
    ensures (k - 1) * divisor - k * (divisor - lost) == k * lost - divisor
  {
  }

  /** With a safe divisor the low estimate always fits. */
  lemma SafeFits(dividend: U64, divisor: U64, n: nat)
    requires divisor / Pow2(n) > 0 && SafeDivisor(divisor, n)
    ensures LowEstimate(dividend, divisor, n) * divisor <= dividend
  {
    hide Pow2;
    ShiftedEstimate(dividend, divisor, n);
    var lost, c := divisor % Pow2(n), Kept(divisor, n);
    var k := dividend / c;
    QuotientAtLeast(dividend, c, k);
    if k >= 1 && (k - 1) * divisor > dividend {
      Overshoot(k, divisor, lost);
      assert k * lost > divisor;
      QuotientAtLeast(divisor, lost, k);
      MulMonotone(divisor / lost + 1, k, c);
    }
  }

  /** The first dividend that an unsafe divisor gets wrong. */
  function FirstWrong(divisor: U64, n: nat): int
    requires divisor % Pow2(n) > 0
  {
    var lost := divisor % Pow2(n);
    (divisor / lost + 1) * (divisor - lost)
  }

  lemma UnsafeWitness(divisor: U64, n: nat)
    requires divisor / Pow2(n) > 0 && !SafeDivisor(divisor, n)
    ensures divisor % Pow2(n) > 0
    ensures 0 <= FirstWrong(divisor, n) < B64
    ensures LowEstimate(FirstWrong(divisor, n), divisor, n) * divisor > FirstWrong(divisor, n)
  {
    hide Pow2;
    var lost, c := divisor % Pow2(n), Kept(divisor, n);
    var k := divisor / lost + 1;
    QuotientAtLeast(divisor, lost, 0);
    MulMonotone(0, k, c);
    var a: U64 := k * c;
    ShiftedEstimate(a, divisor, n);
    DivModUnique(a, c, k, 0);
    QuotientAtLeast(divisor, lost, k);
    assert k * lost > divisor;
    Overshoot(k, divisor, lost);
  }

  /** `div64_u64` with shift `n` is exact for every dividend iff the divisor is safe. */
  lemma ExactForAllIff(divisor: U64, n: nat)
    requires divisor / Pow2(n) > 0
    ensures divisor > 0
    ensures (forall a: U64 :: Corrected(a, divisor, LowEstimate(a, divisor, n)) == a / divisor)
        <==> SafeDivisor(divisor, n)
  {
    hide Pow2, LowEstimate, Corrected, SafeDivisor;
    LowEstimateRange(0, divisor, n);
    if SafeDivisor(divisor, n) {
      forall dividend: U64
        ensures Corrected(dividend, divisor, LowEstimate(dividend, divisor, n)) == dividend / divisor
      {
        SafeFits(dividend, divisor, n);
        ExactIff(dividend, divisor, n);
      }
    } else {
      UnsafeWitness(divisor, n);
      var a: U64 := FirstWrong(divisor, n);
      ExactIff(a, divisor, n);
    }
  }

  // ----- which divisors are safe -----

  lemma SafeIfLarge(divisor: U64, n: nat)
    requires divisor / Pow2(n) > 0
    requires divisor * (divisor - divisor % Pow2(n)) >= divisor % Pow2(n) * B64
    ensures SafeDivisor(divisor, n)
  {
    hide Pow2;
    var lost := divisor % Pow2(n);
    if lost != 0 {
      var c, k := divisor - lost, divisor / lost + 1;
      ShiftedEstimate(0, divisor, n);
      QuotientAtLeast(divisor, lost, k);
      assert k * lost > divisor;
      MulMonotone(divisor, k * lost, c);
      assert (k * lost) * c == (k * c) * lost;
      ProductBelow(k * c, B64, lost);
      assert B64 * lost == lost * B64;
    }
  }

  /** A divisor with top bit `top` and a shift of at most `top - 30` with few enough bits lost. */
  lemma SafeByTopBit(divisor: U64, n: nat, top: nat)
    requires 5 <= n && n + 30 <= top && Pow2(top) <= divisor
    ensures divisor / Pow2(n) > 0 && SafeDivisor(divisor, n)
  {
    hide Pow2, SafeDivisor;
    var p, lost := Pow2(n), divisor % Pow2(n);
    Pow2Grows(n, top - 30);
    Pow2Add(30, top - 30);
    assert Pow2(30) == 0x4000_0000 by { Pow2Values(); Pow2Double(30); }
    assert divisor >= 0x4000_0000 * p by { MulMonotone(p, Pow2(top - 30), 0x4000_0000); }
    QuotientAtLeast(divisor, p, 1);
    assert p >= 32 by { Pow2Grows(5, n); Pow2Values(); Pow2Double(4); }
    LargeSquare(divisor, lost, p);
    SafeIfLarge(divisor, n);
  }

  lemma LargeSquare(d: int, lost: int, p: int)
    requires 0 <= lost < p && p >= 32 && d >= 0x4000_0000 * p
    ensures d * (d - lost) >= lost * B64
  {
    assert d - lost >= 0x2000_0000 * p;
    assert d * (d - lost) >= (0x4000_0000 * p) * (d - lost) by { MulMonotone(0x4000_0000 * p, d, d - lost); }
    assert (0x4000_0000 * p) * (d - lost) >= (0x4000_0000 * p) * (0x2000_0000 * p) by {
      MulMonotone(0x2000_0000 * p, d - lost, 0x4000_0000 * p);
    }
    assert (0x4000_0000 * p) * (0x2000_0000 * p) == 0x800_0000_0000_0000 * (p * p);
    assert p * p >= 32 * p by { MulMonotone(32, p, p); }
  }

  /** The shift of `div64_u64`: one more than the bits of the divisor's high word. */
  function ShiftFor(divisor: U64): nat {
    1 + Bits(divisor / B32)
  }

  lemma TopBitOfDivisor(divisor: U64)
    requires divisor / B32 > 0
    ensures var f := Bits(divisor / B32);
      && 1 <= f <= 32 && Pow2(31 + f) <= divisor < Pow2(32 + f)
      && 0 < divisor / Pow2(f + 1) < B32 && 0 < divisor / Pow2(f) < B32
  {
    hide Pow2;
    var h, f := divisor / B32, Bits(divisor / B32);
    Pow2Values();
    if f > 32 {
      Pow2Grows(32, f - 1);
    }
    Pow2Add(32, f - 1);
    Pow2Add(32, f);
    MulMonotone(Pow2(f - 1), h, B32);
    MulMonotone(h + 1, Pow2(f), B32);
    assert divisor == h * B32 + divisor % B32;
    Pow2Double(f);
    Pow2Double(f - 1);
    QuotientAtLeast(divisor, Pow2(f + 1), 1);
    QuotientAtLeast(divisor, Pow2(f), 1);
    QuotientAtLeast(divisor, Pow2(f + 1), B32);
    QuotientAtLeast(divisor, Pow2(f), B32);
    Pow2Grows(f + 1, 31 + f);
  }

  /** What `div64_u64` computes. */
  function ProgramQuotient(dividend: U64, divisor: U64): U64
    requires divisor > 0
  {
    if divisor / B32 == 0 then dividend / divisor
    else
      TopBitOfDivisor(divisor);
      Corrected(dividend, divisor, LowEstimate(dividend, divisor, ShiftFor(divisor)))
  }

  predicate AlwaysExact(divisor: U64) {
    divisor / B32 == 0 || SafeDivisor(divisor, ShiftFor(divisor))
  }

  /** `div64_u64` is exact for all dividends exactly when the divisor meets the condition. */
  lemma DivisorExactIff(divisor: U64)
    requires divisor > 0
    ensures (forall dividend: U64 :: ProgramQuotient(dividend, divisor) == dividend / divisor) <==> AlwaysExact(divisor)
  {
    hide Pow2, LowEstimate, Corrected, SafeDivisor;
    if divisor / B32 != 0 {
      TopBitOfDivisor(divisor);
      ExactForAllIff(divisor, ShiftFor(divisor));
      var n := ShiftFor(divisor);
      assert forall a: U64 :: ProgramQuotient(a, divisor) == Corrected(a, divisor, LowEstimate(a, divisor, n));
    }
  }

  /** In particular it is exact for every divisor whose high word is 0 or at least 4. */
  lemma HighWordSafe(divisor: U64)
    requires divisor / B32 >= 4
    ensures AlwaysExact(divisor)
  {
    hide Pow2, SafeDivisor;
    var n := ShiftFor(divisor);
    TopBitOfDivisor(divisor);
    Pow2Values();
    Pow2Double(2);
    if n <= 3 {
      Pow2Grows(n - 1, 2);
    } else if n == 4 {
      Pow2Double(31);
      Pow2Double(32);
      Pow2Double(33);
      var lost := divisor % 16;
      assert divisor >= 0x4_0000_0000;
      assert divisor * (divisor - lost) >= 0x4_0000_0000 * (divisor - lost) by {
        MulMonotone(0x4_0000_0000, divisor, divisor - lost);
      }
      SafeIfLarge(divisor, n);
    } else {
      SafeByTopBit(divisor, n, 30 + n);
    }
  }

  // ----- the shift, and the value in every case -----

  lemma QuotientBetween(d: int, p: int, least: int, bound: int)
    requires p > 0 && least * p <= d < bound * p
    ensures least <= d / p < bound
  {
    QuotientAtLeast(d, p, least);
    QuotientAtLeast(d, p, bound);
  }

  /** The shift leaves 31 bits of the divisor. */
  lemma ShiftKeeps31Bits(divisor: U64)
    requires divisor / B32 > 0
    ensures 0x4000_0000 <= divisor / Pow2(ShiftFor(divisor)) < 0x8000_0000
  {
    hide Pow2;
    var f := Bits(divisor / B32);
    TopBitOfDivisor(divisor);
    Pow2Values();
    Pow2Double(30);
    Pow2Add(30, f + 1);
    Pow2Add(31, f + 1);
    hide Bits;
    QuotientBetween(divisor, Pow2(f + 1), 0x4000_0000, 0x8000_0000);
  }

  /** No other shift does. */
  lemma ShiftUnique(divisor: U64, n: nat)
    requires divisor / B32 > 0 && 0x4000_0000 <= divisor / Pow2(n) < 0x8000_0000
    ensures n == ShiftFor(divisor)
  {
    hide Pow2, ShiftFor;
    var m := ShiftFor(divisor);
    ShiftKeeps31Bits(divisor);
    if n < m {
      ShorterShift(divisor, n, m);
    } else if m < n {
      ShorterShift(divisor, m, n);
    }
  }

  lemma ShorterShift(divisor: U64, m: nat, n: nat)
    requires m < n && 0x4000_0000 <= divisor / Pow2(n)
    ensures divisor / Pow2(m) >= 0x8000_0000
  {
    hide Pow2;
    Pow2Double(m);
    Pow2Grows(m + 1, n);
    QuotientAtLeast(divisor, Pow2(n), 0x4000_0000);
    QuotientAtLeast(divisor, Pow2(m), 0x8000_0000);
    MulMonotone(2 * Pow2(m), Pow2(n), 0x4000_0000);
  }

  /** A low estimate that is too high is corrected to the estimate itself, by wrapping around. */
  lemma CorrectedAbove(a: U64, d: U64, k: int, lost: int)
    requires 0 <= lost <= d - lost && 0 < k < B64 && k * (d - lost) <= a < (k - 1) * d
    ensures Corrected(a, d, k - 1) == k
  {
    hide ToU64;
    var p := (k - 1) * d;
    Overshoot(k, d, lost);
    MulMonotone(lost, d - lost, k);
    WrappedDifference(a, p);
    SmallWord(k);
  }

  lemma WrappedDifference(a: U64, p: int)
    requires a < p <= a + B64
    ensures ToU64(a - ToU64(p)) == a - p + B64
  {
    var q := p / B64;
    assert a - ToU64(p) == a - p + B64 + (q - 1) * B64;
    ModAddMultiple(a - p + B64, B64, q - 1);
  }

  /**
   What `div64_u64` returns for a divisor of two words, right or wrong.  With the shift that
   leaves 31 bits of the divisor, let `k` be the dividend divided by what the shift keeps of
   the divisor: the result is the quotient if `k - 1` does not exceed it, and else `k`.
   */
  lemma ProgramQuotientValue(a: U64, d: U64, n: nat)
    requires d / B32 > 0 && 0x4000_0000 <= d / Pow2(n) < 0x8000_0000
    ensures d % Pow2(n) < d
    ensures var k := a / (d - d % Pow2(n));
      ProgramQuotient(a, d) == if (k - 1) * d <= a then a / d else k
  {
    hide Pow2, ShiftFor, ProgramQuotient, Corrected;
    ShiftUnique(d, n);
    ProgramQuotientLong(a, d);
    ShiftedEstimate(a, d, n);
    ExactIff(a, d, n);
    EstimateWhenWrong(a, d, n);
  }

  lemma EstimateWhenWrong(a: U64, d: U64, n: nat)
    requires d / Pow2(n) > 0 && d % Pow2(n) < d
    ensures var k := a / (d - d % Pow2(n));
      && (LowEstimate(a, d, n) * d <= a <==> (k - 1) * d <= a)
      && ((k - 1) * d > a ==> Corrected(a, d, LowEstimate(a, d, n)) == k)
  {
    hide Pow2, Corrected;
    var lost := d % Pow2(n);
    var k := a / (d - lost);
    ShiftedEstimate(a, d, n);
    QuotientAtLeast(d, Pow2(n), 1);
    QuotientAtLeast(a, d - lost, k);
    LostIsLess(d, Pow2(n));
    if k > 0 && (k - 1) * d > a {
      CorrectedAbove(a, d, k, lost);
    }
  }

  lemma LostIsLess(d: int, p: int)
    requires p > 0 && d / p > 0
    ensures d % p <= d - d % p
  {
    assert d == (d / p) * p + d % p;
    MulMonotone(1, d / p, p);
  }

  /**
   High words 1 to 3: the shift loses the two or three lowest bits of the divisor, and the
   division is exact for all dividends iff these are 0 or small enough.
   */
  lemma SmallHighWordExactIff(d: U64)
    requires 1 <= d / B32 <= 3
    ensures var lost := d % (if d / B32 == 1 then 4 else 8);
      && (AlwaysExact(d) <==> lost == 0 || (d / lost + 1) * (d - lost) >= B64)
      && ((forall a: U64 :: ProgramQuotient(a, d) == a / d) <==> lost == 0 || (d / lost + 1) * (d - lost) >= B64)
  {
    hide Pow2, Bits, ProgramQuotient;
    DivisorExactIff(d);
    Pow2Values();
    Pow2Double(2);
    BitsUnique(d / B32, if d / B32 == 1 then 1 else 2);
  }

  /** With the shift by the bits of the high word, one less, every divisor would be safe. */
  lemma SmallerShiftSafe(divisor: U64)
    requires divisor / B32 > 0
    ensures divisor / Pow2(Bits(divisor / B32)) > 0
    ensures SafeDivisor(divisor, Bits(divisor / B32))
  {
    hide Pow2, SafeDivisor, Bits;
    var n := Bits(divisor / B32);
    TopBitOfDivisor(divisor);
    Pow2Values();
    if n >= 5 {
      SafeByTopBit(divisor, n, 31 + n);
    } else {
      Pow2Add(31, n);
      Pow2Double(2);
      SmallShift(divisor, divisor % Pow2(n), Pow2(n));
      SafeIfLarge(divisor, n);
    }
  }

  lemma SmallShift(d: int, lost: int, p: int)
    requires p == 2 || p == 4 || p == 8 || p == 16
    requires lost == d % p && d >= 0x8000_0000 * p
    ensures d * (d - lost) >= lost * B64
  {
    MulMonotone(0x8000_0000 * p + lost, d, d - lost);
    MulMonotone(0x8000_0000 * p, d - lost, 0x8000_0000 * p + lost);
  }

  /** A divisor with high word 1 that goes wrong: the quotient comes out 2 too large. */
  lemma OvershootWitness()
    ensures ProgramQuotient(0xffff_ffff_ffff_ffff, 0x1_0000_0003) == 0xffff_ffff
    ensures 0xffff_ffff_ffff_ffff / 0x1_0000_0003 == 0xffff_fffd
    ensures !AlwaysExact(0x1_0000_0003)
  {
    hide Pow2, Corrected, SafeDivisor, ProgramQuotient, AlwaysExact;
    var a: U64, d: U64 := 0xffff_ffff_ffff_ffff, 0x1_0000_0003;
    Pow2Values();
    TopBitOfDivisor(d);
    BitsUnique(d / B32, 1);
    assert LowEstimate(a, d, 2) == 0xffff_fffe;
    OvershootStep();
    assert ProgramQuotient(a, d) == 0xffff_ffff by { ProgramQuotientLong(a, d); }
    assert a / d == 0xffff_fffd;
    DivisorExactIff(d);
  }

  lemma OvershootStep()
    ensures Corrected(0xffff_ffff_ffff_ffff, 0x1_0000_0003, 0xffff_fffe) == 0xffff_ffff
  {
  }

  lemma ProgramQuotientLong(a: U64, d: U64)
    requires d / B32 > 0
    ensures d / Pow2(ShiftFor(d)) > 0
    ensures ProgramQuotient(a, d) == Corrected(a, d, LowEstimate(a, d, ShiftFor(d)))
  {
    TopBitOfDivisor(d);
  }

  /** `div64_u64` */
  method Div64U64(dividend: U64, divisor: U64) returns (quot: U64)
    requires divisor > 0
    ensures quot == ProgramQuotient(dividend, divisor)
    ensures AlwaysExact(divisor) ==> quot == dividend / divisor
    ensures divisor / B32 == 0 || divisor / B32 >= 4 ==> quot == dividend / divisor
    ensures forall n: nat :: divisor / B32 > 0 && 0x4000_0000 <= divisor / Pow2(n) < 0x8000_0000 ==>
      divisor % Pow2(n) < divisor &&
      var k := dividend / (divisor - divisor % Pow2(n));
      quot == if (k - 1) * divisor <= dividend then dividend / divisor else k
  {
    hide ProgramQuotient, Pow2, SafeDivisor, LowEstimate, Corrected;
    var high := divisor / B32;
    if high == 0 {
      quot := DivU64(dividend, divisor);
    } else {
      quot := DivByTwoWords(dividend, divisor);
    }
    DivisorExactIff(divisor);
    forall n: nat | divisor / B32 > 0 && 0x4000_0000 <= divisor / Pow2(n) < 0x8000_0000
      ensures divisor % Pow2(n) < divisor &&
        var k := dividend / (divisor - divisor % Pow2(n));
        quot == if (k - 1) * divisor <= dividend then dividend / divisor else k
    {
      ProgramQuotientValue(dividend, divisor, n);
    }
    if high >= 4 {
      HighWordSafe(divisor);
    }
  }

  /** The long branch of `div64_u64`: estimate from shifted operands, and correct. */
  method DivByTwoWords(dividend: U64, divisor: U64) returns (quot: U64)
    requires divisor / B32 > 0
    ensures quot == ProgramQuotient(dividend, divisor)
  {
    hide Pow2, Corrected, ProgramQuotient;
    TopBitOfDivisor(divisor);
    ProgramQuotientLong(dividend, divisor);
    var f := Fls(divisor / B32);
    var n := 1 + f;
    quot := DivShifted(dividend, divisor, Pow2(n));
    LowEstimateRange(dividend, divisor, n);
    if quot != 0 {
      quot := quot - 1;
    }
    quot := Correct(dividend, divisor, quot);
  }

  method DivShifted(dividend: U64, divisor: U64, p: int) returns (quot: U64)
    requires p > 0 && 0 < divisor / p < B32
    ensures quot == (dividend / p) / (divisor / p)
  {
    SmallerDivisor(dividend, 1, p);
    quot := DivU64(dividend / p, divisor / p);
  }

  method Correct(dividend: U64, divisor: U64, quot: U64) returns (r: U64)
    requires quot < B64 - 1
    ensures r == Corrected(dividend, divisor, quot)
  {
    r := quot;
    if ToU64(dividend - ToU64(quot * divisor)) >= divisor {
      r := quot + 1;
    }
  }

  // ----- signed division -----

  /** The quotient of C: rounded toward zero. */
  function TruncatedQuotient(a: int, b: int): int
    requires b != 0
  {
    if (a < 0) == (b < 0) then Magnitude(a) / Magnitude(b) else -(Magnitude(a) / Magnitude(b))
  }

  function Magnitude(a: int): int {
    if a < 0 then -a else a
  }

  /** Truncated division is the one whose remainder is small and has the sign of the dividend. */
  lemma TruncatedQuotientUnique(a: int, b: int, q: int)
    requires b != 0
    ensures q == TruncatedQuotient(a, b)
        <==> Magnitude(a - q * b) < Magnitude(b) && (a - q * b == 0 || (a - q * b < 0) == (a < 0))
  {
    var m, d := Magnitude(a), Magnitude(b);
    var sign := if (a < 0) == (b < 0) then 1 else -1;
    var r := if a < 0 then -(a - q * b) else a - q * b;
    assert q * b == if a < 0 then -(sign * q * d) else sign * q * d by { SignedProduct(a, b, q); }
    assert m == (sign * q) * d + r;
    assert m == (m / d) * d + m % d;
    if 0 <= r < d {
      DivModUnique(m, d, sign * q, r);
    }
  }

  lemma SignedProduct(a: int, b: int, q: int)
    requires b != 0
    ensures var sign := if (a < 0) == (b < 0) then 1 else -1;
      q * b == if a < 0 then -(sign * q * Magnitude(b)) else sign * q * Magnitude(b)
  {
  }

  /**
   `div64_s64`.  The sign mask `t` is all ones when the signs differ, and `(quot ^ t) - t`
   then negates.  Both magnitudes are words even for the least number; the quotient of the
   least number by -1 wraps.
   */
  method Div64S64(dividend: S64, divisor: S64) returns (quot: S64)
    requires divisor != 0
    ensures var q: int := ProgramQuotient(Magnitude(dividend), Magnitude(divisor));
      quot == ToS64(ToU64(if (dividend < 0) == (divisor < 0) then q else -q))
    ensures AlwaysExact(Magnitude(divisor)) ==> quot == ToS64(ToU64(TruncatedQuotient(dividend, divisor)))
  {
    var q := Div64U64(Magnitude(dividend), Magnitude(divisor));
    var t := if (dividend < 0) != (divisor < 0) then -1 else 0;
    quot := ToS64(ToU64(XorMask(q, t) - t));
  }

  /** `x ^ t` for a mask `t` of all ones (-1) or all zeros. */
  function XorMask(x: U64, t: int): int {
    if t == -1 then -1 - x else x
  }

  /** `div_s64_rem`: truncated quotient, and a remainder with the sign of the dividend. */
  method DivS64Rem(dividend: S64, divisor: S32) returns (quotient: S64, remainder: S32)
    requires divisor != 0
    ensures quotient == ToS64(ToU64(TruncatedQuotient(dividend, divisor)))
    ensures remainder == dividend - TruncatedQuotient(dividend, divisor) * divisor
  {
    var q0, r0 := DivU64Rem(Magnitude(dividend), Magnitude(divisor));
    var q: int, r: int := q0, r0;
    RemainderOfTruncated(dividend, divisor);
    if dividend < 0 {
      remainder := -r;
      quotient := ToS64(ToU64(if divisor > 0 then -q else q));
    } else {
      remainder := r;
      quotient := ToS64(ToU64(if divisor < 0 then -q else q));
    }
  }

  lemma RemainderOfTruncated(a: int, b: int)
    requires b != 0
    ensures a - TruncatedQuotient(a, b) * b ==
            if a < 0 then -(Magnitude(a) % Magnitude(b)) else Magnitude(a) % Magnitude(b)
  {
    var m, d := Magnitude(a), Magnitude(b);
    SignedProduct(a, b, TruncatedQuotient(a, b));
    assert m == (m / d) * d + m % d;
  }
}
