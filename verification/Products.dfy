/**
 The wide products of uki/math64.h: 64 by 64 bits through 32-bit limbs, with a shift or a
 division of the product.
 */
module Products {
  import opened Words
  import opened Division

  /** The bitwise or of two words. */
  function BitOr(x: nat, y: nat): nat
    decreases x + y
  {
    if x == 0 && y == 0 then 0
    else (if x % 2 == 1 || y % 2 == 1 then 1 else 0) + 2 * BitOr(x / 2, y / 2)
  }

  /** Words without a common bit are added by `or`. */
  lemma {:induction false} OrIsSum(x: nat, y: nat, k: nat)
    requires x < Pow2(k) && y % Pow2(k) == 0
    ensures BitOr(x, y) == x + y
    decreases k
  {
    if k == 0 {
      OrZero(y);
    } else {
      var p := Pow2(k - 1);
      assert y == (y / (2 * p)) * (2 * p);
      assert (y / (2 * p)) * (2 * p) == 2 * ((y / (2 * p)) * p);
      DivModUnique(y / 2, p, y / (2 * p), 0);
      OrIsSum(x / 2, y / 2, k - 1);
    }
  }

  lemma {:induction false} OrZero(y: nat)
    ensures BitOr(0, y) == y
  {
    if y != 0 {
      OrZero(y / 2);
    }
  }

  // ----- the 128-bit product -----

  /** A word as its two halves: the union of the program. */
  datatype Limbs = Limbs(low: U32, high: U32)

  function Split(x: U64): (l: Limbs)
    ensures x == l.low + B32 * l.high
  {
    Limbs(x % B32, x / B32)
  }

  function Join(l: Limbs): U64 {
    l.low + B32 * l.high
  }

  lemma ProductOfHalves(x: U32, y: U32)
    ensures 0 <= x * y <= (B32 - 1) * (B32 - 1)
  {
    MulMonotone(x, B32 - 1, y);
    MulMonotone(y, B32 - 1, B32 - 1);
    MulMonotone(0, x, y);
  }

  lemma SchoolProduct(a: U64, b: U64)
    ensures var x, y := Split(a), Split(b);
      a * b == x.low * y.low + B32 * (x.low * y.high + x.high * y.low) + B64 * (x.high * y.high)
  {
    var x, y := Split(a), Split(b);
    assert a * b == (x.low + B32 * x.high) * (y.low + B32 * y.high);
    assert (x.low + B32 * x.high) * (y.low + B32 * y.high)
      == x.low * y.low + B32 * (x.low * y.high) + B32 * (x.high * y.low) + B64 * (x.high * y.high);
  }

  lemma ProductRange(a: U64, b: U64)
    ensures 0 <= a * b < B64 * B64
  {
    MulMonotone(0, a, b);
    MulMonotone(a, B64, b);
    MulMonotone(b, B64, B64);
  }

  /** The first half of `mul_u64_u64_shr`: four partial products, added up with carries. */
  method FullProduct(a: U64, b: U64) returns (lo: U64, hi: U64)
    ensures lo + B64 * hi == a * b
  {
    var a0, b0 := Split(a), Split(b);
    ProductOfHalves(a0.low, b0.low);
    ProductOfHalves(a0.low, b0.high);
    ProductOfHalves(a0.high, b0.low);
    ProductOfHalves(a0.high, b0.high);
    SchoolProduct(a, b);
    ProductRange(a, b);
    lo, hi := AddPartial(a0.low * b0.low, a0.low * b0.high, a0.high * b0.low, a0.high * b0.high);
  }

  /** The two carrying additions; the sum fits 128 bits, so that no carry is lost. */
  method AddPartial(ll: U64, lh: U64, hl: U64, hh: U64) returns (lo: U64, hi: U64)
    requires ll + B32 * (lh + hl) + B64 * hh < B64 * B64
    ensures lo + B64 * hi == ll + B32 * (lh + hl) + B64 * hh
  {
    hide Split, ToU32;
    var rl, rm, rn, rh := Split(ll), Split(lh), Split(hl), Split(hh);
    var c: U64 := rl.high + rm.low + rn.low;
    Halves(c);
    var d: U64 := c / B32 + rm.high + rn.high + rh.low;
    Halves(d);
    var top: int := d / B32 + rh.high;
    CarriedSum(rl, rm, rn, rh, c / B32, ToU32(c), d / B32, ToU32(d));
    Halves(top);
    rl := rl.(high := ToU32(c));
    rh := Limbs(ToU32(d), ToU32(top));
    lo, hi := Join(rl), Join(rh);
  }

  lemma Halves(x: U64)
    ensures x == B32 * (x / B32) + ToU32(x)
    ensures 0 <= x / B32 < B32 && (x < B32 ==> x / B32 == 0)
  {
  }

  lemma CarriedSum(rl: Limbs, rm: Limbs, rn: Limbs, rh: Limbs, c1: int, c0: U32, d1: int, d0: U32)
    requires B32 * c1 + c0 == rl.high + rm.low + rn.low
    requires B32 * d1 + d0 == c1 + rm.high + rn.high + rh.low && 0 <= d1
    requires Join(rl) + B32 * (Join(rm) + Join(rn)) + B64 * Join(rh) < B64 * B64
    ensures Join(rl) + B32 * (Join(rm) + Join(rn)) + B64 * Join(rh)
      == rl.low + B32 * c0 + B64 * d0 + B64 * B32 * (d1 + rh.high)
    ensures d1 + rh.high < B32
  {
  }

  // ----- shifting the product -----

  /** The low word of a 128-bit number shifted right. */
  lemma ShiftedWords(lo: U64, hi: U64, shift: nat)
    requires shift < 64
    ensures (lo + B64 * hi) / Pow2(shift) == lo / Pow2(shift) + hi * Pow2(64 - shift)
    ensures 0 <= lo / Pow2(shift) < Pow2(64 - shift)
  {
    hide Pow2;
    var p, q := Pow2(shift), Pow2(64 - shift);
    Pow2Values();
    Pow2Add(shift, 64 - shift);
    assert B64 * hi == (hi * q) * p;
    assert lo == (lo / p) * p + lo % p;
    assert lo + B64 * hi == (lo / p + hi * q) * p + lo % p;
    DivModUnique(lo + B64 * hi, p, lo / p + hi * q, lo % p);
    QuotientAtLeast(lo, p, q);
    QuotientAtLeast(lo, p, 0);
  }

  lemma ModScaled(x: int, p: int, q: int)
    requires p > 0 && q > 0 && q * p > 0
    ensures (x * p) % (q * p) == (x % q) * p
    ensures (x % q) * p + p <= q * p
    ensures ((x % q) * p) % p == 0
  {
    var r := x % q;
    assert x == (x / q) * q + r;
    assert x * p == ((x / q) * q) * p + r * p;
    assert ((x / q) * q) * p == (x / q) * (q * p);
    MulMonotone(r + 1, q, p);
    assert (r + 1) * p == r * p + p;
    MulMonotone(0, r, p);
    DivModUnique(x * p, q * p, x / q, r * p);
    DivModUnique(r * p, p, r, 0);
  }

  /** A word shifted left keeps its low bits clear, and leaves room for a shorter word. */
  lemma ShiftedLeft(hi: U64, k: nat)
    requires k <= 64
    ensures var w := ToU64(hi * Pow2(k));
      w % Pow2(k) == 0 && w + Pow2(k) <= B64
  {
    hide Pow2;
    Pow2Values();
    Pow2Add(64 - k, k);
    ModScaled(hi, Pow2(k), Pow2(64 - k));
  }

  /** `mul_u64_u64_shr`: the low word of the exact product shifted right. */
  method MulU64U64Shr(a: U64, b: U64, shift: nat) returns (r: U64)
    requires shift < 128
    ensures r == ToU64((a * b) / Pow2(shift))
  {
    hide Pow2, ToU64;
    var lo, hi := FullProduct(a, b);
    r := ShiftPair(lo, hi, shift);
  }

  /** The second half of `mul_u64_u64_shr`: a 128-bit shift by parts. */
  method ShiftPair(lo: U64, hi: U64, shift: nat) returns (r: U64)
    requires shift < 128
    ensures r == ToU64((lo + B64 * hi) / Pow2(shift))
  {
    hide Pow2, ToU64;
    if shift == 0 {
      Pow2Values();
      LowWordOfPair(lo, hi);
      r := lo;
    } else if shift < 64 {
      OrOfParts(lo, hi, shift);
      r := BitOr(lo / Pow2(shift), ToU64(hi * Pow2(64 - shift)));
    } else {
      HighWordShift(lo, hi, shift - 64);
      SmallWord(hi / Pow2(shift - 64));
      r := hi / Pow2(shift - 64);
    }
  }

  lemma LowWordOfPair(lo: U64, hi: U64)
    ensures ToU64(lo + B64 * hi) == lo
  {
    ModAddMultiple(lo, B64, hi);
  }

  lemma OrOfParts(lo: U64, hi: U64, shift: nat)
    requires shift < 64
    ensures 0 <= lo / Pow2(shift)
    ensures BitOr(lo / Pow2(shift), ToU64(hi * Pow2(64 - shift))) == ToU64((lo + B64 * hi) / Pow2(shift))
  {
    hide Pow2, ToU64;
    ShiftedWords(lo, hi, shift);
    ShiftedLeft(hi, 64 - shift);
    OrIsSum(lo / Pow2(shift), ToU64(hi * Pow2(64 - shift)), 64 - shift);
    ModOfSum(lo / Pow2(shift), hi * Pow2(64 - shift));
  }

  lemma ModOfSum(x: int, y: int)
    requires 0 <= x && x + ToU64(y) < B64
    ensures ToU64(x + y) == x + ToU64(y)
  {
    ModAddMultiple(x + ToU64(y), B64, y / B64);
  }

  lemma HighWordShift(lo: U64, hi: U64, k: nat)
    ensures (lo + B64 * hi) / Pow2(k + 64) == hi / Pow2(k)
    ensures 0 <= hi / Pow2(k) < B64
  {
    hide Pow2;
    Pow2Values();
    Pow2Add(k, 64);
    DivModUnique(lo + B64 * hi, B64, hi, lo);
    NestedDivision(lo + B64 * hi, B64, Pow2(k));
    QuotientAtLeast(hi, Pow2(k), B64);
    MulMonotone(1, Pow2(k), B64);
    QuotientAtLeast(hi, Pow2(k), 0);
  }

  /**
   `mul_u64_u32_shr`: the same for a one-word factor.  Beyond 32 the second shift would be by a
   negative amount; it is not made if the high word is 0.
   */
  method MulU64U32Shr(a: U64, mul: U32, shift: nat) returns (r: U64)
    requires shift <= 32 || (a < B32 && shift < 64)
    ensures r == ToU64((a * mul) / Pow2(shift))
  {
    hide Pow2, ToU64;
    var al, ah := a % B32, a / B32;
    ProductOfHalves(al, mul);
    ShiftedWord(al * mul, shift);
    r := (al * mul) / Pow2(shift);
    if ah != 0 {
      ShiftOfParts(a, mul, shift);
      ModOfParts(r, ah * mul * Pow2(32 - shift));
      r := ToU64(r + ToU64(ah * mul * Pow2(32 - shift)));
    } else {
      SmallWord(r);
    }
  }

  lemma ShiftedWord(x: U64, shift: nat)
    ensures 0 <= x / Pow2(shift) < B64
  {
    hide Pow2;
    QuotientAtLeast(x, Pow2(shift), 0);
    QuotientAtLeast(x, Pow2(shift), B64);
    MulMonotone(1, Pow2(shift), B64);
  }

  /** Reducing one summand first does not change a sum of words. */
  lemma ModOfParts(x: int, y: int)
    ensures ToU64(x + ToU64(y)) == ToU64(x + y)
  {
    ModAddMultiple(x + ToU64(y), B64, y / B64);
  }

  lemma SplitProduct(low: int, high: int, mul: int)
    ensures (low + high * B32) * mul == low * mul + (high * mul) * B32
  {
  }

  lemma Distribute(x: int, y: int, p: int)
    ensures (x + y) * p == x * p + y * p
  {
  }

  lemma ShiftOfParts(a: U64, mul: U32, shift: nat)
    requires shift <= 32
    ensures var al, ah := a % B32, a / B32;
      (a * mul) / Pow2(shift) == (al * mul) / Pow2(shift) + ah * mul * Pow2(32 - shift)
  {
    hide Pow2;
    var al, ah, p, q := a % B32, a / B32, Pow2(shift), Pow2(32 - shift);
    Pow2Values();
    Pow2Add(32 - shift, shift);
    var x := al * mul;
    ProductOfHalves(al, mul);
    SplitProduct(al, ah, mul);
    MulAssoc(ah * mul, q, p);
    assert x == (x / p) * p + x % p;
    Distribute(x / p, ah * mul * q, p);
    DivModUnique(a * mul, p, x / p + ah * mul * q, x % p);
  }

  // ----- dividing the product -----

  /** `mul_u64_u32_div`: a 96-bit product divided in two steps of at most 64 bits each. */
  method MulU64U32Div(a: U64, mul: U32, divisor: U32) returns (r: U64)
    requires divisor > 0
    ensures r == ToU64((a * mul) / divisor)
  {
    var u := Split(a);
    ProductOfHalves(u.low, mul);
    ProductOfHalves(u.high, mul);
    var rl := Split(u.low * mul);
    var rh: U64 := u.high * mul + rl.high;
    assert a * mul == rh * B32 + rl.low by { assert a * mul == u.low * mul + B32 * (u.high * mul); }
    r := DivideLimbs(rh, rl.low, divisor);
  }

  /** Long division of a three-limb number, keeping the two low limbs of the quotient. */
  method DivideLimbs(rh: U64, low: U32, divisor: U32) returns (r: U64)
    requires divisor > 0
    ensures r == ToU64((rh * B32 + low) / divisor)
  {
    hide ToU64, ToU32;
    var q, rem := DivU64Rem(rh, divisor);
    TwoStepDivision(divisor, rh, low, q, rem);
    var digit, last := DivU64Rem(Join(Limbs(low, rem)), divisor);
    LowWord(q, digit);
    Halves(digit);
    r := Join(Limbs(ToU32(digit), ToU32(q)));
  }

  lemma LowWord(q: U64, low: U64)
    requires low < B32
    ensures ToU64(q * B32 + low) == low + B32 * ToU32(q)
  {
    assert q * B32 + low == low + B32 * (q % B32) + (q / B32) * B64;
    ModAddMultiple(low + B32 * (q % B32), B64, q / B32);
  }

  lemma TwoStepDivision(divisor: U32, rh: U64, low: U32, q: U64, rem: U32)
    requires divisor > 0
    requires q == rh / divisor && rem == rh % divisor
    ensures 0 <= (rem * B32 + low) / divisor < B32
    ensures (rh * B32 + low) / divisor == q * B32 + (rem * B32 + low) / divisor
  {
    var x := rem * B32 + low;
    var digit, last := x / divisor, x % divisor;
    assert x == digit * divisor + last;
    DigitsOfDividend(divisor, q, rem, low, digit, last);
    DivModUnique(rh * B32 + low, divisor, q * B32 + digit, last);
    MulMonotone(rem + 1, divisor, B32);
    QuotientAtLeast(x, divisor, B32);
    QuotientAtLeast(x, divisor, 0);
  }

  lemma DigitsOfDividend(divisor: int, q: int, rem: int, low: int, digit: int, last: int)
    requires rem * B32 + low == digit * divisor + last
    ensures (q * divisor + rem) * B32 + low == (q * B32 + digit) * divisor + last
  {
  }

  /** `__iter_div_u64_rem`: repeated subtraction; the count wraps like its 32-bit type. */
  method IterDivU64Rem(dividend: U64, divisor: U32) returns (count: U32, remainder: U64)
    requires divisor > 0
    ensures count == ToU32(dividend / divisor) && remainder == dividend % divisor
  {
    hide ToU32;
    NextCount(-1);
    count, remainder := 0, dividend;
    ghost var q := 0;
    while remainder >= divisor
      invariant dividend == q * divisor + remainder && count == ToU32(q)
      decreases remainder
    {
      assert (q + 1) * divisor == q * divisor + divisor;
      NextCount(q);
      remainder := remainder - divisor;
      count := ToU32(count + 1);
      q := q + 1;
    }
    DivModUnique(dividend, divisor, q, remainder);
  }

  lemma NextCount(q: int)
    ensures ToU32(ToU32(q) + 1) == ToU32(q + 1) && ToU32(0) == 0
  {
  }
}
