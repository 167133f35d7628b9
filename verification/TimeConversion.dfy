/**
 The conversions between jiffies and seconds with nanoseconds of jiffies.c, for HZ = 100 and
 64-bit `long`.
 */
module TimeConversion {
  import opened Words
  import opened Division

  const HZ: int := 100
  const NSEC_PER_SEC: int := 1_000_000_000
  const TICK_NSEC: int := 10_000_000
  const SEC_SCALE: int := 0x200_0000               // 2 to the SEC_JIFFIE_SC = 25
  const NSEC_TO_SEC_SCALE: int := 0x2000_0000      // 2 to the NSEC_JIFFIE_SC - SEC_JIFFIE_SC = 29
  const NSEC_SCALE: int := 0x40_0000_0000_0000     // 2 to the NSEC_JIFFIE_SC = 54
  const SEC_CONVERSION: int := 3_355_443_200
  const NSEC_CONVERSION: int := 1_801_439_851
  const MAX_JIFFY_OFFSET: int := 0x3fff_ffff_ffff_fffe
  const MAX_SEC_IN_JIFFIES: int := 2_748_779_068   // the second from which conversions saturate

  /** `SH_DIV(nom, den, 1)`: twice the quotient, rounded. */
  function ShDiv1(nom: int, den: int): int
    requires den > 0
  {
    nom / den * 2 + (nom % den * 2 + den / 2) / den
  }

  /** The constants are those that uki/jiffies.h computes from HZ. */
  lemma Constants()
    ensures TICK_NSEC == (NSEC_PER_SEC + HZ / 2) / HZ
    ensures NSEC_SCALE == SEC_SCALE * NSEC_TO_SEC_SCALE
    ensures SEC_CONVERSION == (NSEC_PER_SEC * SEC_SCALE + TICK_NSEC - 1) / TICK_NSEC
    ensures NSEC_CONVERSION == (NSEC_SCALE + TICK_NSEC - 1) / TICK_NSEC
    ensures MAX_JIFFY_OFFSET == 0x7fff_ffff_ffff_ffff / 2 - 1
    ensures MAX_SEC_IN_JIFFIES == ShDiv1(MAX_JIFFY_OFFSET / SEC_SCALE * TICK_NSEC, NSEC_PER_SEC) - 1
    ensures HZ == 100 && NSEC_PER_SEC == 1_000_000_000 && SEC_SCALE == 0x200_0000
    ensures MAX_SEC_IN_JIFFIES == 2_748_779_068
  {
  }

  predicate Normalized(nsec: int) {
    0 <= nsec < NSEC_PER_SEC
  }

  /** `__timespec64_to_jiffies`, in wrapping 64-bit arithmetic. */
  function TimespecToJiffies(sec: U64, nsec: int): U64 {
    var n := if sec >= MAX_SEC_IN_JIFFIES then 0 else nsec + TICK_NSEC - 1;
    var s := if sec >= MAX_SEC_IN_JIFFIES then MAX_SEC_IN_JIFFIES else sec;
    ToU64(ToU64(s * SEC_CONVERSION) + ToU64(ToU64(n) * NSEC_CONVERSION) / NSEC_TO_SEC_SCALE) / SEC_SCALE
  }

  /** The time of a count of jiffies, in nanoseconds. */
  function JiffiesInNs(jiffies: int): int {
    jiffies * TICK_NSEC
  }

  function InNs(sec: int, nsec: int): int {
    sec * NSEC_PER_SEC + nsec
  }

  // ----- the scaled multiplication is an exact ceiling -----

  /** Multiplying by the rounded-up reciprocal divides exactly, for operands this small. */
  lemma ReciprocalExact(x: int)
    requires 0 <= x < NSEC_PER_SEC + TICK_NSEC
    ensures (x * NSEC_CONVERSION) / NSEC_SCALE == x / TICK_NSEC
    ensures 0 <= x * NSEC_CONVERSION < 0x2000_0000_0000_0000
  {
    var q, r := x / TICK_NSEC, x % TICK_NSEC;
    var excess := NSEC_CONVERSION * TICK_NSEC - NSEC_SCALE;
    assert excess == 518_016;
    assert x == q * TICK_NSEC + r;
    assert x * NSEC_CONVERSION == q * NSEC_SCALE + (q * excess + r * NSEC_CONVERSION);
    DivModUnique(x * NSEC_CONVERSION, NSEC_SCALE, q, q * excess + r * NSEC_CONVERSION);
  }

  lemma NestedShift(x: int)
    requires 0 <= x
    ensures x / NSEC_TO_SEC_SCALE / SEC_SCALE == x / NSEC_SCALE
  {
    NestedDivision(x, NSEC_TO_SEC_SCALE, SEC_SCALE);
  }

  /** Adding the two scaled parts and shifting once rounds like the fraction alone. */
  lemma ScaledSum(sec: int, y: int)
    requires 0 <= sec && 0 <= y
    ensures (sec * SEC_CONVERSION + y) / SEC_SCALE == sec * HZ + y / SEC_SCALE
  {
    DivModUnique(sec * SEC_CONVERSION + y, SEC_SCALE, sec * HZ + y / SEC_SCALE, y % SEC_SCALE);
  }

  lemma ExactJiffies(sec: U64, nsec: int)
    requires Normalized(nsec) && sec < MAX_SEC_IN_JIFFIES
    ensures TimespecToJiffies(sec, nsec) == sec * HZ + (nsec + TICK_NSEC - 1) / TICK_NSEC
  {
    var x := nsec + TICK_NSEC - 1;
    ReciprocalExact(x);
    NestedShift(x * NSEC_CONVERSION);
    var y := x * NSEC_CONVERSION / NSEC_TO_SEC_SCALE;
    ScaledSum(sec, y);
    NoOverflow(sec * SEC_CONVERSION, x, x * NSEC_CONVERSION, y);
  }

  lemma NoOverflow(s: int, x: int, z: int, y: int)
    requires 0 <= s < 0x8000_0000_0000_0000 && 0 <= x < HALF64 && 0 <= z < HALF64 && y == z / NSEC_TO_SEC_SCALE
    ensures ToU64(s) == s && ToU64(x) == x && ToU64(z) == z && ToU64(s + y) == s + y
  {
  }

  /**
   Below the saturation second the result is the least count of jiffies that is not before
   the given time: the ceiling of the time in ticks, exactly.
   */
  lemma JiffiesAreCeiling(sec: U64, nsec: int)
    requires Normalized(nsec) && sec < MAX_SEC_IN_JIFFIES
    ensures var j := TimespecToJiffies(sec, nsec);
      && JiffiesInNs(j - 1) < InNs(sec, nsec) <= JiffiesInNs(j)
      && sec * HZ <= j <= (sec + 1) * HZ
  {
    hide TimespecToJiffies;
    ExactJiffies(sec, nsec);
  }

  lemma Saturated(sec: U64, nsec: int)
    requires sec >= MAX_SEC_IN_JIFFIES
    ensures TimespecToJiffies(sec, nsec) == MAX_SEC_IN_JIFFIES * HZ
  {
  }

  /** The conversion is monotone, into and through saturation. */
  lemma Monotone(sec: U64, nsec: int, sec': U64, nsec': int)
    requires Normalized(nsec) && Normalized(nsec') && InNs(sec, nsec) <= InNs(sec', nsec')
    ensures TimespecToJiffies(sec, nsec) <= TimespecToJiffies(sec', nsec')
  {
    hide TimespecToJiffies;
    if sec' < MAX_SEC_IN_JIFFIES {
      JiffiesAreCeiling(sec, nsec);
      JiffiesAreCeiling(sec', nsec');
    } else {
      Saturated(sec', nsec');
      if sec < MAX_SEC_IN_JIFFIES {
        JiffiesAreCeiling(sec, nsec);
      } else {
        Saturated(sec, nsec);
      }
    }
  }

  // ----- times as structures -----

  /** `struct timespec64` */
  class Timespec64 {
    var tvSec: S64
    var tvNsec: S64

    function Ns(): int
      reads this
    {
      InNs(tvSec, tvNsec)
    }
  }

  /** `jiffies_to_timespec64` */
  method JiffiesToTimespec64(jiffies: U64, value: Timespec64)
    modifies value
    ensures Normalized(value.tvNsec) && 0 <= value.tvSec
    ensures value.Ns() == ToU64(JiffiesInNs(jiffies))
    ensures jiffies < MAX_SEC_IN_JIFFIES * HZ ==>
      value.Ns() == JiffiesInNs(jiffies) && TimespecToJiffies(value.tvSec, value.tvNsec) == jiffies
  {
    hide TimespecToJiffies;
    var ns := ToU64(jiffies * TICK_NSEC);
    var sec, rem := DivU64Rem(ns, NSEC_PER_SEC);
    value.tvSec := sec;
    value.tvNsec := rem;
    if jiffies < MAX_SEC_IN_JIFFIES * HZ {
      JiffiesAreCeiling(sec, rem);
    }
  }

  /** Times with the same value and a normalized fraction are equal. */
  lemma NormalFormUnique(sec: int, nsec: int, sec': int, nsec': int)
    requires Normalized(nsec) && Normalized(nsec') && InNs(sec, nsec) == InNs(sec', nsec')
    ensures sec == sec' && nsec == nsec'
  {
  }

  /**
   `set_normalized_timespec64`: the fraction is normalized, and the time is unchanged exactly
   when its whole seconds fit 64 bits.
   */
  method SetNormalizedTimespec64(ts: Timespec64, sec0: S64, nsec0: S64)
    modifies ts
    ensures Normalized(ts.tvNsec)
    ensures ts.tvSec == ToLong(sec0 + nsec0 / NSEC_PER_SEC) && ts.tvNsec == nsec0 % NSEC_PER_SEC
    ensures ts.Ns() == InNs(sec0, nsec0) <==> -HALF64 <= sec0 + nsec0 / NSEC_PER_SEC < HALF64
  {
    hide ToLong, InNs;
    var sec: int, nsec: int := sec0, nsec0;
    ghost var carried := 0;
    ToLongFits(sec0);
    while nsec >= NSEC_PER_SEC
      invariant nsec0 == carried * NSEC_PER_SEC + nsec && sec == ToLong(sec0 + carried)
      invariant nsec0 >= 0 ==> nsec >= 0
    {
      ToLongAdd(sec0 + carried, 1);
      nsec := nsec - NSEC_PER_SEC;
      sec := ToLong(sec + 1);
      carried := carried + 1;
    }
    while nsec < 0
      invariant nsec0 == carried * NSEC_PER_SEC + nsec && sec == ToLong(sec0 + carried)
      invariant nsec < NSEC_PER_SEC
    {
      ToLongAdd(sec0 + carried, -1);
      nsec := nsec + NSEC_PER_SEC;
      sec := ToLong(sec - 1);
      carried := carried - 1;
    }
    CarriedSeconds(sec0, nsec0, carried, nsec);
    ts.tvSec := sec;
    ts.tvNsec := nsec;
  }

  lemma CarriedSeconds(sec0: S64, nsec0: S64, carried: int, nsec: int)
    requires nsec0 == carried * NSEC_PER_SEC + nsec && Normalized(nsec)
    ensures carried == nsec0 / NSEC_PER_SEC && nsec == nsec0 % NSEC_PER_SEC
    ensures InNs(ToLong(sec0 + carried), nsec) == InNs(sec0, nsec0) <==> -HALF64 <= sec0 + carried < HALF64
  {
    hide ToLong;
    DivModUnique(nsec0, NSEC_PER_SEC, carried, nsec);
    ToLongFits(sec0 + carried);
  }

  /** `ns_to_timespec64`: truncating division, corrected to a normalized fraction. */
  method NsToTimespec64(nsec: S64, ts: Timespec64)
    modifies ts
    ensures Normalized(ts.tvNsec)
    ensures ts.Ns() == nsec
  {
    if nsec == 0 {
      ts.tvSec, ts.tvNsec := 0, 0;
      return;
    }
    var sec, rem := DivS64Rem(nsec, NSEC_PER_SEC);
    SecondsFit(nsec);
    ts.tvSec, ts.tvNsec := sec, rem;
    if rem < 0 {
      ts.tvSec := ts.tvSec - 1;
      ts.tvNsec := ts.tvNsec + NSEC_PER_SEC;
    }
  }

  lemma SecondsFit(nsec: S64)
    ensures var q := TruncatedQuotient(nsec, NSEC_PER_SEC);
      && ToS64(ToU64(q)) == q
      && -NSEC_PER_SEC < nsec - q * NSEC_PER_SEC < NSEC_PER_SEC
      && -HALF64 < q < HALF64
  {
  }
}
