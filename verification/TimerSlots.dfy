/**
 The arithmetic of the hierarchical timer wheel: which bucket a deadline selects, and at
 which ticks a bucket is drained.

 A tick is an unbounded integer here; the program keeps it modulo `2^64` in
 `timer_jiffies`.  `BucketFor` is the program's own 64-bit decision.  `NextDrain` is the
 independent description of the wheel: bucket `slot` of a level is drained at exactly the
 ticks congruent to `slot * Granularity(level)` modulo `Period(level)`.
 */
module TimerSlots {
  import opened Words

  /** One list head of the wheel, or the list of expired timers being run. */
  datatype Bucket = Tv(level: int, slot: int) | WorkList

  function Granularity(level: int): int
    requires 1 <= level <= 5
  {
    match level
    case 1 => 1
    case 2 => 0x40
    case 3 => 0x400
    case 4 => 0x4000
    case 5 => 0x4_0000
  }

  function Slots(level: int): int
    requires 1 <= level <= 5
  {
    if level == 1 then 64 else 16
  }

  function Period(level: int): int
    requires 1 <= level <= 5
  {
    Slots(level) * Granularity(level)
  }

  predicate InWheel(b: Bucket) {
    b.Tv? && 1 <= b.level <= 5 && 0 <= b.slot < Slots(b.level)
  }

  predicate IsBucket(b: Bucket) {
    b.WorkList? || InWheel(b)
  }

  /** `(x >> shift) & mask` for the shift and mask of a level. */
  function SlotOf(x: int, level: int): (slot: int)
    requires 1 <= level <= 5
    ensures 0 <= slot < Slots(level)
  {
    (x / Granularity(level)) % Slots(level)
  }

  /** `internal_add_timer`: the bucket for a timer, in 64-bit arithmetic throughout. */
  function BucketFor(expires: U64, timerJiffies: U64): (b: Bucket)
    ensures InWheel(b)
  {
    var idx := ToU64(expires - timerJiffies);
    if idx < 0x40 then Tv(1, SlotOf(expires, 1))
    else if idx < 0x400 then Tv(2, SlotOf(expires, 2))
    else if idx < 0x4000 then Tv(3, SlotOf(expires, 3))
    else if idx < 0x4_0000 then Tv(4, SlotOf(expires, 4))
    else if ToS64(idx) < 0 then Tv(1, SlotOf(timerJiffies, 1))
    else if idx > 0xffff_ffff then Tv(5, SlotOf(ToU64(0xffff_ffff + timerJiffies), 5))
    else Tv(5, SlotOf(expires, 5))
  }

  /** The first tick at or after `tick` at which the bucket is drained. */
  function NextDrain(b: Bucket, tick: int): int
    requires InWheel(b)
  {
    tick + (b.slot * Granularity(b.level) - tick) % Period(b.level)
  }

  /** The unbounded time that a 64-bit `expires` denotes, seen from `tick`. */
  function TimeNear(expires: U64, tick: int): int {
    tick + ToS64(ToU64(expires - tick))
  }

  /** The tick at which a timer must run: its `expires`, or at once if that is past. */
  function Due(expires: U64, tick: int): int {
    if TimeNear(expires, tick) < tick then tick else TimeNear(expires, tick)
  }

  // ----- drain ticks -----

  lemma DrainTicks(b: Bucket, tick: int)
    requires InWheel(b)
    ensures tick <= NextDrain(b, tick) < tick + Period(b.level)
    ensures (NextDrain(b, tick) - b.slot * Granularity(b.level)) % Period(b.level) == 0
  {
    var phase, p := b.slot * Granularity(b.level), Period(b.level);
    var k := (phase - tick) / p;
    assert phase - tick == k * p + (phase - tick) % p;
    assert NextDrain(b, tick) - phase == -k * p + 0;
    DivModUnique(NextDrain(b, tick) - phase, p, -k, 0);
  }

  lemma NextDrainUnique(b: Bucket, tick: int, x: int)
    requires InWheel(b)
    requires tick <= x < tick + Period(b.level)
    requires (x - b.slot * Granularity(b.level)) % Period(b.level) == 0
    ensures NextDrain(b, tick) == x
  {
    var phase, p := b.slot * Granularity(b.level), Period(b.level);
    var k := (x - phase) / p;
    assert x - phase == k * p;
    assert phase - tick == -k * p + (x - tick);
    DivModUnique(phase - tick, p, -k, x - tick);
  }

  /** `NextDrain` is the least tick of the bucket's residue class from `tick` on. */
  lemma NextDrainLeast(b: Bucket, tick: int, x: int)
    requires InWheel(b)
    requires tick <= x
    requires (x - b.slot * Granularity(b.level)) % Period(b.level) == 0
    ensures NextDrain(b, tick) <= x
  {
    DrainTicks(b, tick);
    if x < NextDrain(b, tick) {
      NextDrainUnique(b, tick, x);
    }
  }

  /** A bucket not drained at `tick` keeps its next drain tick; a drained one waits a period. */
  lemma NextDrainStep(b: Bucket, tick: int)
    requires InWheel(b)
    ensures NextDrain(b, tick) > tick ==> NextDrain(b, tick + 1) == NextDrain(b, tick)
    ensures NextDrain(b, tick) == tick ==> NextDrain(b, tick + 1) == tick + Period(b.level)
  {
    DrainTicks(b, tick);
    if NextDrain(b, tick) > tick {
      NextDrainUnique(b, tick + 1, NextDrain(b, tick));
    } else {
      var d := tick - b.slot * Granularity(b.level);
      ModAddMultiple(d, Period(b.level), 1);
      NextDrainUnique(b, tick + 1, tick + Period(b.level));
    }
  }

  /** Rounding a time down to a level's granularity gives a drain tick of its slot. */
  lemma SlotPhase(x: int, level: int)
    requires 1 <= level <= 5
    ensures (x - x % Granularity(level) - SlotOf(x, level) * Granularity(level)) % Period(level) == 0
  {
    var g, n := Granularity(level), Slots(level);
    var q := x / g;
    assert x - x % g == q * g;
    assert q == (q / n) * n + q % n;
    assert q * g == ((q / n) * n) * g + (q % n) * g;
    assert ((q / n) * n) * g == (q / n) * (n * g);
    DivModUnique(x - x % g - (q % n) * g, n * g, q / n, 0);
  }

  /** The slot of a word is the slot of any integer it represents. */
  lemma SlotOfWord(x: int, level: int)
    requires 1 <= level <= 5
    ensures SlotOf(ToU64(x), level) == SlotOf(x, level)
  {
    var g, n := Granularity(level), Slots(level);
    var k := B64 / (n * g);
    assert B64 == k * n * g;
    var q, r := x / B64, x % B64;
    assert x == q * B64 + r;
    assert x == (q * k * n + r / g) * g + r % g by {
      assert q * B64 == q * k * n * g;
      assert r == (r / g) * g + r % g;
    }
    DivModUnique(x, g, q * k * n + r / g, r % g);
    ModAddMultiple(r / g, n, q * k);
  }

  lemma SlotOfDrainTick(tick: int, level: int, slot: int)
    requires 1 <= level <= 5 && 0 <= slot < Slots(level)
    requires (tick - slot * Granularity(level)) % Period(level) == 0
    ensures tick % Granularity(level) == 0 && SlotOf(tick, level) == slot
  {
    var g, n, p := Granularity(level), Slots(level), Period(level);
    var k := (tick - slot * g) / p;
    assert tick == k * p + slot * g;
    assert k * p == (k * n) * g;
    assert tick == (k * n + slot) * g + 0;
    DivModUnique(tick, g, k * n + slot, 0);
    DivModUnique(k * n + slot, n, k, slot);
  }

  /** The slots that the tick's own cascade visits are exactly those drained at that tick. */
  lemma DrainedNowIff(b: Bucket, tick: int)
    requires InWheel(b)
    ensures NextDrain(b, tick) == tick
        <==> tick % Granularity(b.level) == 0 && SlotOf(tick, b.level) == b.slot
  {
    if NextDrain(b, tick) == tick {
      DrainTicks(b, tick);
      SlotOfDrainTick(tick, b.level, b.slot);
    }
    if tick % Granularity(b.level) == 0 && SlotOf(tick, b.level) == b.slot {
      SlotPhase(tick, b.level);
      NextDrainUnique(b, tick, tick);
    }
  }

  // ----- filing -----

  /** The words that represent two unbounded times give back their exact distance. */
  lemma TimeNearExact(time: int, tick: int)
    requires -HALF64 <= time - tick < HALF64
    ensures ToU64(ToU64(time) - ToU64(tick)) == ToU64(time - tick)
    ensures TimeNear(ToU64(time), tick) == time
  {
    var a, b := time / B64, tick / B64;
    assert ToU64(time) - ToU64(tick) == time - tick + (b - a) * B64;
    ModAddMultiple(time - tick, B64, b - a);
    assert ToU64(time) - tick == time - tick + (-a) * B64;
    ModAddMultiple(time - tick, B64, -a);
  }

  /** Every `expires` is the word of the time it denotes, which is within half the range. */
  lemma TimeNearWord(expires: U64, tick: int)
    ensures ToU64(TimeNear(expires, tick)) == expires
    ensures -HALF64 <= TimeNear(expires, tick) - tick < HALF64
  {
    var d := expires - tick;
    var k := d / B64;
    assert ToU64(d) == d - k * B64;
    var k' := if ToU64(d) < HALF64 then k else k + 1;
    assert TimeNear(expires, tick) == expires + (-k') * B64;
    ModAddMultiple(expires, B64, -k');
  }

  /** The slot of a time less than one period ahead. */
  lemma NearSlotDrain(time: int, tick: int, level: int)
    requires 1 <= level <= 5
    requires (if level == 1 then 0 else Granularity(level)) <= time - tick < Period(level)
    ensures var b := Tv(level, SlotOf(time, level));
      && NextDrain(b, tick) == time - time % Granularity(level)
      && (level > 1 ==> tick < NextDrain(b, tick) == NextDrain(b, tick + 1))
  {
    var b, x := Tv(level, SlotOf(time, level)), time - time % Granularity(level);
    SlotPhase(time, level);
    assert 0 <= time % Granularity(level) < Granularity(level);
    NextDrainUnique(b, tick, x);
    NextDrainStep(b, tick);
  }

  /** Level 5: the slot of a time at least one slot ahead. */
  lemma FarSlotDrain(time: int, tick: int)
    requires Granularity(5) <= time - tick
    ensures tick < NextDrain(Tv(5, SlotOf(time, 5)), tick + 1) <= time
  {
    var b := Tv(5, SlotOf(time, 5));
    SlotPhase(time, 5);
    NextDrainLeast(b, tick + 1, time - time % Granularity(5));
    DrainTicks(b, tick + 1);
  }

  /** The slot of the capped deadline, which the program computes in wrapping arithmetic. */
  lemma CappedSlot(tick: int)
    ensures SlotOf(ToU64(0xffff_ffff + ToU64(tick)), 5) == SlotOf(tick + 0xffff_ffff, 5)
  {
    var y, k := 0xffff_ffff + tick, tick / B64;
    assert 0xffff_ffff + ToU64(tick) == y + (-k) * B64;
    ModAddMultiple(y, B64, -k);
    SlotOfWord(y, 5);
  }

  /** The decision of `internal_add_timer` on unbounded times. */
  function UnboundedBucket(time: int, tick: int): Bucket {
    if time < tick then Tv(1, SlotOf(tick, 1))
    else if time - tick < 0x40 then Tv(1, SlotOf(time, 1))
    else if time - tick < 0x400 then Tv(2, SlotOf(time, 2))
    else if time - tick < 0x4000 then Tv(3, SlotOf(time, 3))
    else if time - tick < 0x4_0000 then Tv(4, SlotOf(time, 4))
    else if time - tick > 0xffff_ffff then Tv(5, SlotOf(tick + 0xffff_ffff, 5))
    else Tv(5, SlotOf(time, 5))
  }

  /**
   Wrap safety: with times up to half the counter's range apart, every decision made on the
   64-bit words is the one that the unbounded times call for.
   */
  lemma WrapSafe(time: int, tick: int)
    requires -HALF64 <= time - tick < HALF64
    ensures BucketFor(ToU64(time), ToU64(tick)) == UnboundedBucket(time, tick)
  {
    hide SlotOf;
    TimeNearExact(time, tick);
    var idx := ToU64(ToU64(time) - ToU64(tick));
    assert idx == if time < tick then time - tick + B64 else time - tick;
    forall l | 1 <= l <= 5
      ensures SlotOf(ToU64(time), l) == SlotOf(time, l) && SlotOf(ToU64(tick), l) == SlotOf(tick, l)
    {
      SlotOfWord(time, l);
      SlotOfWord(tick, l);
    }
    CappedSlot(tick);
  }

  /** The same with all constants written out: which bits of which time are the slot. */
  lemma BucketByDistance(time: int, tick: int)
    requires -HALF64 <= time - tick < HALF64
    ensures var b, distance := BucketFor(ToU64(time), ToU64(tick)), time - tick;
      && (distance < 0 ==> b == Tv(1, tick % 64))
      && (0 <= distance < 0x40 ==> b == Tv(1, time % 64))
      && (0x40 <= distance < 0x400 ==> b == Tv(2, (time / 0x40) % 16))
      && (0x400 <= distance < 0x4000 ==> b == Tv(3, (time / 0x400) % 16))
      && (0x4000 <= distance < 0x4_0000 ==> b == Tv(4, (time / 0x4000) % 16))
      && (0x4_0000 <= distance <= 0xffff_ffff ==> b == Tv(5, (time / 0x4_0000) % 16))
      && (distance > 0xffff_ffff ==> b == Tv(5, ((tick + 0xffff_ffff) / 0x4_0000) % 16))
  {
    hide BucketFor, ToU64;
    WrapSafe(time, tick);
  }

  /** A deadline beyond the cap goes to the slot that is drained last, one revolution ahead. */
  lemma CappedDrain(time: int, tick: int)
    requires 0xffff_ffff < time - tick < HALF64
    ensures var b, last := BucketFor(ToU64(time), ToU64(tick)), tick + 0x3f_ffff;
      b.level == 5 && NextDrain(b, tick) == last - last % 0x4_0000
  {
    hide BucketFor, ToU64, NextDrain;
    var last := tick + 0x3f_ffff;
    WrapSafe(time, tick);
    assert (tick + 0xffff_ffff) / 0x4_0000 == last / 0x4_0000 + 1023 * 16;
    ModAddMultiple(last / 0x4_0000, 16, 1023);
    assert SlotOf(tick + 0xffff_ffff, 5) == SlotOf(last, 5);
    NearSlotDrain(last, tick, 5);
  }

  /**
   What filing a timer achieves, for a deadline up to half the counter range ahead and
   whatever the counter's wrap-arounds: level 1 is drained exactly at the deadline, levels
   2 to 4 at the deadline rounded down to the level's granularity, and level 5 at a later
   tick that does not pass the deadline, also when the distance is cut to 0xffffffff.
   None of these drains is at `tick` itself unless the deadline is.
   */
  lemma FilingDrain(time: int, tick: int)
    requires tick <= time < tick + HALF64
    ensures var b := BucketFor(ToU64(time), ToU64(tick));
      && (b.level == 1 ==> NextDrain(b, tick) == time)
      && (2 <= b.level <= 4 ==>
            tick < NextDrain(b, tick) == NextDrain(b, tick + 1) == time - time % Granularity(b.level))
      && (b.level == 5 ==> tick < NextDrain(b, tick + 1) <= time)
  {
    hide NextDrain, SlotOf, BucketFor;
    WrapSafe(time, tick);
    var b := UnboundedBucket(time, tick);
    if b.level < 5 {
      NearSlotDrain(time, tick, b.level);
    } else if time - tick > 0xffff_ffff {
      FarSlotDrain(tick + 0xffff_ffff, tick);
    } else {
      FarSlotDrain(time, tick);
    }
  }

  /** A deadline in the past selects the slot that is drained at `tick` itself. */
  lemma FilingPast(expires: U64, tick: int)
    requires TimeNear(expires, tick) < tick
    ensures var b := BucketFor(expires, ToU64(tick));
      b.level == 1 && NextDrain(b, tick) == tick
  {
    hide BucketFor, TimeNear, SlotOf, ToU64;
    TimeNearWord(expires, tick);
    WrapSafe(TimeNear(expires, tick), tick);
    NearSlotDrain(tick, tick, 1);
  }
}
