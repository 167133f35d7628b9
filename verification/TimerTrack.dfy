/**
 The course of a single timer through the wheel.  Which bucket a timer is in after a tick
 depends on its bucket, its `expires` and the tick alone, so the timing of each timer can
 be settled here, independently of all others.
 */
module TimerTrack {
  import opened Words
  import opened TimerSlots

  /**
   A timer in bucket `b` will run at `due`.  While the cascades of `tick` are under way,
   the levels below `phase` (from 2 up) have been drained and wait for a later tick.
   */
  predicate OnCourse(b: Bucket, due: int, tick: int, phase: int) {
    && InWheel(b)
    && if b.level == 1 then NextDrain(b, tick) == due
       else NextDrain(b, if b.level < phase then tick + 1 else tick) <= due
  }

  /** The effect of `cascade` of one level on a timer. */
  function Cascaded(b: Bucket, expires: U64, tick: int, level: int): Bucket
    requires 2 <= level <= 5
  {
    if b == Tv(level, SlotOf(tick, level)) then BucketFor(expires, ToU64(tick)) else b
  }

  /** The effect of all cascades of one tick on a timer, with the program's early stops. */
  function AfterCascades(b: Bucket, expires: U64, tick: int): Bucket {
    if SlotOf(tick, 1) != 0 then b else
    var b2 := Cascaded(b, expires, tick, 2);
    if SlotOf(tick, 2) != 0 then b2 else
    var b3 := Cascaded(b2, expires, tick, 3);
    if SlotOf(tick, 3) != 0 then b3 else
    var b4 := Cascaded(b3, expires, tick, 4);
    if SlotOf(tick, 4) != 0 then b4 else
    Cascaded(b4, expires, tick, 5)
  }

  /** The effect of starting the tick: cascades, then the due slot becomes the work list. */
  function AfterStart(b: Bucket, expires: U64, tick: int): Bucket {
    var b' := AfterCascades(b, expires, tick);
    if b' == Tv(1, SlotOf(tick, 1)) then WorkList else b'
  }

  lemma NextDrainMonotone(b: Bucket, tick: int)
    requires InWheel(b)
    ensures NextDrain(b, tick) <= NextDrain(b, tick + 1)
  {
    DrainTicks(b, tick);
    NextDrainStep(b, tick);
  }

  /** A timer that has just been filed is on course for its deadline, in any phase of a tick. */
  lemma FiledOnCourse(expires: U64, tick: int, phase: int)
    requires 2 <= phase <= 6
    ensures OnCourse(BucketFor(expires, ToU64(tick)), Due(expires, tick), tick, phase)
  {
    var time := TimeNear(expires, tick);
    TimeNearWord(expires, tick);
    if time < tick {
      FilingPast(expires, tick);
    } else {
      FilingDrain(time, tick);
      NextDrainMonotone(BucketFor(expires, ToU64(tick)), tick);
    }
  }

  lemma CascadedOnCourse(b: Bucket, expires: U64, tick: int, level: int)
    requires 2 <= level <= 5 && tick % Granularity(level) == 0
    requires OnCourse(b, Due(expires, tick), tick, level)
    ensures OnCourse(Cascaded(b, expires, tick, level), Due(expires, tick), tick, level + 1)
  {
    if b == Tv(level, SlotOf(tick, level)) {
      FiledOnCourse(expires, tick, level + 1);
    } else if b.level == level {
      DrainedNowIff(b, tick);
      DrainTicks(b, tick);
      NextDrainStep(b, tick);
    }
  }

  /** The levels whose cascade the program skips have no slot to drain at this tick. */
  lemma SkippedOnCourse(b: Bucket, due: int, tick: int, level: int)
    requires 2 <= level <= 5 && tick % Granularity(level) != 0
    requires OnCourse(b, due, tick, level)
    ensures OnCourse(b, due, tick, 6)
  {
    if b.level >= level {
      NextLevelDue(tick, 1);
      NextLevelDue(tick, 2);
      NextLevelDue(tick, 3);
      NextLevelDue(tick, 4);
      assert tick % Granularity(b.level) != 0;
      DrainedNowIff(b, tick);
      DrainTicks(b, tick);
      NextDrainStep(b, tick);
    }
  }

  /** The slot index of a level is 0 exactly when the next level is reached. */
  lemma NextLevelDue(tick: int, level: int)
    requires 1 <= level <= 4
    ensures tick % Granularity(level + 1) == 0
        <==> tick % Granularity(level) == 0 && SlotOf(tick, level) == 0
  {
    var g, n := Granularity(level), Slots(level);
    var q, p := tick / g, tick / (g * n);
    assert Granularity(level + 1) == g * n;
    if tick % g == 0 && q % n == 0 {
      assert tick == ((q / n) * n) * g;
      assert ((q / n) * n) * g == (q / n) * (g * n);
      DivModUnique(tick, g * n, q / n, 0);
    }
    if tick % (g * n) == 0 {
      assert tick == p * (g * n);
      assert p * (g * n) == (p * n) * g;
      DivModUnique(tick, g, p * n, 0);
      DivModUnique(p * n, n, p, 0);
    }
  }

  lemma CascadesOnCourse(b: Bucket, expires: U64, tick: int)
    requires OnCourse(b, Due(expires, tick), tick, 2)
    ensures OnCourse(AfterCascades(b, expires, tick), Due(expires, tick), tick, 6)
  {
    var due := Due(expires, tick);
    NextLevelDue(tick, 1);
    if SlotOf(tick, 1) != 0 {
      SkippedOnCourse(b, due, tick, 2);
      return;
    }
    CascadedOnCourse(b, expires, tick, 2);
    var b2 := Cascaded(b, expires, tick, 2);
    NextLevelDue(tick, 2);
    if SlotOf(tick, 2) != 0 {
      SkippedOnCourse(b2, due, tick, 3);
      return;
    }
    CascadedOnCourse(b2, expires, tick, 3);
    var b3 := Cascaded(b2, expires, tick, 3);
    NextLevelDue(tick, 3);
    if SlotOf(tick, 3) != 0 {
      SkippedOnCourse(b3, due, tick, 4);
      return;
    }
    CascadedOnCourse(b3, expires, tick, 4);
    var b4 := Cascaded(b3, expires, tick, 4);
    NextLevelDue(tick, 4);
    if SlotOf(tick, 4) != 0 {
      SkippedOnCourse(b4, due, tick, 5);
      return;
    }
    CascadedOnCourse(b4, expires, tick, 5);
  }

  /** The deadline of a timer does not move as the clock approaches it. */
  lemma DueStable(expires: U64, tick: int)
    requires Due(expires, tick) > tick
    ensures Due(expires, tick + 1) == Due(expires, tick)
  {
    TimeNearWord(expires, tick);
    TimeNearExact(TimeNear(expires, tick), tick + 1);
  }

  /**
   One tick in the life of a timer that is on course: it is handed to the work list
   exactly when the tick is its deadline, and is on course for the same deadline otherwise.
   */
  lemma TickKeepsCourse(b: Bucket, expires: U64, tick: int)
    requires OnCourse(b, Due(expires, tick), tick, 2)
    ensures AfterStart(b, expires, tick).WorkList? <==> Due(expires, tick) == tick
    ensures Due(expires, tick) != tick ==>
      && Due(expires, tick + 1) == Due(expires, tick)
      && OnCourse(AfterStart(b, expires, tick), Due(expires, tick), tick + 1, 2)
  {
    var due := Due(expires, tick);
    CascadesOnCourse(b, expires, tick);
    var b' := AfterCascades(b, expires, tick);
    DrainTicks(b', tick);
    DrainTicks(b', tick + 1);
    DrainedNowIff(b', tick);
    NextDrainStep(b', tick);
    if due > tick {
      DueStable(expires, tick);
    }
  }

  /**
   The converse: a timer that is off course stays in its bucket until that is drained, so
   it does not run at its deadline.
   */
  lemma OffCourseMisses(b: Bucket, expires: U64, tick: int)
    requires InWheel(b) && !OnCourse(b, Due(expires, tick), tick, 2)
    ensures Due(expires, tick) == tick ==> !AfterStart(b, expires, tick).WorkList?
    ensures Due(expires, tick) != tick && !AfterStart(b, expires, tick).WorkList? ==>
      && Due(expires, tick + 1) == Due(expires, tick)
      && !OnCourse(AfterStart(b, expires, tick), Due(expires, tick), tick + 1, 2)
  {
    var due := Due(expires, tick);
    DrainTicks(b, tick);
    DrainedNowIff(b, tick);
    NextDrainStep(b, tick);
    RefiledIffDrained(b, expires, tick);
    if due > tick {
      DueStable(expires, tick);
    }
  }

  /**
   All cascades of a tick at once: whatever the program's early stops, the timers refiled
   are exactly those above level 1 whose bucket is drained at this tick, and refiling never
   puts a timer into a slot of levels 2 to 4 that this tick drains.
   */
  lemma RefiledIffDrained(b: Bucket, expires: U64, tick: int)
    requires InWheel(b)
    ensures AfterCascades(b, expires, tick) ==
      if b.level > 1 && NextDrain(b, tick) == tick then BucketFor(expires, ToU64(tick)) else b
    ensures var b' := AfterCascades(b, expires, tick);
      InWheel(b') && (2 <= b'.level <= 4 ==> tick < NextDrain(b', tick))
  {
    var filed := BucketFor(expires, ToU64(tick));
    DrainedNowIff(b, tick);
    DrainedNowIff(filed, tick);
    TimeNearWord(expires, tick);
    if TimeNear(expires, tick) < tick {
      FilingPast(expires, tick);
    } else {
      FilingDrain(TimeNear(expires, tick), tick);
    }
    NextLevelDue(tick, 1);
    NextLevelDue(tick, 2);
    NextLevelDue(tick, 3);
    NextLevelDue(tick, 4);
  }

  // ----- every timer's fate -----

  /**
   The tick at which a timer in bucket `b` runs if it is left alone, on course or not: on
   level 1 when its slot is next drained, on the other levels by the deadline that its
   `expires` denotes when its slot is next drained.
   */
  function Fate(b: Bucket, expires: U64, tick: int): (fate: int)
    requires InWheel(b)
    ensures fate >= tick
  {
    DrainTicks(b, tick);
    if b.level == 1 then NextDrain(b, tick) else Due(expires, NextDrain(b, tick))
  }

  /** The deadline does not move before it comes. */
  lemma DueStableUntil(expires: U64, tick: int, later: int)
    requires tick <= later <= Due(expires, tick)
    ensures Due(expires, later) == Due(expires, tick)
  {
    TimeNearWord(expires, tick);
    TimeNearExact(TimeNear(expires, tick), later);
  }

  /** Being on course is exactly being fated to run at the deadline. */
  lemma FateIsDueIff(b: Bucket, expires: U64, tick: int)
    requires InWheel(b)
    ensures Fate(b, expires, tick) == Due(expires, tick) <==> OnCourse(b, Due(expires, tick), tick, 2)
  {
    hide NextDrain, TimeNear;
    DrainTicks(b, tick);
    if b.level > 1 && NextDrain(b, tick) <= Due(expires, tick) {
      DueStableUntil(expires, tick, NextDrain(b, tick));
    }
  }

  /**
   A timer that is off course above level 1 runs when its bucket is next drained, unless by
   then its time lies more than half the counter's range back: then it is taken for a future
   one, and runs a whole range of the counter later.
   */
  lemma FateOffCourse(b: Bucket, expires: U64, tick: int)
    requires InWheel(b) && b.level > 1 && !OnCourse(b, Due(expires, tick), tick, 2)
    ensures var drain, time := NextDrain(b, tick), TimeNear(expires, tick);
      && (Fate(b, expires, tick) == drain <==> drain <= time + HALF64)
      && (drain > time + HALF64 ==> Fate(b, expires, tick) == time + B64)
  {
    hide NextDrain, TimeNear;
    DrainTicks(b, tick);
    TimeNearWord(expires, tick);
    var drain, time := NextDrain(b, tick), TimeNear(expires, tick);
    if drain <= time + HALF64 {
      TimeNearExact(time, drain);
    } else {
      ModAddMultiple(time, B64, 1);
      TimeNearExact(time + B64, drain);
    }
  }

  /** One tick: a timer is handed to the work list at its fated tick, and keeps its fate before. */
  lemma TickKeepsFate(b: Bucket, expires: U64, tick: int)
    requires InWheel(b)
    ensures var b' := AfterStart(b, expires, tick);
      if Fate(b, expires, tick) == tick then b'.WorkList?
      else InWheel(b') && Fate(b', expires, tick + 1) == Fate(b, expires, tick)
  {
    hide AfterCascades, TimeNear, NextDrain, BucketFor;
    RefiledIffDrained(b, expires, tick);
    DrainedNowIff(b, tick);
    NextDrainStep(b, tick);
    DrainTicks(b, tick);
    if b.level > 1 && NextDrain(b, tick) == tick {
      RefiledFate(expires, tick);
    }
  }

  lemma RefiledFate(expires: U64, tick: int)
    ensures var b' := BucketFor(expires, ToU64(tick));
      if Due(expires, tick) == tick then b' == Tv(1, SlotOf(tick, 1))
      else b' != Tv(1, SlotOf(tick, 1)) && Fate(b', expires, tick + 1) == Due(expires, tick)
  {
    hide BucketFor, ToU64, TimeNear, SlotOf;
    var b', due := BucketFor(expires, ToU64(tick)), Due(expires, tick);
    FiledOnCourse(expires, tick, 6);
    DrainTicks(b', tick);
    DrainTicks(b', tick + 1);
    DrainedNowIff(b', tick);
    NextDrainStep(b', tick);
    if due > tick {
      DueStable(expires, tick);
      FateIsDueIff(b', expires, tick + 1);
    }
  }

  // ----- exact placement -----

  /** A timer of level 2 to 4 is drained at its deadline rounded down to the granularity. */
  predicate Aligned(b: Bucket, due: int, tick: int) {
    && InWheel(b)
    && (2 <= b.level <= 4 ==> NextDrain(b, tick) == due - due % Granularity(b.level))
  }

  lemma FiledAligned(expires: U64, tick: int)
    ensures Aligned(BucketFor(expires, ToU64(tick)), Due(expires, tick), tick)
  {
    TimeNearWord(expires, tick);
    if TimeNear(expires, tick) < tick {
      FilingPast(expires, tick);
    } else {
      FilingDrain(TimeNear(expires, tick), tick);
    }
  }

  /** A cascade keeps the exact placement too, between any two cascades of a tick. */
  lemma CascadedAligned(b: Bucket, expires: U64, tick: int, level: int)
    requires 2 <= level <= 5 && Aligned(b, Due(expires, tick), tick)
    ensures Aligned(Cascaded(b, expires, tick, level), Due(expires, tick), tick)
  {
    hide Aligned, Due;
    FiledAligned(expires, tick);
  }

  /** A timer in a level that has been drained at this tick is not in the drained slot. */
  lemma DrainedLevelsWait(b: Bucket, due: int, tick: int, phase: int)
    requires OnCourse(b, due, tick, phase) && Aligned(b, due, tick)
    requires 2 <= b.level <= 4 && b.level < phase
    ensures tick < NextDrain(b, tick)
  {
    DrainTicks(b, tick);
    NextDrainStep(b, tick);
    assert 0 <= due % Granularity(b.level) < Granularity(b.level);
  }

  lemma TickKeepsAlignment(b: Bucket, expires: U64, tick: int)
    requires OnCourse(b, Due(expires, tick), tick, 2) && Aligned(b, Due(expires, tick), tick)
    requires Due(expires, tick) != tick
    ensures Aligned(AfterStart(b, expires, tick), Due(expires, tick + 1), tick + 1)
  {
    TickKeepsCourse(b, expires, tick);
    RefiledIffDrained(b, expires, tick);
    DrainTicks(b, tick);
    NextDrainStep(b, tick);
    if b.level > 1 && NextDrain(b, tick) == tick {
      TimeNearWord(expires, tick);
      FilingDrain(Due(expires, tick), tick);
    }
  }

  /**
   Far deadlines.  A timer taken out of level 5 either leaves that level or is put back
   into it for a drain strictly nearer its deadline, so that each revolution of the wheel
   brings it closer: the remaining distance falls, by no more than one revolution.
   */
  lemma RevolutionApproaches(b: Bucket, expires: U64, tick: int)
    requires OnCourse(b, Due(expires, tick), tick, 2) && b.level == 5
    requires NextDrain(b, tick) == tick
    ensures var b' := AfterCascades(b, expires, tick);
      b' == BucketFor(expires, ToU64(tick)) &&
      (b'.level == 5 ==>
        var next := NextDrain(b', tick + 1);
        tick < next <= tick + Period(5) && 0 <= Due(expires, tick) - next < Due(expires, tick) - tick)
  {
    RefiledIffDrained(b, expires, tick);
    var b' := BucketFor(expires, ToU64(tick));
    DrainTicks(b', tick + 1);
    CascadesOnCourse(b, expires, tick);
  }
}
