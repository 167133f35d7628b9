/**
 `mod_timer`.  Its documentation calls it equivalent to deleting the timer, setting
 `expires` and adding the timer again.  As written it chooses the list before it sets
 `expires`, so by the old deadline; here is exactly when that does no harm.
 */
module WheelModTimer {
  import opened Words
  import opened TimerSlots
  import opened TimerTrack
  import opened Sequences
  import opened WheelModel
  import opened WheelRuns
  import opened WheelTiming
  import opened WheelFate

  /** `del_timer(timer); timer->expires = expires; add_timer(timer);` */
  function DelSetAdd<T(==)>(w: Wheel<T>, t: T, expires: U64): Wheel<T>
    requires t in w.expires
  {
    AddTimer(SetExpires(DelTimer(w, t), t, expires), t)
  }

  lemma DelSetAddEffect<T>(w: Wheel<T>, t: T, expires: U64)
    requires t in w.expires
    ensures var r := DelSetAdd(w, t, expires);
      && r.tick == w.tick && r.expires == w.expires[t := expires]
      && r.at == w.at[t := BucketFor(expires, ToU64(w.tick))]
      && (Consistent(w) ==> SameListsBut(w, r, t))
  {
    hide Consistent, SameListsBut, FileThenSet, DetachPending;
    var w1 := DelTimer(w, t);
    ApplyEffect(w, Del(t));
    ApplyEffect(w1, Add(t, expires));
    assert (w.at - {t})[t := BucketFor(expires, ToU64(w.tick))] == w.at[t := BucketFor(expires, ToU64(w.tick))];
    if Consistent(w) {
      DelSetAddSpares(w, t, expires);
    }
  }

  lemma DelSetAddSpares<T>(w: Wheel<T>, t: T, expires: U64)
    requires Consistent(w) && t in w.expires
    ensures SameListsBut(w, DelSetAdd(w, t, expires), t)
  {
    hide Consistent, Ring, Without, FileThenSet, DetachPending;
    var w1 := DelTimer(w, t);
    ApplyEffect(w, Del(t));
    ApplyConsistent(w, Del(t));
    CallSparesOthers(w, Del(t));
    CallSparesOthers(w1, Add(t, expires));
    assert Apply(w1, Add(t, expires)) == DelSetAdd(w, t, expires);
  }

  // ----- the documented order -----

  /** A deadline is changed only by deleting the timer and adding it again. */
  predicate InDocumentedOrder<T>(calls: seq<Call<T>>) {
    forall i :: 0 <= i < |calls| ==> calls[i].Add? || calls[i].Del?
  }

  predicate StepInDocumentedOrder<T>(l: Label<T>) {
    match l
    case Client(c) => InDocumentedOrder([c])
    case Start => true
    case Run(_, calls) => InDocumentedOrder(calls)
  }

  lemma DocumentedOrder<T>(w: Wheel<T>, t: T, expires: U64)
    requires t in w.expires
    ensures CallsOk(w, [Del(t), Add(t, expires)])
    ensures ApplyAll(w, [Del(t), Add(t, expires)]) == DelSetAdd(w, t, expires)
  {
    hide DetachPending, FileThenSet;
    ApplyEffect(w, Del(t));
    CallsSnoc(w, [], Del(t));
    assert [] + [Del(t)] == [Del(t)];
    CallsSnoc(w, [Del(t)], Add(t, expires));
    assert [Del(t)] + [Add(t, expires)] == [Del(t), Add(t, expires)];
  }

  lemma {:induction false} DocumentedCallsMeetDeadlines<T>(w: Wheel<T>, calls: seq<Call<T>>)
    requires CallsOk(w, calls) && InDocumentedOrder(calls)
    ensures CallsMeetDeadlines(w, calls)
    decreases |calls|
  {
    hide Apply, MeetsDeadline;
    if calls != [] {
      DocumentedCallsMeetDeadlines(w, Front(calls));
      DocumentedCallMeetsDeadline(ApplyAll(w, Front(calls)), Last(calls));
    }
  }

  lemma DocumentedCallMeetsDeadline<T>(w: Wheel<T>, c: Call<T>)
    requires CallOk(w, c) && (c.Add? || c.Del?)
    ensures CallMeetsDeadline(w, c)
  {
    if c.Add? {
      FilingByOwnDeadline(c.expires, w.tick);
    }
  }

  lemma {:induction false} DocumentedRunMeetsDeadlines<T>(w: Wheel<T>, run: seq<Label<T>>)
    requires Consistent(w) && IsRun(w, run)
    requires forall i :: 0 <= i < |run| ==> StepInDocumentedOrder(run[i])
    ensures RunMeetsDeadlines(w, run)
    decreases |run|
  {
    hide Consistent, Step, CallMeetsDeadline;
    if run != [] {
      DocumentedRunMeetsDeadlines(w, Front(run));
      var w1, l := Replay(w, Front(run)), Last(run);
      assert StepInDocumentedOrder(l);
      match l
      case Client(c) =>
        assert [c][0].Add? || [c][0].Del?;
        DocumentedCallMeetsDeadline(w1, c);
      case Start =>
      case Run(t, calls) =>
        DocumentedCallsMeetDeadlines(DetachFirst(w1), calls);
    }
  }

  /**
   From `init_timers_uki` on, with deadlines changed in the documented order, the wheel is
   the alarm clock in every run, without further conditions.
   */
  lemma DocumentedRunRefines<T>(jiffies: U64, expires: map<T, U64>, run: seq<Label<T>>)
    requires Consistent(Init(jiffies, expires)) && IsRun(Init(jiffies, expires), run)
    requires forall i :: 0 <= i < |run| ==> StepInDocumentedOrder(run[i])
    ensures var w, a := Init(jiffies, expires), Alarms(jiffies, expires, map[], {});
      && AllOnCourse(Replay(w, run))
      && AlarmRun(a, run) && AlarmsOf(Replay(w, run)) == AlarmReplay(a, run)
  {
    hide Init, Consistent, IsRun, Replay, AlarmRun, AlarmReplay, RunMeetsDeadlines, AllOnCourse, AlarmsOf;
    InitOnCourse(jiffies, expires);
    DocumentedRunMeetsDeadlines(Init(jiffies, expires), run);
    RunRefines(Init(jiffies, expires), run);
  }

  // ----- the order as written -----

  /** Unless it returns early, `mod_timer` is the documented sequence iff the buckets agree. */
  lemma ModTimerAsDocumentedIff<T>(w: Wheel<T>, t: T, expires: U64)
    requires t in w.expires && Files(w, Mod(t, expires))
    ensures ModTimer(w, t, expires) == DelSetAdd(w, t, expires)
        <==> BucketFor(w.expires[t], ToU64(w.tick)) == BucketFor(expires, ToU64(w.tick))
  {
    ApplyEffect(w, Mod(t, expires));
    DelSetAddEffect(w, t, expires);
    var w1 := DelTimer(w, t);
    assert ModTimer(w, t, expires) == FileThenSet(w1, t, expires);
    assert DelSetAdd(w, t, expires) == FileThenSet(SetExpires(w1, t, expires), t, expires);
    assert Apply(w, Mod(t, expires)).at[t] == BucketFor(w.expires[t], ToU64(w.tick));
    assert DelSetAdd(w, t, expires).at[t] == BucketFor(expires, ToU64(w.tick));
    assert ToU64(w1.tick) == ToU64(w.tick) && w1.expires[t] == w.expires[t];
  }

  /**
   The early return leaves the timer where it is; the documented sequence files it anew, for
   the same `expires`.  For a timer waiting on the work list that makes a difference.
   */
  lemma ModTimerEarlyReturn<T>(w: Wheel<T>, t: T, expires: U64)
    requires t in w.expires && t in w.at && w.expires[t] == expires
    ensures var r := DelSetAdd(w, t, expires);
      && ModTimer(w, t, expires) == w
      && r.tick == w.tick && r.expires == w.expires && r.at.Keys == w.at.Keys
      && (forall u :: u in w.at && u != t ==> r.at[u] == w.at[u])
      && r.at[t].Tv? && TimerOnCourse(r, t)
      && (Consistent(w) ==> SameListsBut(w, r, t))
  {
    hide Consistent, SameListsBut, DelSetAdd;
    DelSetAddEffect(w, t, expires);
    FiledOnCourse(expires, w.tick, 2);
  }

  /**
   The early return has the effect of the documented sequence on the alarms exactly if the
   timer is not about to run.
   */
  lemma EarlyReturnAsDocumentedIff<T>(w: Wheel<T>, t: T, expires: U64)
    requires Consistent(w) && AllOnCourse(w) && t in w.at && w.expires[t] == expires
    ensures ModTimer(w, t, expires) == w
    ensures DelSetAdd(w, t, expires).at.Keys <= DelSetAdd(w, t, expires).expires.Keys
    ensures AlarmsOf(DelSetAdd(w, t, expires)) == AlarmsOf(w) <==> w.at[t].Tv?
  {
    hide Consistent, DelSetAdd, BucketFor, Due, OnCourse, AllOnCourse;
    InitializedOnly(w);
    DelSetAddEffect(w, t, expires);
    FiledOnCourse(expires, w.tick, 2);
    FilingRefines(w, DelSetAdd(w, t, expires), t, BucketFor(expires, ToU64(w.tick)), expires);
    PendingInBucket(w, t);
    var a, d := AlarmsOf(w), AlarmsOf(DelSetAdd(w, t, expires));
    if w.at[t].Tv? {
      assert d.due == a.due && d.firing == a.firing && d.expires == a.expires;
    } else {
      assert t in a.firing && t !in d.firing;
    }
  }

  /**
   When the timer runs.  On the work list it runs in the tick being processed; the documented
   sequence defers it to the next one or later.  In the wheel both agree iff it is on course.
   */
  lemma EarlyReturnFate<T>(w: Wheel<T>, t: T, expires: U64)
    requires Consistent(w) && t in w.at && w.expires[t] == expires && IsBucket(w.at[t])
    ensures var r := DelSetAdd(w, t, expires);
      && ModTimer(w, t, expires) == w
      && t in r.at && t in r.expires && r.at[t].Tv? && InWheel(r.at[t])
      && TimerFate(r, t) == Due(expires, w.tick)
      && (w.at[t].WorkList? ==> TimerFate(w, t) == w.tick - 1 && w.tick <= TimerFate(r, t))
      && (w.at[t].Tv? ==> (TimerFate(w, t) == TimerFate(r, t) <==> TimerOnCourse(w, t)))
  {
    hide Consistent, DelSetAdd, BucketFor, Due, OnCourse, Fate;
    InitializedOnly(w);
    DelSetAddEffect(w, t, expires);
    FiledOnCourse(expires, w.tick, 2);
    FateIsDueIff(BucketFor(expires, ToU64(w.tick)), expires, w.tick);
    if w.at[t].Tv? {
      FateIsDueIff(w.at[t], expires, w.tick);
    }
  }

  /** Any call that files its timer puts it on course iff its filing deadline serves the new one. */
  lemma FilingOnCourseIff<T>(w: Wheel<T>, c: Call<T>)
    requires Consistent(w) && CallOk(w, c) && Files(w, c)
    ensures var r := Apply(w, c);
      && Consistent(r)
      && c.t in r.at && r.at[c.t].Tv? && c.t in r.expires
      && Due(r.expires[c.t], r.tick) == Due(c.expires, w.tick)
      && (TimerOnCourse(r, c.t) <==> CallMeetsDeadline(w, c))
  {
    ApplyConsistent(w, c);
    ApplyEffect(w, c);
  }

  /**
   A timer set by a call and then left alone runs at the deadline the call set if and only
   if the call meets the condition; this is judged once the deadline has been passed and
   the timer is no longer waiting on the work list.
   */
  lemma CallKeepsDeadlineIff<T>(w: Wheel<T>, c: Call<T>, run: seq<Label<T>>)
    requires Consistent(w) && CallOk(w, c) && Files(w, c)
    requires Consistent(Apply(w, c)) && IsRun(Apply(w, c), run) && Untouched(run, c.t)
    ensures var end := Replay(Apply(w, c), run);
      var due := Due(c.expires, w.tick);
      end.tick > due && !(c.t in end.at && end.at[c.t].WorkList?) ==>
        (FireTicks(Apply(w, c), run, c.t) == [due] <==> CallMeetsDeadline(w, c))
  {
    hide Apply, Consistent, IsRun, Replay, FireTicks, TimerOnCourse, CallMeetsDeadline;
    FilingOnCourseIff(w, c);
    if CallMeetsDeadline(w, c) {
      RunsAtDeadline(Apply(w, c), run, c.t);
    } else {
      NeverRunsAtDeadline(Apply(w, c), run, c.t);
    }
  }

  /**
   When it does run: a timer set by a call and then left alone runs exactly once, at the tick
   determined by the bucket chosen and the deadline set, whether or not that is in time.
   */
  lemma CallRunsAtFate<T>(w: Wheel<T>, c: Call<T>, run: seq<Label<T>>)
    requires Consistent(w) && CallOk(w, c) && Files(w, c)
    requires Consistent(Apply(w, c)) && IsRun(Apply(w, c), run) && Untouched(run, c.t)
    ensures var end := Replay(Apply(w, c), run);
      var fate := Fate(BucketFor(FilingDeadline(w, c), ToU64(w.tick)), c.expires, w.tick);
      if end.tick <= fate then FireTicks(Apply(w, c), run, c.t) == []
      else if c.t in end.at then end.at[c.t].WorkList? && FireTicks(Apply(w, c), run, c.t) == []
      else FireTicks(Apply(w, c), run, c.t) == [fate]
  {
    hide Apply, Consistent, IsRun, Replay, FireTicks, Fate;
    ApplyEffect(w, c);
    RunsAtFate(Apply(w, c), run, c.t);
  }

  /**
   Missing the deadline means: on level 1, running when the slot chosen is drained, at another
   tick; above it, running too late, when the slot chosen is drained or, if the new deadline
   is more than half the counter's range back by then, a range of the counter later.
   */
  lemma MissedFate(filing: U64, expires: U64, tick: int)
    requires !MeetsDeadline(filing, expires, tick)
    ensures var b, due, time := BucketFor(filing, ToU64(tick)), Due(expires, tick), TimeNear(expires, tick);
      var drain, fate := NextDrain(b, tick), Fate(b, expires, tick);
      && fate != due && (b.level > 1 ==> fate > due)
      && fate == if b.level == 1 || drain <= time + HALF64 then drain else time + B64
  {
    hide BucketFor, NextDrain, TimeNear;
    var b := BucketFor(filing, ToU64(tick));
    FateIsDueIff(b, expires, tick);
    if b.level > 1 {
      FateOffCourse(b, expires, tick);
      TimeNearWord(expires, tick);
    }
  }

  // ----- the condition, spelled out -----

  /** With the old deadline less than 64 ticks ahead, or past, the new one must be the same. */
  lemma MeetsDeadlineNear(oldExpires: U64, expires: U64, tick: int)
    requires Due(oldExpires, tick) - tick < 0x40
    ensures MeetsDeadline(oldExpires, expires, tick) <==> Due(expires, tick) == Due(oldExpires, tick)
    ensures BucketFor(oldExpires, ToU64(tick)).level == 1
  {
    hide NextDrain, BucketFor, Due;
    FiledOnCourse(oldExpires, tick, 2);
    NearIsLevel1(oldExpires, tick);
  }

  lemma NearIsLevel1(expires: U64, tick: int)
    requires Due(expires, tick) - tick < 0x40
    ensures BucketFor(expires, ToU64(tick)).level == 1
  {
    var time := TimeNear(expires, tick);
    TimeNearWord(expires, tick);
    TimeNearExact(time, tick);
    if time < tick {
      FilingPast(expires, tick);
    } else {
      assert ToU64(expires - ToU64(tick)) == time - tick;
    }
  }

  /**
   With the old deadline in the reach of level 2, 3, 4 or 5 and less than one revolution
   ahead, the new one must not lie before the old one rounded down to the granularity of
   that level.
   */
  lemma MeetsDeadlineFurther(oldExpires: U64, expires: U64, tick: int, level: int)
    requires 2 <= level <= 5 && Granularity(level) <= Due(oldExpires, tick) - tick < Period(level)
    ensures MeetsDeadline(oldExpires, expires, tick)
        <==> Due(oldExpires, tick) - Due(oldExpires, tick) % Granularity(level) <= Due(expires, tick)
  {
    hide NextDrain, BucketFor, ToU64, SlotOf;
    var time := TimeNear(oldExpires, tick);
    TimeNearWord(oldExpires, tick);
    WrapSafe(time, tick);
    NearSlotDrain(time, tick, level);
  }

  /**
   With the old deadline a revolution or more ahead, the bucket is that of the old deadline,
   or of the farthest one that the wheel accepts, rounded down to the granularity of level 5;
   it is drained when the wheel next passes that position, and the new deadline must not lie
   before that tick.
   */
  lemma MeetsDeadlineFarthest(oldExpires: U64, expires: U64, tick: int)
    requires Due(oldExpires, tick) - tick >= Period(5)
    ensures var drained := SlotDrain(Capped(Due(oldExpires, tick), tick), tick);
      MeetsDeadline(oldExpires, expires, tick) <==> drained <= Due(expires, tick)
  {
    hide BucketFor, ToU64, SlotOf, SlotDrain, NextDrain;
    var time := TimeNear(oldExpires, tick);
    TimeNearWord(oldExpires, tick);
    WrapSafe(time, tick);
    SlotDrainExact(Capped(time, tick), tick);
  }

  /** The distance of a deadline is cut to 0xffffffff for the choice of its slot. */
  function Capped(time: int, tick: int): int {
    if time - tick > 0xffff_ffff then tick + 0xffff_ffff else time
  }

  /** The first tick from `tick` on that is whole revolutions away from `time` rounded down. */
  function SlotDrain(time: int, tick: int): int {
    tick + (time - time % Granularity(5) - tick) % Period(5)
  }

  lemma SlotDrainExact(time: int, tick: int)
    ensures NextDrain(Tv(5, SlotOf(time, 5)), tick) == SlotDrain(time, tick)
  {
    SlotPhase(time, 5);
    var x, y := time - time % Granularity(5) - tick, SlotOf(time, 5) * Granularity(5) - tick;
    ModAddMultiple(y, Period(5), (x - y) / Period(5));
  }

  /**
   Re-arming a timer that has run, or whose deadline has passed, always fails: the timer
   runs in the very next tick processed instead of at its new deadline.
   */
  lemma RearmedTooEarly(oldExpires: U64, expires: U64, tick: int)
    requires TimeNear(oldExpires, tick) <= tick < Due(expires, tick)
    ensures !MeetsDeadline(oldExpires, expires, tick)
    ensures AfterStart(BucketFor(oldExpires, ToU64(tick)), expires, tick) == WorkList
  {
    FiledOnCourse(oldExpires, tick, 2);
    TimeNearWord(oldExpires, tick);
    TimeNearExact(TimeNear(oldExpires, tick), tick);
    MeetsDeadlineNear(oldExpires, expires, tick);
    var b := BucketFor(oldExpires, ToU64(tick));
    RefiledIffDrained(b, expires, tick);
    DrainedNowIff(b, tick);
  }

  /**
   In particular, a timer that has run and is set to run one second, 100 ticks, after the
   present `jiffies` fails, at whatever time that is.
   */
  lemma RearmedForOneSecond(ran: int, jiffies: int, tick: int)
    requires tick - HALF64 <= ran <= tick <= jiffies + 1 && jiffies + 100 < tick + HALF64
    ensures !MeetsDeadline(ToU64(ran), ToU64(jiffies + 100), tick)
    ensures AfterStart(BucketFor(ToU64(ran), ToU64(tick)), ToU64(jiffies + 100), tick) == WorkList
  {
    hide ToU64, BucketFor, AfterStart, MeetsDeadline, TimeNear;
    TimeNearExact(ran, tick);
    TimeNearExact(jiffies + 100, tick);
    RearmedTooEarly(ToU64(ran), ToU64(jiffies + 100), tick);
  }

  /** An instance: the timer ran at 1100 and is re-armed at once. */
  lemma RearmedWitness()
    ensures !MeetsDeadline(1100, 1200, 1101) && MeetsDeadline(1200, 1200, 1101)
    ensures BucketFor(1100, 1101) == Tv(1, 13) && BucketFor(1200, 1101) == Tv(2, 2)
  {
    assert TimeNear(1100, 1101) == 1100;
    RearmedTooEarly(1100, 1200, 1101);
    FilingByOwnDeadline(1200, 1101);
  }
}
