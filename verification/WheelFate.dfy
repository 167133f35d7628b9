/**
 The fate of a single timer in a run.  Nothing is assumed of the other timers: calls on
 them, also calls that spoil their own deadlines, make no difference.
 */
module WheelFate {
  import opened Words
  import opened TimerSlots
  import opened TimerTrack
  import opened Sequences
  import opened WheelModel
  import opened WheelRuns
  import opened WheelTiming

  predicate Touches<T(==)>(l: Label<T>, t: T) {
    match l
    case Client(c) => c.t == t
    case Start => false
    case Run(_, calls) => exists i :: 0 <= i < |calls| && calls[i].t == t
  }

  predicate Untouched<T(==)>(run: seq<Label<T>>, t: T) {
    forall i :: 0 <= i < |run| ==> !Touches(run[i], t)
  }

  /** The ticks in whose processing the function of `t` is called. */
  ghost function FireTicks<T>(w: Wheel<T>, run: seq<Label<T>>, t: T): seq<int>
    requires Consistent(w) && IsRun(w, run)
    decreases |run|
  {
    if run == [] then []
    else if Last(run).Run? && Last(run).t == t then
      FireTicks(w, Front(run), t) + [Replay(w, Front(run)).tick - 1]
    else FireTicks(w, Front(run), t)
  }

  // ----- one step, seen from one timer -----

  ghost predicate SameFor<T>(w: Wheel<T>, r: Wheel<T>, t: T) {
    && r.tick == w.tick
    && (t in r.at <==> t in w.at) && (t in r.expires <==> t in w.expires)
    && (t in w.at ==> r.at[t] == w.at[t])
    && (t in w.expires ==> r.expires[t] == w.expires[t])
  }

  lemma {:induction false} CallsElsewhere<T>(w: Wheel<T>, calls: seq<Call<T>>, t: T)
    requires CallsOk(w, calls) && forall i :: 0 <= i < |calls| ==> calls[i].t != t
    ensures SameFor(w, ApplyAll(w, calls), t)
    decreases |calls|
  {
    hide Apply;
    if calls != [] {
      var w1, c := ApplyAll(w, Front(calls)), Last(calls);
      assert c.t != t;
      CallsElsewhere(w, Front(calls), t);
      ApplyEffect(w1, c);
    }
  }

  /** What a step does to a timer that it does not name in a call. */
  lemma StepSeenBy<T>(w: Wheel<T>, l: Label<T>, t: T)
    requires Consistent(w) && CanStep(w, l) && !Touches(l, t)
    ensures var r := Step(w, l);
      if l.Start? then
        && r.tick == w.tick + 1 && (t in r.at <==> t in w.at) && r.expires == w.expires
        && (t in w.at ==> w.at[t].Tv? && r.at[t] == AfterStart(w.at[t], w.expires[t], w.tick))
      else if l.Run? && l.t == t then
        t in w.at && w.at[t].WorkList? && t !in r.at && r.tick == w.tick
      else SameFor(w, r, t)
  {
    match l
    case Client(c) =>
      ApplyEffect(w, c);
    case Start =>
      StartEffect(w);
      assert t in w.at ==> t in Ring(w, w.at[t]);
    case Run(u, calls) =>
      DetachFirstEffect(w);
      CallsElsewhere(DetachFirst(w), calls, t);
  }

  // ----- a timer on course -----

  /** Where a timer with deadline `due` can be in a run that does not touch it. */
  ghost predicate OnSchedule<T>(w: Wheel<T>, t: T, due: int, fired: seq<int>)
    requires w.at.Keys <= w.expires.Keys
  {
    if w.tick <= due then
      t in w.at && w.at[t].Tv? && TimerOnCourse(w, t) && Due(w.expires[t], w.tick) == due && fired == []
    else if t in w.at then
      w.at[t].WorkList? && w.tick == due + 1 && fired == []
    else
      fired == [due]
  }

  lemma OnScheduleStep<T>(w: Wheel<T>, l: Label<T>, t: T, due: int, fired: seq<int>)
    requires Consistent(w) && CanStep(w, l) && !Touches(l, t)
    requires OnSchedule(w, t, due, fired)
    ensures Step(w, l).at.Keys <= Step(w, l).expires.Keys
    ensures OnSchedule(Step(w, l), t, due, if l.Run? && l.t == t then fired + [w.tick - 1] else fired)
  {
    hide Consistent, CanStep, Step, Touches, AfterStart;
    StepSeenBy(w, l, t);
    InitializedOnly(w);
    InitializedOnly(Step(w, l));
    if l.Start? && w.tick <= due {
      TickKeepsCourse(w.at[t], w.expires[t], w.tick);
    }
  }

  /**
   A timer that is on course and is left alone runs exactly once, at its deadline, in every
   run that gets that far: never early, late, twice or not at all.
   */
  lemma {:induction false} RunsAtDeadline<T>(w: Wheel<T>, run: seq<Label<T>>, t: T)
    requires Consistent(w) && IsRun(w, run) && Untouched(run, t)
    requires t in w.at && w.at[t].Tv? && TimerOnCourse(w, t)
    ensures Replay(w, run).at.Keys <= Replay(w, run).expires.Keys
    ensures OnSchedule(Replay(w, run), t, Due(w.expires[t], w.tick), FireTicks(w, run, t))
    decreases |run|
  {
    hide Consistent, Step, CanStep, OnSchedule;
    InitializedOnly(w);
    if run == [] {
      FreshOnSchedule(w, t);
    } else {
      assert Untouched(Front(run), t) && !Touches(Last(run), t);
      RunsAtDeadline(w, Front(run), t);
      OnScheduleStep(Replay(w, Front(run)), Last(run), t, Due(w.expires[t], w.tick), FireTicks(w, Front(run), t));
    }
  }

  lemma FreshOnSchedule<T>(w: Wheel<T>, t: T)
    requires w.at.Keys <= w.expires.Keys
    requires t in w.at && w.at[t].Tv? && TimerOnCourse(w, t)
    ensures OnSchedule(w, t, Due(w.expires[t], w.tick), [])
  {
  }

  /** Once the deadline has passed and the work list is empty, the timer has run, once. */
  lemma RanOnce<T>(w: Wheel<T>, run: seq<Label<T>>, t: T)
    requires Consistent(w) && IsRun(w, run) && Untouched(run, t)
    requires t in w.at && w.at[t].Tv? && TimerOnCourse(w, t)
    requires Replay(w, run).tick > Due(w.expires[t], w.tick) && Ring(Replay(w, run), WorkList) == []
    ensures FireTicks(w, run, t) == [Due(w.expires[t], w.tick)]
  {
    hide Consistent, Replay, IsRun, FireTicks, TimerOnCourse, Ring;
    RunsAtDeadline(w, run, t);
    NotOnEmptyList(Replay(w, run), t);
  }

  lemma NotOnEmptyList<T>(w: Wheel<T>, t: T)
    requires Consistent(w) && Ring(w, WorkList) == []
    ensures t in w.at ==> !w.at[t].WorkList?
  {
    assert t in w.at ==> t in Ring(w, w.at[t]);
  }

  // ----- a timer off course -----

  /** Where a misplaced timer can be: wherever it is, it will not run at `due`. */
  ghost predicate MissesDeadline<T>(w: Wheel<T>, t: T, due: int, fired: seq<int>)
    requires w.at.Keys <= w.expires.Keys
  {
    && due !in fired
    && (t in w.at ==>
          if w.at[t].WorkList? then w.tick != due + 1
          else w.tick > due ||
               (InWheel(w.at[t]) && !TimerOnCourse(w, t) && Due(w.expires[t], w.tick) == due))
  }

  lemma MissesDeadlineStep<T>(w: Wheel<T>, l: Label<T>, t: T, due: int, fired: seq<int>)
    requires Consistent(w) && CanStep(w, l) && !Touches(l, t)
    requires MissesDeadline(w, t, due, fired)
    ensures Step(w, l).at.Keys <= Step(w, l).expires.Keys
    ensures MissesDeadline(Step(w, l), t, due, if l.Run? && l.t == t then fired + [w.tick - 1] else fired)
  {
    hide Consistent, CanStep, Step, Touches, Due, OnCourse, AfterStart;
    StepSeenBy(w, l, t);
    InitializedOnly(w);
    InitializedOnly(Step(w, l));
    PendingInBucket(Step(w, l), t);
    if l.Start? && t in w.at && w.tick <= due {
      OffCourseMisses(w.at[t], w.expires[t], w.tick);
    }
  }

  lemma PendingInBucket<T>(w: Wheel<T>, t: T)
    requires Consistent(w)
    ensures t in w.at ==> IsBucket(w.at[t])
  {
  }

  lemma FreshMisses<T>(w: Wheel<T>, t: T)
    requires Consistent(w)
    requires t in w.at && !TimerOnCourse(w, t)
    ensures MissesDeadline(w, t, Due(w.expires[t], w.tick), [])
  {
  }

  /** A timer that is off course and is left alone does not run at its deadline in any run. */
  lemma {:induction false} NeverRunsAtDeadline<T>(w: Wheel<T>, run: seq<Label<T>>, t: T)
    requires Consistent(w) && IsRun(w, run) && Untouched(run, t)
    requires t in w.at && !TimerOnCourse(w, t)
    ensures Replay(w, run).at.Keys <= Replay(w, run).expires.Keys
    ensures MissesDeadline(Replay(w, run), t, Due(w.expires[t], w.tick), FireTicks(w, run, t))
    decreases |run|
  {
    hide Consistent, Step, CanStep, MissesDeadline, TimerOnCourse;
    InitializedOnly(w);
    if run == [] {
      FreshMisses(w, t);
    } else {
      assert Untouched(Front(run), t) && !Touches(Last(run), t);
      NeverRunsAtDeadline(w, Front(run), t);
      MissesDeadlineStep(Replay(w, Front(run)), Last(run), t, Due(w.expires[t], w.tick), FireTicks(w, Front(run), t));
    }
  }

  // ----- any timer -----

  /** Where a timer that is fated to run at tick `fate` can be in a run that does not touch it. */
  ghost predicate Fated<T>(w: Wheel<T>, t: T, fate: int, fired: seq<int>)
    requires w.at.Keys <= w.expires.Keys
  {
    if w.tick <= fate then
      t in w.at && InWheel(w.at[t]) && Fate(w.at[t], w.expires[t], w.tick) == fate && fired == []
    else if t in w.at then
      w.at[t].WorkList? && w.tick == fate + 1 && fired == []
    else
      fired == [fate]
  }

  lemma FatedStep<T>(w: Wheel<T>, l: Label<T>, t: T, fate: int, fired: seq<int>)
    requires Consistent(w) && CanStep(w, l) && !Touches(l, t)
    requires Fated(w, t, fate, fired)
    ensures Step(w, l).at.Keys <= Step(w, l).expires.Keys
    ensures Fated(Step(w, l), t, fate, if l.Run? && l.t == t then fired + [w.tick - 1] else fired)
  {
    hide Consistent, CanStep, Step, Touches, AfterStart, Fate;
    StepSeenBy(w, l, t);
    InitializedOnly(w);
    InitializedOnly(Step(w, l));
    if l.Start? && w.tick <= fate {
      TickKeepsFate(w.at[t], w.expires[t], w.tick);
    }
  }

  lemma {:induction false} FatedRun<T>(w: Wheel<T>, run: seq<Label<T>>, t: T, fate: int)
    requires Consistent(w) && IsRun(w, run) && Untouched(run, t)
    requires w.at.Keys <= w.expires.Keys && Fated(w, t, fate, [])
    ensures Replay(w, run).at.Keys <= Replay(w, run).expires.Keys
    ensures Fated(Replay(w, run), t, fate, FireTicks(w, run, t))
    decreases |run|
  {
    hide Consistent, Step, CanStep, Fated;
    if run != [] {
      assert Untouched(Front(run), t) && !Touches(Last(run), t);
      FatedRun(w, Front(run), t, fate);
      FatedStep(Replay(w, Front(run)), Last(run), t, fate, FireTicks(w, Front(run), t));
    }
  }

  /** The tick at which a pending timer runs if it is left alone. */
  ghost function TimerFate<T>(w: Wheel<T>, t: T): int
    requires t in w.at && t in w.expires && IsBucket(w.at[t])
  {
    if w.at[t].WorkList? then w.tick - 1 else Fate(w.at[t], w.expires[t], w.tick)
  }

  /**
   Every pending timer that is left alone, wherever it is and whatever has been done to it,
   runs exactly once, at the tick that its bucket and its `expires` determine.
   */
  lemma RunsAtFate<T>(w: Wheel<T>, run: seq<Label<T>>, t: T)
    requires Consistent(w) && IsRun(w, run) && Untouched(run, t)
    requires t in w.at && t in w.expires && IsBucket(w.at[t])
    ensures Replay(w, run).at.Keys <= Replay(w, run).expires.Keys
    ensures Fated(Replay(w, run), t, TimerFate(w, t), FireTicks(w, run, t))
  {
    hide Consistent, IsRun, Replay, FireTicks, Ring, Fate;
    InitializedOnly(w);
    FatedRun(w, run, t, TimerFate(w, t));
  }
}
