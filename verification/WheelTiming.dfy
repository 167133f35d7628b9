/**
 When timers run.  The wheel is compared with the obvious alarm clock, a map from timers to
 deadlines, and the time at which any single timer runs is settled for all runs.
 */
module WheelTiming {
  import opened Words
  import opened TimerSlots
  import opened TimerTrack
  import opened Sequences
  import opened WheelModel
  import opened WheelRuns

  // ----- the alarm clock -----

  /**
   due:    the deadline of each armed timer
   firing: the timers whose deadline has come and which have yet to be run
   */
  datatype Alarms<T> = Alarms(now: int, expires: map<T, U64>, due: map<T, int>, firing: set<T>)

  ghost function Arm<T>(a: Alarms<T>, t: T, expires: U64): Alarms<T> {
    a.(expires := a.expires[t := expires],
       due := a.due[t := Due(expires, a.now)],
       firing := a.firing - {t})
  }

  ghost predicate Armed<T>(a: Alarms<T>, t: T) {
    t in a.due || t in a.firing
  }

  /**
   As in the program, `mod_timer` with the deadline that the timer has already does nothing,
   also if the timer is about to run.
   */
  ghost function AlarmCall<T>(a: Alarms<T>, c: Call<T>): Alarms<T> {
    match c
    case Add(t, e) => Arm(a, t, e)
    case Mod(t, e) =>
      if Armed(a, t) && t in a.expires && a.expires[t] == e then a else Arm(a, t, e)
    case ModPending(t, e) => if Armed(a, t) then Arm(a, t, e) else a
    case Del(t) => a.(due := a.due - {t}, firing := a.firing - {t})
  }

  ghost function AlarmCalls<T>(a: Alarms<T>, calls: seq<Call<T>>): Alarms<T>
    decreases |calls|
  {
    if calls == [] then a else AlarmCall(AlarmCalls(a, Front(calls)), Last(calls))
  }

  /** A tick sets off exactly the timers whose deadline it is. */
  ghost function AlarmStep<T>(a: Alarms<T>, l: Label<T>): Alarms<T> {
    match l
    case Client(c) => AlarmCall(a, c)
    case Start => a.(
      now := a.now + 1,
      due := map t | t in a.due && a.due[t] != a.now :: a.due[t],
      firing := set t | t in a.due && a.due[t] == a.now)
    case Run(t, calls) => AlarmCalls(a.(firing := a.firing - {t}), calls)
  }

  ghost predicate AlarmCanStep<T>(a: Alarms<T>, l: Label<T>) {
    match l
    case Client(c) => true
    case Start => a.firing == {}
    case Run(t, calls) => t in a.firing
  }

  // ----- abstraction -----

  ghost predicate TimerOnCourse<T>(w: Wheel<T>, t: T)
    requires t in w.at && t in w.expires
  {
    w.at[t].WorkList? || OnCourse(w.at[t], Due(w.expires[t], w.tick), w.tick, 2)
  }

  ghost predicate AllOnCourse<T>(w: Wheel<T>)
    requires w.at.Keys <= w.expires.Keys
  {
    forall t :: t in w.at ==> TimerOnCourse(w, t)
  }

  ghost function AlarmsOf<T>(w: Wheel<T>): Alarms<T>
    requires w.at.Keys <= w.expires.Keys
  {
    Alarms(w.tick, w.expires,
           map t | t in w.at && !w.at[t].WorkList? :: Due(w.expires[t], w.tick),
           set t | t in w.at && w.at[t].WorkList?)
  }

  /**
   The exact condition under which a call that files its timer meets the deadline it sets:
   the bucket it chooses is drained in time (on level 1, exactly at the deadline).  Only
   `mod_timer` and `mod_timer_pending` can fail it, since they choose by the old deadline.
   */
  predicate MeetsDeadline(filing: U64, expires: U64, tick: int) {
    OnCourse(BucketFor(filing, ToU64(tick)), Due(expires, tick), tick, 2)
  }

  predicate CallMeetsDeadline<T(==)>(w: Wheel<T>, c: Call<T>)
    requires CallOk(w, c)
  {
    Files(w, c) ==> MeetsDeadline(FilingDeadline(w, c), c.expires, w.tick)
  }

  /** `add_timer`, and any filing by the deadline that is set, always meets it. */
  lemma FilingByOwnDeadline(expires: U64, tick: int)
    ensures MeetsDeadline(expires, expires, tick)
  {
    FiledOnCourse(expires, tick, 2);
  }

  // ----- refinement of single steps -----

  lemma InWheelOnCourse(b: Bucket, due: int, tick: int)
    requires OnCourse(b, due, tick, 2)
    ensures b.Tv?
  {
  }

  lemma FilingRefines<T>(w: Wheel<T>, r: Wheel<T>, t: T, b: Bucket, e: U64)
    requires w.at.Keys <= w.expires.Keys && AllOnCourse(w)
    requires r.tick == w.tick && r.expires == w.expires[t := e] && r.at == w.at[t := b]
    requires OnCourse(b, Due(e, w.tick), w.tick, 2)
    ensures AllOnCourse(r) && AlarmsOf(r) == Arm(AlarmsOf(w), t, e)
  {
    hide OnCourse, Due;
    InWheelOnCourse(b, Due(e, w.tick), w.tick);
    forall u | u in r.at
      ensures TimerOnCourse(r, u)
    {
      assert u != t ==> TimerOnCourse(w, u);
    }
    var a' := Arm(AlarmsOf(w), t, e);
    assert AlarmsOf(r).due == a'.due;
    assert AlarmsOf(r).firing == a'.firing;
  }

  lemma RemovalRefines<T>(w: Wheel<T>, r: Wheel<T>, t: T)
    requires w.at.Keys <= w.expires.Keys && AllOnCourse(w)
    requires r.tick == w.tick && r.expires == w.expires && r.at == w.at - {t}
    ensures AllOnCourse(r)
    ensures AlarmsOf(r) == AlarmsOf(w).(due := AlarmsOf(w).due - {t}, firing := AlarmsOf(w).firing - {t})
  {
    hide OnCourse, Due;
    forall u | u in r.at
      ensures TimerOnCourse(r, u)
    {
      assert TimerOnCourse(w, u);
    }
    assert AlarmsOf(r).due == AlarmsOf(w).due - {t};
    assert AlarmsOf(r).firing == AlarmsOf(w).firing - {t};
  }

  lemma CallRefines<T>(w: Wheel<T>, c: Call<T>)
    requires Consistent(w) && AllOnCourse(w) && CallOk(w, c) && CallMeetsDeadline(w, c)
    ensures Consistent(Apply(w, c)) && AllOnCourse(Apply(w, c))
    ensures AlarmsOf(Apply(w, c)) == AlarmCall(AlarmsOf(w), c)
  {
    hide Apply, Consistent, OnCourse, Due, BucketFor, TimerOnCourse, AllOnCourse, Arm;
    ApplyConsistent(w, c);
    ApplyEffect(w, c);
    InitializedOnly(w);
    InitializedOnly(Apply(w, c));
    var r := Apply(w, c);
    assert Armed(AlarmsOf(w), c.t) <==> c.t in w.at;
    if Files(w, c) {
      FilingRefines(w, r, c.t, BucketFor(FilingDeadline(w, c), ToU64(w.tick)), c.expires);
    } else if c.Del? {
      RemovalRefines(w, r, c.t);
    } else {
      UnchangedRefines(w, r);
    }
  }

  lemma UnchangedRefines<T>(w: Wheel<T>, r: Wheel<T>)
    requires w.at.Keys <= w.expires.Keys && AllOnCourse(w)
    requires r.tick == w.tick && r.expires == w.expires && r.at == w.at
    ensures AllOnCourse(r) && AlarmsOf(r) == AlarmsOf(w)
  {
    forall t | t in r.at
      ensures TimerOnCourse(r, t)
    {
      assert TimerOnCourse(w, t);
    }
  }

  lemma StartRefines<T>(w: Wheel<T>)
    requires Consistent(w) && AllOnCourse(w) && Ring(w, WorkList) == []
    ensures Consistent(StartTick(w)) && AllOnCourse(StartTick(w))
    ensures AlarmsOf(w).firing == {}
    ensures AlarmsOf(StartTick(w)) == AlarmStep(AlarmsOf(w), Start)
  {
    StartEffect(w);
    var r := StartTick(w);
    InitializedOnly(w);
    InitializedOnly(r);
    forall t | t in w.at
      ensures w.at[t].Tv?
    {
      assert t in Ring(w, w.at[t]);
    }
    hide StartTick, Consistent;
    TickRefines(w, r);
  }

  lemma TickRefines<T>(w: Wheel<T>, r: Wheel<T>)
    requires w.at.Keys <= w.expires.Keys && AllOnCourse(w)
    requires r.tick == w.tick + 1 && r.expires == w.expires && r.at.Keys == w.at.Keys
    requires forall t :: t in w.at ==> w.at[t].Tv? && r.at[t] == AfterStart(w.at[t], w.expires[t], w.tick)
    ensures AllOnCourse(r) && AlarmsOf(w).firing == {}
    ensures AlarmsOf(r) == AlarmStep(AlarmsOf(w), Start)
  {
    hide TimerOnCourse, Due, AfterStart;
    forall t | t in w.at
      ensures TimerOnCourse(r, t)
      ensures r.at[t].WorkList? <==> Due(w.expires[t], w.tick) == w.tick
      ensures !r.at[t].WorkList? ==> Due(w.expires[t], r.tick) == Due(w.expires[t], w.tick)
    {
      assert TimerOnCourse(w, t);
      TimerTick(w, r, t);
    }
    var a' := AlarmStep(AlarmsOf(w), Start);
    assert AlarmsOf(r).due == a'.due;
    assert AlarmsOf(r).firing == a'.firing;
  }

  lemma TimerTick<T>(w: Wheel<T>, r: Wheel<T>, t: T)
    requires t in w.at && t in w.expires && t in r.at && t in r.expires && TimerOnCourse(w, t)
    requires r.tick == w.tick + 1 && r.expires[t] == w.expires[t]
    requires w.at[t].Tv? && r.at[t] == AfterStart(w.at[t], w.expires[t], w.tick)
    ensures TimerOnCourse(r, t)
    ensures r.at[t].WorkList? <==> Due(w.expires[t], w.tick) == w.tick
    ensures !r.at[t].WorkList? ==> Due(w.expires[t], r.tick) == Due(w.expires[t], w.tick)
  {
    hide Due, AfterStart;
    TickKeepsCourse(w.at[t], w.expires[t], w.tick);
  }

  ghost predicate CallsMeetDeadlines<T>(w: Wheel<T>, calls: seq<Call<T>>)
    requires CallsOk(w, calls)
    decreases |calls|
  {
    calls == [] ||
    (CallsMeetDeadlines(w, Front(calls)) && CallMeetsDeadline(ApplyAll(w, Front(calls)), Last(calls)))
  }

  lemma {:induction false} CallsRefine<T>(w: Wheel<T>, calls: seq<Call<T>>)
    requires Consistent(w) && AllOnCourse(w) && CallsOk(w, calls) && CallsMeetDeadlines(w, calls)
    ensures Consistent(ApplyAll(w, calls)) && AllOnCourse(ApplyAll(w, calls))
    ensures AlarmsOf(ApplyAll(w, calls)) == AlarmCalls(AlarmsOf(w), calls)
    decreases |calls|
  {
    hide Consistent, AllOnCourse, AlarmsOf, Apply, AlarmCall, CallOk, CallMeetsDeadline;
    if calls != [] {
      CallsRefine(w, Front(calls));
      CallRefines(ApplyAll(w, Front(calls)), Last(calls));
    }
  }

  ghost predicate StepMeetsDeadlines<T>(w: Wheel<T>, l: Label<T>)
    requires Consistent(w) && CanStep(w, l)
  {
    match l
    case Client(c) => CallMeetsDeadline(w, c)
    case Start => true
    case Run(t, calls) => CallsMeetDeadlines(DetachFirst(w), calls)
  }

  lemma DetachFirstRefines<T>(w: Wheel<T>)
    requires Consistent(w) && AllOnCourse(w) && Ring(w, WorkList) != []
    ensures var r, t := DetachFirst(w), Ring(w, WorkList)[0];
      && Consistent(r) && AllOnCourse(r) && t in AlarmsOf(w).firing
      && AlarmsOf(r) == AlarmsOf(w).(firing := AlarmsOf(w).firing - {t})
  {
    hide DetachFirst, Consistent, AllOnCourse, Ring, Due;
    DetachFirstConsistent(w);
    DetachFirstEffect(w);
    var r, t := DetachFirst(w), Ring(w, WorkList)[0];
    InitializedOnly(w);
    RemovalRefines(w, r, t);
    assert AlarmsOf(w).due - {t} == AlarmsOf(w).due;
  }

  /** Every step of the wheel is a step of the alarm clock, with the same effect on it. */
  lemma StepRefines<T>(w: Wheel<T>, l: Label<T>)
    requires Consistent(w) && AllOnCourse(w) && CanStep(w, l) && StepMeetsDeadlines(w, l)
    ensures AllOnCourse(Step(w, l))
    ensures AlarmCanStep(AlarmsOf(w), l)
    ensures AlarmsOf(Step(w, l)) == AlarmStep(AlarmsOf(w), l)
  {
    match l
    case Client(c) =>
      CallRefines(w, c);
    case Start =>
      StartRefines(w);
    case Run(t, calls) =>
      DetachFirstRefines(w);
      CallsRefine(DetachFirst(w), calls);
  }

  // ----- whole runs -----

  /** Every `mod_timer` of the run meets the condition under which it keeps its deadline. */
  ghost predicate RunMeetsDeadlines<T>(w: Wheel<T>, run: seq<Label<T>>)
    requires Consistent(w) && IsRun(w, run)
    decreases |run|
  {
    run == [] ||
    (RunMeetsDeadlines(w, Front(run)) && StepMeetsDeadlines(Replay(w, Front(run)), Last(run)))
  }

  ghost predicate AlarmRun<T>(a: Alarms<T>, run: seq<Label<T>>)
    decreases |run|, 0
  {
    run == [] || (AlarmRun(a, Front(run)) && AlarmCanStep(AlarmReplay(a, Front(run)), Last(run)))
  }

  ghost function AlarmReplay<T>(a: Alarms<T>, run: seq<Label<T>>): Alarms<T>
    decreases |run|, 1
  {
    if run == [] then a else AlarmStep(AlarmReplay(a, Front(run)), Last(run))
  }

  /**
   Refinement over whole runs: as long as the `mod` calls meet their deadlines, the timer wheel
   does what the alarm clock does, whatever calls, ticks and callbacks occur otherwise and
   however often the counter wraps.
   */
  lemma {:induction false} RunRefines<T>(w: Wheel<T>, run: seq<Label<T>>)
    requires Consistent(w) && AllOnCourse(w) && IsRun(w, run) && RunMeetsDeadlines(w, run)
    ensures AllOnCourse(Replay(w, run))
    ensures AlarmRun(AlarmsOf(w), run)
    ensures AlarmsOf(Replay(w, run)) == AlarmReplay(AlarmsOf(w), run)
    decreases |run|
  {
    hide Consistent, AllOnCourse, AlarmsOf, CanStep, Step, AlarmStep, AlarmCanStep, StepMeetsDeadlines;
    if run != [] {
      RunRefines(w, Front(run));
      StepRefines(Replay(w, Front(run)), Last(run));
    }
  }

  /** The wheel as `init_timers_uki` leaves it is on course, with no alarm armed. */
  lemma InitOnCourse<T>(jiffies: U64, expires: map<T, U64>)
    ensures var w := Init(jiffies, expires);
      && Consistent(w) && AllOnCourse(w)
      && AlarmsOf(w) == Alarms(jiffies, expires, map[], {})
  {
    assert AlarmsOf(Init(jiffies, expires)).due == map[];
    assert AlarmsOf(Init(jiffies, expires)).firing == {};
  }

  /** `init_timer` makes a timer known that no list or alarm involves. */
  lemma InitTimerRefines<T>(w: Wheel<T>, t: T, expires: U64)
    requires Consistent(w) && AllOnCourse(w) && t !in w.expires
    ensures var r := w.(expires := w.expires[t := expires]);
      && Consistent(r) && AllOnCourse(r)
      && AlarmsOf(r) == AlarmsOf(w).(expires := w.expires[t := expires])
  {
    hide Consistent, AllOnCourse, AlarmsOf;
    InitializedOnly(w);
    SameLists(w, w.(expires := w.expires[t := expires]));
    NewTimerRefines(w, t, expires);
  }

  lemma NewTimerRefines<T>(w: Wheel<T>, t: T, expires: U64)
    requires w.at.Keys <= w.expires.Keys && AllOnCourse(w) && t !in w.expires
    ensures var r := w.(expires := w.expires[t := expires]);
      && AllOnCourse(r) && AlarmsOf(r) == AlarmsOf(w).(expires := w.expires[t := expires])
  {
    hide OnCourse, Due;
    var r := w.(expires := w.expires[t := expires]);
    forall u | u in r.at
      ensures TimerOnCourse(r, u)
    {
      assert TimerOnCourse(w, u);
    }
    assert AlarmsOf(r).due == AlarmsOf(w).due;
  }
}
