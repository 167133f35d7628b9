/**
 The order in which timers run.  The deadlines that were set, as the alarm clock knows them,
 are compared with the ticks at which the timers are in fact run.
 */
module WheelFirings {
  import opened Words
  import opened TimerSlots
  import opened Sequences
  import opened WheelModel
  import opened WheelRuns
  import opened WheelTiming
  import opened WheelModTimer

  // ----- the clock at each firing -----

  /** The tick in whose processing each timer is run, whichever timer it is. */
  ghost function FireLog<T>(w: Wheel<T>, run: seq<Label<T>>): seq<int>
    requires Consistent(w) && IsRun(w, run)
    decreases |run|
  {
    if run == [] then []
    else if Last(run).Run? then FireLog(w, Front(run)) + [Replay(w, Front(run)).tick - 1]
    else FireLog(w, Front(run))
  }

  lemma StepTick<T>(w: Wheel<T>, l: Label<T>)
    requires Consistent(w) && CanStep(w, l)
    ensures Step(w, l).tick == if l.Start? then w.tick + 1 else w.tick
  {
    match l
    case Client(c) =>
      ApplyEffect(w, c);
    case Start =>
      StartEffect(w);
    case Run(t, calls) =>
      DetachFirstEffect(w);
      DetachFirstConsistent(w);
      CallsKeepWorkListShort(DetachFirst(w), calls);
  }

  /** The clock does not go back. */
  lemma {:induction false} FireLogFollowsClock<T>(w: Wheel<T>, run: seq<Label<T>>)
    requires Consistent(w) && IsRun(w, run)
    ensures forall i, j :: 0 <= i < j < |FireLog(w, run)| ==> FireLog(w, run)[i] <= FireLog(w, run)[j]
    ensures forall i :: 0 <= i < |FireLog(w, run)| ==> FireLog(w, run)[i] < Replay(w, run).tick
    decreases |run|
  {
    hide Consistent, Step, CanStep;
    if run != [] {
      FireLogFollowsClock(w, Front(run));
      StepTick(Replay(w, Front(run)), Last(run));
    }
  }

  // ----- the deadline of each firing -----

  /** The deadline last set for each timer, also if the timer has been run or deleted since. */
  ghost function DeadlinesSet<T>(a: Alarms<T>, run: seq<Label<T>>): map<T, int>
    decreases |run|
  {
    if run == [] then a.due else DeadlinesSet(a, Front(run)) + AlarmReplay(a, run).due
  }

  /** The deadline of each timer that is run, in the order in which they are run. */
  ghost function DeadlineLog<T>(a: Alarms<T>, run: seq<Label<T>>): seq<int>
    requires a.firing == {} && AlarmRun(a, run)
    decreases |run|
  {
    if run == [] then []
    else if Last(run).Run? then
      RunSettled(a, Front(run));
      DeadlineLog(a, Front(run)) + [DeadlinesSet(a, Front(run))[Last(run).t]]
    else DeadlineLog(a, Front(run))
  }

  /** No timer is both armed and about to run, and those about to run were due at the last tick. */
  ghost predicate Settled<T>(a: Alarms<T>, deadlines: map<T, int>) {
    && a.due.Keys !! a.firing
    && forall t :: t in a.firing ==> t in deadlines && deadlines[t] == a.now - 1
  }

  lemma {:induction false} CallsSpareFiring<T>(a: Alarms<T>, calls: seq<Call<T>>)
    requires a.due.Keys !! a.firing
    ensures var r := AlarmCalls(a, calls);
      r.now == a.now && r.firing <= a.firing && r.due.Keys !! r.firing
    decreases |calls|
  {
    hide Due;
    if calls != [] {
      CallsSpareFiring(a, Front(calls));
    }
  }

  lemma StepSettled<T>(a: Alarms<T>, l: Label<T>, deadlines: map<T, int>)
    requires Settled(a, deadlines) && AlarmCanStep(a, l)
    requires forall t :: t in a.due ==> t in deadlines && deadlines[t] == a.due[t]
    ensures Settled(AlarmStep(a, l), deadlines + AlarmStep(a, l).due)
  {
    hide Due;
    match l
    case Client(c) =>
      CallsSpareFiring(a, [c]);
      assert AlarmCalls(a, [c]) == AlarmCall(a, c) by { assert Front([c]) == [] && Last([c]) == c; }
    case Start =>
    case Run(t, calls) =>
      CallsSpareFiring(a.(firing := a.firing - {t}), calls);
  }

  lemma ArmedAsSet<T>(a: Alarms<T>, run: seq<Label<T>>)
    ensures forall t :: t in AlarmReplay(a, run).due ==>
      t in DeadlinesSet(a, run) && DeadlinesSet(a, run)[t] == AlarmReplay(a, run).due[t]
  {
  }

  lemma {:induction false} RunSettled<T>(a: Alarms<T>, run: seq<Label<T>>)
    requires a.firing == {} && AlarmRun(a, run)
    ensures Settled(AlarmReplay(a, run), DeadlinesSet(a, run))
    decreases |run|
  {
    hide AlarmStep, AlarmCanStep;
    if run != [] {
      RunSettled(a, Front(run));
      ArmedAsSet(a, Front(run));
      StepSettled(AlarmReplay(a, Front(run)), Last(run), DeadlinesSet(a, Front(run)));
    }
  }

  // ----- firings come in the order of their deadlines -----

  /**
   As long as the `mod` calls meet their deadlines, each timer is run in the processing of the
   tick that is the deadline last set for it, and over the whole run these deadlines never
   decrease.
   */
  lemma FiringsInDeadlineOrder<T>(w: Wheel<T>, run: seq<Label<T>>)
    requires Consistent(w) && AllOnCourse(w) && IsRun(w, run) && RunMeetsDeadlines(w, run)
    requires AlarmsOf(w).firing == {}
    ensures AlarmRun(AlarmsOf(w), run)
    ensures DeadlineLog(AlarmsOf(w), run) == FireLog(w, run)
    ensures var log := DeadlineLog(AlarmsOf(w), run);
      forall i, j :: 0 <= i < j < |log| ==> log[i] <= log[j]
  {
    hide Consistent, AllOnCourse, IsRun, RunMeetsDeadlines, AlarmsOf, AlarmRun, DeadlineLog, FireLog, Replay;
    RunRefines(w, run);
    DeadlineLogIsFireLog(w, run);
    FireLogFollowsClock(w, run);
  }

  lemma {:induction false} DeadlineLogIsFireLog<T>(w: Wheel<T>, run: seq<Label<T>>)
    requires Consistent(w) && AllOnCourse(w) && IsRun(w, run) && RunMeetsDeadlines(w, run)
    requires AlarmsOf(w).firing == {} && AlarmRun(AlarmsOf(w), run)
    ensures DeadlineLog(AlarmsOf(w), run) == FireLog(w, run)
    decreases |run|
  {
    hide Consistent, AllOnCourse, CanStep, StepMeetsDeadlines, Step, AlarmStep;
    if run != [] {
      var front := Front(run);
      InitializedOnly(w);
      DeadlineLogIsFireLog(w, front);
      RunRefines(w, front);
      RunSettled(AlarmsOf(w), front);
      assert AlarmReplay(AlarmsOf(w), front).now == Replay(w, front).tick;
    }
  }

  /** The same from `init_timers_uki` on, for the documented order, without conditions. */
  lemma DocumentedFiringsInOrder<T>(jiffies: U64, expires: map<T, U64>, run: seq<Label<T>>)
    requires Consistent(Init(jiffies, expires)) && IsRun(Init(jiffies, expires), run)
    requires forall i :: 0 <= i < |run| ==> StepInDocumentedOrder(run[i])
    ensures var w, a := Init(jiffies, expires), Alarms(jiffies, expires, map[], {});
      && AlarmRun(a, run)
      && DeadlineLog(a, run) == FireLog(w, run)
      && forall i, j :: 0 <= i < j < |DeadlineLog(a, run)| ==> DeadlineLog(a, run)[i] <= DeadlineLog(a, run)[j]
  {
    hide Init, Consistent, IsRun, AllOnCourse, AlarmsOf, AlarmRun, DeadlineLog, FireLog, RunMeetsDeadlines,
      StepInDocumentedOrder;
    InitOnCourse(jiffies, expires);
    DocumentedRunMeetsDeadlines(Init(jiffies, expires), run);
    FiringsInDeadlineOrder(Init(jiffies, expires), run);
  }
}
