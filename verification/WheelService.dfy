/**
 What a caller of `__run_timers` gets: from the steps it has taken, for a script of calls made
 by the functions of the timers, follow the times at which timers have run.
 */
module WheelService {
  import opened Words
  import opened TimerSlots
  import opened Sequences
  import opened WheelModel
  import opened WheelRuns
  import opened WheelTiming
  import opened WheelFate
  import opened WheelModTimer

  predicate ScriptInDocumentedOrder<T>(script: seq<seq<Call<T>>>) {
    forall i :: 0 <= i < |script| ==> InDocumentedOrder(script[i])
  }

  predicate ScriptSpares<T(==)>(script: seq<seq<Call<T>>>, t: T) {
    forall i, j :: 0 <= i < |script| && 0 <= j < |script[i]| ==> script[i][j].t != t
  }

  lemma {:induction false} CallsRecorded<T>(run: seq<Label<T>>, k: nat)
    requires k < |run| && run[k].Run?
    ensures run[k].calls in CallbackCalls(run)
    decreases |run|
  {
    if k < |run| - 1 {
      assert Front(run)[k] == run[k];
      CallsRecorded(Front(run), k);
    }
  }

  /** In a run that follows the script, every callback makes no call or those of one entry. */
  lemma CallsFromScript<T>(run: seq<Label<T>>, script: seq<seq<Call<T>>>, k: nat)
    requires FollowsScript(run, script) && k < |run|
    ensures !run[k].Client? && (run[k].Run? ==> run[k].calls == [] || run[k].calls in script)
  {
    if run[k].Run? {
      CallsRecorded(run, k);
      var i :| 0 <= i < |CallbackCalls(run)| && CallbackCalls(run)[i] == run[k].calls;
      assert run[k].calls == if i < |script| then script[i] else [];
    }
  }

  lemma DocumentedSteps<T>(run: seq<Label<T>>, script: seq<seq<Call<T>>>)
    requires FollowsScript(run, script) && ScriptInDocumentedOrder(script)
    ensures forall k :: 0 <= k < |run| ==> StepInDocumentedOrder(run[k])
  {
    forall k | 0 <= k < |run|
      ensures StepInDocumentedOrder(run[k])
    {
      CallsFromScript(run, script, k);
    }
  }

  lemma SparedByRun<T>(run: seq<Label<T>>, script: seq<seq<Call<T>>>, t: T)
    requires FollowsScript(run, script) && ScriptSpares(script, t)
    ensures Untouched(run, t)
  {
    forall k | 0 <= k < |run|
      ensures !Touches(run[k], t)
    {
      CallsFromScript(run, script, k);
    }
  }

  /**
   The timers left alone: each that is on course has run exactly once, at its deadline, if
   that is not after `jiffies`, and has not run otherwise.
   */
  ghost predicate TimersServed<T>(jiffies: U64, w: Wheel<T>, run: seq<Label<T>>, script: seq<seq<Call<T>>>)
    requires Consistent(w) && IsRun(w, run)
  {
    forall t :: t in w.at && t in w.expires && TimerOnCourse(w, t) && ScriptSpares(script, t) ==>
      FireTicks(w, run, t) ==
        if Due(w.expires[t], w.tick) <= TimeNear(jiffies, w.tick) then [Due(w.expires[t], w.tick)] else []
  }

  /** What is due before the tick at which the call ends is what is due by `jiffies`. */
  lemma DueByJiffies(jiffies: U64, tick: int)
    ensures forall e: U64 :: Due(e, tick) < TickAfter(jiffies, tick) <==> Due(e, tick) <= TimeNear(jiffies, tick)
    ensures TimeNear(jiffies, tick) < TickAfter(jiffies, tick)
  {
  }

  lemma RunServesTimers<T>(jiffies: U64, w: Wheel<T>, run: seq<Label<T>>, script: seq<seq<Call<T>>>)
    requires Consistent(w) && IsRun(w, run) && FollowsScript(run, script)
    requires Ring(w, WorkList) == [] && Ring(Replay(w, run), WorkList) == []
    requires Replay(w, run).tick == TickAfter(jiffies, w.tick)
    ensures TimersServed(jiffies, w, run, script)
  {
    hide Consistent, IsRun, Replay, FireTicks, FollowsScript, ScriptSpares, TimerOnCourse, Ring, Due, TickAfter;
    InitializedOnly(w);
    DueByJiffies(jiffies, w.tick);
    forall t | t in w.at && TimerOnCourse(w, t) && ScriptSpares(script, t)
      ensures FireTicks(w, run, t) ==
        if Due(w.expires[t], w.tick) <= TimeNear(jiffies, w.tick) then [Due(w.expires[t], w.tick)] else []
    {
      SparedByRun(run, script, t);
      NotOnEmptyList(w, t);
      NotOnEmptyList(Replay(w, run), t);
      RunsAtDeadline(w, run, t);
    }
  }

  /**
   All timers: the wheel is what the alarm clock is after the same steps, and no alarm is left
   that was due by `jiffies`.
   */
  ghost predicate AlarmsServed<T>(jiffies: U64, w: Wheel<T>, run: seq<Label<T>>)
    requires Consistent(w) && IsRun(w, run)
  {
    InitializedOnly(w);
    var r := Replay(w, run);
    InitializedOnly(r);
    var a := AlarmReplay(AlarmsOf(w), run);
    && AllOnCourse(r) && AlarmRun(AlarmsOf(w), run) && AlarmsOf(r) == a
    && a.firing == {} && forall t :: t in a.due ==> TimeNear(jiffies, w.tick) < a.due[t]
  }

  /** This holds if all timers are on course and callbacks keep to the documented order. */
  lemma RunServesAlarms<T>(jiffies: U64, w: Wheel<T>, run: seq<Label<T>>, script: seq<seq<Call<T>>>)
    requires Consistent(w) && AllOnCourse(w) && IsRun(w, run)
    requires FollowsScript(run, script) && ScriptInDocumentedOrder(script)
    requires Ring(Replay(w, run), WorkList) == []
    requires Replay(w, run).tick == TickAfter(jiffies, w.tick)
    ensures AlarmsServed(jiffies, w, run)
  {
    hide Consistent, IsRun, Replay, FollowsScript, ScriptInDocumentedOrder, AllOnCourse, Ring, TickAfter,
      AlarmReplay, AlarmRun, RunMeetsDeadlines;
    DueByJiffies(jiffies, w.tick);
    DocumentedSteps(run, script);
    DocumentedRunMeetsDeadlines(w, run);
    RunRefines(w, run);
    var r := Replay(w, run);
    forall t | t in r.at
      ensures !r.at[t].WorkList?
    {
      NotOnEmptyList(r, t);
    }
  }
}
