/**
 Runs of the timer wheel.  A run is a sequence of steps: calls made between ticks, the
 start of a tick, and the execution of one expired timer together with the calls that its
 function makes.  All behaviours of the callbacks are covered, since the calls of each
 execution are arbitrary.
 */
module WheelRuns {
  import opened Words
  import opened TimerSlots
  import opened TimerTrack
  import opened Sequences
  import opened WheelModel

  datatype Label<T> =
    | Client(call: Call<T>)
    | Start
    | Run(t: T, calls: seq<Call<T>>)

  // ----- single steps -----

  ghost predicate CallsOk<T>(w: Wheel<T>, calls: seq<Call<T>>)
    decreases |calls|, 0
  {
    calls == [] || (CallsOk(w, Front(calls)) && CallOk(ApplyAll(w, Front(calls)), Last(calls)))
  }

  ghost function ApplyAll<T>(w: Wheel<T>, calls: seq<Call<T>>): Wheel<T>
    requires CallsOk(w, calls)
    decreases |calls|, 1
  {
    if calls == [] then w else Apply(ApplyAll(w, Front(calls)), Last(calls))
  }

  /** A tick is started when the work list is empty; otherwise its first timer is next. */
  ghost predicate CanStep<T>(w: Wheel<T>, l: Label<T>)
    requires Consistent(w)
  {
    match l
    case Client(c) => CallOk(w, c)
    case Start => Ring(w, WorkList) == []
    case Run(t, calls) =>
      && Ring(w, WorkList) != [] && Ring(w, WorkList)[0] == t
      && CallsOk(DetachFirst(w), calls)
  }

  ghost function Step<T>(w: Wheel<T>, l: Label<T>): (r: Wheel<T>)
    requires Consistent(w) && CanStep(w, l)
    ensures Consistent(r)
  {
    match l
    case Client(c) =>
      ApplyConsistent(w, c);
      Apply(w, c)
    case Start =>
      StartConsistent(w);
      StartTick(w)
    case Run(t, calls) =>
      DetachFirstConsistent(w);
      ApplyAllConsistent(DetachFirst(w), calls);
      ApplyAll(DetachFirst(w), calls)
  }

  // ----- runs -----

  ghost predicate IsRun<T>(w: Wheel<T>, run: seq<Label<T>>)
    requires Consistent(w)
    decreases |run|, 0
  {
    run == [] || (IsRun(w, Front(run)) && CanStep(Replay(w, Front(run)), Last(run)))
  }

  ghost function Replay<T>(w: Wheel<T>, run: seq<Label<T>>): (r: Wheel<T>)
    requires Consistent(w) && IsRun(w, run)
    ensures Consistent(r)
    decreases |run|, 1
  {
    if run == [] then w else Step(Replay(w, Front(run)), Last(run))
  }

  // ----- the effect of steps on placement -----

  lemma CascadeEffect<T>(w: Wheel<T>, level: int)
    requires Consistent(w) && 2 <= level <= 5
    ensures var r := Cascade(w, level);
      && r.tick == w.tick && r.next == w.next && r.expires == w.expires
      && r.at.Keys == w.at.Keys
      && forall t :: t in w.at ==> r.at[t] == Cascaded(w.at[t], w.expires[t], w.tick, level)
  {
    SlotOfWord(w.tick, level);
    assert forall t :: t in w.at ==> Cascade(w, level).at[t] == CascadedBucket(w, t, level);
    hide Cascade, Consistent;
  }

  lemma RunCascadesEffect<T>(w: Wheel<T>)
    requires Consistent(w)
    ensures var r := RunCascades(w);
      && Consistent(r)
      && r.tick == w.tick && r.next == w.next && r.expires == w.expires
      && r.at.Keys == w.at.Keys
      && forall t :: t in w.at ==> r.at[t] == AfterCascades(w.at[t], w.expires[t], w.tick)
  {
    hide Consistent, Cascade, Cascaded, BucketFor, SlotOf;
    SlotOfWord(w.tick, 1);
    SlotOfWord(w.tick, 2);
    SlotOfWord(w.tick, 3);
    SlotOfWord(w.tick, 4);
    assert w.at.Keys <= w.expires.Keys by { InitializedOnly(w); }
    if Index(w, 1) == 0 {
      CascadeEffect(w, 2);
      var w2 := Cascade(w, 2);
      if Index(w, 2) == 0 {
        CascadeEffect(w2, 3);
        var w3 := Cascade(w2, 3);
        if Index(w, 3) == 0 {
          CascadeEffect(w3, 4);
          var w4 := Cascade(w3, 4);
          if Index(w, 4) == 0 {
            CascadeEffect(w4, 5);
          }
        }
      }
    }
  }

  lemma TakeDueOwned<T>(w: Wheel<T>, c: Bucket)
    requires Consistent(w) && Ring(w, WorkList) == []
    ensures RingOwned(TakeDue(w), c)
  {
    var b := Tv(1, Index(w, 1));
    assert RingOwned(w, b) && RingOwned(w, c);
  }

  lemma TakeDueAt<T>(w: Wheel<T>)
    requires Consistent(w)
    ensures TakeDue(w).at.Keys == w.at.Keys
    ensures forall t :: t in w.at ==>
      TakeDue(w).at[t] == if w.at[t] == Tv(1, Index(w, 1)) then WorkList else w.at[t]
  {
    assert RingOwned(w, Tv(1, Index(w, 1)));
  }

  lemma TakeDueMember<T>(w: Wheel<T>, t: T)
    requires Consistent(w) && Ring(w, WorkList) == [] && t in w.at
    ensures t in TakeDue(w).at && t in Ring(TakeDue(w), TakeDue(w).at[t])
  {
    TakeDueAt(w);
    assert t in Ring(w, w.at[t]);
  }

  lemma TakeDueEffect<T>(w: Wheel<T>)
    requires Consistent(w) && Ring(w, WorkList) == []
    ensures var r := TakeDue(w);
      && Consistent(r)
      && r.tick == w.tick + 1 && r.next == w.next && r.expires == w.expires
      && r.at.Keys == w.at.Keys
      && forall t :: t in w.at ==> r.at[t] == if w.at[t] == Tv(1, Index(w, 1)) then WorkList else w.at[t]
  {
    var r := TakeDue(w);
    TakeDueAt(w);
    forall c | c in r.rings
      ensures IsBucket(c) && RingOwned(r, c)
    {
      TakeDueOwned(w, c);
    }
    forall t | t in r.at
      ensures IsBucket(r.at[t]) && t in Ring(r, r.at[t])
    {
      TakeDueMember(w, t);
    }
  }

  /** The start of a tick moves every timer as its own bucket, `expires` and the tick say. */
  lemma StartEffect<T>(w: Wheel<T>)
    requires Consistent(w) && Ring(w, WorkList) == []
    ensures var r := StartTick(w);
      && Consistent(r)
      && r.tick == w.tick + 1 && r.next == w.next && r.expires == w.expires
      && r.at.Keys == w.at.Keys
      && forall t :: t in w.at ==> r.at[t] == AfterStart(w.at[t], w.expires[t], w.tick)
  {
    RunCascadesEffect(w);
    var w1 := RunCascades(w);
    WorkListUntouched(w, w1);
    TakeDueEffect(w1);
    SlotOfWord(w.tick, 1);
  }

  lemma WorkListUntouched<T>(w: Wheel<T>, w1: Wheel<T>)
    requires Consistent(w) && Consistent(w1) && Ring(w, WorkList) == [] && w1.at.Keys == w.at.Keys
    requires forall t :: t in w.at ==> w1.at[t] == AfterCascades(w.at[t], w.expires[t], w.tick)
    ensures Ring(w1, WorkList) == []
  {
    assert RingOwned(w1, WorkList);
    forall t | t in w.at
      ensures w1.at[t] != WorkList
    {
      assert t in Ring(w, w.at[t]);
      assert !w.at[t].WorkList?;
      RefiledIffDrained(w.at[t], w.expires[t], w.tick);
    }
    FirstIsElement(Ring(w1, WorkList));
  }

  lemma StartConsistent<T>(w: Wheel<T>)
    requires Consistent(w) && Ring(w, WorkList) == []
    ensures Consistent(StartTick(w))
  {
    StartEffect(w);
  }

  lemma DetachFirstEffect<T>(w: Wheel<T>)
    requires Consistent(w) && Ring(w, WorkList) != []
    ensures var r, t := DetachFirst(w), Ring(w, WorkList)[0];
      && t in w.at && w.at[t] == WorkList
      && r == w.(at := w.at - {t}, rings := w.rings[WorkList := Ring(w, WorkList)[1..]])
  {
    assert RingOwned(w, WorkList);
  }

  lemma DetachFirstConsistent<T>(w: Wheel<T>)
    requires Consistent(w) && Ring(w, WorkList) != []
    ensures Consistent(DetachFirst(w))
  {
    DetachFirstEffect(w);
    DetachConsistent(w, Ring(w, WorkList)[0]);
  }

  lemma {:induction false} ApplyAllConsistent<T>(w: Wheel<T>, calls: seq<Call<T>>)
    requires Consistent(w) && CallsOk(w, calls)
    ensures Consistent(ApplyAll(w, calls))
    decreases |calls|
  {
    if calls != [] {
      ApplyAllConsistent(w, Front(calls));
      ApplyConsistent(ApplyAll(w, Front(calls)), Last(calls));
    }
  }

  // ----- building runs, and their length -----

  lemma CallsSnoc<T>(w: Wheel<T>, calls: seq<Call<T>>, c: Call<T>)
    requires CallsOk(w, calls) && CallOk(ApplyAll(w, calls), c)
    ensures CallsOk(w, calls + [c]) && ApplyAll(w, calls + [c]) == Apply(ApplyAll(w, calls), c)
  {
    assert Front(calls + [c]) == calls && Last(calls + [c]) == c;
  }

  lemma RunSnoc<T>(w: Wheel<T>, run: seq<Label<T>>, l: Label<T>)
    requires Consistent(w) && IsRun(w, run) && CanStep(Replay(w, run), l)
    ensures IsRun(w, run + [l]) && Replay(w, run + [l]) == Step(Replay(w, run), l)
  {
    assert Front(run + [l]) == run && Last(run + [l]) == l;
  }

  /** The calls made by the functions of the timers run, in order. */
  function CallbackCalls<T>(run: seq<Label<T>>): seq<seq<Call<T>>> {
    if run == [] then []
    else if Last(run).Run? then CallbackCalls(Front(run)) + [Last(run).calls]
    else CallbackCalls(Front(run))
  }

  lemma CallbackCallsSnoc<T>(run: seq<Label<T>>, l: Label<T>)
    ensures CallbackCalls(run + [l]) == if l.Run? then CallbackCalls(run) + [l.calls] else CallbackCalls(run)
  {
    assert Front(run + [l]) == run && Last(run + [l]) == l;
  }

  /**
   No call lengthens the work list: whatever is filed goes to the wheel.  So the callbacks
   of a tick cannot keep it from ending.
   */
  lemma WorkListNeverLonger<T>(w: Wheel<T>, c: Call<T>)
    requires Consistent(w) && CallOk(w, c)
    ensures |Ring(Apply(w, c), WorkList)| <= |Ring(w, WorkList)|
  {
    hide Consistent, FileThenSet, DetachPending;
    if c.Add? {
      FilingSparesWorkList(SetExpires(w, c.t, c.expires), c.t, c.expires);
    } else if c.t in w.at {
      DetachPendingShortens(w, c.t);
      DetachPendingEffect(w, c.t);
      if !c.Del? {
        FilingSparesWorkList(DetachPending(w, c.t), c.t, c.expires);
      }
    } else if c.Mod? {
      FilingSparesWorkList(w, c.t, c.expires);
    }
  }

  lemma FilingSparesWorkList<T>(w: Wheel<T>, t: T, expires: U64)
    requires t in w.expires
    ensures Ring(FileThenSet(w, t, expires), WorkList) == Ring(w, WorkList)
  {
    hide FileThenSet, BucketFor;
    FileThenSetEffect(w, t, expires);
    assert BucketFor(w.expires[t], ToU64(w.tick)) != WorkList;
  }

  lemma DetachPendingShortens<T>(w: Wheel<T>, t: T)
    requires Consistent(w) && t in w.at
    ensures |Ring(DetachPending(w, t), WorkList)| <= |Ring(w, WorkList)|
  {
    assert RingOwned(w, w.at[t]);
    WithoutNoDup(Ring(w, w.at[t]), t);
    DetachPendingEffect(w, t);
    hide DetachPending, Without, Consistent;
  }

  lemma {:induction false} CallsKeepWorkListShort<T>(w: Wheel<T>, calls: seq<Call<T>>)
    requires Consistent(w) && CallsOk(w, calls)
    ensures |Ring(ApplyAll(w, calls), WorkList)| <= |Ring(w, WorkList)|
    ensures ApplyAll(w, calls).tick == w.tick && ApplyAll(w, calls).expires.Keys == w.expires.Keys
    decreases |calls|
  {
    hide Apply, Ring;
    if calls != [] {
      CallsKeepWorkListShort(w, Front(calls));
      ApplyAllConsistent(w, Front(calls));
      WorkListNeverLonger(ApplyAll(w, Front(calls)), Last(calls));
      ApplyEffect(ApplyAll(w, Front(calls)), Last(calls));
    }
  }

  /**
   The function of the `i`th timer run makes the calls `script[i]`, and none beyond the end of
   the script.
   */
  predicate FollowsScript<T(==)>(run: seq<Label<T>>, script: seq<seq<Call<T>>>) {
    && (forall i :: 0 <= i < |run| ==> !run[i].Client?)
    && forall i :: 0 <= i < |CallbackCalls(run)| ==> CallbackCalls(run)[i] == if i < |script| then script[i] else []
  }

  lemma ScriptFollowed<T>(run: seq<Label<T>>, script: seq<seq<Call<T>>>)
    requires FollowsScript(run, script)
    ensures var made := CallbackCalls(run);
      && (|made| <= |script| ==> made == script[..|made|])
      && (|made| > |script| ==> made[..|script|] == script && forall i :: |script| <= i < |made| ==> made[i] == [])
  {
  }

  /** The calls of a timer run, found by counting those run before it. */
  lemma {:induction false} CallbackCallsAt<T>(run: seq<Label<T>>, k: nat)
    requires k < |run| && run[k].Run?
    ensures |CallbackCalls(run[..k])| < |CallbackCalls(run)|
    ensures CallbackCalls(run)[|CallbackCalls(run[..k])|] == run[k].calls
    decreases |run|
  {
    if k < |run| - 1 {
      assert Front(run)[k] == run[k] && Front(run)[..k] == run[..k];
      CallbackCallsAt(Front(run), k);
    } else {
      assert Front(run) == run[..k];
    }
  }

  lemma {:induction false} CallbackCount<T>(run: seq<Label<T>>)
    ensures |CallbackCalls(run)| == |set k | 0 <= k < |run| && run[k].Run?|
    decreases |run|
  {
    if run != [] {
      var n := |run| - 1;
      CallbackCount(Front(run));
      var all, front := set k | 0 <= k < |run| && run[k].Run?, set k | 0 <= k < |Front(run)| && Front(run)[k].Run?;
      assert all == if Last(run).Run? then front + {n} else front;
    }
  }

  /** The last callback was cut short at a scripted call that must not be made in state `w`. */
  ghost predicate StoppedByBug<T>(run: seq<Label<T>>, script: seq<seq<Call<T>>>, w: Wheel<T>) {
    && run != [] && Last(run).Run? && FollowsScript(Front(run), script)
    && var k, made := |CallbackCalls(Front(run))|, Last(run).calls;
       && k < |script| && |made| < |script[k]|
       && made == script[k][..|made|] && !CallOk(w, script[k][|made|])
  }

  lemma FollowsScriptSnoc<T>(run: seq<Label<T>>, script: seq<seq<Call<T>>>, l: Label<T>)
    requires FollowsScript(run, script)
    requires !l.Client?
    requires var k := |CallbackCalls(run)|;
      l.Run? ==> l.calls == if k < |script| then script[k] else []
    ensures FollowsScript(run + [l], script)
  {
    CallbackCallsSnoc(run, l);
  }

  lemma StartSnoc<T>(w: Wheel<T>, run: seq<Label<T>>, script: seq<seq<Call<T>>>)
    requires Consistent(w) && IsRun(w, run) && FollowsScript(run, script)
    requires Ring(Replay(w, run), WorkList) == []
    ensures IsRun(w, run + [Start]) && Replay(w, run + [Start]) == StartTick(Replay(w, run))
    ensures FollowsScript(run + [Start], script)
  {
    RunSnoc(w, run, Start);
    FollowsScriptSnoc(run, script, Start);
  }

  // ----- the clock of __run_timers -----

  /** Where `__run_timers` leaves the tick: just past `jiffies`, if it was not past it already. */
  function TickAfter(jiffies: U64, tick: int): int {
    if TimeNear(jiffies, tick) < tick then tick else TimeNear(jiffies, tick) + 1
  }

  /** `time_after_eq(jiffies, timer_jiffies)` is the unbounded comparison. */
  lemma StillBehind(jiffies: U64, tick: int)
    ensures TimeAfterEq(jiffies, ToU64(tick)) <==> TimeNear(jiffies, tick) >= tick
    ensures TimeNear(jiffies, tick) >= tick ==> TimeNear(jiffies, tick + 1) == TimeNear(jiffies, tick)
  {
    var time := TimeNear(jiffies, tick);
    TimeNearWord(jiffies, tick);
    TimeNearExact(time, tick);
    if time >= tick {
      TimeNearExact(time, tick + 1);
    }
  }

  /** In the program's words: `timer_jiffies` ends at `jiffies + 1` if `jiffies` is not before it. */
  lemma TickAfterWord(jiffies: U64, tick: int)
    ensures ToU64(TickAfter(jiffies, tick)) ==
      if TimeAfterEq(jiffies, ToU64(tick)) then ToU64(jiffies + 1) else ToU64(tick)
    ensures TimeNear(jiffies, tick) < TickAfter(jiffies, tick)
  {
    hide TimeAfterEq, TimeNear;
    StillBehind(jiffies, tick);
    TimeNearWord(jiffies, tick);
    NextWord(TimeNear(jiffies, tick));
  }

  lemma NextWord(x: int)
    ensures ToU64(ToU64(x) + 1) == ToU64(x + 1)
  {
  }
}
