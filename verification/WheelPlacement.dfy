/**
 The placement invariant: where a pending timer is, in every state that the wheel can reach
 when deadlines are changed in the documented order.
 */
module WheelPlacement {
  import opened Words
  import opened TimerSlots
  import opened TimerTrack
  import opened Sequences
  import opened WheelModel
  import opened WheelRuns
  import opened WheelTiming
  import opened WheelModTimer

  /** On level 1 each of the next 64 ticks has its own slot, so the slot tells the deadline. */
  lemma Level1Placement(slot: int, due: int, tick: int)
    requires 0 <= slot < 64
    ensures OnCourse(Tv(1, slot), due, tick, 2) <==> tick <= due <= tick + 63 && slot == due % 64
  {
    var b := Tv(1, slot);
    DrainTicks(b, tick);
    if NextDrain(b, tick) == due {
      SlotOfDrainTick(due, 1, slot);
    }
    if tick <= due <= tick + 63 && slot == due % 64 {
      SlotPhase(due, 1);
      NextDrainUnique(b, tick, due);
    }
  }

  ghost predicate TimerAligned<T>(w: Wheel<T>, t: T)
    requires t in w.at && t in w.expires
  {
    w.at[t].WorkList? || Aligned(w.at[t], Due(w.expires[t], w.tick), w.tick)
  }

  ghost predicate AllAligned<T>(w: Wheel<T>)
    requires w.at.Keys <= w.expires.Keys
  {
    forall t :: t in w.at ==> TimerAligned(w, t)
  }

  lemma CallKeepsAlignment<T>(w: Wheel<T>, c: Call<T>)
    requires Consistent(w) && AllAligned(w) && CallOk(w, c) && (c.Add? || c.Del?)
    ensures Consistent(Apply(w, c)) && AllAligned(Apply(w, c))
  {
    hide Apply, Consistent, Aligned, Due, BucketFor;
    ApplyConsistent(w, c);
    ApplyEffect(w, c);
    InitializedOnly(w);
    InitializedOnly(Apply(w, c));
    var r := Apply(w, c);
    if c.Add? {
      FiledAligned(c.expires, w.tick);
    }
    forall t | t in r.at
      ensures TimerAligned(r, t)
    {
      assert t != c.t ==> TimerAligned(w, t);
    }
  }

  lemma {:induction false} CallsKeepAlignment<T>(w: Wheel<T>, calls: seq<Call<T>>)
    requires Consistent(w) && AllAligned(w) && CallsOk(w, calls) && InDocumentedOrder(calls)
    ensures Consistent(ApplyAll(w, calls)) && AllAligned(ApplyAll(w, calls))
    decreases |calls|
  {
    hide Apply, Consistent, AllAligned, CallOk;
    if calls != [] {
      CallsKeepAlignment(w, Front(calls));
      CallKeepsAlignment(ApplyAll(w, Front(calls)), Last(calls));
    }
  }

  lemma StartKeepsAlignment<T>(w: Wheel<T>)
    requires Consistent(w) && AllOnCourse(w) && AllAligned(w) && Ring(w, WorkList) == []
    ensures Consistent(StartTick(w)) && AllAligned(StartTick(w))
  {
    StartEffect(w);
    var r := StartTick(w);
    InitializedOnly(w);
    InitializedOnly(r);
    forall t | t in w.at
      ensures w.at[t].Tv?
    {
      assert t in Ring(w, w.at[t]);
    }
    hide StartTick, Consistent;
    TickKeepsAllAligned(w, r);
  }

  lemma TickKeepsAllAligned<T>(w: Wheel<T>, r: Wheel<T>)
    requires w.at.Keys <= w.expires.Keys && AllOnCourse(w) && AllAligned(w)
    requires r.tick == w.tick + 1 && r.expires == w.expires && r.at.Keys == w.at.Keys
    requires forall t :: t in w.at ==> w.at[t].Tv? && r.at[t] == AfterStart(w.at[t], w.expires[t], w.tick)
    ensures AllAligned(r)
  {
    hide OnCourse, Due, Aligned, AfterStart;
    forall t | t in r.at
      ensures TimerAligned(r, t)
    {
      assert TimerOnCourse(w, t) && TimerAligned(w, t);
      TimerTickAligned(w.at[t], w.expires[t], w.tick);
    }
  }

  lemma TimerTickAligned(b: Bucket, expires: U64, tick: int)
    requires OnCourse(b, Due(expires, tick), tick, 2) && Aligned(b, Due(expires, tick), tick)
    ensures var b' := AfterStart(b, expires, tick);
      b'.WorkList? || Aligned(b', Due(expires, tick + 1), tick + 1)
  {
    hide OnCourse, Due, Aligned, AfterStart;
    TickKeepsCourse(b, expires, tick);
    if Due(expires, tick) != tick {
      TickKeepsAlignment(b, expires, tick);
    }
  }

  lemma DetachFirstKeepsAlignment<T>(w: Wheel<T>)
    requires Consistent(w) && AllAligned(w) && Ring(w, WorkList) != []
    ensures Consistent(DetachFirst(w)) && AllAligned(DetachFirst(w))
  {
    hide DetachFirst, Consistent, Aligned, Due;
    DetachFirstConsistent(w);
    DetachFirstEffect(w);
    InitializedOnly(w);
    forall t | t in DetachFirst(w).at
      ensures TimerAligned(DetachFirst(w), t)
    {
      assert TimerAligned(w, t);
    }
  }

  lemma StepKeepsAlignment<T>(w: Wheel<T>, l: Label<T>)
    requires Consistent(w) && AllOnCourse(w) && AllAligned(w) && CanStep(w, l) && StepInDocumentedOrder(l)
    ensures AllAligned(Step(w, l))
  {
    match l
    case Client(c) =>
      assert [c][0].Add? || [c][0].Del?;
      CallKeepsAlignment(w, c);
    case Start =>
      StartKeepsAlignment(w);
    case Run(t, calls) =>
      DetachFirstKeepsAlignment(w);
      CallsKeepAlignment(DetachFirst(w), calls);
  }

  lemma {:induction false} RunKeepsAlignment<T>(jiffies: U64, expires: map<T, U64>, run: seq<Label<T>>)
    requires Consistent(Init(jiffies, expires)) && IsRun(Init(jiffies, expires), run)
    requires forall i :: 0 <= i < |run| ==> StepInDocumentedOrder(run[i])
    ensures var r := Replay(Init(jiffies, expires), run);
      AllOnCourse(r) && AllAligned(r)
    decreases |run|
  {
    hide Init, Consistent, AllOnCourse, AllAligned, CanStep, Step, StepInDocumentedOrder;
    DocumentedRunRefines(jiffies, expires, run);
    if run == [] {
      InitAligned(jiffies, expires);
    } else {
      var w1 := Replay(Init(jiffies, expires), Front(run));
      RunKeepsAlignment(jiffies, expires, Front(run));
      StepKeepsAlignment(w1, Last(run));
    }
  }

  lemma InitAligned<T>(jiffies: U64, expires: map<T, U64>)
    ensures AllAligned(Init(jiffies, expires))
  {
  }

  // ----- between the cascades of a tick -----

  /** The state after the cascades of the levels 2 to `level`; level 1 has none. */
  ghost function CascadesUpTo<T>(w: Wheel<T>, level: int): (r: Wheel<T>)
    requires Consistent(w) && 1 <= level <= 5
    ensures Consistent(r) && r.tick == w.tick && r.expires == w.expires && r.at.Keys == w.at.Keys
  {
    if level == 1 then w else Cascade(CascadesUpTo(w, level - 1), level)
  }

  /** The last level that is cascaded at a tick. */
  function LastLevel(tick: int): (level: int)
    ensures 1 <= level <= 5 && tick % Granularity(level) == 0
    ensures level < 5 ==> tick % Granularity(level + 1) != 0
  {
    if tick % 0x40 != 0 then 1
    else if tick % 0x400 != 0 then 2
    else if tick % 0x4000 != 0 then 3
    else if tick % 0x4_0000 != 0 then 4
    else 5
  }

  lemma IndexZero<T>(w: Wheel<T>, level: int)
    requires 1 <= level <= 4 && w.tick % Granularity(level) == 0
    ensures Index(w, level) == 0 <==> w.tick % Granularity(level + 1) == 0
  {
    SlotOfWord(w.tick, level);
    NextLevelDue(w.tick, level);
  }

  lemma GranularityDivides(tick: int, level: int)
    requires 1 <= level <= 4
    ensures tick % Granularity(level + 1) == 0 ==> tick % Granularity(level) == 0
  {
    NextLevelDue(tick, level);
  }

  /** The chain of cascades of the program is that of the levels up to the last one due. */
  lemma ChainIsUpTo<T>(w: Wheel<T>)
    requires Consistent(w)
    ensures RunCascades(w) == CascadesUpTo(w, LastLevel(w.tick))
  {
    hide Consistent, Cascade, Granularity, Index;
    var last := LastLevel(w.tick);
    GranularityDivides(w.tick, 1);
    GranularityDivides(w.tick, 2);
    GranularityDivides(w.tick, 3);
    GranularityDivides(w.tick, 4);
    IndicesOfLevels(w);
    ChainOfLevels(w, last);
  }

  /** The index of a level is 0 iff the level is below the last one due, for those up to it. */
  lemma IndicesOfLevels<T>(w: Wheel<T>)
    ensures var last := LastLevel(w.tick);
      forall l :: 1 <= l <= 4 && l <= last ==> (Index(w, l) == 0 <==> l < last)
  {
    hide Index;
    forall l | 1 <= l <= 4 && l <= LastLevel(w.tick)
      ensures Index(w, l) == 0 <==> l < LastLevel(w.tick)
    {
      IndexZero(w, l);
    }
  }

  lemma ChainOfLevels<T>(w: Wheel<T>, last: int)
    requires Consistent(w) && 1 <= last <= 5
    requires forall l :: 1 <= l <= 4 && l <= last ==> (Index(w, l) == 0 <==> l < last)
    ensures RunCascades(w) == CascadesUpTo(w, last)
  {
    hide Consistent, Cascade, Index;
    NextCascade(w, 2);
    NextCascade(w, 3);
    NextCascade(w, 4);
    NextCascade(w, 5);
    assert CascadesUpTo(w, 1) == w;
    hide CascadesUpTo;
  }

  lemma NextCascade<T>(w: Wheel<T>, level: int)
    requires Consistent(w) && 2 <= level <= 5
    ensures CascadesUpTo(w, level) == Cascade(CascadesUpTo(w, level - 1), level)
  {
    hide Consistent, Cascade;
  }

  /** On course and exactly placed, with the levels below `phase` drained already. */
  ghost predicate AllPlaced<T>(w: Wheel<T>, phase: int)
    requires w.at.Keys <= w.expires.Keys
  {
    forall t :: t in w.at && !w.at[t].WorkList? ==>
      OnCourse(w.at[t], Due(w.expires[t], w.tick), w.tick, phase) &&
      Aligned(w.at[t], Due(w.expires[t], w.tick), w.tick)
  }

  lemma CascadeKeepsPlaced<T>(w: Wheel<T>, level: int)
    requires Consistent(w) && 2 <= level <= 5 && w.tick % Granularity(level) == 0
    requires w.at.Keys <= w.expires.Keys && AllPlaced(w, level)
    ensures Cascade(w, level).at.Keys <= Cascade(w, level).expires.Keys
    ensures AllPlaced(Cascade(w, level), level + 1)
  {
    hide Consistent, Cascade, OnCourse, Aligned, Due, Granularity, Cascaded;
    CascadeEffect(w, level);
    var r := Cascade(w, level);
    forall t | t in r.at && !r.at[t].WorkList?
      ensures OnCourse(r.at[t], Due(r.expires[t], r.tick), r.tick, level + 1)
      ensures Aligned(r.at[t], Due(r.expires[t], r.tick), r.tick)
    {
      WorkListStays(w.at[t], w.expires[t], w.tick, level);
      CascadedOnCourse(w.at[t], w.expires[t], w.tick, level);
      CascadedAligned(w.at[t], w.expires[t], w.tick, level);
    }
  }

  lemma WorkListStays(b: Bucket, expires: U64, tick: int, level: int)
    requires 2 <= level <= 5
    ensures b.WorkList? ==> Cascaded(b, expires, tick, level).WorkList?
  {
  }

  lemma {:induction false} CascadesKeepPlaced<T>(w: Wheel<T>, level: int)
    requires Consistent(w) && 1 <= level <= 5 && w.tick % Granularity(level) == 0
    requires w.at.Keys <= w.expires.Keys && AllPlaced(w, 2)
    ensures CascadesUpTo(w, level).at.Keys <= CascadesUpTo(w, level).expires.Keys
    ensures AllPlaced(CascadesUpTo(w, level), level + 1)
  {
    hide Consistent, Cascade, AllPlaced, Granularity;
    if level > 1 {
      GranularityDivides(w.tick, level - 1);
      CascadesKeepPlaced(w, level - 1);
      CascadeKeepsPlaced(CascadesUpTo(w, level - 1), level);
    }
  }

  /**
   What the placement invariant says of a timer at a tick at which the levels up to `level`
   have been drained.  On level 1 it is due within 64 ticks and in the slot of its deadline;
   on levels 2 to 4 it is in the slot to be drained at its deadline rounded down, which is
   still to come if the level has been drained; on level 5 it will be drained no later than
   its deadline.
   */
  predicate WellPlaced(b: Bucket, due: int, tick: int, level: int) {
    InWheel(b) &&
    match b.level
    case 1 => tick <= due <= tick + 63 && b.slot == due % 64
    case 5 => NextDrain(b, if level == 5 then tick + 1 else tick) <= due
    case _ => NextDrain(b, tick) == due - due % Granularity(b.level) && (b.level <= level ==> tick < NextDrain(b, tick))
  }

  lemma PlacedIsWellPlaced(b: Bucket, due: int, tick: int, level: int)
    requires 1 <= level <= 5 && OnCourse(b, due, tick, level + 1) && Aligned(b, due, tick)
    ensures WellPlaced(b, due, tick, level)
  {
    hide NextDrain, Granularity;
    if b.level == 1 {
      Level1Placement(b.slot, due, tick);
    } else if b.level <= 4 && b.level <= level {
      DrainedLevelsWait(b, due, tick, level + 1);
    }
  }

  /**
   In every state reachable in the documented order, between any two steps (`level` 1) and
   after each of the nested cascades that start a tick, every timer of the wheel is well placed.
   */
  lemma Placement<T>(jiffies: U64, expires: map<T, U64>, run: seq<Label<T>>, level: int, t: T)
    requires Consistent(Init(jiffies, expires)) && IsRun(Init(jiffies, expires), run)
    requires forall i :: 0 <= i < |run| ==> StepInDocumentedOrder(run[i])
    requires 1 <= level <= LastLevel(Replay(Init(jiffies, expires), run).tick)
    requires t in Replay(Init(jiffies, expires), run).at
    ensures var w := CascadesUpTo(Replay(Init(jiffies, expires), run), level);
      && t in w.at && t in w.expires
      && (w.at[t].WorkList? || WellPlaced(w.at[t], Due(w.expires[t], w.tick), w.tick, level))
  {
    hide Init, Consistent, IsRun, Replay, Due, WellPlaced, StepInDocumentedOrder, CascadesUpTo, AllPlaced, Granularity,
      LastLevel, AllOnCourse, AllAligned;
    RunKeepsAlignment(jiffies, expires, run);
    var w := Replay(Init(jiffies, expires), run);
    InitializedOnly(w);
    StartPlaced(w);
    LevelsUpToLast(w.tick, level);
    CascadesKeepPlaced(w, level);
    PlacedTimer(CascadesUpTo(w, level), level, t);
  }

  lemma PlacedTimer<T>(w: Wheel<T>, level: int, t: T)
    requires w.at.Keys <= w.expires.Keys && 1 <= level <= 5 && AllPlaced(w, level + 1) && t in w.at
    ensures w.at[t].WorkList? || WellPlaced(w.at[t], Due(w.expires[t], w.tick), w.tick, level)
  {
    hide WellPlaced, OnCourse, Aligned, Due;
    if !w.at[t].WorkList? {
      PlacedIsWellPlaced(w.at[t], Due(w.expires[t], w.tick), w.tick, level);
    }
  }

  lemma StartPlaced<T>(w: Wheel<T>)
    requires w.at.Keys <= w.expires.Keys && AllOnCourse(w) && AllAligned(w)
    ensures AllPlaced(w, 2)
  {
    hide OnCourse, Aligned, Due;
    forall t | t in w.at
      ensures TimerOnCourse(w, t) && TimerAligned(w, t)
    {
    }
  }

  lemma LevelsUpToLast(tick: int, level: int)
    requires 1 <= level <= LastLevel(tick)
    ensures tick % Granularity(level) == 0
  {
    hide Granularity;
    GranularityDivides(tick, 1);
    GranularityDivides(tick, 2);
    GranularityDivides(tick, 3);
    GranularityDivides(tick, 4);
  }
}
