/**
 Order and bounds: timers with equal deadlines in one bucket run in the order in which they
 were filed, however often they are cascaded; and `next_timer` never passes any deadline.
 */
module WheelOrder {
  import opened Words
  import opened TimerSlots
  import opened TimerTrack
  import opened Sequences
  import opened WheelModel
  import opened WheelRuns
  import opened WheelFate
  import opened WheelFirings

  // ----- first in, first out -----

  /** The lists from which timers are not filed again: those of level 1 and the work list. */
  predicate FinalList(b: Bucket) {
    b.WorkList? || b.level == 1
  }

  /**
   `x` and `y` share a list, on which `x` is first, and have the same deadline unless they are
   not filed again.
   */
  ghost predicate InOrder<T>(w: Wheel<T>, x: T, y: T) {
    && x in w.at && y in w.at && w.at[x] == w.at[y]
    && x in w.expires && y in w.expires && (FinalList(w.at[x]) || w.expires[x] == w.expires[y])
    && Precedes(Ring(w, w.at[x]), x, y)
  }

  lemma AppendKeepsPrecedence<T>(w: Wheel<T>, t: T, c: Bucket, b: Bucket, x: T, y: T)
    requires Precedes(Ring(w, b), x, y) || (b == c && x in Ring(w, b) && y == t)
    ensures Precedes(Ring(Append(w, t, c), b), x, y)
  {
    if b == c {
      assert Ring(Append(w, t, c), b) == Ring(w, b) + [t];
      AppendPrecedes(Ring(w, b), [t], x, y);
    }
  }

  lemma {:induction false} RefileKeepsPrecedence<T>(w: Wheel<T>, list: seq<T>, b: Bucket, x: T, y: T)
    requires Consistent(w) && Fileable(w, list) && Precedes(Ring(w, b), x, y)
    ensures Precedes(Ring(Refile(w, list), b), x, y)
    decreases |list|
  {
    hide Consistent, Fileable, Ring, BucketFor;
    if list != [] {
      FileOne(w, list);
      AppendKeepsPrecedence(w, list[0], BucketFor(w.expires[list[0]], ToU64(w.tick)), b, x, y);
      RefileKeepsPrecedence(InternalAddTimer(w, list[0]), list[1..], b, x, y);
    }
  }

  lemma {:induction false} RefileBehind<T>(w: Wheel<T>, list: seq<T>, b: Bucket, x: T, y: T)
    requires Consistent(w) && Fileable(w, list) && x in Ring(w, b)
    requires y in list && BucketFor(w.expires[y], ToU64(w.tick)) == b
    ensures Precedes(Ring(Refile(w, list), b), x, y)
    decreases |list|
  {
    hide Consistent, Fileable, BucketFor;
    FileOne(w, list);
    var w1 := InternalAddTimer(w, list[0]);
    if list[0] == y {
      AppendKeepsPrecedence(w, y, b, b, x, y);
      RefileKeepsPrecedence(w1, list[1..], b, x, y);
    } else {
      assert y in list[1..];
      RefileBehind(w1, list[1..], b, x, y);
    }
  }

  lemma {:induction false} RefileInOrder<T>(w: Wheel<T>, list: seq<T>, x: T, y: T)
    requires Consistent(w) && Fileable(w, list) && Precedes(list, x, y)
    requires BucketFor(w.expires[x], ToU64(w.tick)) == BucketFor(w.expires[y], ToU64(w.tick))
    ensures Precedes(Ring(Refile(w, list), BucketFor(w.expires[x], ToU64(w.tick))), x, y)
    decreases |list|
  {
    FileOne(w, list);
    var w1, b := InternalAddTimer(w, list[0]), BucketFor(w.expires[x], ToU64(w.tick));
    var i, j :| 0 <= i < j < |list| && list[i] == x && list[j] == y;
    assert list[1..][j - 1] == y;
    hide Consistent, Fileable, BucketFor;
    if i == 0 {
      assert Ring(w1, b) == Ring(w, b) + [x];
      RefileBehind(w1, list[1..], b, x, y);
    } else {
      assert list[1..][i - 1] == x;
      RefileInOrder(w1, list[1..], x, y);
    }
  }

  lemma CascadeKeepsOrder<T>(w: Wheel<T>, level: int, x: T, y: T)
    requires Consistent(w) && 2 <= level <= 5 && InOrder(w, x, y)
    ensures InOrder(Cascade(w, level), x, y)
  {
    var b := Tv(level, Index(w, level));
    CascadeEffect(w, level);
    DrainConsistent(w, b);
    DrainAt(w, b);
    assert RingOwned(w, b);
    if w.at[x] == b {
      RefileInOrder(Drain(w, b), Ring(w, b), x, y);
    } else {
      RefileKeepsPrecedence(Drain(w, b), Ring(w, b), w.at[x], x, y);
    }
  }

  lemma StartKeepsOrder<T>(w: Wheel<T>, x: T, y: T)
    requires Consistent(w) && Ring(w, WorkList) == [] && InOrder(w, x, y)
    ensures InOrder(StartTick(w), x, y)
  {
    hide Consistent, Cascade, InOrder, Index;
    if Index(w, 1) == 0 {
      CascadeKeepsOrder(w, 2, x, y);
      var w2 := Cascade(w, 2);
      if Index(w, 2) == 0 {
        CascadeKeepsOrder(w2, 3, x, y);
        var w3 := Cascade(w2, 3);
        if Index(w, 3) == 0 {
          CascadeKeepsOrder(w3, 4, x, y);
          var w4 := Cascade(w3, 4);
          if Index(w, 4) == 0 {
            CascadeKeepsOrder(w4, 5, x, y);
          }
        }
      }
    }
    var w1 := RunCascades(w);
    RunCascadesEffect(w);
    WorkListUntouched(w, w1);
    TakeDueKeepsOrder(w1, x, y);
  }

  lemma TakeDueKeepsOrder<T>(w: Wheel<T>, x: T, y: T)
    requires Consistent(w) && Ring(w, WorkList) == [] && InOrder(w, x, y)
    ensures InOrder(TakeDue(w), x, y)
  {
    TakeDueAt(w);
    assert x in Ring(w, w.at[x]);
  }

  lemma DetachPendingKeepsOrder<T>(w: Wheel<T>, t: T, x: T, y: T)
    requires Consistent(w) && t in w.at && t != x && t != y && InOrder(w, x, y)
    ensures InOrder(DetachPending(w, t), x, y)
  {
    assert RingOwned(w, w.at[x]);
    WithoutPrecedes(Ring(w, w.at[x]), t, x, y);
    DetachPendingEffect(w, t);
    hide DetachPending, Precedes, Consistent;
  }

  lemma FileThenSetKeepsOrder<T>(w: Wheel<T>, t: T, expires: U64, x: T, y: T)
    requires t in w.expires && t != x && t != y && InOrder(w, x, y)
    ensures InOrder(FileThenSet(w, t, expires), x, y)
  {
    hide FileThenSet, Precedes, BucketFor;
    FileThenSetEffect(w, t, expires);
    AppendKeepsPrecedence(w, t, BucketFor(w.expires[t], ToU64(w.tick)), w.at[x], x, y);
  }

  lemma CallKeepsOrder<T>(w: Wheel<T>, c: Call<T>, x: T, y: T)
    requires Consistent(w) && CallOk(w, c) && c.t != x && c.t != y && InOrder(w, x, y)
    ensures InOrder(Apply(w, c), x, y)
  {
    hide Consistent, FileThenSet, DetachPending, Precedes;
    if c.Add? {
      FileThenSetKeepsOrder(SetExpires(w, c.t, c.expires), c.t, c.expires, x, y);
    } else if c.t in w.at {
      DetachPendingKeepsOrder(w, c.t, x, y);
      DetachPendingEffect(w, c.t);
      if !c.Del? {
        FileThenSetKeepsOrder(DetachPending(w, c.t), c.t, c.expires, x, y);
      }
    } else if c.Mod? {
      FileThenSetKeepsOrder(w, c.t, c.expires, x, y);
    }
  }

  lemma {:induction false} CallsKeepOrder<T>(w: Wheel<T>, calls: seq<Call<T>>, x: T, y: T)
    requires Consistent(w) && CallsOk(w, calls) && InOrder(w, x, y)
    requires forall i :: 0 <= i < |calls| ==> calls[i].t != x && calls[i].t != y
    ensures InOrder(ApplyAll(w, calls), x, y)
    decreases |calls|
  {
    hide Consistent, InOrder, Apply, CallOk;
    if calls != [] {
      CallsKeepOrder(w, Front(calls), x, y);
      ApplyAllConsistent(w, Front(calls));
      CallKeepsOrder(ApplyAll(w, Front(calls)), Last(calls), x, y);
    }
  }

  lemma StepKeepsOrder<T>(w: Wheel<T>, l: Label<T>, x: T, y: T)
    requires Consistent(w) && CanStep(w, l) && !Touches(l, x) && !Touches(l, y) && InOrder(w, x, y)
    ensures if l.Run? && l.t == x then x !in Step(w, l).at
            else InOrder(Step(w, l), x, y) && !(l.Run? && l.t == y)
  {
    match l
    case Client(c) =>
      CallKeepsOrder(w, c, x, y);
    case Start =>
      StartKeepsOrder(w, x, y);
    case Run(u, calls) =>
      StepSeenBy(w, l, x);
      DetachFirstEffect(w);
      assert RingOwned(w, WorkList);
      if u != x {
        DetachFirstConsistent(w);
        DetachedInOrder(w, x, y);
        CallsKeepOrder(DetachFirst(w), calls, x, y);
      }
  }

  lemma DetachedInOrder<T>(w: Wheel<T>, x: T, y: T)
    requires Consistent(w) && Ring(w, WorkList) != [] && Ring(w, WorkList)[0] != x && InOrder(w, x, y)
    ensures InOrder(DetachFirst(w), x, y) && Ring(w, WorkList)[0] != y
  {
    DetachFirstEffect(w);
    assert RingOwned(w, WorkList);
    var s := Ring(w, WorkList);
    var i, j :| 0 <= i < j < |Ring(w, w.at[x])| && Ring(w, w.at[x])[i] == x && Ring(w, w.at[x])[j] == y;
    if w.at[x] == WorkList {
      assert s[1..][i - 1] == x && s[1..][j - 1] == y;
    }
  }

  /**
   First in, first out over whole runs: as long as the earlier of two equal timers has not
   run, the later one is behind it on the same list and has not run either.
   */
  lemma {:induction false} RunKeepsOrder<T>(w: Wheel<T>, run: seq<Label<T>>, x: T, y: T)
    requires Consistent(w) && IsRun(w, run) && InOrder(w, x, y)
    requires Untouched(run, x) && Untouched(run, y)
    ensures FireTicks(w, run, x) == [] ==> InOrder(Replay(w, run), x, y) && FireTicks(w, run, y) == []
    decreases |run|
  {
    hide Consistent, InOrder, CanStep, Step;
    if run != [] {
      var front, l := Front(run), Last(run);
      assert Untouched(front, x) && Untouched(front, y) && !Touches(l, x) && !Touches(l, y);
      RunKeepsOrder(w, front, x, y);
      if FireTicks(w, run, x) == [] {
        StepKeepsOrder(Replay(w, front), l, x, y);
      }
    }
  }

  /** A timer is filed behind those on the list already, in order with its equals. */
  lemma FiledInOrder<T>(w: Wheel<T>, c: Call<T>, x: T)
    requires Consistent(w) && CallOk(w, c) && Files(w, c) && x != c.t && x in w.at && x in w.expires
    requires w.at[x] == BucketFor(FilingDeadline(w, c), ToU64(w.tick))
    requires FinalList(w.at[x]) || w.expires[x] == c.expires
    ensures InOrder(Apply(w, c), x, c.t)
  {
    assert x in Ring(w, w.at[x]) && RingOwned(w, w.at[x]);
    hide Apply, Consistent, BucketFor, NoDup, Without;
    CallRings(w, c);
    ApplyEffect(w, c);
    WithoutNoDup(Ring(w, w.at[x]), c.t);
    AppendPrecedes(Without(Ring(w, w.at[x]), c.t), [c.t], x, c.t);
  }

  /**
   First filed, first run: a timer filed into the bucket of another one with its deadline (or
   any deadline, on level 1) does not run before that one in any run that leaves both alone.
   */
  lemma FirstFiledRunsFirst<T>(w: Wheel<T>, c: Call<T>, x: T, run: seq<Label<T>>)
    requires Consistent(w) && CallOk(w, c) && Files(w, c) && x != c.t && x in w.at && x in w.expires
    requires w.at[x] == BucketFor(FilingDeadline(w, c), ToU64(w.tick))
    requires FinalList(w.at[x]) || w.expires[x] == c.expires
    requires Consistent(Apply(w, c)) && IsRun(Apply(w, c), run) && Untouched(run, x) && Untouched(run, c.t)
    ensures FireTicks(Apply(w, c), run, x) == [] ==> FireTicks(Apply(w, c), run, c.t) == []
  {
    hide Apply, Consistent, IsRun, FireTicks, BucketFor, InOrder;
    FiledInOrder(w, c, x);
    RunKeepsOrder(Apply(w, c), run, x, c.t);
  }

  lemma {:induction false} DeadlineStays<T>(w: Wheel<T>, run: seq<Label<T>>, x: T, expires: U64)
    requires Consistent(w) && IsRun(w, run) && Untouched(run, x)
    requires x in w.at ==> x in w.expires && w.expires[x] == expires
    ensures x in Replay(w, run).at ==> x in Replay(w, run).expires && Replay(w, run).expires[x] == expires
    decreases |run|
  {
    hide Consistent, Step, CanStep;
    if run != [] {
      assert Untouched(Front(run), x) && !Touches(Last(run), x);
      DeadlineStays(w, Front(run), x, expires);
      StepSeenBy(Replay(w, Front(run)), Last(run), x);
    }
  }

  /**
   Two calls, with any run in between: of two timers set to the same deadline, the one filed
   first runs first if it is still in the bucket that is chosen for the second.
   */
  lemma FirstSetRunsFirst<T>(w: Wheel<T>, first: Call<T>, between: seq<Label<T>>, second: Call<T>, run: seq<Label<T>>)
    requires Consistent(w) && CallOk(w, first) && Files(w, first)
    requires var w1 := Apply(w, first);
      Consistent(w1) && IsRun(w1, between) && Untouched(between, first.t) &&
      var w2 := Replay(w1, between);
      && CallOk(w2, second) && Files(w2, second) && second.t != first.t && second.expires == first.expires
      && first.t in w2.at && w2.at[first.t] == BucketFor(FilingDeadline(w2, second), ToU64(w2.tick))
      && Consistent(Apply(w2, second)) && IsRun(Apply(w2, second), run)
      && Untouched(run, first.t) && Untouched(run, second.t)
    ensures var w3 := Apply(Replay(Apply(w, first), between), second);
      FireTicks(w3, run, first.t) == [] ==> FireTicks(w3, run, second.t) == []
  {
    hide Apply, Consistent, IsRun, Replay, FireTicks, BucketFor;
    ApplyEffect(w, first);
    DeadlineStays(Apply(w, first), between, first.t, first.expires);
    FirstFiledRunsFirst(Replay(Apply(w, first), between), second, first.t, run);
  }

  // ----- next_timer -----

  /** The time that `next_timer` denotes when all times in play are at or after `epoch`. */
  function NextTime<T>(w: Wheel<T>, epoch: int): int {
    epoch + ToU64(w.next - epoch)
  }

  predicate InPlay(time: U64, epoch: int) {
    ToU64(time - epoch) < HALF64
  }

  /** `next_timer` is not ahead of `timer_jiffies`, so it bounds every deadline from below. */
  predicate NextBehind<T>(w: Wheel<T>, epoch: int) {
    epoch <= w.tick < epoch + HALF64 && NextTime(w, epoch) <= w.tick
  }

  lemma NextBoundsDeadlines<T>(w: Wheel<T>, epoch: int)
    requires NextBehind(w, epoch)
    ensures forall t :: t in w.expires ==> NextTime(w, epoch) <= Due(w.expires[t], w.tick)
  {
  }

  /** Times in play are compared correctly by `time_before`, across a wrap of the counter too. */
  lemma TimeBeforeExact(a: U64, b: U64, epoch: int)
    requires InPlay(a, epoch) && InPlay(b, epoch)
    ensures TimeBefore(a, b) <==> epoch + ToU64(a - epoch) < epoch + ToU64(b - epoch)
  {
    var x, y := ToU64(a - epoch), ToU64(b - epoch);
    var i, j := (a - epoch) / B64, (b - epoch) / B64;
    assert a - b == x - y + (i - j) * B64;
    ModAddMultiple(x - y, B64, i - j);
  }

  lemma WordOfTick(tick: int, epoch: int)
    requires epoch <= tick < epoch + HALF64
    ensures epoch + ToU64(ToU64(tick) - epoch) == tick
  {
    assert ToU64(tick) - epoch == tick - epoch + (-(tick / B64)) * B64;
    ModAddMultiple(tick - epoch, B64, -(tick / B64));
  }

  lemma CallKeepsNextBehind<T>(w: Wheel<T>, c: Call<T>, epoch: int)
    requires CallOk(w, c) && NextBehind(w, epoch) && (!c.Del? ==> InPlay(c.expires, epoch))
    ensures NextBehind(Apply(w, c), epoch)
  {
    hide BucketFor, TimeBefore;
    WordOfTick(w.tick, epoch);
    ApplyEffect(w, c);
    if !c.Del? {
      TimeBeforeExact(c.expires, w.next, epoch);
      TimeBeforeExact(c.expires, ToU64(w.tick), epoch);
    }
  }

  /**
   What a call does to `next_timer`, on unbounded times: detaching a pending timer that has
   that deadline resets it to the clock, and filing then lowers it to the deadline set.
   */
  lemma CallMovesNext<T>(w: Wheel<T>, c: Call<T>, epoch: int)
    requires CallOk(w, c) && NextBehind(w, epoch) && (!c.Del? ==> InPlay(c.expires, epoch))
    ensures var r, before := Apply(w, c), NextTime(w, epoch);
      var base := if c.t in w.at && w.expires[c.t] == w.next then w.tick else before;
      && (Files(w, c) ==>
            var time := epoch + ToU64(c.expires - epoch);
            NextTime(r, epoch) == if time < base then time else base)
      && (c.Del? ==> NextTime(r, epoch) == base)
      && (!Files(w, c) && !c.Del? ==> NextTime(r, epoch) == before)
  {
    hide BucketFor, TimeBefore;
    WordOfTick(w.tick, epoch);
    if !c.Del? {
      TimeBeforeExact(c.expires, w.next, epoch);
      TimeBeforeExact(c.expires, ToU64(w.tick), epoch);
    }
  }

  lemma InitNextBehind<T>(jiffies: U64, expires: map<T, U64>)
    ensures NextBehind(Init(jiffies, expires), jiffies)
    ensures NextTime(Init(jiffies, expires), jiffies) == jiffies
  {
  }

  lemma {:induction false} CallsKeepNextBehind<T>(w: Wheel<T>, calls: seq<Call<T>>, epoch: int)
    requires CallsOk(w, calls) && NextBehind(w, epoch) && CallsInPlay(calls, epoch)
    ensures NextBehind(ApplyAll(w, calls), epoch)
    decreases |calls|
  {
    hide NextBehind, Apply, CallOk;
    if calls != [] {
      CallsKeepNextBehind(w, Front(calls), epoch);
      CallKeepsNextBehind(ApplyAll(w, Front(calls)), Last(calls), epoch);
    }
  }

  predicate CallsInPlay<T>(calls: seq<Call<T>>, epoch: int) {
    forall i :: 0 <= i < |calls| && !calls[i].Del? ==> InPlay(calls[i].expires, epoch)
  }

  predicate StepInPlay<T>(l: Label<T>, epoch: int) {
    match l
    case Client(c) => CallsInPlay([c], epoch)
    case Start => true
    case Run(_, calls) => CallsInPlay(calls, epoch)
  }

  lemma StillBehindNextTick<T>(w: Wheel<T>, r: Wheel<T>, epoch: int)
    requires NextBehind(w, epoch) && r.next == w.next
    requires r.tick == w.tick || w.tick <= r.tick < epoch + HALF64
    ensures NextBehind(r, epoch)
  {
  }

  lemma StepKeepsNextBehind<T>(w: Wheel<T>, l: Label<T>, epoch: int)
    requires Consistent(w) && CanStep(w, l) && NextBehind(w, epoch) && StepInPlay(l, epoch)
    requires Step(w, l).tick < epoch + HALF64
    ensures NextBehind(Step(w, l), epoch)
  {
    hide NextBehind, Consistent, Apply, StartTick, DetachFirst, InPlay;
    match l
    case Client(c) =>
      assert !c.Del? ==> InPlay([c][0].expires, epoch);
      CallKeepsNextBehind(w, c, epoch);
    case Start =>
      StartEffect(w);
      StillBehindNextTick(w, StartTick(w), epoch);
    case Run(t, calls) =>
      DetachFirstEffect(w);
      StillBehindNextTick(w, DetachFirst(w), epoch);
      CallsKeepNextBehind(DetachFirst(w), calls, epoch);
  }

  /**
   As long as all times in play lie within half the counter's range, `next_timer` bounds all
   deadlines from below in every reachable state.
   */
  lemma {:induction false} RunKeepsNextBehind<T>(w: Wheel<T>, run: seq<Label<T>>, epoch: int)
    requires Consistent(w) && IsRun(w, run) && NextBehind(w, epoch)
    requires forall i :: 0 <= i < |run| ==> StepInPlay(run[i], epoch)
    requires Replay(w, run).tick < epoch + HALF64
    ensures NextBehind(Replay(w, run), epoch)
    ensures forall t :: t in Replay(w, run).expires ==>
      NextTime(Replay(w, run), epoch) <= Due(Replay(w, run).expires[t], Replay(w, run).tick)
    decreases |run|
  {
    hide Consistent, Step, CanStep, NextBehind, StepInPlay;
    if run != [] {
      StepTick(Replay(w, Front(run)), Last(run));
      RunKeepsNextBehind(w, Front(run), epoch);
      StepKeepsNextBehind(Replay(w, Front(run)), Last(run), epoch);
    }
    NextBoundsDeadlines(Replay(w, run), epoch);
  }

  /** In particular from `init_timers_uki` on, while times stay below half the counter's range ahead. */
  lemma NextBoundsFromInit<T>(jiffies: U64, expires: map<T, U64>, run: seq<Label<T>>)
    requires Consistent(Init(jiffies, expires)) && IsRun(Init(jiffies, expires), run)
    requires forall i :: 0 <= i < |run| ==> StepInPlay(run[i], jiffies)
    requires Replay(Init(jiffies, expires), run).tick < jiffies + HALF64
    ensures var w := Replay(Init(jiffies, expires), run);
      forall t :: t in w.expires ==> NextTime(w, jiffies) <= Due(w.expires[t], w.tick)
  {
    InitNextBehind(jiffies, expires);
    RunKeepsNextBehind(Init(jiffies, expires), run, jiffies);
  }
}
