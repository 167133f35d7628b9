/**
 The state of the timer wheel as a value, and what each operation of timer.c does to it.
 The imperative `TimerBase` is proved to follow these functions; the properties that the
 wheel promises are proved about them.
 */
module WheelModel {
  import opened Words
  import opened TimerSlots
  import opened Sequences

  /**
   tick:    the unbounded time of which `timer_jiffies` is the low 64 bits
   next:    `next_timer`
   expires: the `expires` field of every initialized timer
   at:      the list each pending timer is on
   rings:   the contents of the lists, head to tail; a missing key is an empty list
   */
  datatype Wheel<T> = Wheel(
    tick: int,
    next: U64,
    expires: map<T, U64>,
    at: map<T, Bucket>,
    rings: map<Bucket, seq<T>>)

  function Ring<T(==)>(w: Wheel<T>, b: Bucket): seq<T> {
    if b in w.rings then w.rings[b] else []
  }

  /** Every pending timer is on exactly one list, once; all others are on none. */
  ghost predicate Consistent<T>(w: Wheel<T>) {
    && w.at.Keys <= w.expires.Keys
    && (forall t :: t in w.at ==> IsBucket(w.at[t]) && t in Ring(w, w.at[t]))
    && (forall b :: b in w.rings ==> IsBucket(b) && RingOwned(w, b))
  }

  ghost predicate RingOwned<T>(w: Wheel<T>, b: Bucket) {
    && NoDup(Ring(w, b))
    && (forall t :: t in Ring(w, b) ==> t in w.at && w.at[t] == b)
  }

  function Init<T(==)>(jiffies: U64, expires: map<T, U64>): Wheel<T> {
    Wheel(jiffies, jiffies, expires, map[], map[])
  }

  // ----- list operations -----

  function Append<T(==)>(w: Wheel<T>, t: T, b: Bucket): Wheel<T> {
    w.(at := w.at[t := b], rings := w.rings[b := Ring(w, b) + [t]])
  }

  function Detach<T(==)>(w: Wheel<T>, t: T): Wheel<T>
    requires t in w.at
  {
    w.(at := w.at - {t}, rings := w.rings[w.at[t] := Without(Ring(w, w.at[t]), t)])
  }

  function Elements<T(==)>(s: seq<T>): set<T> {
    set t | t in s
  }

  /** `list_replace_init` of a bucket into a private list: its timers are on no list of the wheel. */
  function Drain<T(==)>(w: Wheel<T>, b: Bucket): Wheel<T> {
    w.(at := w.at - Elements(Ring(w, b)), rings := w.rings[b := []])
  }

  // ----- timer.c -----

  /** `time_before` */
  predicate TimeBefore(a: U64, b: U64) {
    ToS64(ToU64(a - b)) < 0
  }

  /** `time_after_eq` */
  predicate TimeAfterEq(a: U64, b: U64) {
    ToS64(ToU64(a - b)) >= 0
  }

  function InternalAddTimer<T(==)>(w: Wheel<T>, t: T): Wheel<T>
    requires t in w.expires
  {
    Append(w, t, BucketFor(w.expires[t], ToU64(w.tick)))
  }

  /** Detaching a pending timer, with the adjustment of `next_timer`. */
  function DetachPending<T(==)>(w: Wheel<T>, t: T): Wheel<T>
    requires t in w.at && t in w.expires
  {
    var w1 := Detach(w, t);
    if w.expires[t] == w.next then w1.(next := ToU64(w.tick)) else w1
  }

  /** `__mod_timer` past the detaching: the list is chosen by the OLD deadline. */
  function FileThenSet<T(==)>(w: Wheel<T>, t: T, expires: U64): Wheel<T>
    requires t in w.expires
  {
    var w1 := InternalAddTimer(w, t);
    var w2 := w1.(expires := w1.expires[t := expires]);
    if TimeBefore(expires, w2.next) then w2.(next := expires) else w2
  }

  /** `__mod_timer` */
  function ModTimerCommon<T(==)>(w: Wheel<T>, t: T, expires: U64, pendingOnly: bool): Wheel<T>
    requires t in w.expires
  {
    if t in w.at then FileThenSet(DetachPending(w, t), t, expires)
    else if pendingOnly then w
    else FileThenSet(w, t, expires)
  }

  function ModTimerPending<T(==)>(w: Wheel<T>, t: T, expires: U64): Wheel<T>
    requires t in w.expires
  {
    ModTimerCommon(w, t, expires, true)
  }

  function ModTimer<T(==)>(w: Wheel<T>, t: T, expires: U64): Wheel<T>
    requires t in w.expires
  {
    if t in w.at && w.expires[t] == expires then w
    else ModTimerCommon(w, t, expires, false)
  }

  /** The caller's `timer->expires = expires`, legal while the timer is inactive. */
  function SetExpires<T(==)>(w: Wheel<T>, t: T, expires: U64): Wheel<T>
    requires t in w.expires && t !in w.at
  {
    w.(expires := w.expires[t := expires])
  }

  /** `add_timer`; its `BUG_ON` demands an inactive timer. */
  function AddTimer<T(==)>(w: Wheel<T>, t: T): Wheel<T>
    requires t in w.expires && t !in w.at
  {
    ModTimer(w, t, w.expires[t])
  }

  function DelTimer<T(==)>(w: Wheel<T>, t: T): Wheel<T>
    requires t in w.expires
  {
    if t in w.at then DetachPending(w, t) else w
  }

  /** `INDEX(level - 2)` of the program, and `index` for level 1. */
  function Index<T>(w: Wheel<T>, level: int): int
    requires 1 <= level <= 5
  {
    SlotOf(ToU64(w.tick), level)
  }

  // ----- consistency -----

  lemma InitializedOnly<T>(w: Wheel<T>)
    requires Consistent(w)
    ensures w.at.Keys <= w.expires.Keys
  {
  }

  lemma AppendOwned<T>(w: Wheel<T>, t: T, b: Bucket, c: Bucket)
    requires RingOwned(w, c) && t !in w.at
    ensures RingOwned(Append(w, t, b), c)
  {
    var w' := Append(w, t, b);
    if c != b {
      assert Ring(w', c) == Ring(w, c);
    } else {
      assert Ring(w', c) == Ring(w, c) + [t];
    }
  }

  lemma AppendConsistent<T>(w: Wheel<T>, t: T, b: Bucket)
    requires Consistent(w) && IsBucket(b) && t in w.expires && t !in w.at
    ensures Consistent(Append(w, t, b))
  {
    var w' := Append(w, t, b);
    forall c | c in w'.rings
      ensures IsBucket(c) && RingOwned(w', c)
    {
      assert RingOwned(w, c);
      AppendOwned(w, t, b, c);
    }
    forall u | u in w'.at
      ensures IsBucket(w'.at[u]) && u in Ring(w', w'.at[u])
    {
    }
  }

  lemma DetachOwned<T>(w: Wheel<T>, t: T, c: Bucket)
    requires t in w.at && RingOwned(w, w.at[t]) && RingOwned(w, c)
    ensures RingOwned(Detach(w, t), c)
    ensures forall u :: u in Ring(Detach(w, t), c) <==> u in Ring(w, c) && u != t
  {
    var w', b := Detach(w, t), w.at[t];
    if c != b {
      assert Ring(w', c) == Ring(w, c);
      assert t !in Ring(w, c);
    } else {
      assert Ring(w', c) == Without(Ring(w, c), t);
      WithoutNoDup(Ring(w, c), t);
    }
  }

  lemma DetachConsistent<T>(w: Wheel<T>, t: T)
    requires Consistent(w) && t in w.at
    ensures Consistent(Detach(w, t))
  {
    var w', b := Detach(w, t), w.at[t];
    assert RingOwned(w, b);
    forall c | c in w'.rings
      ensures IsBucket(c) && RingOwned(w', c)
    {
      assert RingOwned(w, c);
      DetachOwned(w, t, c);
    }
    forall u | u in w'.at
      ensures IsBucket(w'.at[u]) && u in Ring(w', w'.at[u])
    {
      assert u in w.at && RingOwned(w, w.at[u]);
      DetachOwned(w, t, w.at[u]);
    }
  }

  lemma DrainOwned<T>(w: Wheel<T>, b: Bucket, c: Bucket)
    requires RingOwned(w, b) && RingOwned(w, c)
    ensures RingOwned(Drain(w, b), c)
    ensures c != b ==> Ring(Drain(w, b), c) == Ring(w, c)
  {
    if c != b {
      assert Ring(Drain(w, b), c) == Ring(w, c);
    }
  }

  /** Draining a bucket takes exactly its own timers off the wheel. */
  lemma DrainAt<T>(w: Wheel<T>, b: Bucket)
    requires Consistent(w)
    ensures forall t :: t in Drain(w, b).at <==> t in w.at && w.at[t] != b
    ensures forall t :: t in Drain(w, b).at ==> Drain(w, b).at[t] == w.at[t]
  {
    assert RingOwned(w, b);
  }

  lemma DrainConsistent<T>(w: Wheel<T>, b: Bucket)
    requires Consistent(w) && IsBucket(b)
    ensures Consistent(Drain(w, b))
  {
    var w' := Drain(w, b);
    DrainAt(w, b);
    assert RingOwned(w, b);
    forall c | c in w'.rings
      ensures IsBucket(c) && RingOwned(w', c)
    {
      assert RingOwned(w, c);
      DrainOwned(w, b, c);
    }
    forall u | u in w'.at
      ensures IsBucket(w'.at[u]) && u in Ring(w', w'.at[u])
    {
      DrainOwned(w, b, w.at[u]);
    }
  }

  // ----- cascading and running -----

  /** The timers of `list` can be filed: initialized, each once, and on no list. */
  ghost predicate Fileable<T>(w: Wheel<T>, list: seq<T>) {
    NoDup(list) && forall t :: t in list ==> t in w.expires && t !in w.at
  }

  lemma FileOne<T>(w: Wheel<T>, list: seq<T>)
    requires Consistent(w) && Fileable(w, list) && list != []
    ensures Consistent(InternalAddTimer(w, list[0]))
    ensures Fileable(InternalAddTimer(w, list[0]), list[1..])
  {
    AppendConsistent(w, list[0], BucketFor(w.expires[list[0]], ToU64(w.tick)));
  }

  /** The loop of `cascade` over its private list. */
  ghost function Refile<T>(w: Wheel<T>, list: seq<T>): Wheel<T>
    requires Consistent(w) && Fileable(w, list)
    decreases |list|
  {
    if list == [] then w else
    FileOne(w, list);
    Refile(InternalAddTimer(w, list[0]), list[1..])
  }

  lemma NoElements<T>(list: seq<T>)
    requires list == []
    ensures Elements(list) == {}
  {
  }

  lemma ElementsOfTail<T>(list: seq<T>)
    requires list != []
    ensures Elements(list) == {list[0]} + Elements(list[1..])
    ensures forall t :: t in list <==> t == list[0] || t in list[1..]
  {
    assert list == [list[0]] + list[1..];
  }

  lemma {:induction false} RefileEffect<T>(w: Wheel<T>, list: seq<T>)
    requires Consistent(w) && Fileable(w, list)
    ensures var r := Refile(w, list);
      && Consistent(r)
      && r.tick == w.tick && r.next == w.next && r.expires == w.expires
      && r.at.Keys == w.at.Keys + Elements(list)
      && (forall t :: t in w.at ==> r.at[t] == w.at[t])
      && (forall t :: t in list ==> r.at[t] == BucketFor(w.expires[t], ToU64(w.tick)))
    decreases |list|
  {
    hide Consistent, BucketFor, NoDup, Elements;
    if list == [] {
      assert Elements(list) == {} by { NoElements(list); }
    } else {
      FileOne(w, list);
      var w1 := InternalAddTimer(w, list[0]);
      RefileEffect(w1, list[1..]);
      ElementsOfTail(list);
    }
  }

  lemma DrainFileable<T>(w: Wheel<T>, b: Bucket)
    requires Consistent(w)
    ensures Fileable(Drain(w, b), Ring(w, b))
  {
    DrainAt(w, b);
    assert RingOwned(w, b);
  }

  function CascadedBucket<T>(w: Wheel<T>, t: T, level: int): Bucket
    requires t in w.at && t in w.expires && 2 <= level <= 5
  {
    if w.at[t] == Tv(level, Index(w, level)) then BucketFor(w.expires[t], ToU64(w.tick)) else w.at[t]
  }

  /** `cascade` of the slot that the current tick selects in a level. */
  ghost function Cascade<T>(w: Wheel<T>, level: int): (r: Wheel<T>)
    requires Consistent(w) && 2 <= level <= 5
    ensures Consistent(r)
    ensures r.tick == w.tick && r.next == w.next && r.expires == w.expires
    ensures r.at.Keys == w.at.Keys
    ensures forall t :: t in w.at ==> r.at[t] == CascadedBucket(w, t, level)
  {
    var b := Tv(level, Index(w, level));
    DrainConsistent(w, b);
    DrainAt(w, b);
    assert RingOwned(w, b);
    RefileEffect(Drain(w, b), Ring(w, b));
    Refile(Drain(w, b), Ring(w, b))
  }

  /** The chain of cascades at the start of a tick, with its early stops. */
  ghost function RunCascades<T>(w: Wheel<T>): (r: Wheel<T>)
    requires Consistent(w)
  {
    if Index(w, 1) != 0 then w else
    var w2 := Cascade(w, 2);
    if Index(w, 2) != 0 then w2 else
    var w3 := Cascade(w2, 3);
    if Index(w, 3) != 0 then w3 else
    var w4 := Cascade(w3, 4);
    if Index(w, 4) != 0 then w4 else
    Cascade(w4, 5)
  }

  /** `++timer_jiffies` and the hand-over of the due slot to the empty work list. */
  ghost function TakeDue<T>(w: Wheel<T>): Wheel<T> {
    var b := Tv(1, Index(w, 1));
    var due := Ring(w, b);
    w.(tick := w.tick + 1,
       at := w.at + map t | t in due :: WorkList,
       rings := w.rings[b := []][WorkList := due])
  }

  /** One pass of the outer loop of `__run_timers` up to its inner loop. */
  ghost function StartTick<T>(w: Wheel<T>): Wheel<T>
    requires Consistent(w)
  {
    TakeDue(RunCascades(w))
  }

  /** The first timer of the work list is detached before its function is called. */
  ghost function DetachFirst<T>(w: Wheel<T>): Wheel<T>
    requires Consistent(w) && Ring(w, WorkList) != []
  {
    assert RingOwned(w, WorkList);
    Detach(w, Ring(w, WorkList)[0])
  }

  // ----- the interface, as calls -----

  datatype Call<T> =
    | Add(t: T, expires: U64)         // timer->expires = expires; add_timer(timer)
    | Mod(t: T, expires: U64)         // mod_timer
    | ModPending(t: T, expires: U64)  // mod_timer_pending
    | Del(t: T)                       // del_timer

  /** The call is for an initialized timer and does not run into the `BUG_ON` of `add_timer`. */
  predicate CallOk<T(==)>(w: Wheel<T>, c: Call<T>) {
    c.t in w.expires && (c.Add? ==> c.t !in w.at)
  }

  function Apply<T(==)>(w: Wheel<T>, c: Call<T>): Wheel<T>
    requires CallOk(w, c)
  {
    match c
    case Add(t, e) => AddTimer(SetExpires(w, t, e), t)
    case Mod(t, e) => ModTimer(w, t, e)
    case ModPending(t, e) => ModTimerPending(w, t, e)
    case Del(t) => DelTimer(w, t)
  }

  /** The calls that file their timer anew: all but deletions and those that change nothing. */
  predicate Files<T(==)>(w: Wheel<T>, c: Call<T>)
    requires CallOk(w, c)
  {
    match c
    case Add(_, _) => true
    case Mod(t, e) => !(t in w.at && w.expires[t] == e)
    case ModPending(t, e) => t in w.at
    case Del(_) => false
  }

  /** The deadline by which `c` chooses the bucket: for the `mod` calls, the old one. */
  function FilingDeadline<T(==)>(w: Wheel<T>, c: Call<T>): U64
    requires CallOk(w, c) && Files(w, c)
  {
    if c.Add? then c.expires else w.expires[c.t]
  }

  lemma DetachPendingEffect<T>(w: Wheel<T>, t: T)
    requires t in w.at && t in w.expires
    ensures var r := DetachPending(w, t);
      && r.tick == w.tick && r.expires == w.expires
      && r.at == w.at - {t} && r.rings == Detach(w, t).rings
  {
  }

  lemma FileThenSetEffect<T>(w: Wheel<T>, t: T, expires: U64)
    requires t in w.expires
    ensures var r := FileThenSet(w, t, expires);
      && r.tick == w.tick && r.expires == w.expires[t := expires]
      && r.at == w.at[t := BucketFor(w.expires[t], ToU64(w.tick))]
      && r.rings == InternalAddTimer(w, t).rings
  {
    hide BucketFor, ToU64, TimeBefore;
  }

  /** What a call does to the placement and the deadlines of all timers. */
  lemma ApplyEffect<T>(w: Wheel<T>, c: Call<T>)
    requires CallOk(w, c)
    ensures var r := Apply(w, c);
      && r.tick == w.tick
      && r.expires == (if Files(w, c) then w.expires[c.t := c.expires] else w.expires)
      && r.at == (if Files(w, c) then w.at[c.t := BucketFor(FilingDeadline(w, c), ToU64(w.tick))]
                  else if c.Del? then w.at - {c.t} else w.at)
  {
    hide FileThenSet, DetachPending, BucketFor, ToU64;
    var w1 := if c.Add? then SetExpires(w, c.t, c.expires)
              else if c.t in w.at then DetachPending(w, c.t) else w;
    if c.t in w.at {
      DetachPendingEffect(w, c.t);
      if !c.Del? {
        assert w1.at[c.t := BucketFor(w1.expires[c.t], ToU64(w.tick))]
            == w.at[c.t := BucketFor(w1.expires[c.t], ToU64(w.tick))];
      }
    }
    if Files(w, c) {
      FileThenSetEffect(w1, c.t, c.expires);
    }
  }

  lemma DetachPendingConsistent<T>(w: Wheel<T>, t: T)
    requires Consistent(w) && t in w.at
    ensures Consistent(DetachPending(w, t))
  {
    hide DetachPending;
    DetachConsistent(w, t);
    DetachPendingEffect(w, t);
    SameLists(Detach(w, t), DetachPending(w, t));
  }

  lemma FileThenSetConsistent<T>(w: Wheel<T>, t: T, expires: U64)
    requires Consistent(w) && t in w.expires && t !in w.at
    ensures Consistent(FileThenSet(w, t, expires))
  {
    hide FileThenSet;
    AppendConsistent(w, t, BucketFor(w.expires[t], ToU64(w.tick)));
    FileThenSetEffect(w, t, expires);
    SameLists(InternalAddTimer(w, t), FileThenSet(w, t, expires));
  }

  /** Consistency is about the lists and the set of initialized timers only. */
  lemma SameLists<T>(w: Wheel<T>, w': Wheel<T>)
    requires Consistent(w) && w'.at == w.at && w'.rings == w.rings && w.expires.Keys <= w'.expires.Keys
    ensures Consistent(w')
  {
    forall b | b in w'.rings
      ensures IsBucket(b) && RingOwned(w', b)
    {
      assert RingOwned(w, b);
    }
  }

  /** Every call of the interface keeps the lists consistent. */
  lemma ApplyConsistent<T>(w: Wheel<T>, c: Call<T>)
    requires Consistent(w) && CallOk(w, c)
    ensures Consistent(Apply(w, c))
  {
    if c.Add? {
      SameLists(w, SetExpires(w, c.t, c.expires));
      FileThenSetConsistent(SetExpires(w, c.t, c.expires), c.t, c.expires);
    } else if c.t in w.at {
      DetachPendingConsistent(w, c.t);
      if !c.Del? {
        FileThenSetConsistent(DetachPending(w, c.t), c.t, c.expires);
      }
    } else if c.Mod? {
      FileThenSetConsistent(w, c.t, c.expires);
    }
  }

  // ----- what a call leaves alone -----

  /** Apart from `t`, every list holds the same timers in the same order. */
  ghost predicate SameListsBut<T>(w: Wheel<T>, r: Wheel<T>, t: T) {
    forall b :: Without(Ring(r, b), t) == Without(Ring(w, b), t)
  }

  lemma DetachSpares<T>(w: Wheel<T>, t: T)
    requires Consistent(w) && t in w.at
    ensures SameListsBut(w, Detach(w, t), t)
  {
    hide Consistent;
    forall b
      ensures Without(Ring(Detach(w, t), b), t) == Without(Ring(w, b), t)
    {
      if b == w.at[t] {
        OwnRing(w, t);
        WithoutNoDup(Ring(w, b), t);
        WithoutAbsent(Without(Ring(w, b), t), t);
      }
    }
  }

  lemma OwnRing<T>(w: Wheel<T>, t: T)
    requires Consistent(w)
    ensures t in w.at ==> NoDup(Ring(w, w.at[t]))
    ensures t !in w.at ==> forall b :: t !in Ring(w, b)
  {
    assert forall b :: b in w.rings ==> RingOwned(w, b);
  }

  lemma AppendSpares<T>(w: Wheel<T>, t: T, c: Bucket)
    requires Consistent(w) && t !in w.at
    ensures SameListsBut(w, Append(w, t, c), t)
  {
    hide Consistent;
    OwnRing(w, t);
    forall b
      ensures Without(Ring(Append(w, t, c), b), t) == Without(Ring(w, b), t)
    {
      if b == c {
        WithoutAppended(Ring(w, b), t);
        WithoutAbsent(Ring(w, b), t);
      }
    }
  }

  lemma DetachPendingSpares<T>(w: Wheel<T>, t: T)
    requires Consistent(w) && t in w.at
    ensures t in w.expires && SameListsBut(w, DetachPending(w, t), t)
  {
    InitializedOnly(w);
    DetachPendingEffect(w, t);
    DetachSpares(w, t);
    hide Consistent, DetachPending, Without;
  }

  lemma FileThenSetSpares<T>(w: Wheel<T>, t: T, expires: U64)
    requires Consistent(w) && t in w.expires && t !in w.at
    ensures SameListsBut(w, FileThenSet(w, t, expires), t)
  {
    hide Consistent, FileThenSet, Without, BucketFor;
    FileThenSetEffect(w, t, expires);
    AppendSpares(w, t, BucketFor(w.expires[t], ToU64(w.tick)));
  }

  /** No call disturbs the lists of other timers: only its own timer moves. */
  lemma CallSparesOthers<T>(w: Wheel<T>, c: Call<T>)
    requires Consistent(w) && CallOk(w, c)
    ensures SameListsBut(w, Apply(w, c), c.t)
  {
    hide Consistent, FileThenSet, DetachPending, Without;
    if c.Add? {
      var w1 := SetExpires(w, c.t, c.expires);
      SameLists(w, w1);
      FileThenSetSpares(w1, c.t, c.expires);
    } else if c.t in w.at {
      DetachPendingSpares(w, c.t);
      if !c.Del? {
        DetachPendingConsistent(w, c.t);
        DetachPendingEffect(w, c.t);
        FileThenSetSpares(DetachPending(w, c.t), c.t, c.expires);
      }
    } else if c.Mod? {
      FileThenSetSpares(w, c.t, c.expires);
    }
  }

  lemma DetachRings<T>(w: Wheel<T>, t: T)
    requires Consistent(w)
    ensures t in w.at ==> forall d :: Ring(Detach(w, t), d) == Without(Ring(w, d), t)
    ensures t !in w.at ==> forall d :: Ring(w, d) == Without(Ring(w, d), t)
  {
    OtherRings(w, t);
    hide Consistent;
    forall d | t !in w.at || d != w.at[t]
      ensures Ring(w, d) == Without(Ring(w, d), t)
    {
      WithoutAbsent(Ring(w, d), t);
    }
  }

  lemma OtherRings<T>(w: Wheel<T>, t: T)
    requires Consistent(w)
    ensures forall d :: t !in w.at || d != w.at[t] ==> t !in Ring(w, d)
  {
    assert forall d :: d in w.rings ==> RingOwned(w, d);
  }

  /**
   What a call does to every list: its own timer is taken off the list that holds it and, if
   it is filed, put behind all others on the list of the bucket chosen.
   */
  lemma CallRings<T>(w: Wheel<T>, c: Call<T>)
    requires Consistent(w) && CallOk(w, c)
    ensures Files(w, c) ==>
      var b := BucketFor(FilingDeadline(w, c), ToU64(w.tick));
      && Ring(Apply(w, c), b) == Without(Ring(w, b), c.t) + [c.t]
      && forall d :: d != b ==> Ring(Apply(w, c), d) == Without(Ring(w, d), c.t)
    ensures c.Del? ==> forall d :: Ring(Apply(w, c), d) == Without(Ring(w, d), c.t)
    ensures !Files(w, c) && !c.Del? ==> Apply(w, c) == w
  {
    hide Consistent, FileThenSet, DetachPending, Without, BucketFor, ToU64;
    InitializedOnly(w);
    DetachRings(w, c.t);
    var w1 := if c.Add? then SetExpires(w, c.t, c.expires)
              else if c.t in w.at then DetachPending(w, c.t) else w;
    if c.t in w.at {
      DetachPendingEffect(w, c.t);
      assert forall d :: Ring(w1, d) == Ring(Detach(w, c.t), d);
    }
    assert forall d :: Ring(w1, d) == Without(Ring(w, d), c.t);
    if Files(w, c) {
      FileThenSetEffect(w1, c.t, c.expires);
    }
  }
}
