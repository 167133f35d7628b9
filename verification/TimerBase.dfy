/**
 `struct tvec_base` and the operations of timer.c on it, over linked rings.  Every method
 is proved to follow the function of the same name in `WheelModel`.
 */
module TimerBaseRings {
  import opened Words
  import opened TimerSlots
  import opened Sequences
  import opened ListRing
  import WheelModel
  import WheelRuns
  import WheelTiming
  import WheelService

  /** `n` list heads, each initialized by `INIT_LIST_HEAD`. */
  method NewListHeads(n: nat) returns (vec: seq<Node>)
    ensures |vec| == n && NoDup(vec)
    ensures forall k :: 0 <= k < n ==> fresh(vec[k]) && IsRing(vec[k], [])
  {
    vec := [];
    for j := 0 to n
      invariant |vec| == j && NoDup(vec)
      invariant forall k :: 0 <= k < j ==> fresh(vec[k]) && IsRing(vec[k], [])
    {
      var head := new Node();
      InitListHead(head);
      vec := vec + [head];
    }
  }

  /** The layout of the 129 list heads: tv1, tv2, tv3, tv4, tv5, then the work list. */
  ghost function BucketAt(k: int): Bucket {
    if k < 64 then Tv(1, k) else if k < 128 then Tv((k - 64) / 16 + 2, (k - 64) % 16) else WorkList
  }

  ghost function Position(b: Bucket): (k: int)
    requires IsBucket(b)
    ensures 0 <= k < 129 && BucketAt(k) == b
  {
    if b.WorkList? then 128 else if b.level == 1 then b.slot else 64 + (b.level - 2) * 16 + b.slot
  }

  ghost function HeadMap(vec: seq<Node>): (m: map<Node, Bucket>)
    requires |vec| == 129 && NoDup(vec)
    ensures forall k :: 0 <= k < 129 ==> vec[k] in m && m[vec[k]] == BucketAt(k)
    ensures forall n :: n in m ==> n in vec
  {
    map k | 0 <= k < 129 :: vec[k] := BucketAt(k)
  }

  function HeadIn(tv1: seq<Node>, tv2: seq<Node>, tv3: seq<Node>, tv4: seq<Node>, tv5: seq<Node>,
                  workList: Node, b: Bucket): Node
    requires IsBucket(b)
    requires |tv1| == 64 && |tv2| == |tv3| == |tv4| == |tv5| == 16
  {
    match b
    case WorkList => workList
    case Tv(level, slot) =>
      match level
      case 1 => tv1[slot]
      case 2 => tv2[slot]
      case 3 => tv3[slot]
      case 4 => tv4[slot]
      case _ => tv5[slot]
  }

  lemma HeadPosition(vec: seq<Node>, b: Bucket)
    requires |vec| == 129 && IsBucket(b)
    ensures HeadIn(vec[..64], vec[64..80], vec[80..96], vec[96..112], vec[112..128], vec[128], b) == vec[Position(b)]
  {
  }

  class TimerBase {
    const tv1: seq<Node>
    const tv2: seq<Node>
    const tv3: seq<Node>
    const tv4: seq<Node>
    const tv5: seq<Node>
    const workList: Node
    var timerJiffies: U64
    var nextTimer: U64

    /** The abstract state, and which bucket each list head belongs to. */
    ghost var w: WheelModel.Wheel<Node>
    ghost const heads: map<Node, Bucket>

    /** `init_timers_uki` */
    constructor (jiffies: U64)
      ensures Valid() && fresh(heads.Keys)
      ensures w == WheelModel.Init(jiffies, map[])
      ensures timerJiffies == jiffies && nextTimer == jiffies
    {
      hide HeadIn, IsRing, IsBucket;
      var vec := NewListHeads(129);
      tv1, tv2, tv3, tv4, tv5, workList :=
        vec[..64], vec[64..80], vec[80..96], vec[96..112], vec[112..128], vec[128];
      timerJiffies := jiffies;
      nextTimer := jiffies;
      w := WheelModel.Init(jiffies, map[]);
      heads := HeadMap(vec);
      new;
      forall b | IsBucket(b)
        ensures Head(b) in heads && heads[Head(b)] == b && IsRing(Head(b), [])
      {
        HeadPosition(vec, b);
      }
    }

    ghost predicate Heads() {
      && |tv1| == 64 && |tv2| == |tv3| == |tv4| == |tv5| == 16
      && forall b :: IsBucket(b) ==> Head(b) in heads && heads[Head(b)] == b
    }

    function Head(b: Bucket): Node
      requires IsBucket(b)
      requires |tv1| == 64 && |tv2| == |tv3| == |tv4| == |tv5| == 16
    {
      HeadIn(tv1, tv2, tv3, tv4, tv5, workList, b)
    }

    /** The list heads hang on no timer, and the lists of `v` hang on them. */
    ghost predicate Rings(v: WheelModel.Wheel<Node>)
      requires Heads()
      reads heads.Keys`next, heads.Keys`prev, v.expires.Keys`next, v.expires.Keys`prev
    {
      && heads.Keys !! v.expires.Keys
      && forall b :: IsBucket(b) ==> RingIn(v, b)
    }

    ghost predicate RingIn(v: WheelModel.Wheel<Node>, b: Bucket)
      requires Heads() && IsBucket(b)
      reads heads.Keys`next, heads.Keys`prev, v.expires.Keys`next, v.expires.Keys`prev
    {
      && (forall t :: t in WheelModel.Ring(v, b) ==> t in v.expires)
      && IsRing(Head(b), WheelModel.Ring(v, b))
    }

    /** The fields of the timers, apart from the links of those in `loose`. */
    ghost predicate Timers(v: WheelModel.Wheel<Node>, loose: set<Node>)
      reads v.expires.Keys
    {
      && (forall t :: t in v.expires ==> t.expires == v.expires[t])
      && (forall t :: t in v.expires && t !in loose ==> (t.next == null <==> t !in v.at))
    }

    /**
     The real state represents `w`, but the timers in `loose`, which are on no list of the
     base, may hold stale links.
     */
    ghost predicate ValidBut(loose: set<Node>)
      reads this, heads.Keys, w.expires.Keys
    {
      && Heads()
      && WheelModel.Consistent(w)
      && timerJiffies == ToU64(w.tick) && nextTimer == w.next
      && loose <= w.expires.Keys && loose !! w.at.Keys
      && Rings(w)
      && Timers(w, loose)
    }

    ghost predicate Valid()
      reads this, heads.Keys, w.expires.Keys
    {
      ValidBut({})
    }

    /** `internal_add_timer` */
    method InternalAddTimer(t: Node, ghost loose: set<Node>)
      requires ValidBut(loose) && t in w.expires && t !in w.at && (t in loose || t.next == null)
      modifies this`w, heads.Keys`next, heads.Keys`prev, w.at.Keys`next, w.at.Keys`prev, t`next, t`prev
      ensures ValidBut(loose - {t})
      ensures w == WheelModel.InternalAddTimer(old(w), t)
    {
      var expires := t.expires;
      var idx := ToU64(expires - timerJiffies);
      var vec: Node;
      if idx < 0x40 {
        vec := tv1[SlotOf(expires, 1)];
      } else if idx < 0x400 {
        vec := tv2[SlotOf(expires, 2)];
      } else if idx < 0x4000 {
        vec := tv3[SlotOf(expires, 3)];
      } else if idx < 0x4_0000 {
        vec := tv4[SlotOf(expires, 4)];
      } else if ToS64(idx) < 0 {
        vec := tv1[SlotOf(timerJiffies, 1)];
      } else {
        if idx > 0xffff_ffff {
          idx := 0xffff_ffff;
          expires := ToU64(idx + timerJiffies);
        }
        vec := tv5[SlotOf(expires, 5)];
      }
      ghost var b := BucketFor(t.expires, timerJiffies);
      AppendToRing(t, vec, b, loose);
    }

    method AppendToRing(t: Node, vec: Node, ghost b: Bucket, ghost loose: set<Node>)
      requires ValidBut(loose) && t in w.expires && t !in w.at && (t in loose || t.next == null)
      requires IsBucket(b) && vec == Head(b)
      modifies this`w, heads.Keys`next, heads.Keys`prev, w.at.Keys`next, w.at.Keys`prev, t`next, t`prev
      ensures ValidBut(loose - {t})
      ensures w == WheelModel.Append(old(w), t, b)
    {
      hide WheelModel.Consistent, Rings, Timers;
      ghost var w' := WheelModel.Append(w, t, b);
      WheelModel.AppendConsistent(w, t, b);
      LinkTail(t, vec, b, loose);
      w := w';
    }

    method LinkTail(t: Node, vec: Node, ghost b: Bucket, ghost loose: set<Node>)
      requires Heads() && WheelModel.Consistent(w) && Rings(w) && Timers(w, loose)
      requires t in w.expires && t !in w.at && IsBucket(b) && vec == Head(b)
      modifies heads.Keys`next, heads.Keys`prev, w.at.Keys`next, w.at.Keys`prev, t`next, t`prev
      ensures Rings(WheelModel.Append(w, t, b))
      ensures Timers(WheelModel.Append(w, t, b), loose - {t})
    {
      hide WheelModel.Consistent, IsRing;
      RingApart(w, b);
      LinkAt(t, vec, b);
      assert Timers(WheelModel.Append(w, t, b), loose - {t});
      hide Timers, WheelModel.Ring;
      AppendRings(w, t, b);
      forall c | IsBucket(c)
        ensures RingIn(WheelModel.Append(w, t, b), c)
      {
        assert c != b ==> RingIn(w, c);
      }
    }

    lemma AppendRings(v: WheelModel.Wheel<Node>, t: Node, b: Bucket)
      ensures var v' := WheelModel.Append(v, t, b);
        && v'.expires == v.expires && WheelModel.Ring(v', b) == WheelModel.Ring(v, b) + [t]
        && forall c :: c != b ==> WheelModel.Ring(v', c) == WheelModel.Ring(v, c)
    {
    }

    method LinkAt(t: Node, vec: Node, ghost b: Bucket)
      requires Heads() && WheelModel.Consistent(w) && Rings(w)
      requires t in w.expires && t !in w.at && IsBucket(b) && vec == Head(b)
      modifies heads.Keys`next, heads.Keys`prev, w.at.Keys`next, w.at.Keys`prev, t`next, t`prev
      ensures IsRing(vec, WheelModel.Ring(w, b) + [t])
      ensures forall c :: IsBucket(c) && c != b ==> RingIn(w, c)
      ensures t.next != null
      ensures forall u :: u in w.expires && u !in w.at && u != t ==> u.next == old(u.next)
      ensures forall u :: u in w.at && old(u.next) != null ==> u.next != null
    {
      hide WheelModel.Consistent, IsRing, NoDup;
      ghost var s := WheelModel.Ring(w, b);
      RingApart(w, b);
      assert RingIn(w, b);
      ListAddTail(t, vec, s);
      forall c | IsBucket(c) && c != b
        ensures RingIn(w, c)
      {
        ghost var r := WheelModel.Ring(w, c);
        assert old(RingIn(w, c));
        RingApart(w, c);
        assert Head(c) in heads && Head(b) in heads && Head(c) != Head(b);
        assert Before(vec, s, |s|) !in RingNodes(Head(c), r);
        assert IsRing(Head(c), r);
      }
    }

    /** The timers on a list are pending there and nowhere else. */
    lemma RingApart(v: WheelModel.Wheel<Node>, b: Bucket)
      requires WheelModel.Consistent(v)
      ensures forall u :: u in WheelModel.Ring(v, b) ==> u in v.expires && u in v.at && v.at[u] == b
    {
      assert WheelModel.RingOwned(v, b);
    }

    // ----- detaching -----

    /** `detach_timer` */
    method DetachTimer(t: Node, clearPending: bool)
      requires Valid() && t in w.at
      modifies this`w, heads.Keys`next, heads.Keys`prev, w.at.Keys`next, w.at.Keys`prev
      ensures ValidBut(if clearPending then {} else {t})
      ensures w == WheelModel.Detach(old(w), t)
      ensures t.next == if clearPending then null else old(t.next)
    {
      hide WheelModel.Consistent, Rings, WheelModel.Ring, Without;
      WheelModel.InitializedOnly(w);
      WheelModel.DetachConsistent(w, t);
      ghost var w' := WheelModel.Detach(w, t);
      UnlinkTimer(t, clearPending);
      assert Timers(w', if clearPending then {} else {t});
      hide Timers;
      w := w';
    }

    method UnlinkTimer(t: Node, clearPending: bool)
      requires Heads() && WheelModel.Consistent(w) && Rings(w) && t in w.at
      requires forall u :: u in w.at ==> u.next != null
      modifies heads.Keys`next, heads.Keys`prev, w.at.Keys`next, w.at.Keys`prev
      ensures Rings(WheelModel.Detach(w, t))
      ensures t.next == if clearPending then null else old(t.next)
      ensures forall u :: u in w.expires && u != t ==> (u.next == null <==> old(u.next) == null)
    {
      hide WheelModel.Consistent, IsRing, NoDup, Without;
      ghost var b := w.at[t];
      ghost var k := RingAfterDetach(w, t);
      UnlinkAt(t, clearPending, b, k);
      hide WheelModel.Ring;
      forall c | IsBucket(c)
        ensures RingIn(WheelModel.Detach(w, t), c)
      {
        assert c != b ==> RingIn(w, c);
      }
    }

    lemma RingAfterDetach(v: WheelModel.Wheel<Node>, t: Node) returns (k: nat)
      requires WheelModel.Consistent(v) && t in v.at
      ensures var b, v' := v.at[t], WheelModel.Detach(v, t);
        && IsBucket(b)
        && k < |WheelModel.Ring(v, b)| && WheelModel.Ring(v, b)[k] == t
        && WheelModel.Ring(v', b) == RemoveAt(WheelModel.Ring(v, b), k)
        && (forall c :: c != b ==> WheelModel.Ring(v', c) == WheelModel.Ring(v, c))
        && (forall u :: u in WheelModel.Ring(v, b) ==> u in v.expires)
    {
      var s := WheelModel.Ring(v, v.at[t]);
      assert t in s && WheelModel.RingOwned(v, v.at[t]);
      k :| 0 <= k < |s| && s[k] == t;
      WithoutAt(s, k);
    }

    method UnlinkAt(t: Node, clearPending: bool, ghost b: Bucket, ghost k: nat)
      requires Heads() && WheelModel.Consistent(w) && Rings(w) && IsBucket(b)
      requires k < |WheelModel.Ring(w, b)| && WheelModel.Ring(w, b)[k] == t
      requires forall u :: u in w.at ==> u.next != null
      modifies heads.Keys`next, heads.Keys`prev, w.at.Keys`next, w.at.Keys`prev
      ensures IsRing(Head(b), RemoveAt(WheelModel.Ring(w, b), k))
      ensures forall c :: IsBucket(c) && c != b ==> RingIn(w, c)
      ensures t.next == if clearPending then null else old(t.next)
      ensures forall u :: u in w.expires && u != t ==> (u.next == null <==> old(u.next) == null)
    {
      hide WheelModel.Consistent, IsRing;
      ghost var s := WheelModel.Ring(w, b);
      RingApart(w, b);
      assert RingIn(w, b);
      DetachEntry(t, clearPending, Head(b), s, k);
      forall c | IsBucket(c) && c != b
        ensures RingIn(w, c)
      {
        ghost var r := WheelModel.Ring(w, c);
        assert old(RingIn(w, c));
        RingApart(w, c);
        assert Head(c) in heads && Head(b) in heads && Head(c) != Head(b);
        assert Before(Head(b), s, k) !in RingNodes(Head(c), r);
        assert After(Head(b), s, k) !in RingNodes(Head(c), r);
        assert t in s && t !in RingNodes(Head(c), r);
        assert IsRing(Head(c), r);
      }
    }

    // ----- the interface -----

    /** `init_timer` of a timer not yet known to the base. */
    method InitTimer(t: Node)
      requires Valid() && t !in w.expires && t !in heads
      modifies this`w, t`next
      ensures Valid()
      ensures w == old(w).(expires := old(w).expires[t := t.expires])
      ensures t.expires == old(t.expires)
      ensures w.at.Keys <= w.expires.Keys && old(w).at.Keys <= old(w).expires.Keys
      ensures WheelTiming.AllOnCourse(old(w)) ==> WheelTiming.AllOnCourse(w)
    {
      hide WheelModel.Consistent, Rings, WheelTiming.AllOnCourse;
      InitKeepsCourse(w, t, t.expires);
      ghost var w' := w.(expires := w.expires[t := t.expires]);
      WheelModel.InitializedOnly(w);
      WheelModel.SameLists(w, w');
      t.next := null;
      RingsWithout(t);
      w := w';
    }

    lemma InitKeepsCourse(v: WheelModel.Wheel<Node>, t: Node, expires: U64)
      requires WheelModel.Consistent(v) && t !in v.expires
      ensures v.at.Keys <= v.expires.Keys
      ensures WheelTiming.AllOnCourse(v) ==> WheelTiming.AllOnCourse(v.(expires := v.expires[t := expires]))
    {
      hide *;
      WheelModel.InitializedOnly(v);
      if WheelTiming.AllOnCourse(v) {
        WheelTiming.InitTimerRefines(v, t, expires);
      }
    }

    /** The lists of the base do not involve a timer that it does not know. */
    lemma RingsWithout(t: Node)
      requires Heads() && Rings(w) && t !in w.expires && t !in heads
      ensures Rings(w.(expires := w.expires[t := t.expires]))
    {
      hide IsRing;
      var w' := w.(expires := w.expires[t := t.expires]);
      forall c | IsBucket(c)
        ensures RingIn(w', c)
      {
        assert RingIn(w, c);
        assert WheelModel.Ring(w', c) == WheelModel.Ring(w, c);
      }
    }

    /** `timer_pending` */
    method TimerPending(t: Node) returns (pending: bool)
      requires Valid() && t in w.expires
      ensures pending <==> t in w.at
    {
      pending := t.next != null;
    }

    /** `timer->expires = expires`, by a caller or in `__mod_timer`; no list changes. */
    method SetExpires(t: Node, expires: U64, ghost loose: set<Node>)
      requires ValidBut(loose) && t in w.expires
      modifies this`w, t`expires
      ensures ValidBut(loose) && t.expires == expires
      ensures w == old(w).(expires := old(w).expires[t := expires])
    {
      hide WheelModel.Consistent, Rings;
      ghost var w' := w.(expires := w.expires[t := expires]);
      WheelModel.SameLists(w, w');
      RingsSame(w, w');
      t.expires := expires;
      assert Timers(w', loose);
      hide Timers;
      w := w';
    }

    lemma RingsSame(v: WheelModel.Wheel<Node>, v': WheelModel.Wheel<Node>)
      requires Heads() && Rings(v) && v'.rings == v.rings && v'.expires.Keys == v.expires.Keys
      ensures Rings(v')
    {
      hide IsRing;
      forall c | IsBucket(c)
        ensures RingIn(v', c)
      {
        assert RingIn(v, c);
      }
    }

    /** The detaching of a pending timer in `__mod_timer` and `del_timer`. */
    method DetachPending(t: Node, clearPending: bool)
      requires Valid() && t in w.at
      modifies this`w, this`nextTimer, heads.Keys`next, heads.Keys`prev, w.at.Keys`next, w.at.Keys`prev
      ensures ValidBut(if clearPending then {} else {t})
      ensures t in old(w).expires && w == WheelModel.DetachPending(old(w), t)
    {
      hide WheelModel.Consistent, Rings, WheelModel.Detach;
      WheelModel.InitializedOnly(w);
      ghost var w0 := w;
      WheelModel.DetachPendingConsistent(w, t);
      WheelModel.DetachPendingEffect(w, t);
      DetachTimer(t, clearPending);
      if t.expires == nextTimer {
        nextTimer := timerJiffies;
      }
      NewModel(WheelModel.DetachPending(w0, t), if clearPending then {} else {t});
    }

    /** `w` comes to stand for a state with the same lists, timers and tick. */
    ghost method NewModel(w': WheelModel.Wheel<Node>, loose: set<Node>)
      requires Heads() && Rings(w) && Timers(w, loose) && WheelModel.Consistent(w')
      requires w'.at == w.at && w'.rings == w.rings && w'.expires == w.expires
      requires loose <= w.expires.Keys && loose !! w.at.Keys
      requires timerJiffies == ToU64(w'.tick) && nextTimer == w'.next
      modifies this`w
      ensures ValidBut(loose) && w == w'
    {
      hide WheelModel.Consistent, Rings;
      RingsSame(w, w');
      w := w';
    }

    /** `__mod_timer` past the detaching, in the order in which it is written. */
    method FileThenSet(t: Node, expires: U64, ghost loose: set<Node>)
      requires ValidBut(loose) && t in w.expires && t !in w.at
      requires loose == {t} || (loose == {} && t.next == null)
      modifies this`w, this`nextTimer, heads.Keys`next, heads.Keys`prev
      modifies w.at.Keys`next, w.at.Keys`prev, t`next, t`prev, t`expires
      ensures Valid()
      ensures w == WheelModel.FileThenSet(old(w), t, expires)
    {
      hide WheelModel.Consistent, Rings, Timers, BucketFor;
      WheelModel.FileThenSetConsistent(w, t, expires);
      ghost var w' := WheelModel.FileThenSet(w, t, expires);
      assert loose - {t} == {};
      InternalAddTimer(t, loose);
      SetExpires(t, expires, {});
      if WheelModel.TimeBefore(t.expires, nextTimer) {
        nextTimer := t.expires;
      }
      NewModel(w', {});
    }

    /** `__mod_timer`: returns 1 iff the timer was pending. */
    method ModTimerCommon(t: Node, expires: U64, pendingOnly: bool) returns (ret: int)
      requires Valid() && t in w.expires
      modifies this`w, this`nextTimer, heads.Keys`next, heads.Keys`prev
      modifies w.at.Keys`next, w.at.Keys`prev, t`next, t`prev, t`expires
      ensures Valid()
      ensures w == WheelModel.ModTimerCommon(old(w), t, expires, pendingOnly)
      ensures ret == if t in old(w).at then 1 else 0
    {
      hide WheelModel.Consistent, Rings, Timers, WheelModel.FileThenSet, WheelModel.DetachPending;
      ret := 0;
      var pending := TimerPending(t);
      WheelModel.InitializedOnly(w);
      if pending {
        WheelModel.DetachPendingEffect(w, t);
        DetachPending(t, false);
        ret := 1;
        FileThenSet(t, expires, {t});
      } else if !pendingOnly {
        NotPending(t);
        FileThenSet(t, expires, {});
      }
    }

    lemma NotPending(t: Node)
      requires Valid() && t in w.expires && t !in w.at
      ensures t.next == null
    {
    }

    method ModTimerPending(t: Node, expires: U64) returns (ret: int)
      requires Valid() && t in w.expires
      modifies this`w, this`nextTimer, heads.Keys`next, heads.Keys`prev
      modifies w.at.Keys`next, w.at.Keys`prev, t`next, t`prev, t`expires
      ensures Valid()
      ensures w == WheelModel.ModTimerPending(old(w), t, expires)
      ensures ret == if t in old(w).at then 1 else 0
      ensures ret == 0 ==> w == old(w)
    {
      ret := ModTimerCommon(t, expires, true);
    }

    method ModTimer(t: Node, expires: U64) returns (ret: int)
      requires Valid() && t in w.expires
      modifies this`w, this`nextTimer, heads.Keys`next, heads.Keys`prev
      modifies w.at.Keys`next, w.at.Keys`prev, t`next, t`prev, t`expires
      ensures Valid()
      ensures w == WheelModel.ModTimer(old(w), t, expires)
      ensures ret == if t in old(w).at then 1 else 0
    {
      var pending := TimerPending(t);
      if pending && t.expires == expires {
        return 1;
      }
      ret := ModTimerCommon(t, expires, false);
    }

    /** `add_timer`; `bug` reports that its `BUG_ON` stops the program. */
    method AddTimer(t: Node) returns (bug: bool)
      requires Valid() && t in w.expires
      modifies this`w, this`nextTimer, heads.Keys`next, heads.Keys`prev
      modifies w.at.Keys`next, w.at.Keys`prev, t`next, t`prev, t`expires
      ensures Valid()
      ensures bug <==> t in old(w).at
      ensures w == if bug then old(w) else WheelModel.AddTimer(old(w), t)
    {
      bug := TimerPending(t);
      if !bug {
        var _ := ModTimer(t, t.expires);
      }
    }

    /** `del_timer`: returns 1 iff the timer was pending, and leaves it inactive. */
    method DelTimer(t: Node) returns (ret: int)
      requires Valid() && t in w.expires
      modifies this`w, this`nextTimer, heads.Keys`next, heads.Keys`prev, w.at.Keys`next, w.at.Keys`prev
      ensures Valid()
      ensures w == WheelModel.DelTimer(old(w), t) && t !in w.at
      ensures ret == if t in old(w).at then 1 else 0
    {
      hide WheelModel.Consistent, Rings, Timers, WheelModel.DetachPending;
      ret := 0;
      var pending := TimerPending(t);
      if pending {
        WheelModel.InitializedOnly(w);
        WheelModel.DetachPendingEffect(w, t);
        DetachPending(t, true);
        ret := 1;
      }
    }

    // ----- cascading -----

    /** `list_replace_init` of a bucket into the private head `list`. */
    method DrainTo(vec: Node, list: Node, ghost b: Bucket)
      requires Valid() && IsBucket(b) && vec == Head(b)
      requires list !in heads && list !in w.expires
      modifies this`w, heads.Keys`next, heads.Keys`prev, w.at.Keys`next, w.at.Keys`prev, list`next, list`prev
      ensures ValidBut(WheelModel.Elements(WheelModel.Ring(old(w), b)))
      ensures w == WheelModel.Drain(old(w), b)
      ensures IsRing(list, WheelModel.Ring(old(w), b))
    {
      hide WheelModel.Consistent, IsRing, Rings, WheelModel.Ring;
      ghost var w' := WheelModel.Drain(w, b);
      ghost var loose := WheelModel.Elements(WheelModel.Ring(w, b));
      WheelModel.DrainConsistent(w, b);
      WheelModel.DrainAt(w, b);
      RingApart(w, b);
      UnhookRing(vec, list, b);
      assert Timers(w', loose) && loose <= w'.expires.Keys && loose !! w'.at.Keys;
      hide Timers, WheelModel.Drain, WheelModel.Elements;
      w := w';
    }

    method UnhookRing(vec: Node, list: Node, ghost b: Bucket)
      requires Heads() && WheelModel.Consistent(w) && Rings(w) && IsBucket(b) && vec == Head(b)
      requires list !in heads && list !in w.expires
      requires forall u :: u in w.at ==> u.next != null
      modifies heads.Keys`next, heads.Keys`prev, w.at.Keys`next, w.at.Keys`prev, list`next, list`prev
      ensures Rings(WheelModel.Drain(w, b)) && IsRing(list, WheelModel.Ring(w, b))
      ensures forall u :: u in w.expires ==> (u.next == null <==> old(u.next) == null)
    {
      hide WheelModel.Consistent, IsRing;
      ghost var s := WheelModel.Ring(w, b);
      RingApart(w, b);
      assert RingIn(w, b);
      ListReplaceInit(vec, list, s);
      forall c | IsBucket(c) && c != b
        ensures RingIn(w, c)
      {
        ghost var r := WheelModel.Ring(w, c);
        assert old(RingIn(w, c));
        RingApart(w, c);
        assert Head(c) in heads && Head(b) in heads && Head(c) != Head(b);
        assert Before(vec, s, |s|) !in RingNodes(Head(c), r);
        assert After(vec, s, -1) !in RingNodes(Head(c), r);
        assert IsRing(Head(c), r);
      }
    }

    /** The nodes of `rest` are still linked to each other, in order, and the last to `list`. */
    ghost predicate Unvisited(list: Node, rest: seq<Node>)
      reads rest`next
    {
      list !in rest && forall i :: 0 <= i < |rest| ==> rest[i].next == After(list, rest, i)
    }

    /**
     `cascade`: the safe traversal of the private list, whose nodes are filed elsewhere
     without being unlinked from it.  Each node is visited once, none is lost, and the part
     yet to be visited is never written.
     */
    method Cascade(tv: seq<Node>, index: int, ghost level: int) returns (r: int)
      requires Valid() && 2 <= level <= 5 && index == WheelModel.Index(w, level)
      requires |tv| == 16 && tv[index] == Head(Tv(level, index))
      modifies this`w, heads.Keys`next, heads.Keys`prev, w.expires.Keys`next, w.expires.Keys`prev
      ensures Valid()
      ensures w == WheelModel.Cascade(old(w), level)
      ensures r == index
    {
      hide WheelModel.Consistent, Rings, Timers, IsRing, WheelModel.Ring, WheelModel.Refile;
      ghost var b := Tv(level, index);
      ghost var s := WheelModel.Ring(w, b);
      var list := new Node();
      WheelModel.InitializedOnly(w);
      WheelModel.DrainFileable(w, b);
      DrainTo(tv[index], list, b);
      RingTraversal(list, s);
      RefileAll(list, s);
      r := index;
    }

    method RefileAll(list: Node, ghost s: seq<Node>)
      requires ValidBut(WheelModel.Elements(s)) && WheelModel.Fileable(w, s)
      requires list !in heads && list !in w.expires
      requires list.next == After(list, s, -1) && Unvisited(list, s)
      modifies this`w, heads.Keys`next, heads.Keys`prev, w.expires.Keys`next, w.expires.Keys`prev
      ensures Valid()
      ensures w == WheelModel.Refile(old(w), s)
    {
      hide WheelModel.Consistent, Rings, Timers, WheelModel.InternalAddTimer, BucketFor, Unvisited, WheelModel.Fileable;
      ghost var rest := s;
      var pos := list.next;
      NextUnvisited(list, rest);
      var n := pos.next;
      while pos != list
        invariant pos == After(list, rest, -1) && Unvisited(list, rest) && list.next != null
        invariant rest != [] ==> n == After(list, rest, 0)
        invariant w.expires == old(w.expires)
        invariant ValidBut(WheelModel.Elements(rest)) && WheelModel.Fileable(w, rest)
        invariant WheelModel.Refile(w, rest) == WheelModel.Refile(old(w), s)
        decreases |rest|
      {
        WheelModel.InitializedOnly(w);
        FileFirst(pos, list, rest);
        rest := rest[1..];
        NextUnvisited(list, rest);
        pos := n;
        n := n.next;
      }
      NextUnvisited(list, rest);
      assert WheelModel.Elements(rest) == {};
    }

    lemma NextUnvisited(list: Node, rest: seq<Node>)
      requires Unvisited(list, rest)
      ensures rest != [] ==> After(list, rest, -1) != list && rest[0].next == After(list, rest, 0)
    {
    }

    /** The first timer of `rest` is filed; the links of the others are untouched. */
    method FileFirst(timer: Node, ghost list: Node, ghost rest: seq<Node>)
      requires ValidBut(WheelModel.Elements(rest)) && WheelModel.Fileable(w, rest)
      requires rest != [] && rest[0] == timer && Unvisited(list, rest)
      modifies this`w, heads.Keys`next, heads.Keys`prev, w.at.Keys`next, w.at.Keys`prev, timer`next, timer`prev
      ensures ValidBut(WheelModel.Elements(rest[1..])) && WheelModel.Fileable(w, rest[1..])
      ensures Unvisited(list, rest[1..])
      ensures w.expires == old(w.expires)
      ensures WheelModel.Refile(w, rest[1..]) == WheelModel.Refile(old(w), rest)
    {
      hide WheelModel.Consistent, Rings, Timers, BucketFor, Unvisited, WheelModel.Fileable, WheelModel.Elements;
      HeadsApart(w);
      WheelModel.FileOne(w, rest);
      RestApart(list, rest);
      InternalAddTimer(timer, WheelModel.Elements(rest));
    }

    lemma HeadsApart(v: WheelModel.Wheel<Node>)
      requires Heads() && Rings(v)
      ensures heads.Keys !! v.expires.Keys
    {
    }

    lemma RestApart(list: Node, rest: seq<Node>)
      requires Unvisited(list, rest) && WheelModel.Fileable(w, rest) && rest != []
      ensures Unvisited(list, rest[1..])
      ensures rest[0] in WheelModel.Elements(rest) && rest[0] in w.expires && rest[0] !in w.at
      ensures WheelModel.Elements(rest) - {rest[0]} == WheelModel.Elements(rest[1..])
      ensures forall u :: u in rest[1..] ==> u in w.expires && u !in w.at && u != rest[0]
    {
      assert rest == [rest[0]] + rest[1..];
    }

    lemma RingTraversal(list: Node, s: seq<Node>)
      requires IsRing(list, s)
      ensures list.next == After(list, s, -1) && Unvisited(list, s)
    {
    }

    // ----- running timers -----

    /** The condition of `__run_timers` that cascades level after level. */
    method RunCascades()
      requires Valid()
      modifies this`w, heads.Keys`next, heads.Keys`prev, w.expires.Keys`next, w.expires.Keys`prev
      ensures Valid()
      ensures w == WheelModel.RunCascades(old(w))
    {
      hide WheelModel.Consistent, Rings, Timers, WheelModel.Cascade, SlotOf;
      var index := SlotOf(timerJiffies, 1);
      if index == 0 {
        WheelRuns.CascadeEffect(w, 2);
        index := Cascade(tv2, SlotOf(timerJiffies, 2), 2);
        if index == 0 {
          WheelRuns.CascadeEffect(w, 3);
          index := Cascade(tv3, SlotOf(timerJiffies, 3), 3);
          if index == 0 {
            WheelRuns.CascadeEffect(w, 4);
            index := Cascade(tv4, SlotOf(timerJiffies, 4), 4);
            if index == 0 {
              WheelRuns.CascadeEffect(w, 5);
              index := Cascade(tv5, SlotOf(timerJiffies, 5), 5);
            }
          }
        }
      }
    }

    /** `++timer_jiffies`, and the due slot becomes the work list. */
    method TakeDue()
      requires Valid() && WheelModel.Ring(w, WorkList) == []
      modifies this`w, this`timerJiffies, heads.Keys`next, heads.Keys`prev, w.at.Keys`next, w.at.Keys`prev
      ensures Valid()
      ensures w == WheelModel.TakeDue(old(w))
    {
      hide WheelModel.Consistent, Rings, Timers, WheelModel.Ring, IsRing;
      ghost var w' := WheelModel.TakeDue(w);
      WheelRuns.TakeDueEffect(w);
      var index := SlotOf(timerJiffies, 1);
      timerJiffies := ToU64(timerJiffies + 1);
      NextTick(w.tick);
      HandOver(tv1[index], Tv(1, index));
      w := w';
    }

    lemma NextTick(tick: int)
      ensures ToU64(ToU64(tick) + 1) == ToU64(tick + 1)
    {
    }

    method HandOver(vec: Node, ghost b: Bucket)
      requires Heads() && WheelModel.Consistent(w) && Rings(w) && Timers(w, {}) && InWheel(b) && vec == Head(b)
      requires WheelModel.Ring(w, WorkList) == [] && b == Tv(1, WheelModel.Index(w, 1))
      modifies heads.Keys`next, heads.Keys`prev, w.at.Keys`next, w.at.Keys`prev
      ensures Rings(WheelModel.TakeDue(w)) && Timers(WheelModel.TakeDue(w), {})
    {
      hide WheelModel.Consistent, IsRing;
      WheelModel.InitializedOnly(w);
      WheelRuns.TakeDueAt(w);
      RingApart(w, b);
      MoveRing(vec, b);
      assert Timers(WheelModel.TakeDue(w), {});
      hide Timers;
      TakeDueRings(w, b);
      hide WheelModel.Ring, WheelModel.TakeDue;
      forall c | IsBucket(c)
        ensures RingIn(WheelModel.TakeDue(w), c)
      {
        assert c != b && c != WorkList ==> RingIn(w, c);
      }
    }

    lemma TakeDueRings(v: WheelModel.Wheel<Node>, b: Bucket)
      requires b == Tv(1, WheelModel.Index(v, 1))
      ensures var v' := WheelModel.TakeDue(v);
        && v'.expires == v.expires
        && WheelModel.Ring(v', b) == [] && WheelModel.Ring(v', WorkList) == WheelModel.Ring(v, b)
        && forall c :: c != b && c != WorkList ==> WheelModel.Ring(v', c) == WheelModel.Ring(v, c)
    {
    }

    method MoveRing(vec: Node, ghost b: Bucket)
      requires Heads() && WheelModel.Consistent(w) && Rings(w) && InWheel(b) && vec == Head(b)
      requires forall u :: u in w.at ==> u.next != null
      modifies heads.Keys`next, heads.Keys`prev, w.at.Keys`next, w.at.Keys`prev
      ensures IsRing(vec, []) && IsRing(workList, WheelModel.Ring(w, b))
      ensures forall c :: IsBucket(c) && c != b && c != WorkList ==> RingIn(w, c)
      ensures forall u :: u in w.expires ==> (u.next == null <==> old(u.next) == null)
    {
      hide WheelModel.Consistent, IsRing;
      ghost var s := WheelModel.Ring(w, b);
      RingApart(w, b);
      assert RingIn(w, b) && Head(WorkList) in heads && Head(b) in heads;
      ListReplaceInit(vec, workList, s);
      forall c | IsBucket(c) && c != b && c != WorkList
        ensures RingIn(w, c)
      {
        ghost var r := WheelModel.Ring(w, c);
        assert old(RingIn(w, c));
        RingApart(w, c);
        assert Head(c) in heads && Head(c) != Head(b) && Head(c) != Head(WorkList);
        assert Before(vec, s, |s|) !in RingNodes(Head(c), r);
        assert After(vec, s, -1) !in RingNodes(Head(c), r);
        assert IsRing(Head(c), r);
      }
    }

    method StartTick()
      requires Valid() && WheelModel.Ring(w, WorkList) == []
      modifies this`w, this`timerJiffies, heads.Keys`next, heads.Keys`prev
      modifies w.expires.Keys`next, w.expires.Keys`prev
      ensures Valid()
      ensures w == WheelModel.StartTick(old(w))
    {
      hide WheelModel.Consistent, Rings, Timers, WheelModel.RunCascades;
      WheelRuns.RunCascadesEffect(w);
      WheelRuns.WorkListUntouched(w, WheelModel.RunCascades(w));
      RunCascades();
      WheelModel.InitializedOnly(w);
      TakeDue();
    }

    /** One call of the interface; `bug` reports that a `BUG_ON` stops the program. */
    method Execute(c: WheelModel.Call<Node>) returns (bug: bool)
      requires Valid() && c.t in w.expires
      modifies this`w, this`nextTimer, heads.Keys`next, heads.Keys`prev
      modifies w.expires.Keys`next, w.expires.Keys`prev, w.expires.Keys`expires
      ensures Valid() && w.expires.Keys == old(w).expires.Keys
      ensures bug <==> !WheelModel.CallOk(old(w), c)
      ensures w == if bug then old(w) else WheelModel.Apply(old(w), c)
    {
      hide WheelModel.Consistent, Rings, Timers, WheelModel.ModTimer, WheelModel.DelTimer, WheelModel.ModTimerCommon;
      WheelModel.InitializedOnly(w);
      bug := false;
      if WheelModel.CallOk(w, c) {
        WheelModel.ApplyEffect(w, c);
      }
      match c
      case Add(t, e) =>
        bug := TimerPending(t);
        if !bug {
          SetExpires(t, e, {});
          bug := AddTimer(t);
        }
      case Mod(t, e) =>
        var _ := ModTimer(t, e);
      case ModPending(t, e) =>
        var _ := ModTimerPending(t, e);
      case Del(t) =>
        var _ := DelTimer(t);
    }

    /** The calls that the function of a timer makes, up to the first `BUG_ON`. */
    method ExecuteAll(calls: seq<WheelModel.Call<Node>>) returns (done: nat)
      requires Valid() && forall i :: 0 <= i < |calls| ==> calls[i].t in w.expires
      modifies this`w, this`nextTimer, heads.Keys`next, heads.Keys`prev
      modifies w.expires.Keys`next, w.expires.Keys`prev, w.expires.Keys`expires
      ensures Valid() && w.expires.Keys == old(w).expires.Keys
      ensures done <= |calls| && WheelRuns.CallsOk(old(w), calls[..done])
      ensures w == WheelRuns.ApplyAll(old(w), calls[..done])
      ensures done < |calls| ==> !WheelModel.CallOk(w, calls[done])
    {
      hide WheelModel.Consistent, Rings, Timers, WheelModel.Apply, WheelModel.CallOk;
      done := 0;
      assert calls[..0] == [];
      while done < |calls|
        invariant done <= |calls| && WheelRuns.CallsOk(old(w), calls[..done])
        invariant Valid() && w.expires.Keys == old(w).expires.Keys
        invariant w == WheelRuns.ApplyAll(old(w), calls[..done])
      {
        ghost var w1 := w;
        var bug := Execute(calls[done]);
        if bug {
          return;
        }
        WheelRuns.CallsSnoc(old(w), calls[..done], calls[done]);
        assert calls[..done] + [calls[done]] == calls[..done + 1];
        done := done + 1;
      }
    }

    /** The first timer of the work list is detached and its function called. */
    method RunFirst(calls: seq<WheelModel.Call<Node>>) returns (t: Node, done: nat)
      requires Valid() && WheelModel.Ring(w, WorkList) != []
      requires forall i :: 0 <= i < |calls| ==> calls[i].t in w.expires
      modifies this`w, this`nextTimer, heads.Keys`next, heads.Keys`prev
      modifies w.expires.Keys`next, w.expires.Keys`prev, w.expires.Keys`expires
      ensures Valid() && w.expires.Keys == old(w).expires.Keys && w.tick == old(w).tick
      ensures done <= |calls| && WheelRuns.CanStep(old(w), WheelRuns.Run(t, calls[..done]))
      ensures w == WheelRuns.Step(old(w), WheelRuns.Run(t, calls[..done]))
      ensures done < |calls| ==> !WheelModel.CallOk(w, calls[done])
      ensures |WheelModel.Ring(w, WorkList)| < |WheelModel.Ring(old(w), WorkList)|
    {
      hide WheelModel.Consistent, Rings, Timers, WheelModel.CallOk;
      WheelModel.InitializedOnly(w);
      FirstOnWorkList();
      WheelRuns.DetachFirstEffect(w);
      WheelRuns.DetachFirstConsistent(w);
      t := workList.next;
      DetachTimer(t, true);
      ghost var w1 := w;
      done := ExecuteAll(calls);
      WheelRuns.CallsKeepWorkListShort(w1, calls[..done]);
    }

    lemma FirstOnWorkList()
      requires Valid()
      ensures workList.next == After(workList, WheelModel.Ring(w, WorkList), -1)
    {
      assert RingIn(w, WorkList);
    }

    /** The steps recorded in `run` follow the script and lead from `w0` to the present state. */
    ghost predicate Recorded(w0: WheelModel.Wheel<Node>, run: seq<WheelRuns.Label<Node>>,
                             script: seq<seq<WheelModel.Call<Node>>>)
      requires WheelModel.Consistent(w0)
      reads this`w
    {
      WheelRuns.IsRun(w0, run) && w == WheelRuns.Replay(w0, run) && WheelRuns.FollowsScript(run, script)
    }

    /**
     `__run_timers`, with `jiffies` held fixed.  The function of the `i`th timer run makes the
     calls `script[i]`.  The steps taken are returned as `run`: they are a run of the model,
     and end with `timer_jiffies` just past `jiffies` unless a callback hits a `BUG_ON`.  In
     between, every timer on course has run at its deadline.
     */
    method RunTimers(jiffies: U64, script: seq<seq<WheelModel.Call<Node>>>)
      returns (run: seq<WheelRuns.Label<Node>>, bug: bool)
      requires Valid() && WheelModel.Ring(w, WorkList) == []
      requires forall i, j :: 0 <= i < |script| && 0 <= j < |script[i]| ==> script[i][j].t in w.expires
      modifies this`w, this`nextTimer, this`timerJiffies, heads.Keys`next, heads.Keys`prev
      modifies w.expires.Keys`next, w.expires.Keys`prev, w.expires.Keys`expires
      ensures Valid() && w.expires.Keys == old(w).expires.Keys
      ensures WheelRuns.IsRun(old(w), run) && w == WheelRuns.Replay(old(w), run)
      ensures bug ==> WheelRuns.StoppedByBug(run, script, w) && w.tick <= TimeNear(jiffies, old(w).tick) + 1
      ensures !bug ==> WheelRuns.FollowsScript(run, script) && WheelModel.Ring(w, WorkList) == []
      ensures !bug ==> w.tick == WheelRuns.TickAfter(jiffies, old(w).tick)
      ensures !bug ==> !WheelModel.TimeAfterEq(jiffies, timerJiffies)
      ensures var behind := WheelModel.TimeAfterEq(jiffies, old(timerJiffies));
        !bug ==> timerJiffies == if behind then ToU64(jiffies + 1) else old(timerJiffies)
      ensures !bug ==> var made := WheelRuns.CallbackCalls(run);
        forall i :: 0 <= i < |made| ==> made[i] == if i < |script| then script[i] else []
      ensures !bug ==> WheelService.TimersServed(jiffies, old(w), run, script)
      ensures old(w).at.Keys <= old(w).expires.Keys
      ensures !bug && WheelTiming.AllOnCourse(old(w)) && WheelService.ScriptInDocumentedOrder(script) ==>
        WheelService.AlarmsServed(jiffies, old(w), run)
    {
      hide WheelModel.Consistent, Rings, Timers, WheelModel.Ring, Recorded, TimeNear, WheelModel.TimeAfterEq;
      hide WheelService.TimersServed, WheelService.AlarmsServed, WheelService.ScriptInDocumentedOrder;
      WheelModel.InitializedOnly(w);
      run, bug := [], false;
      ghost var end := TimeNear(jiffies, w.tick);
      Record(w, [], script);
      WheelRuns.StillBehind(jiffies, w.tick);
      while WheelModel.TimeAfterEq(jiffies, timerJiffies)
        invariant Valid() && w.expires.Keys == old(w).expires.Keys
        invariant Recorded(old(w), run, script)
        invariant WheelModel.Ring(w, WorkList) == []
        invariant TimeNear(jiffies, w.tick) == end
        invariant w.tick >= old(w).tick && (w.tick == old(w).tick || w.tick <= end + 1)
        decreases end - w.tick
      {
        WheelRuns.StillBehind(jiffies, w.tick);
        run, bug := RunTick(run, script, old(w));
        if bug {
          return;
        }
        WheelRuns.StillBehind(jiffies, w.tick);
      }
      WheelRuns.StillBehind(jiffies, w.tick);
      AsRecorded(old(w), run, script);
      WheelRuns.TickAfterWord(jiffies, old(w).tick);
      Served(jiffies, old(w), run, script);
    }

    lemma Served(jiffies: U64, w0: WheelModel.Wheel<Node>, run: seq<WheelRuns.Label<Node>>,
                 script: seq<seq<WheelModel.Call<Node>>>)
      requires WheelModel.Consistent(w0) && WheelRuns.IsRun(w0, run) && WheelRuns.FollowsScript(run, script)
      requires WheelModel.Ring(w0, WorkList) == [] && WheelModel.Ring(WheelRuns.Replay(w0, run), WorkList) == []
      requires WheelRuns.Replay(w0, run).tick == WheelRuns.TickAfter(jiffies, w0.tick)
      ensures w0.at.Keys <= w0.expires.Keys && WheelService.TimersServed(jiffies, w0, run, script)
      ensures WheelTiming.AllOnCourse(w0) && WheelService.ScriptInDocumentedOrder(script) ==>
        WheelService.AlarmsServed(jiffies, w0, run)
    {
      hide *;
      WheelModel.InitializedOnly(w0);
      WheelService.RunServesTimers(jiffies, w0, run, script);
      if WheelTiming.AllOnCourse(w0) && WheelService.ScriptInDocumentedOrder(script) {
        WheelService.RunServesAlarms(jiffies, w0, run, script);
      }
    }

    lemma Record(w0: WheelModel.Wheel<Node>, run: seq<WheelRuns.Label<Node>>,
                 script: seq<seq<WheelModel.Call<Node>>>)
      requires WheelModel.Consistent(w0)
      requires WheelRuns.IsRun(w0, run) && w == WheelRuns.Replay(w0, run) && WheelRuns.FollowsScript(run, script)
      ensures Recorded(w0, run, script)
    {
    }

    lemma AsRecorded(w0: WheelModel.Wheel<Node>, run: seq<WheelRuns.Label<Node>>,
                     script: seq<seq<WheelModel.Call<Node>>>)
      requires WheelModel.Consistent(w0) && Recorded(w0, run, script)
      ensures WheelRuns.IsRun(w0, run) && w == WheelRuns.Replay(w0, run) && WheelRuns.FollowsScript(run, script)
    {
    }

    /** One pass of the outer loop: the tick is started and its work list emptied. */
    method RunTick(past: seq<WheelRuns.Label<Node>>, script: seq<seq<WheelModel.Call<Node>>>,
                   ghost w0: WheelModel.Wheel<Node>)
      returns (run: seq<WheelRuns.Label<Node>>, bug: bool)
      requires Valid() && WheelModel.Ring(w, WorkList) == []
      requires forall i, j :: 0 <= i < |script| && 0 <= j < |script[i]| ==> script[i][j].t in w.expires
      requires WheelModel.Consistent(w0) && Recorded(w0, past, script)
      modifies this`w, this`nextTimer, this`timerJiffies, heads.Keys`next, heads.Keys`prev
      modifies w.expires.Keys`next, w.expires.Keys`prev, w.expires.Keys`expires
      ensures Valid() && w.expires.Keys == old(w).expires.Keys && w.tick == old(w).tick + 1
      ensures !bug ==> Recorded(w0, run, script) && WheelModel.Ring(w, WorkList) == []
      ensures bug ==> WheelRuns.IsRun(w0, run) && w == WheelRuns.Replay(w0, run)
      ensures bug ==> WheelRuns.StoppedByBug(run, script, w)
    {
      hide WheelModel.Consistent, Rings, Timers, WheelModel.Ring, Recorded, WheelRuns.CanStep, WheelRuns.Step;
      AsRecorded(w0, past, script);
      WheelRuns.StartSnoc(w0, past, script);
      run, bug := past + [WheelRuns.Start], false;
      StartTick();
      Record(w0, run, script);
      var empty := WorkListEmpty();
      while !empty
        invariant Valid() && w.expires.Keys == old(w).expires.Keys && w.tick == old(w).tick + 1
        invariant Recorded(w0, run, script) && !bug
        invariant empty <==> WheelModel.Ring(w, WorkList) == []
        decreases |WheelModel.Ring(w, WorkList)|
      {
        run, bug := RunNext(run, script, w0);
        if bug {
          return;
        }
        empty := WorkListEmpty();
      }
    }

    /** `list_empty` of the work list. */
    method WorkListEmpty() returns (empty: bool)
      requires Valid()
      ensures empty <==> WheelModel.Ring(w, WorkList) == []
    {
      assert RingIn(w, WorkList);
      empty := ListEmpty(workList, WheelModel.Ring(w, WorkList));
    }

    /** One pass of the inner loop. */
    method RunNext(past: seq<WheelRuns.Label<Node>>, script: seq<seq<WheelModel.Call<Node>>>,
                   ghost w0: WheelModel.Wheel<Node>)
      returns (run: seq<WheelRuns.Label<Node>>, bug: bool)
      requires Valid() && WheelModel.Ring(w, WorkList) != []
      requires forall i, j :: 0 <= i < |script| && 0 <= j < |script[i]| ==> script[i][j].t in w.expires
      requires WheelModel.Consistent(w0) && Recorded(w0, past, script)
      modifies this`w, this`nextTimer, heads.Keys`next, heads.Keys`prev
      modifies w.expires.Keys`next, w.expires.Keys`prev, w.expires.Keys`expires
      ensures Valid() && w.expires.Keys == old(w).expires.Keys && w.tick == old(w).tick
      ensures |WheelModel.Ring(w, WorkList)| < |WheelModel.Ring(old(w), WorkList)|
      ensures WheelRuns.IsRun(w0, run) && w == WheelRuns.Replay(w0, run)
      ensures if bug then WheelRuns.StoppedByBug(run, script, w) else Recorded(w0, run, script)
    {
      hide WheelModel.Consistent, Rings, Timers, WheelModel.Ring, WheelRuns.CanStep, WheelRuns.Step, WheelModel.CallOk,
        WheelRuns.FollowsScript, WheelRuns.CallbackCalls;
      var k := |WheelRuns.CallbackCalls(past)|;
      var calls := if k < |script| then script[k] else [];
      var t, done := RunFirst(calls);
      var l := WheelRuns.Run(t, calls[..done]);
      run, bug := past + [l], done < |calls|;
      WheelRuns.RunSnoc(w0, past, l);
      if bug {
        assert Front(run) == past && Last(run) == l;
      } else {
        assert calls[..done] == calls;
        WheelRuns.FollowsScriptSnoc(past, script, l);
      }
    }
  }
}
