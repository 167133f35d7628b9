/**
 The operations of uki/list.h on parts of lists and on two lists: moving, cutting and
 splicing, for every legal way in which their arguments can coincide.
 */
module ListOps {
  import opened Sequences
  import opened ListRing

  /** `list_del_init` */
  method ListDelInit(entry: Node, ghost head: Node, ghost s: seq<Node>, ghost k: nat)
    requires IsRing(head, s) && k < |s| && s[k] == entry
    modifies Before(head, s, k)`next, After(head, s, k)`prev, entry`next, entry`prev
    ensures IsRing(head, RemoveAt(s, k)) && IsRing(entry, [])
  {
    hide IsRing;
    RingDistinct(head, s, k);
    ListDelEntry(entry, head, s, k);
    InitListHead(entry);
  }

  /** `list_move_tail` within one list or from another list. */
  method ListMoveTail(entry: Node, ghost source: Node, ghost s: seq<Node>, ghost k: nat, head: Node, ghost t: seq<Node>)
    requires IsRing(source, s) && k < |s| && s[k] == entry
    requires IsRing(head, t) && (head == source ==> t == s)
    requires head != source ==> RingNodes(source, s) !! RingNodes(head, t)
    modifies Before(source, s, k)`next, After(source, s, k)`prev, entry`next, entry`prev
    modifies head`prev, head`next, t`next, t`prev
    ensures head == source ==> IsRing(head, RemoveAt(s, k) + [entry])
    ensures head != source ==> IsRing(source, RemoveAt(s, k)) && IsRing(head, t + [entry])
  {
    hide IsRing;
    RingDistinct(source, s, k);
    assert entry in RingNodes(source, s);
    assert Before(source, s, k) in RingNodes(source, s) && After(source, s, k) in RingNodes(source, s);
    ListDelEntry(entry, source, s, k);
    ghost var rest := if head == source then RemoveAt(s, k) else t;
    assert Before(head, rest, |rest|) in RingNodes(head, rest);
    ListAddTail(entry, head, rest);
  }

  /** `list_rotate_left` */
  method ListRotateLeft(head: Node, ghost s: seq<Node>)
    requires IsRing(head, s)
    modifies head`next, head`prev, s`next, s`prev
    ensures IsRing(head, if s == [] then [] else s[1..] + [s[0]])
  {
    var empty := ListEmpty(head, s);
    if !empty {
      ListMoveTail(head.next, head, s, 0, head, s);
      assert RemoveAt(s, 0) == s[1..];
    }
  }

  // ----- sections -----

  /** Consecutive nodes of `c` are linked to each other both ways; the outer links are free. */
  ghost predicate Links(c: seq<Node>)
    reads c`next, c`prev
  {
    forall k :: 0 <= k < |c| - 1 ==> c[k].next == c[k + 1] && c[k + 1].prev == c[k]
  }

  lemma LinksConcat(a: seq<Node>, b: seq<Node>)
    requires a != [] && b != []
    ensures Links(a + b) <==> Links(a) && Links(b) && Last(a).next == b[0] && b[0].prev == Last(a)
  {
    var c := a + b;
    if Links(c) {
      forall k | 0 <= k < |a| - 1
        ensures a[k].next == a[k + 1] && a[k + 1].prev == a[k]
      {
        assert c[k] == a[k] && c[k + 1] == a[k + 1];
      }
      forall k | 0 <= k < |b| - 1
        ensures b[k].next == b[k + 1] && b[k + 1].prev == b[k]
      {
        assert c[|a| + k] == b[k] && c[|a| + k + 1] == b[k + 1];
      }
      assert c[|a| - 1] == Last(a) && c[|a|] == b[0];
    }
  }

  function Loop(head: Node, s: seq<Node>): (c: seq<Node>)
    ensures |c| == |s| + 2 && c[0] == head && c[|s| + 1] == head
    ensures forall k :: 0 <= k < |s| ==> c[k + 1] == s[k]
  {
    [head] + s + [head]
  }

  lemma LoopIsRing(head: Node, s: seq<Node>)
    requires Links(Loop(head, s)) && head !in s && NoDup(s)
    ensures IsRing(head, s)
  {
    hide Loop;
    var c := Loop(head, s);
    assert c[0].next == c[1] && c[1].prev == c[0];
    assert c[|s|].next == c[|s| + 1] && c[|s| + 1].prev == c[|s|];
    forall k | 0 <= k < |s|
      ensures s[k].next == After(head, s, k) && s[k].prev == Before(head, s, k)
    {
      assert c[k + 1].next == c[k + 2] && c[k + 1].prev == c[k];
    }
  }

  lemma RingIsLoop(head: Node, s: seq<Node>)
    requires IsRing(head, s)
    ensures Links(Loop(head, s)) && head !in s && NoDup(s)
  {
    hide Loop;
    var c := Loop(head, s);
    forall k | 0 <= k < |c| - 1
      ensures c[k].next == c[k + 1] && c[k + 1].prev == c[k]
    {
      assert k > 0 ==> s[k - 1].next == After(head, s, k - 1);
      assert k < |s| ==> s[k].prev == Before(head, s, k);
    }
  }

  ghost predicate Joined(a: seq<Node>, b: seq<Node>)
    requires a != [] && b != []
    reads a`next, b`prev
  {
    Last(a).next == b[0] && b[0].prev == Last(a)
  }

  lemma LoopInParts(head: Node, s: seq<Node>, i: nat, j: nat)
    requires i <= j <= |s|
    ensures ([head] + s[..i]) + s[i..j] + (s[j..] + [head]) == Loop(head, s)
  {
    var a, b, c := s[..i], s[i..j], s[j..];
    assert a + b == s[..j];
    assert (a + b) + c == s;
    ConcatRegroup([head], a, b, c);
  }

  lemma ConcatRegroup<T>(h: seq<T>, a: seq<T>, b: seq<T>, c: seq<T>)
    ensures (h + a) + b + (c + h) == h + ((a + b) + c) + h
  {
    assert (h + a) + b == h + (a + b);
  }

  /** The three parts of a ring cut before positions `i` and `j`. */
  lemma RingParts(head: Node, s: seq<Node>, i: nat, j: nat)
    requires i < j <= |s| && IsRing(head, s)
    ensures var a, b, c := [head] + s[..i], s[i..j], s[j..] + [head];
      head !in s && NoDup(s) && Links(a) && Links(b) && Links(c) && Joined(a, b) && Joined(b, c)
  {
    hide IsRing, Links, NoDup, Loop;
    var a, b, c := [head] + s[..i], s[i..j], s[j..] + [head];
    RingIsLoop(head, s);
    LoopInParts(head, s, i, j);
    LinksConcat(a, b);
    LinksConcat(a + b, c);
    assert Last(a + b) == Last(b);
  }

  lemma JoinRing(head: Node, a: seq<Node>, b: seq<Node>, c: seq<Node>, r: seq<Node>)
    requires a != [] && b != [] && c != [] && a + b + c == Loop(head, r)
    requires head !in r && NoDup(r)
    requires Links(a) && Links(b) && Links(c) && Joined(a, b) && Joined(b, c)
    ensures IsRing(head, r)
  {
    LinksConcat(a, b);
    LinksConcat(a + b, c);
    assert Last(a + b) == Last(b);
    LoopIsRing(head, r);
  }

  lemma JoinRing2(head: Node, a: seq<Node>, c: seq<Node>, r: seq<Node>)
    requires a != [] && c != [] && a + c == Loop(head, r)
    requires head !in r && NoDup(r)
    requires Links(a) && Links(c) && Joined(a, c)
    ensures IsRing(head, r)
  {
    LinksConcat(a, c);
    LoopIsRing(head, r);
  }

  lemma ConcatNoDup<T>(a: seq<T>, b: seq<T>)
    requires NoDup(a) && NoDup(b) && forall x :: x in a ==> x !in b
    ensures NoDup(a + b)
  {
    var c := a + b;
    forall i, j | 0 <= i < j < |c|
      ensures c[i] != c[j]
    {
      assert c[i] in a || c[i] in b;
      assert if j < |a| then c[j] == a[j] && c[i] == a[i] else c[j] == b[j - |a|];
    }
  }

  lemma PartsNoDup<T>(s: seq<T>, i: nat, j: nat)
    requires NoDup(s) && i <= j <= |s|
    ensures NoDup(s[i..j]) && NoDup(s[..i] + s[j..])
    ensures forall x :: x in s[i..j] ==> x !in s[..i] + s[j..]
  {
  }

  /** Bypassing a section leaves a ring without it, and the section itself linked as it was. */
  method BypassSection(prev: Node, next: Node, ghost head: Node, ghost s: seq<Node>, ghost i: nat, ghost j: nat)
    requires IsRing(head, s) && i < j <= |s|
    requires prev == Before(head, s, i) && next == After(head, s, j - 1)
    modifies prev`next, next`prev
    ensures IsRing(head, s[..i] + s[j..]) && Links(s[i..j])
  {
    hide IsRing, Links, NoDup, Loop;
    ghost var a, b, c := [head] + s[..i], s[i..j], s[j..] + [head];
    RingParts(head, s, i, j);
    PartsNoDup(s, i, j);
    SectionNoDup(head, s, i, j);
    assert prev == Last(a) && next == c[0];
    LinkAcross(prev, next, a, b, c);
    assert a + c == Loop(head, s[..i] + s[j..]) by { LoopParts(head, s[..i], s[j..]); }
    JoinRing2(head, a, c, s[..i] + s[j..]);
  }

  lemma LoopParts(head: Node, a: seq<Node>, c: seq<Node>)
    ensures ([head] + a) + (c + [head]) == Loop(head, a + c)
  {
  }

  lemma SectionNoDup<T>(head: T, s: seq<T>, i: nat, j: nat)
    requires NoDup(s) && head !in s && i < j <= |s|
    ensures NoDup([head] + s[..i]) && NoDup(s[j..] + [head])
    ensures forall x :: x in s[i..j] ==> x !in [head] + s[..i] && x !in s[j..] + [head]
    ensures forall x :: x in [head] + s[..i] && x in s[j..] + [head] ==> x == head
  {
  }

  /** The two assignments that bypass the section `b` between `a` and `c`. */
  method LinkAcross(prev: Node, next: Node, ghost a: seq<Node>, ghost b: seq<Node>, ghost c: seq<Node>)
    requires a != [] && c != [] && NoDup(a) && NoDup(c) && Last(a) == prev && c[0] == next
    requires Links(a) && Links(b) && Links(c)
    requires forall x :: x in b ==> x !in a && x !in c
    requires Last(c) == a[0] && forall x :: x in a && x in c ==> x == a[0]
    modifies prev`next, next`prev
    ensures Links(a) && Links(b) && Links(c) && Joined(a, c)
  {
    assert prev in a && next in c;
    OnlyAt(a, |a| - 1);
    OnlyAt(a, 0);
    OnlyAt(c, |c| - 1);
    OnlyAt(c, 0);
    hide NoDup;
    prev.next := next;
    next.prev := prev;
  }

  /** Putting a section between the tail and the head, with the assignments in any order. */
  lemma SectionAtTail(head: Node, r: seq<Node>, b: seq<Node>)
    requires Links([head] + r) && Links(b) && b != [] && head !in r + b && NoDup(r + b)
    requires Joined([head] + r, b) && Joined(b, [head])
    ensures IsRing(head, r + b)
  {
    hide IsRing, NoDup, Joined;
    assert ([head] + r) + b + [head] == Loop(head, r + b);
    assert Links([head]);
    JoinRing(head, [head] + r, b, [head], r + b);
  }

  /** The last four assignments of `list_bulk_move_tail`. */
  method AttachSection(head: Node, first: Node, last: Node, ghost r: seq<Node>, ghost b: seq<Node>)
    requires IsRing(head, r) && Links(b) && b != [] && first == b[0] && last == Last(b)
    requires head !in b && NoDup(r + b)
    modifies Before(head, r, |r|)`next, first`prev, last`next, head`prev
    ensures IsRing(head, r + b)
  {
    hide IsRing, Loop;
    RingParts0(head, r);
    ghost var x := [head] + r;
    NoDupParts(r, b);
    ConcatNoDup([head], r);
    assert head.prev == Last(x) && Last(x) in x && first in b && last in b;
    assert forall u :: u in x ==> u !in b;
    OnlyAt(x, |x| - 1);
    OnlyAt(x, 0);
    OnlyAt(b, |b| - 1);
    OnlyAt(b, 0);
    head.prev.next := first;
    first.prev := head.prev;
    last.next := head;
    head.prev := last;
    assert Links(x) && Links(b);
    SectionAtTail(head, r, b);
  }

  lemma NoDupParts<T>(a: seq<T>, b: seq<T>)
    requires NoDup(a + b)
    ensures NoDup(a) && NoDup(b) && forall x :: x in a ==> x !in b
  {
    var c := a + b;
    assert forall i :: 0 <= i < |a| ==> c[i] == a[i];
    assert forall i :: 0 <= i < |b| ==> c[|a| + i] == b[i];
  }

  lemma SectionEnds(head: Node, s: seq<Node>, i: nat, j: nat)
    requires IsRing(head, s) && i < j <= |s|
    ensures s[i].prev == Before(head, s, i) && s[j - 1].next == After(head, s, j - 1)
    ensures head !in s && NoDup(s)
  {
  }

  /** `list_bulk_move_tail`, also for a section at the tail already and for the whole list. */
  method ListBulkMoveTail(head: Node, first: Node, last: Node, ghost s: seq<Node>, ghost i: nat, ghost j: nat)
    requires IsRing(head, s) && i < j <= |s| && s[i] == first && s[j - 1] == last
    modifies head`next, head`prev, s`next, s`prev
    ensures IsRing(head, s[..i] + s[j..] + s[i..j])
  {
    hide IsRing, Links, NoDup;
    ghost var r, b := s[..i] + s[j..], s[i..j];
    SectionEnds(head, s, i, j);
    PartsNoDup(s, i, j);
    ConcatNoDup(r, b);
    BypassSection(first.prev, last.next, head, s, i, j);
    AttachSection(head, first, last, r, b);
  }

  lemma RingParts0(head: Node, r: seq<Node>)
    requires IsRing(head, r)
    ensures Links([head] + r) && head.prev == Last([head] + r)
    ensures Links(r + [head]) && head.next == (r + [head])[0]
    ensures head !in r && NoDup(r)
  {
    RingIsLoop(head, r);
    assert Loop(head, r) == ([head] + r) + [head] == [head] + (r + [head]);
    LinksConcat([head] + r, [head]);
    LinksConcat([head], r + [head]);
  }

  // ----- splicing -----

  lemma RingCut(head: Node, r: seq<Node>, p: nat)
    requires IsRing(head, r) && p <= |r|
    ensures var a, c := [head] + r[..p], r[p..] + [head];
      && Links(a) && Links(c) && Joined(a, c) && NoDup(a) && NoDup(c)
      && Last(a) == Before(head, r, p) && c[0] == After(head, r, p - 1)
      && Last(c) == a[0] && (forall x :: x in a && x in c ==> x == a[0])
  {
    hide Links, IsRing;
    var a, c := [head] + r[..p], r[p..] + [head];
    RingIsLoop(head, r);
    assert Loop(head, r) == a + c;
    LinksConcat(a, c);
    CutNoDup(head, r, p);
  }

  lemma CutNoDup<T>(head: T, r: seq<T>, p: nat)
    requires NoDup(r) && head !in r && p <= |r|
    ensures var a, c := [head] + r[..p], r[p..] + [head];
      NoDup(a) && NoDup(c) && forall x :: x in a && x in c ==> x == head
  {
    assert r == r[..p] + r[p..];
    NoDupParts(r[..p], r[p..]);
    ConcatNoDup([head], r[..p]);
    ConcatNoDup(r[p..], [head]);
  }

  lemma RingBody(list: Node, b: seq<Node>)
    requires IsRing(list, b) && b != []
    ensures Links(b) && NoDup(b) && list.next == b[0] && list.prev == Last(b)
  {
    RingParts(list, b, 0, |b|);
    assert b[0..|b|] == b;
  }

  lemma SplicedNoDup<T>(r: seq<T>, b: seq<T>, p: nat)
    requires NoDup(r + b) && p <= |r|
    ensures NoDup(r[..p] + b + r[p..])
    ensures forall x :: x in r[..p] + b + r[p..] ==> x in r + b
  {
    NoDupParts(r, b);
    PartsNoDup(r, 0, p);
    assert r == r[..p] + r[p..];
    NoDupParts(r[..p], r[p..]);
    ConcatNoDup(r[..p], b);
    ConcatNoDup(r[..p] + b, r[p..]);
  }

  /** `__list_splice`: the nodes of a non-empty list go between two neighbours of another. */
  method ListSpliceBetween(list: Node, prev: Node, next: Node, ghost b: seq<Node>,
                           ghost head: Node, ghost r: seq<Node>, ghost p: nat)
    requires IsRing(list, b) && b != [] && IsRing(head, r) && p <= |r|
    requires prev == Before(head, r, p) && next == After(head, r, p - 1)
    requires head !in b && NoDup(r + b)
    modifies prev`next, next`prev, b`prev, b`next
    ensures IsRing(head, r[..p] + b + r[p..])
  {
    hide IsRing, Loop;
    ghost var a, c := [head] + r[..p], r[p..] + [head];
    RingBody(list, b);
    RingCut(head, r, p);
    RingIsLoop(head, r);
    SplicedNoDup(r, b, p);
    NoDupParts(r, b);
    assert forall x :: x in a || x in c ==> x == head || x in r;
    var first, last := list.next, list.prev;
    Insert(first, last, prev, next, a, b, c);
    JoinSpliced(head, r, b, p);
  }

  lemma JoinSpliced(head: Node, r: seq<Node>, b: seq<Node>, p: nat)
    requires p <= |r| && b != [] && head !in r && head !in b && NoDup(r[..p] + b + r[p..])
    requires var a, c := [head] + r[..p], r[p..] + [head];
      Links(a) && Links(b) && Links(c) && Joined(a, b) && Joined(b, c)
    ensures IsRing(head, r[..p] + b + r[p..])
  {
    hide IsRing, Links, NoDup, Joined;
    var a, c := [head] + r[..p], r[p..] + [head];
    assert a + b + c == Loop(head, r[..p] + b + r[p..]);
    JoinRing(head, a, b, c, r[..p] + b + r[p..]);
  }

  method Insert(first: Node, last: Node, prev: Node, next: Node,
                ghost a: seq<Node>, ghost b: seq<Node>, ghost c: seq<Node>)
    requires a != [] && b != [] && c != [] && NoDup(a) && NoDup(b) && NoDup(c)
    requires Links(a) && Links(b) && Links(c)
    requires Last(a) == prev && c[0] == next && b[0] == first && Last(b) == last
    requires forall x :: x in b ==> x !in a && x !in c
    requires Last(c) == a[0] && forall x :: x in a && x in c ==> x == a[0]
    modifies prev`next, next`prev, first`prev, last`next
    ensures Links(a) && Links(b) && Links(c) && Joined(a, b) && Joined(b, c)
  {
    assert prev in a && next in c && first in b && last in b;
    OnlyAt(a, |a| - 1);
    OnlyAt(a, 0);
    OnlyAt(b, |b| - 1);
    OnlyAt(b, 0);
    OnlyAt(c, |c| - 1);
    OnlyAt(c, 0);
    first.prev := prev;
    prev.next := first;
    last.next := next;
    next.prev := last;
  }

  /** `list_splice` and, with `init`, `list_splice_init`: `list` goes to the front of `head`. */
  method ListSplice(list: Node, head: Node, init: bool, ghost b: seq<Node>, ghost r: seq<Node>)
    requires IsRing(list, b) && IsRing(head, r) && list != head
    requires list !in r && head !in b && NoDup(r + b)
    modifies list`next, list`prev, head`next, head`prev, b`next, b`prev, r`prev
    ensures IsRing(head, b + r) && (init || b == [] ==> IsRing(list, []))
  {
    hide IsRing;
    var empty := ListEmpty(list, b);
    if !empty {
      RingIsLoop(list, b);
      FirstOf(head, r);
      ListSpliceBetween(list, head, head.next, b, head, r, 0);
      assert r[..0] + b + r[0..] == b + r;
      if init {
        InitListHead(list);
      }
    } else {
      assert b + r == r;
    }
  }

  /** `list_splice_tail` and `list_splice_tail_init`: `list` goes to the end of `head`. */
  method ListSpliceTail(list: Node, head: Node, init: bool, ghost b: seq<Node>, ghost r: seq<Node>)
    requires IsRing(list, b) && IsRing(head, r) && list != head
    requires list !in r && head !in b && NoDup(r + b)
    modifies list`next, list`prev, head`next, head`prev, b`next, b`prev, r`next
    ensures IsRing(head, r + b) && (init || b == [] ==> IsRing(list, []))
  {
    hide IsRing, NoDup, Links, Loop;
    var empty := ListEmpty(list, b);
    if !empty {
      RingIsLoop(list, b);
      FirstOf(head, r);
      ListSpliceBetween(list, head.prev, head, b, head, r, |r|);
      assert r[..|r|] + b + r[|r|..] == r + b;
      if init {
        InitListHead(list);
      }
    } else {
      assert r + b == r;
    }
  }

  lemma FirstOf(head: Node, r: seq<Node>)
    requires IsRing(head, r)
    ensures head.next == After(head, r, -1) && head.prev == Before(head, r, |r|)
  {
  }

  // ----- cutting -----

  /** `list_cut_position`: the part up to and including `entry` moves to the unused head `list`. */
  method ListCutPosition(list: Node, head: Node, entry: Node, ghost s: seq<Node>, ghost k: nat)
    requires IsRing(head, s) && list !in RingNodes(head, s)
    requires k <= |s| && entry == Before(head, s, k)
    modifies list`next, list`prev, head`next, head`prev, s`next, s`prev
    ensures s != [] ==> IsRing(list, s[..k]) && IsRing(head, s[k..])
    ensures s == [] ==> IsRing(head, s) && list.next == old(list.next) && list.prev == old(list.prev)
  {
    var empty := ListEmpty(head, s);
    if empty {
      return;
    }
    if head.next == head.prev && head.next != entry && head != entry {
      assert false;
    }
    if entry == head {
      assert k == 0;
      InitListHead(list);
      assert s[0..] == s && s[..0] == [];
    } else {
      CutPosition(list, head, entry, s, k);
    }
  }

  /** `__list_cut_position` */
  method CutPosition(list: Node, head: Node, entry: Node, ghost s: seq<Node>, ghost k: nat)
    requires IsRing(head, s) && list !in RingNodes(head, s)
    requires 0 < k <= |s| && entry == s[k - 1]
    modifies list`next, list`prev, head`next, head`prev, s`next, s`prev
    ensures IsRing(list, s[..k]) && IsRing(head, s[k..])
  {
    hide IsRing;
    RingParts(head, s, 0, k);
    CutParts(list, head, s, k);
    var newFirst := entry.next;
    list.next := head.next;
    list.next.prev := list;
    list.prev := entry;
    entry.next := list;
    head.next := newFirst;
    newFirst.prev := head;
    CutRings(list, head, s, k);
  }

  lemma CutParts(list: Node, head: Node, s: seq<Node>, k: nat)
    requires list !in s && head !in s && NoDup(s) && 0 < k <= |s|
    ensures NoDup(s[..k]) && head !in s[..k] && list !in s[..k]
    ensures NoDup(s[k..]) && head !in s[k..] && list !in s[k..] && NoDup(s[k..] + [head])
    ensures forall x :: x in s[..k] ==> x !in s[k..] + [head]
    ensures s[0..k] == s[..k]
    ensures [head] + s[..0] == [head]
  {
    assert s == s[..k] + s[k..];
    NoDupParts(s[..k], s[k..]);
    ConcatNoDup(s[k..], [head]);
  }

  lemma CutRings(list: Node, head: Node, s: seq<Node>, k: nat)
    requires list !in s && head !in s && NoDup(s) && 0 < k <= |s|
    requires Links(s[..k]) && Links(s[k..] + [head])
    requires list.next == s[0] && s[0].prev == list && list.prev == s[k - 1] && s[k - 1].next == list
    requires head.next == (s[k..] + [head])[0] && (s[k..] + [head])[0].prev == head
    ensures IsRing(list, s[..k]) && IsRing(head, s[k..])
  {
    hide IsRing, NoDup;
    CutParts(list, head, s, k);
    assert Links([list]) && Links([head]);
    assert [list] + s[..k] + [list] == Loop(list, s[..k]);
    JoinRing(list, [list], s[..k], [list], s[..k]);
    assert [head] + (s[k..] + [head]) == Loop(head, s[k..]);
    JoinRing2(head, [head], s[k..] + [head], s[k..]);
  }

  /** `list_cut_before`: the part before `entry` moves to the unused head `list`. */
  method ListCutBefore(list: Node, head: Node, entry: Node, ghost s: seq<Node>, ghost k: nat)
    requires IsRing(head, s) && list !in RingNodes(head, s)
    requires k <= |s| && entry == After(head, s, k - 1)
    modifies list`next, list`prev, head`next, head`prev, s`next, s`prev
    ensures IsRing(list, s[..k]) && IsRing(head, s[k..])
  {
    if head.next == entry {
      assert k == 0;
      InitListHead(list);
      assert s[0..] == s && s[..0] == [];
    } else {
      CutBefore(list, head, entry, s, k);
    }
  }

  method CutBefore(list: Node, head: Node, entry: Node, ghost s: seq<Node>, ghost k: nat)
    requires IsRing(head, s) && list !in RingNodes(head, s)
    requires 0 < k <= |s| && entry == After(head, s, k - 1)
    modifies list`next, list`prev, head`next, head`prev, s`next, s`prev
    ensures IsRing(list, s[..k]) && IsRing(head, s[k..])
  {
    hide IsRing, Loop;
    RingParts(head, s, 0, k);
    CutParts(list, head, s, k);
    list.next := head.next;
    list.next.prev := list;
    list.prev := entry.prev;
    list.prev.next := list;
    head.next := entry;
    entry.prev := head;
    CutRings(list, head, s, k);
  }

  /** Splicing the two parts of a list together. */
  method SpliceBack(list: Node, head: Node, ghost s: seq<Node>, ghost k: nat)
    requires k <= |s| && IsRing(list, s[..k]) && IsRing(head, s[k..])
    requires NoDup(s) && head !in s && list !in RingNodes(head, s)
    modifies list`next, list`prev, head`next, head`prev, s`next, s`prev
    ensures IsRing(head, s) && IsRing(list, [])
  {
    hide IsRing, NoDup;
    ghost var b, r := s[..k], s[k..];
    assert b + r == s;
    NoDupParts(b, r);
    ConcatNoDup(r, b);
    ListSplice(list, head, true, b, r);
  }

  /** Cutting a list after an entry, or before the first, and splicing back restores it. */
  method CutThenSplice(list: Node, head: Node, entry: Node, ghost s: seq<Node>, ghost k: nat)
    requires IsRing(head, s) && list !in RingNodes(head, s) && IsRing(list, [])
    requires k <= |s| && entry == Before(head, s, k)
    modifies list`next, list`prev, head`next, head`prev, s`next, s`prev
    ensures IsRing(head, s) && IsRing(list, [])
  {
    hide IsRing;
    RingIsLoop(head, s);
    assert s == [] ==> s[..k] == [] && s[k..] == [];
    ListCutPosition(list, head, entry, s, k);
    SpliceBack(list, head, s, k);
  }

  /** The same for a cut before an entry, or after the last; `list` need not be a list before. */
  method CutBeforeThenSplice(list: Node, head: Node, entry: Node, ghost s: seq<Node>, ghost k: nat)
    requires IsRing(head, s) && list !in RingNodes(head, s)
    requires k <= |s| && entry == After(head, s, k - 1)
    modifies list`next, list`prev, head`next, head`prev, s`next, s`prev
    ensures IsRing(head, s) && IsRing(list, [])
  {
    hide IsRing;
    RingIsLoop(head, s);
    ListCutBefore(list, head, entry, s, k);
    SpliceBack(list, head, s, k);
  }
}
