/**
 The intrusive circular lists of uki/list.h.  A node is a `struct list_head`, together
 with the `expires` field of the `struct timer_list` that embeds it; a node used as a list
 head leaves that field alone.  Every operation is proved against the sequence of nodes on
 the ring, head to tail.
 */
module ListRing {
  import opened Words
  import opened Sequences

  class Node {
    var next: Node?
    var prev: Node?
    var expires: U64

    constructor ()
      ensures next == null && prev == null
    {
      next, prev, expires := null, null, 0;
    }
  }

  /** The node after position `k` of the ring; position -1 is the head. */
  ghost function After(head: Node, s: seq<Node>, k: int): Node
    requires -1 <= k < |s|
  {
    if k + 1 < |s| then s[k + 1] else head
  }

  /** The node before position `k` of the ring; position `|s|` is the head. */
  ghost function Before(head: Node, s: seq<Node>, k: int): Node
    requires 0 <= k <= |s|
  {
    if 0 < k then s[k - 1] else head
  }

  /** The nodes of `s` hang on `head` in this order, linked both ways. */
  ghost predicate IsRing(head: Node, s: seq<Node>)
    reads head`next, head`prev, s`next, s`prev
  {
    && head !in s && NoDup(s)
    && head.next == After(head, s, -1)
    && head.prev == Before(head, s, |s|)
    && (forall k :: 0 <= k < |s| ==> s[k].next == After(head, s, k) && s[k].prev == Before(head, s, k))
  }

  /** Where a ring is closed over position `k`, the rest is a ring. */
  lemma RingClosed(head: Node, s: seq<Node>, k: nat)
    requires head !in s && NoDup(s) && k < |s|
    requires Before(head, s, k).next == After(head, s, k) && After(head, s, k).prev == Before(head, s, k)
    requires |s| > 1 ==> (k > 0 ==> head.next == s[0]) && (k + 1 < |s| ==> head.prev == s[|s| - 1])
    requires forall i :: 0 <= i < |s| && i != k && i + 1 != k ==> s[i].next == After(head, s, i)
    requires forall i :: 0 <= i < |s| && i != k && i != k + 1 ==> s[i].prev == Before(head, s, i)
    ensures IsRing(head, RemoveAt(s, k))
  {
    var r := RemoveAt(s, k);
    RemoveAtNoDup(s, k);
    forall i | 0 <= i < |r|
      ensures r[i].next == After(head, r, i) && r[i].prev == Before(head, r, i)
    {
      if i < k {
        assert s[i].prev == Before(head, s, i);
        assert i + 1 != k ==> s[i].next == After(head, s, i);
      } else {
        assert s[i + 1].next == After(head, s, i + 1);
        assert i > k ==> s[i + 1].prev == Before(head, s, i + 1);
      }
    }
  }

  ghost function RingNodes(head: Node, s: seq<Node>): set<Node> {
    {head} + set x | x in s
  }

  lemma RingDistinct(head: Node, s: seq<Node>, k: nat)
    requires IsRing(head, s) && k < |s|
    ensures s[k] !in RingNodes(head, RemoveAt(s, k)) && s[k] != head
  {
    RemoveAtNoDup(s, k);
  }

  method InitListHead(list: Node)
    modifies list`next, list`prev
    ensures IsRing(list, [])
  {
    list.next := list;
    list.prev := list;
  }

  /** `__list_add` */
  method ListAddBetween(entry: Node, prev: Node, next: Node)
    requires entry != prev && entry != next
    modifies entry`next, entry`prev, prev`next, next`prev
    ensures next.prev == entry && entry.next == next && entry.prev == prev && prev.next == entry
  {
    next.prev := entry;
    entry.next := next;
    entry.prev := prev;
    prev.next := entry;
  }

  method ListAdd(entry: Node, head: Node, ghost s: seq<Node>)
    requires IsRing(head, s) && entry !in RingNodes(head, s)
    modifies entry`next, entry`prev, head`next, After(head, s, -1)`prev
    ensures IsRing(head, [entry] + s)
  {
    ListAddBetween(entry, head, head.next);
  }

  method ListAddTail(entry: Node, head: Node, ghost s: seq<Node>)
    requires IsRing(head, s) && entry !in RingNodes(head, s)
    modifies entry`next, entry`prev, head`prev, Before(head, s, |s|)`next
    ensures IsRing(head, s + [entry])
    ensures entry.next == head && Before(head, s, |s|).next == entry
  {
    ListAddBetween(entry, head.prev, head);
    ghost var r := s + [entry];
    forall k | 0 <= k < |r|
      ensures r[k].next == After(head, r, k) && r[k].prev == Before(head, r, k)
    {
      if k < |s| {
        assert r[k] == s[k];
      }
    }
  }

  /** `__list_del` */
  method ListDelBetween(prev: Node, next: Node)
    modifies prev`next, next`prev
    ensures prev.next == next && next.prev == prev
  {
    next.prev := prev;
    prev.next := next;
  }

  /** `__list_del_entry`: the entry itself keeps its stale links. */
  method ListDelEntry(entry: Node, ghost head: Node, ghost s: seq<Node>, ghost k: nat)
    requires IsRing(head, s) && k < |s| && s[k] == entry
    modifies Before(head, s, k)`next, After(head, s, k)`prev
    ensures IsRing(head, RemoveAt(s, k))
    ensures Before(head, s, k).next == After(head, s, k)
  {
    ListDelBetween(entry.prev, entry.next);
    RingClosed(head, s, k);
  }

  /** `detach_timer` of timer.c; the poison value of `prev` is modelled as null. */
  method DetachEntry(entry: Node, clearPending: bool, ghost head: Node, ghost s: seq<Node>, ghost k: nat)
    requires IsRing(head, s) && k < |s| && s[k] == entry
    modifies Before(head, s, k)`next, After(head, s, k)`prev, entry`next, entry`prev
    ensures IsRing(head, RemoveAt(s, k))
    ensures entry.next == if clearPending then null else old(entry.next)
    ensures Before(head, s, k).next != null
  {
    hide IsRing;
    RingDistinct(head, s, k);
    ListDelEntry(entry, head, s, k);
    if clearPending {
      entry.next := null;
    }
    entry.prev := null;
  }

  /** `list_empty` */
  method ListEmpty(head: Node, ghost s: seq<Node>) returns (empty: bool)
    requires IsRing(head, s)
    ensures empty <==> s == []
  {
    empty := head.next == head;
  }

  /** `list_replace_init`: the whole ring, also an empty one, passes to a new head. */
  method ListReplaceInit(oldHead: Node, newHead: Node, ghost s: seq<Node>)
    requires IsRing(oldHead, s) && newHead !in RingNodes(oldHead, s)
    modifies oldHead`next, oldHead`prev, newHead`next, newHead`prev
    modifies After(oldHead, s, -1)`prev, Before(oldHead, s, |s|)`next
    ensures IsRing(oldHead, []) && IsRing(newHead, s)
    ensures Before(newHead, s, |s|).next == newHead
  {
    ListReplace(oldHead, newHead, s);
    InitListHead(oldHead);
  }

  /** `list_replace` */
  method ListReplace(oldHead: Node, newHead: Node, ghost s: seq<Node>)
    requires IsRing(oldHead, s) && newHead !in RingNodes(oldHead, s)
    modifies oldHead`next, oldHead`prev, newHead`next, newHead`prev
    modifies After(oldHead, s, -1)`prev, Before(oldHead, s, |s|)`next
    ensures IsRing(newHead, s)
    ensures Before(newHead, s, |s|).next == newHead
  {
    newHead.next := oldHead.next;
    newHead.next.prev := newHead;
    newHead.prev := oldHead.prev;
    newHead.prev.next := newHead;
  }
}
