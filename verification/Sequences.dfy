/** Duplicate-free sequences: the contents of a ring, as the list operations see them. */
module Sequences {

  ghost predicate NoDup<T>(s: seq<T>) {
    forall i, j :: 0 <= i < j < |s| ==> s[i] != s[j]
  }

  function Last<T>(s: seq<T>): T
    requires s != []
  {
    s[|s| - 1]
  }

  function Front<T>(s: seq<T>): seq<T>
    requires s != []
  {
    s[..|s| - 1]
  }

  lemma FirstIsElement<T>(s: seq<T>)
    ensures s == [] || s[0] in s
  {
  }

  function RemoveAt<T>(s: seq<T>, k: nat): (r: seq<T>)
    requires k < |s|
    ensures |r| == |s| - 1
    ensures forall i :: 0 <= i < k ==> r[i] == s[i]
    ensures forall i :: k <= i < |r| ==> r[i] == s[i + 1]
  {
    s[..k] + s[k + 1..]
  }

  lemma RemoveAtNoDup<T>(s: seq<T>, k: nat)
    requires NoDup(s) && k < |s|
    ensures NoDup(RemoveAt(s, k)) && s[k] !in RemoveAt(s, k)
  {
  }

  lemma OnlyAt<T>(s: seq<T>, k: nat)
    requires NoDup(s) && k < |s|
    ensures forall i :: 0 <= i < |s| && i != k ==> s[i] != s[k]
  {
  }

  /** `s` without its first `x`. */
  function Without<T(==)>(s: seq<T>, x: T): seq<T> {
    if s == [] then [] else if s[0] == x then s[1..] else [s[0]] + Without(s[1..], x)
  }

  lemma RemoveAtTail<T>(s: seq<T>, k: nat)
    requires 0 < k < |s|
    ensures RemoveAt(s, k) == [s[0]] + RemoveAt(s[1..], k - 1)
  {
    hide RemoveAt;
  }

  lemma TailNoDup<T>(s: seq<T>)
    requires NoDup(s) && s != []
    ensures NoDup(s[1..]) && s[0] !in s[1..]
  {
  }

  lemma {:induction false} WithoutAt<T>(s: seq<T>, k: nat)
    requires NoDup(s) && k < |s|
    ensures Without(s, s[k]) == RemoveAt(s, k)
  {
    if k > 0 {
      hide NoDup, RemoveAt;
      TailNoDup(s);
      assert s[k] == s[1..][k - 1];
      RemoveAtTail(s, k);
      WithoutAt(s[1..], k - 1);
    }
  }

  lemma RemoveAtMembers<T>(s: seq<T>, k: nat)
    requires NoDup(s) && k < |s|
    ensures forall y :: y in RemoveAt(s, k) <==> y in s && y != s[k]
  {
    hide RemoveAt;
    var r := RemoveAt(s, k);
    forall y | y in s && y != s[k]
      ensures y in r
    {
      var i :| 0 <= i < |s| && s[i] == y;
      assert y == if i < k then r[i] else r[i - 1];
    }
  }

  lemma WithoutNoDup<T>(s: seq<T>, x: T)
    requires NoDup(s)
    ensures NoDup(Without(s, x)) && x !in Without(s, x)
    ensures forall y :: y in Without(s, x) <==> y in s && y != x
    ensures |Without(s, x)| == if x in s then |s| - 1 else |s|
  {
    if x in s {
      var k :| 0 <= k < |s| && s[k] == x;
      WithoutAt(s, k);
      RemoveAtNoDup(s, k);
      RemoveAtMembers(s, k);
      hide NoDup, Without, RemoveAt;
    } else {
      WithoutAbsent(s, x);
    }
  }

  lemma {:induction false} WithoutAbsent<T>(s: seq<T>, x: T)
    requires x !in s
    ensures Without(s, x) == s
  {
    if s != [] {
      WithoutAbsent(s[1..], x);
    }
  }

  lemma {:induction false} WithoutAppended<T>(s: seq<T>, x: T)
    requires x !in s
    ensures Without(s + [x], x) == s
  {
    if s != [] {
      assert (s + [x])[1..] == s[1..] + [x];
      WithoutAppended(s[1..], x);
    }
  }

  /** `a` stands before `b` in `s`. */
  ghost predicate Precedes<T>(s: seq<T>, a: T, b: T) {
    exists i, j :: 0 <= i < j < |s| && s[i] == a && s[j] == b
  }

  lemma RemoveAtPrecedes<T>(s: seq<T>, k: nat, i: nat, j: nat)
    requires i < j < |s| && k < |s| && i != k && j != k
    ensures Precedes(RemoveAt(s, k), s[i], s[j])
  {
    var r := RemoveAt(s, k);
    var i', j' := if i < k then i else i - 1, if j < k then j else j - 1;
    assert r[i'] == s[i] && r[j'] == s[j];
  }

  lemma WithoutPrecedesAt<T>(s: seq<T>, x: T, i: nat, j: nat)
    requires NoDup(s) && i < j < |s| && s[i] != x && s[j] != x
    ensures Precedes(Without(s, x), s[i], s[j])
  {
    if x in s {
      var k :| 0 <= k < |s| && s[k] == x;
      WithoutAt(s, k);
      RemoveAtPrecedes(s, k, i, j);
    } else {
      WithoutAbsent(s, x);
    }
    hide Precedes;
  }

  lemma WithoutPrecedes<T>(s: seq<T>, x: T, a: T, b: T)
    requires NoDup(s) && Precedes(s, a, b) && x != a && x != b
    ensures Precedes(Without(s, x), a, b)
  {
    var i, j :| 0 <= i < j < |s| && s[i] == a && s[j] == b;
    WithoutPrecedesAt(s, x, i, j);
    hide Without, Precedes;
  }

  lemma AppendPrecedes<T>(s: seq<T>, t: seq<T>, a: T, b: T)
    requires Precedes(s, a, b) || (a in s && b in t)
    ensures Precedes(s + t, a, b)
  {
    var u := s + t;
    if Precedes(s, a, b) {
      var i, j :| 0 <= i < j < |s| && s[i] == a && s[j] == b;
      assert u[i] == a && u[j] == b;
    } else {
      var i :| 0 <= i < |s| && s[i] == a;
      var j :| 0 <= j < |t| && t[j] == b;
      assert u[i] == a && u[|s| + j] == b;
    }
  }
}
