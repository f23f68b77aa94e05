/** Deleting every third node of a ring until one is left. */
module Josephus {

  class Node {
    var next: Node?
    var data: int
  }

  /** `r` is the ring, from one of its nodes on: its nodes form one cycle. */
  ghost predicate IsRing(r: seq<Node>)
    reads r
  {
    && |r| >= 1
    && (forall i, j :: 0 <= i < j < |r| ==> r[i] != r[j])
    && (forall i :: 0 <= i < |r| - 1 ==> r[i].next == r[i + 1])
    && r[|r| - 1].next == r[0]
  }

  ghost predicate Numbered(r: seq<Node>, s: seq<int>)
    reads r
  {
    |r| == |s| && forall i :: 0 <= i < |r| ==> r[i].data == s[i]
  }

  /** The third of at least two is out; counting goes on after it, round the ring. */
  function NextRing<T>(s: seq<T>): (t: seq<T>)
    requires |s| >= 2
    ensures |t| == |s| - 1
  {
    if |s| == 2 then [s[1]] else s[3..] + s[..2]
  }

  function Survivor(s: seq<int>): int
    requires |s| >= 1
    decreases |s|
  {
    if |s| == 1 then s[0] else Survivor(NextRing(s))
  }

  /** Where the survivor stands. */
  function J(n: nat): (j: nat)
    requires n >= 1
    ensures j < n
  {
    if n == 1 then 0 else (J(n - 1) + 3) % n
  }

  /** Of five, of seven and of ten the fourth is left. */
  lemma KnownRings()
    ensures J(5) == 3 && J(7) == 3 && J(10) == 3
  {
    assert J(4) == 0;
    assert J(6) == 0;
    assert J(8) == 6;
  }

  /** Where the place `j` of the next ring was before. */
  function Before(n: nat, j: nat): (k: nat)
    requires n >= 2 && j < n - 1
    ensures k < n && k == (j + 3) % n
  {
    NextPlace(n, j);
    if n == 2 then 1 else if j + 3 < n then j + 3 else j + 3 - n
  }

  lemma NextPlace(n: nat, j: nat)
    requires n >= 2 && j < n - 1
    ensures (j + 3) % n == if n == 2 then 1 else if j + 3 < n then j + 3 else j + 3 - n
  {
  }

  lemma NextRingAt<T>(s: seq<T>, j: nat)
    requires |s| >= 2 && j < |s| - 1
    ensures NextRing(s)[j] == s[Before(|s|, j)]
  {
  }

  lemma {:induction false} SurvivorStands(s: seq<int>)
    requires |s| >= 1
    ensures Survivor(s) == s[J(|s|)]
    decreases |s|
  {
    if |s| > 1 {
      SurvivorStands(NextRing(s));
      NextRingAt(s, J(|s| - 1));
    }
  }

  function Upto(n: nat): (s: seq<int>)
    ensures |s| == n && forall i :: 0 <= i < n ==> s[i] == i
  {
    seq(n, i => i)
  }

  /** The ring of the first n nodes of the array, where n is N, or 1 for less. */
  method Build(a: array<Node>, N: int, ghost n: nat)
    requires a.Length == 1000 && N <= 1000 && n == (if N < 1 then 1 else N)
    requires forall i, j :: 0 <= i < j < a.Length ==> a[i] != a[j]
    modifies a[..]
    ensures IsRing(a[..n]) && Numbered(a[..n], Upto(n))
  {
    var i: nat := 0;
    while i < N - 1
      invariant i < n
      invariant forall k :: 0 <= k < i ==> a[k].next == a[k + 1] && a[k].data == k
    {
      a[i].data := i;
      a[i].next := a[i + 1];
      i := i + 1;
    }
    a[i].data := i;
    a[i].next := a[0];
  }

  /** One deletion, for a ring of more than one node. */
  method Delete(p: Node, ghost r: seq<Node>, ghost s: seq<int>)
    returns (p': Node, ghost r': seq<Node>, ghost s': seq<int>)
    requires IsRing(r) && |r| >= 2 && p == r[0] && Numbered(r, s)
    modifies r
    ensures r' == NextRing(r) && IsRing(r') && p' == r'[0]
    ensures s' == NextRing(s) && Numbered(r', s')
  {
    assert r[0].next == r[1];
    assert r[1].next == if |r| == 2 then r[0] else r[2];
    assert |r| >= 3 ==> r[2].next == if |r| == 3 then r[0] else r[3];
    p.next.next := p.next.next.next;
    p' := p.next.next;
    r', s' := NextRing(r), NextRing(s);
  }

  ghost predicate Within(r: seq<Node>, all: seq<Node>) {
    forall i :: 0 <= i < |r| ==> r[i] in all
  }

  /** The live nodes form the ring `r` from `p` on, and the survivor among them is `last`. */
  ghost predicate Alive(p: Node, r: seq<Node>, s: seq<int>, last: int)
    reads r
  {
    IsRing(r) && p == r[0] && Numbered(r, s) && Survivor(s) == last
  }

  lemma OneLeft(p: Node, r: seq<Node>, s: seq<int>, last: int)
    requires Alive(p, r, s, last)
    ensures p == p.next <==> |r| == 1
    ensures |r| == 1 ==> p.data == last
  {
    assert |r| > 1 ==> r[0].next == r[1];
  }

  method Turn(p: Node, ghost r: seq<Node>, ghost s: seq<int>, ghost last: int, ghost all: seq<Node>)
      returns (p': Node, ghost r': seq<Node>, ghost s': seq<int>)
    requires Alive(p, r, s, last) && |r| >= 2 && Within(r, all)
    modifies r
    ensures Alive(p', r', s', last) && |r'| == |r| - 1 && Within(r', all)
  {
    p', r', s' := Delete(p, r, s);
    forall i | 0 <= i < |r'| ensures r'[i] in all {
      NextRingAt(r, i);
    }
  }

  /** The loop of the program, on any ring. */
  method LastOf(p0: Node, ghost r0: seq<Node>, ghost s0: seq<int>) returns (last: int)
    requires IsRing(r0) && p0 == r0[0] && Numbered(r0, s0)
    modifies r0
    ensures last == Survivor(s0)
  {
    var p := p0;
    ghost var r, s := r0, s0;
    OneLeft(p, r, s, Survivor(s0));
    while p != p.next
      invariant Alive(p, r, s, Survivor(s0)) && Within(r, r0) && (p == p.next <==> |r| == 1)
      decreases |r|
    {
      p, r, s := Turn(p, r, s, Survivor(s0), r0);
      OneLeft(p, r, s, Survivor(s0));
    }
    OneLeft(p, r, s, Survivor(s0));
    last := p.data;
  }

  method Josephus(a: array<Node>, N: int) returns (last: int)
    requires a.Length == 1000 && N <= 1000
    requires forall i, j :: 0 <= i < j < a.Length ==> a[i] != a[j]
    modifies a[..]
    ensures var n := if N < 1 then 1 else N; last == Survivor(Upto(n)) == J(n)
  {
    ghost var n := if N < 1 then 1 else N;
    Build(a, N, n);
    last := LastOf(a[0], a[..n], Upto(n));
    SurvivorStands(Upto(n));
  }
}
