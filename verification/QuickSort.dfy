/** Quick sort with a hole that moves between the two ends of the range; element 0 holds the pivot. */
module QuickSort {
  import opened Sorts

  /**
   * The array is `w` but for the hole, whose element is the pivot s[0].
   * Left of `i` nothing exceeds the pivot, right of `j` everything does.
   */
  ghost predicate Parting(a: seq<int>, s: seq<int>, w: seq<int>, start: nat, end: nat, i: nat, j: nat, hole: nat) {
    && 1 <= start <= i <= j <= end < |s| == |w| == |a|
    && (hole == i || hole == j) && s[hole := s[0]] == w
    && PermutedWithin(a, w, start, end + 1)
    && (forall t :: start <= t < i ==> w[t] <= w[0])
    && (forall t :: j < t <= end ==> w[0] < w[t])
  }

  lemma MoveLeft(a: seq<int>, s: seq<int>, w: seq<int>, start: nat, end: nat, i: nat, j: nat) returns (w': seq<int>)
    requires Parting(a, s, w, start, end, i, j, i) && i < j && s[j] <= s[0]
    ensures Parting(a, s[i := s[j]], w', start, end, i + 1, j, j)
  {
    w' := w[i := w[j]][j := w[i]];
    SwapPermutes(a, w, start, end + 1, i, j);
    assert s[i := s[j]][j := s[0]] == w';
  }

  lemma MoveRight(a: seq<int>, s: seq<int>, w: seq<int>, start: nat, end: nat, i: nat, j: nat) returns (w': seq<int>)
    requires Parting(a, s, w, start, end, i, j, j) && i < j && s[0] < s[i]
    ensures Parting(a, s[j := s[i]], w', start, end, i, j - 1, i)
  {
    w' := w[j := w[i]][i := w[j]];
    SwapPermutes(a, w, start, end + 1, j, i);
    assert s[j := s[i]][i := s[0]] == w';
  }

  /** The hole is at `i`: an element from the right end that belongs to the left fills it. */
  method FromRight(s: array<int>, start: nat, end: nat, i: nat, j: nat, ghost a: seq<int>, ghost w: seq<int>)
    returns (i': nat, j': nat, ghost w': seq<int>)
    requires Parting(a, s[..], w, start, end, i, j, i) && i < j
    modifies s
    ensures Parting(a, s[..], w', start, end, i', j', j') && j' - i' < j - i
  {
    i', j', w' := i, j, w;
    while i' < j' && s[0] < s[j']
      invariant Parting(a, s[..], w', start, end, i', j', i') && i' == i && j' <= j
    {
      j' := j' - 1;
    }
    if i' < j' {
      w' := MoveLeft(a, s[..], w', start, end, i', j');
      s[i'] := s[j'];
      i' := i' + 1;
    }
  }

  /** The hole is at `j`: an element from the left end that belongs to the right fills it. */
  method FromLeft(s: array<int>, start: nat, end: nat, i: nat, j: nat, ghost a: seq<int>, ghost w: seq<int>)
    returns (i': nat, j': nat, ghost w': seq<int>)
    requires Parting(a, s[..], w, start, end, i, j, j)
    modifies s
    ensures Parting(a, s[..], w', start, end, i', j', i') && j' - i' <= j - i
  {
    i', j', w' := i, j, w;
    while i' < j' && s[i'] <= s[0]
      invariant Parting(a, s[..], w', start, end, i', j', j') && i <= i' && j' == j
    {
      i' := i' + 1;
    }
    if i' < j' {
      w' := MoveRight(a, s[..], w', start, end, i', j');
      s[j'] := s[i'];
      j' := j' - 1;
    }
  }

  /** The hole ends where the pivot belongs. */
  method Partition(s: array<int>, start: nat, end: nat) returns (p: nat)
    requires 1 <= start <= end < s.Length
    modifies s
    ensures start <= p <= end && s[0] == s[p] == old(s[start])
    ensures PermutedWithin(old(s[..])[0 := old(s[start])], s[..], start, end + 1)
    ensures forall t :: start <= t < p ==> s[t] <= s[p]
    ensures forall t :: p < t <= end ==> s[p] < s[t]
  {
    var i, j := start, end;
    s[0] := s[i];
    ghost var a, w := s[..], s[..];
    while i < j
      invariant Parting(a, s[..], w, start, end, i, j, i)
      decreases j - i
    {
      i, j, w := FromRight(s, start, end, i, j, a, w);
      i, j, w := FromLeft(s, start, end, i, j, a, w);
    }
    s[i] := s[0];
    p := i;
    assert s[..] == w;
  }

  /** Element 0 left aside. */
  lemma TailPermuted(a: seq<int>, b: seq<int>, lo: nat, hi: nat)
    requires 1 <= lo && |a| > 0 && PermutedWithin(a, b, lo, hi)
    ensures PermutedWithin(a[1..], b[1..], lo - 1, hi - 1)
  {
    assert a == [a[0]] + a[1..] && b == [a[0]] + b[1..];
    assert multiset(a[1..]) == multiset(a) - multiset{a[0]};
    assert multiset(b[1..]) == multiset(b) - multiset{a[0]};
  }

  lemma SortedAt(s: seq<int>, lo: nat, hi: nat, i: nat, j: nat)
    requires lo <= i <= j < hi <= |s| && Sorted(s[lo..hi])
    ensures s[i] <= s[j]
  {
    assert s[i] == s[lo..hi][i - lo] && s[j] == s[lo..hi][j - lo];
  }

  lemma SortedAround(c: seq<int>, start: nat, p: nat, end: nat)
    requires start <= p <= end < |c| && Sorted(c[start..p]) && Sorted(c[p + 1..end + 1])
    requires forall t :: start <= t < p ==> c[t] <= c[p]
    requires forall t :: p < t <= end ==> c[p] <= c[t]
    ensures Sorted(c[start..end + 1])
  {
    forall i: nat, j: nat | start <= i < j <= end ensures c[i] <= c[j] {
      if j < p {
        SortedAt(c, start, p, i, j);
      } else if i > p {
        SortedAt(c, p + 1, end + 1, i, j);
      } else {
        assert c[i] <= c[p] <= c[j];
      }
    }
  }

  /** Two sorted ranges on either side of the pivot. */
  lemma Joined(a: seq<int>, b: seq<int>, c: seq<int>, start: nat, p: nat, end: nat)
    requires 1 <= start <= p <= end < |a| == |b| == |c|
    requires forall t :: start <= t < p ==> a[t] <= a[p]
    requires forall t :: p < t <= end ==> a[p] < a[t]
    requires PermutedWithin(a[1..], b[1..], start - 1, p - 1) && Sorted(b[start..p])
    requires PermutedWithin(b[1..], c[1..], p, end) && Sorted(c[p + 1..end + 1])
    ensures Sorted(c[start..end + 1]) && PermutedWithin(a[1..], c[1..], start - 1, end)
  {
    assert forall t :: 1 <= t < |a| ==> a[t] == a[1..][t - 1] && b[t] == b[1..][t - 1] && c[t] == c[1..][t - 1];
    var min := Least(a, start, p);
    var max := Greatest(a, p, end);
    BoundKept(a[1..], b[1..], start - 1, p - 1, min, a[p]);
    BoundKept(b[1..], c[1..], p, end, a[p], max);
    assert c[start..p] == b[start..p];
    SortedAround(c, start, p, end);
  }

  lemma {:induction false} Greatest(s: seq<int>, lo: nat, hi: nat) returns (max: int)
    requires lo <= hi < |s|
    ensures forall t :: lo < t <= hi ==> s[t] <= max
  {
    if lo == hi {
      max := 0;
    } else {
      var m := Greatest(s, lo, hi - 1);
      max := if m > s[hi] then m else s[hi];
    }
  }

  /** From `x` to `y` the range is sorted, a permutation of itself, and all else but element 0 as it was. */
  ghost predicate SortedRange(x: seq<int>, y: seq<int>, start: nat, end: int) {
    && 1 <= start <= end + 1 <= |x| == |y|
    && Sorted(y[start..end + 1]) && PermutedWithin(x[1..], y[1..], start - 1, end)
  }

  lemma RangeOfOne(x: seq<int>, start: nat, end: int)
    requires 1 <= start <= end + 1 <= |x| && end <= start
    ensures SortedRange(x, x, start, end)
  {
  }

  /** `a` is `s` parted at `p`. */
  ghost predicate PartedAt(s: seq<int>, a: seq<int>, start: nat, end: nat, p: nat) {
    && 1 <= start <= p <= end < |s| == |a|
    && PermutedWithin(s[1..], a[1..], start - 1, end)
    && (forall t :: start <= t < p ==> a[t] <= a[p])
    && (forall t :: p < t <= end ==> a[p] < a[t])
  }

  lemma PartsSorted(s: seq<int>, a: seq<int>, b: seq<int>, c: seq<int>, start: nat, end: nat, p: nat)
    requires PartedAt(s, a, start, end, p) && SortedRange(a, b, start, p - 1) && SortedRange(b, c, p + 1, end)
    ensures SortedRange(s, c, start, end)
  {
    Joined(a, b, c, start, p, end);
  }

  method Part(s: array<int>, start: nat, end: nat) returns (p: nat)
    requires 1 <= start <= end < s.Length
    modifies s
    ensures PartedAt(old(s[..]), s[..], start, end, p)
  {
    ghost var before := s[..];
    p := Partition(s, start, end);
    TailPermuted(before[0 := before[start]], s[..], start, end + 1);
    assert before[0 := before[start]][1..] == before[1..];
  }

  /** The recursion, for a range that is not empty. */
  method QuickSortRange(s: array<int>, start: nat, end: nat)
    requires 1 <= start <= end < s.Length
    modifies s
    ensures SortedRange(old(s[..]), s[..], start, end)
    decreases end - start
  {
    ghost var before := s[..];
    var p := Part(s, start, end);
    ghost var a := s[..];
    if start < p {
      QuickSortRange(s, start, p - 1);
    } else {
      RangeOfOne(a, start, p - 1);
    }
    ghost var b := s[..];
    if p < end {
      QuickSortRange(s, p + 1, end);
    } else {
      RangeOfOne(b, p + 1, end);
    }
    PartsSorted(before, a, b, s[..], start, end, p);
  }

  method QuickSort(s: array<int>, start: nat, end: nat)
    requires 1 <= start < s.Length && end < s.Length
    modifies s
    ensures start <= end ==> SortedRange(old(s[..]), s[..], start, end)
    ensures start > end ==> s[..] == old(s[..])[0 := old(s[start])]
  {
    if start <= end {
      QuickSortRange(s, start, end);
    } else {
      // No element: the pivot is read, and put back.
      s[0] := s[start];
      s[start] := s[0];
    }
  }
}
