/** Heap sort of the elements 1 to n, with a sift that moves a hole down the heap. */
module HeapSort {
  import opened Sorts

  predicate Child(p: int, c: int) {
    c == 2 * p || c == 2 * p + 1
  }

  /** From `low` on, no element up to `high` is above its parent. */
  ghost predicate Heap(s: seq<int>, low: nat, high: nat) {
    high < |s| && forall p, c :: low <= p && Child(p, c) && c <= high ==> s[c] <= s[p]
  }

  /** A heap but for position `i`, whose children do not exceed its parent. */
  ghost predicate HeapBut(w: seq<int>, low: nat, high: nat, i: nat) {
    && 1 <= low <= i <= high < |w|
    && (forall p, c :: low <= p != i && Child(p, c) && c <= high ==> w[c] <= w[p])
    && (forall p, c :: low <= p && Child(p, i) && Child(i, c) && c <= high ==> w[c] <= w[p])
  }

  /**
   * The array is `w` but for the hole `i`, whose element is in `tmp`; `w` has the elements of `a`, moved within
   * low..high.
   */
  ghost predicate Sifting(a: seq<int>, s: seq<int>, w: seq<int>, low: nat, high: nat, i: nat, tmp: int) {
    && HeapBut(w, low, high, i) && |w| == |s| == |a|
    && s[i := tmp] == w
    && PermutedWithin(a, w, low, high + 1)
  }

  lemma HoleDown(w: seq<int>, w': seq<int>, low: nat, high: nat, i: nat, j: nat)
    requires HeapBut(w, low, high, i) && Child(i, j) && j <= high && w[i] < w[j]
    requires forall c :: Child(i, c) && c <= high ==> w[c] <= w[j]
    requires |w'| == |w| && w'[i] == w[j] && w'[j] == w[i]
    requires forall t :: 0 <= t < |w| && t != i && t != j ==> w'[t] == w[t]
    ensures HeapBut(w', low, high, j)
  {
  }

  lemma SiftDown(a: seq<int>, s: seq<int>, w: seq<int>, low: nat, high: nat, i: nat, tmp: int, j: nat)
    returns (w': seq<int>)
    requires Sifting(a, s, w, low, high, i, tmp)
    requires Child(i, j) && j <= high && tmp < s[j] && forall c :: Child(i, c) && c <= high ==> s[c] <= s[j]
    ensures Sifting(a, s[i := s[j]], w', low, high, j, tmp)
  {
    w' := w[i := w[j]][j := w[i]];
    assert w[i] == tmp && forall t :: 0 <= t < |w| && t != i ==> w[t] == s[t];
    HoleDown(w, w', low, high, i, j);
    assert s[i := s[j]][j := tmp] == w';
    SwapPermutes(a, w, low, high + 1, i, j);
  }

  lemma SiftEnd(a: seq<int>, s: seq<int>, w: seq<int>, low: nat, high: nat, i: nat, tmp: int)
    requires Sifting(a, s, w, low, high, i, tmp) && forall c :: Child(i, c) && c <= high ==> s[c] <= tmp
    ensures Heap(s[i := tmp], low, high)
  {
  }

  /** The child with the larger element, of the two or the one there is. */
  method LargerChild(r: array<int>, i: nat, j: nat, high: nat) returns (k: nat)
    requires j == 2 * i <= high < r.Length
    ensures Child(i, k) && k <= high && forall c :: Child(i, c) && c <= high ==> r[c] <= r[k]
  {
    k := j;
    if k < high && r[k] < r[k + 1] {
      k := k + 1;
    }
  }

  /** Position `low` finds its place in the heap below it. */
  method Sift(r: array<int>, low: nat, high: nat)
    requires 1 <= low <= high < r.Length
    requires Heap(r[..], low + 1, high)
    modifies r
    ensures Heap(r[..], low, high) && PermutedWithin(old(r[..]), r[..], low, high + 1)
  {
    var i, j := low, 2 * low;
    var tmp := r[i];
    ghost var a, w := r[..], r[..];
    while j <= high
      invariant Sifting(a, r[..], w, low, high, i, tmp) && j == 2 * i
      decreases high - i
    {
      j := LargerChild(r, i, j, high);
      if tmp < r[j] {
        w := SiftDown(a, r[..], w, low, high, i, tmp, j);
        r[i] := r[j];
        i := j;
        j := 2 * i;
      } else {
        break;
      }
    }
    SiftEnd(a, r[..], w, low, high, i, tmp);
    r[i] := tmp;
  }

  lemma {:induction false} RootIsMax(s: seq<int>, high: nat, k: nat)
    requires Heap(s, 1, high) && 1 <= k <= high
    ensures s[k] <= s[1]
  {
    if k > 1 {
      assert Child(k / 2, k);
      RootIsMax(s, high, k / 2);
    }
  }

  /** Elements 1 to i are a heap, and those after it are sorted and not below them. */
  ghost predicate Selecting(s: seq<int>, i: nat, n: nat) {
    && i <= n < |s| && Heap(s, 1, i) && Sorted(s[i + 1..n + 1])
    && forall t, u :: 1 <= t <= i < u <= n ==> s[t] <= s[u]
  }

  /** What bounds the first elements bounds them in another order. */
  lemma BelowKept(s1: seq<int>, s2: seq<int>, i: nat, max: int)
    requires 1 <= i <= |s1| && PermutedWithin(s1, s2, 1, i) && forall t :: 1 <= t < i ==> s1[t] <= max
    ensures forall t :: 1 <= t < i ==> s2[t] <= max
  {
    var min := Least(s1, 1, i);
    BoundKept(s1, s2, 1, i, min, max);
  }

  lemma SelectPermutes(s: seq<int>, s1: seq<int>, s2: seq<int>, i: nat, n: nat)
    requires 2 <= i <= n < |s| && s1 == s[1 := s[i]][i := s[1]] && PermutedWithin(s1, s2, 1, i)
    ensures PermutedWithin(s, s2, 1, n + 1)
  {
    SwapPermutes(s, s, 1, n + 1, 1, i);
  }

  lemma SelectTail(s: seq<int>, s1: seq<int>, s2: seq<int>, i: nat, n: nat)
    requires 2 <= i <= n < |s| && s1 == s[1 := s[i]][i := s[1]] && PermutedWithin(s1, s2, 1, i)
    ensures s2[i..n + 1] == [s[1]] + s[i + 1..n + 1]
  {
    var u := [s[1]] + s[i + 1..n + 1];
    forall k | 0 <= k < |u| ensures s2[i..n + 1][k] == u[k] {
      assert s2[i + k] == s1[i + k];
    }
  }

  lemma SelectStep(s: seq<int>, s1: seq<int>, s2: seq<int>, i: nat, n: nat)
    requires Selecting(s, i, n) && 2 <= i && s1 == s[1 := s[i]][i := s[1]]
    requires Heap(s2, 1, i - 1) && PermutedWithin(s1, s2, 1, i)
    ensures Selecting(s2, i - 1, n) && PermutedWithin(s, s2, 1, n + 1)
  {
    SelectPermutes(s, s1, s2, i, n);
    SelectTail(s, s1, s2, i, n);
    forall t | 1 <= t <= i ensures s[t] <= s[1] {
      RootIsMax(s, i, t);
    }
    forall u | i <= u <= n ensures forall t :: 1 <= t < i ==> s2[t] <= s2[u] {
      BelowKept(s1, s2, i, s2[u]);
    }
  }

  method BuildHeap(r: array<int>, n: nat)
    requires n < r.Length
    modifies r
    ensures Heap(r[..], 1, n) && PermutedWithin(old(r[..]), r[..], 1, n + 1)
  {
    var i := n / 2;
    while i >= 1
      invariant 0 <= i <= n && Heap(r[..], i + 1, n) && PermutedWithin(old(r[..]), r[..], 1, n + 1)
    {
      Sift(r, i, n);
      i := i - 1;
    }
  }

  /** One turn of the second loop: the greatest element left goes behind the heap. */
  method Select(r: array<int>, i: nat, n: nat)
    requires 2 <= i && n < r.Length && Selecting(r[..], i, n)
    modifies r
    ensures Selecting(r[..], i - 1, n) && PermutedWithin(old(r[..]), r[..], 1, n + 1)
  {
    ghost var s := r[..];
    var tmp := r[1];
    r[1] := r[i];
    r[i] := tmp;
    ghost var s1 := r[..];
    assert s1 == s[1 := s[i]][i := s[1]];
    assert Heap(s1, 2, i - 1);
    Sift(r, 1, i - 1);
    SelectStep(s, s1, r[..], i, n);
  }

  method HeapSort(r: array<int>, n: nat)
    requires n < r.Length
    modifies r
    ensures Sorted(r[1..n + 1]) && PermutedWithin(old(r[..]), r[..], 1, n + 1)
  {
    BuildHeap(r, n);
    var i := n;
    while i >= 2
      invariant 0 <= i <= n && Selecting(r[..], i, n) && PermutedWithin(old(r[..]), r[..], 1, n + 1)
    {
      Select(r, i, n);
      i := i - 1;
    }
    AllSelected(r[..], i, n);
    assert r[..][1..n + 1] == r[1..n + 1];
  }

  lemma AllSelected(s: seq<int>, i: nat, n: nat)
    requires Selecting(s, i, n) && i <= 1
    ensures Sorted(s[1..n + 1])
  {
  }
}
