/** Shell sort: each pass sorts the chains of one gap, and undoes no earlier pass. */
module ShellSort {
  import opened Sorts

  /** Elements `d` apart are in order. */
  ghost predicate GapSorted(s: seq<int>, d: nat) {
    forall t :: 1 <= t && t + d < |s| ==> s[t] <= s[t + d]
  }

  /** The elements at r, r + d, r + 2 * d, ... */
  ghost function Chain(s: seq<int>, r: nat, d: nat): seq<int>
    requires d > 0
    decreases |s| - r
  {
    if r >= |s| then [] else [s[r]] + Chain(s, r + d, d)
  }

  ghost function ChainSet(s: seq<int>, r: nat, d: nat): multiset<int>
    requires d > 0
    decreases |s| - r
  {
    if r >= |s| then multiset{} else multiset{s[r]} + ChainSet(s, r + d, d)
  }

  lemma ChainHolds(s: seq<int>, r: nat, d: nat)
    requires d > 0
    ensures multiset(Chain(s, r, d)) == ChainSet(s, r, d)
    decreases |s| - r
  {
  }

  /** Every chain of gap `d` holds the same elements in `b` as in `a`. */
  ghost predicate ChainsKept(a: seq<int>, b: seq<int>, d: nat)
    requires d > 0
  {
    |a| == |b| && forall r :: 1 <= r <= d ==> SameChain(a, b, r, d)
  }

  ghost predicate SameChain(a: seq<int>, b: seq<int>, r: nat, d: nat)
    requires d > 0
  {
    ChainSet(b, r, d) == ChainSet(a, r, d)
  }

  // ---------- counting ----------

  ghost function CountLe(s: seq<int>, v: int): nat {
    if s == [] then 0 else (if s[0] <= v then 1 else 0) + CountLe(s[1..], v)
  }

  lemma CountLeBound(s: seq<int>, v: int)
    ensures CountLe(s, v) <= |s|
  {
  }

  lemma CountLeAdd(a: seq<int>, b: seq<int>, v: int)
    ensures CountLe(a + b, v) == CountLe(a, v) + CountLe(b, v)
  {
    if a == [] {
      assert a + b == b;
    } else {
      assert (a + b)[1..] == a[1..] + b;
    }
  }

  lemma CountLeMiddle(l: seq<int>, x: int, r: seq<int>, v: int)
    ensures CountLe(l + [x] + r, v) == CountLe([x] + (l + r), v)
  {
    CountLeAdd(l + [x], r, v);
    CountLeAdd(l, [x], v);
    CountLeAdd([x], l + r, v);
    CountLeAdd(l, r, v);
  }

  /** An element that is in `b` can be taken out of the middle of it. */
  lemma TakeOut(a: seq<int>, b: seq<int>) returns (l: seq<int>, r: seq<int>)
    requires a != [] && multiset(a) == multiset(b)
    ensures b == l + [a[0]] + r && multiset(a[1..]) == multiset(l + r)
  {
    assert a[0] in multiset(b);
    var i :| 0 <= i < |b| && b[i] == a[0];
    l, r := b[..i], b[i + 1..];
    assert a == [a[0]] + a[1..] && b == l + [a[0]] + r;
    assert multiset(l + r) == multiset(l) + multiset(r);
    Cancel(multiset(a[1..]), a[0], multiset(l), multiset(r));
  }

  lemma {:induction false} CountLeSame(a: seq<int>, b: seq<int>, v: int)
    requires multiset(a) == multiset(b)
    ensures CountLe(a, v) == CountLe(b, v)
    decreases |a|
  {
    if a == [] {
      assert |multiset(b)| == |b|;
    } else {
      var l, r := TakeOut(a, b);
      CountLeSame(a[1..], l + r, v);
      CountLeMiddle(l, a[0], r, v);
      CountLeAdd([a[0]], l + r, v);
      CountLeAdd([a[0]], a[1..], v);
      assert a == [a[0]] + a[1..];
    }
  }

  lemma Cancel(m: multiset<int>, x: int, l: multiset<int>, r: multiset<int>)
    requires multiset{x} + m == l + multiset{x} + r
    ensures m == l + r
  {
    assert m == (multiset{x} + m) - multiset{x};
    assert l + r == (l + multiset{x} + r) - multiset{x};
  }

  lemma {:induction false} CountLeSorted(s: seq<int>, i: nat, v: int)
    requires Sorted(s) && i < |s|
    ensures s[i] <= v ==> CountLe(s, v) >= i + 1
    ensures s[i] > v ==> CountLe(s, v) <= i
  {
    if i == 0 {
      if s[0] > v {
        AllAbove(s, v);
      }
    } else {
      CountLeSorted(s[1..], i - 1, v);
    }
  }

  lemma AllAbove(s: seq<int>, v: int)
    requires forall k :: 0 <= k < |s| ==> s[k] > v
    ensures CountLe(s, v) == 0
  {
  }

  lemma CountLePointwise(x: seq<int>, y: seq<int>, v: int)
    requires |y| <= |x| && forall j :: 0 <= j < |y| ==> x[j] <= y[j]
    ensures CountLe(y, v) <= CountLe(x, v)
  {
  }

  /**
   * If each element of `y` but the first `m` is no less than its counterpart in `x`,
   * it is so again when both are sorted.
   */
  lemma {:induction false} SortedPointwise(x: seq<int>, y: seq<int>, m: nat, xs: seq<int>, ys: seq<int>, j: nat)
    requires m <= |y| <= |x| + m && forall i :: 0 <= i < |y| - m ==> x[i] <= y[m + i]
    requires multiset(xs) == multiset(x) && multiset(ys) == multiset(y) && Sorted(xs) && Sorted(ys)
    requires j < |xs| && m + j < |ys|
    ensures xs[j] <= ys[m + j]
  {
    var v := ys[m + j];
    CountLeSorted(ys, m + j, v);
    CountLeSame(ys, y, v);
    assert y == y[..m] + y[m..];
    CountLeAdd(y[..m], y[m..], v);
    CountLeBound(y[..m], v);
    CountLePointwise(x, y[m..], v);
    CountLeSame(xs, x, v);
    CountLeSorted(xs, j, v);
  }

  // ---------- chains ----------

  /** The `j`-th position of the chain that starts at `r`. */
  ghost function Pos(r: nat, d: nat, j: nat): nat
    decreases j
  {
    if j == 0 then r else Pos(r + d, d, j - 1)
  }

  lemma {:induction false} PosShift(r: nat, h: nat, d: nat, j: nat)
    ensures Pos(r + h, d, j) == Pos(r, d, j) + h >= h
    decreases j
  {
    if j > 0 {
      PosShift(r + d, h, d, j - 1);
    }
  }

  lemma {:induction false} ChainAt(s: seq<int>, r: nat, d: nat, j: nat)
    requires d > 0 && Pos(r, d, j) < |s|
    ensures j < |Chain(s, r, d)| && Chain(s, r, d)[j] == s[Pos(r, d, j)]
    decreases j
  {
    PosShift(0, r, d, j);
    if j > 0 {
      ChainAt(s, r + d, d, j - 1);
    }
  }

  lemma {:induction false} Tail(s: seq<int>, r: nat, d: nat, m: nat)
    requires d > 0 && Pos(r, d, m) < |s|
    ensures m <= |Chain(s, r, d)| && Chain(s, r, d)[m..] == Chain(s, Pos(r, d, m), d)
    decreases m
  {
    PosShift(0, r, d, m);
    if m > 0 {
      Tail(s, r + d, d, m - 1);
    }
  }

  lemma {:induction false} ChainSorted(s: seq<int>, r: nat, d: nat)
    requires d > 0 && r >= 1 && GapSorted(s, d)
    ensures Sorted(Chain(s, r, d))
    decreases |s| - r
  {
    if r < |s| {
      ChainSorted(s, r + d, d);
      if r + d < |s| {
        assert s[r] <= s[r + d] == Chain(s, r + d, d)[0];
      }
    }
  }

  lemma {:induction false} ChainBelow(s: seq<int>, r: nat, h: nat, d: nat)
    requires d > 0 && r >= 1 && GapSorted(s, h)
    ensures |Chain(s, r + h, d)| <= |Chain(s, r, d)|
    ensures forall j :: 0 <= j < |Chain(s, r + h, d)| ==> Chain(s, r, d)[j] <= Chain(s, r + h, d)[j]
    decreases |s| - r
  {
    if r + h < |s| {
      ChainBelow(s, r + d, h, d);
      assert r + h + d == r + d + h;
    }
  }

  /** Every position is somewhere on the chain of a position up to `d`. */
  lemma {:induction false} Locate(t: nat, d: nat) returns (r: nat, j: nat)
    requires t >= 1 && d > 0
    ensures 1 <= r <= d && t == Pos(r, d, j)
  {
    if t <= d {
      r, j := t, 0;
    } else {
      r, j := Locate(t - d, d);
      PosShift(r, d, d, j);
      j := j + 1;
    }
  }

  /** Sorting the chains of gap `k` leaves what was sorted with gap `h` sorted with gap `h`. */
  lemma {:induction false} StaysSorted(a: seq<int>, b: seq<int>, h: nat, k: nat)
    requires k > 0 && GapSorted(a, h) && GapSorted(b, k) && ChainsKept(a, b, k)
    ensures GapSorted(b, h)
  {
    forall t | 1 <= t && t + h < |b| ensures b[t] <= b[t + h] {
      var r1, j := Locate(t, k);
      var r2, m := Locate(r1 + h, k);
      FarPos(h, k, r1, r2, m, j, r1 + h);
      PosShift(0, r1, k, j);
      StaysSortedAt(a, b, h, k, r1, r2, m, j, t, m + j);
    }
  }

  /** The chain of position `t` before and after the sort. */
  lemma View(a: seq<int>, b: seq<int>, k: nat, r: nat, i: nat, t: nat) returns (x: seq<int>, xs: seq<int>)
    requires k > 0 && GapSorted(b, k) && ChainsKept(a, b, k) && 1 <= r <= k && t == Pos(r, k, i) < |b|
    ensures x == Chain(a, r, k) && multiset(xs) == multiset(x) && Sorted(xs)
    ensures i < |xs| && xs[i] == b[t]
  {
    x, xs := Chain(a, r, k), Chain(b, r, k);
    assert SameChain(a, b, r, k);
    ChainHolds(a, r, k);
    ChainHolds(b, r, k);
    ChainSorted(b, r, k);
    ChainAt(b, r, k, i);
  }

  lemma StaysSortedAt(a: seq<int>, b: seq<int>, h: nat, k: nat, r1: nat, r2: nat, m: nat, j: nat, t: nat, i: nat)
    requires k > 0 && GapSorted(a, h) && GapSorted(b, k) && ChainsKept(a, b, k) && t + h < |b|
    requires 1 <= r1 <= k && 1 <= r2 <= k && r1 + h == Pos(r2, k, m) < |b| && i == m + j
    requires t == Pos(r1, k, j) && t + h == Pos(r2, k, i)
    ensures b[t] <= b[t + h]
  {
    FarTail(a, h, k, r1, r2, m);
    var x, xs := View(a, b, k, r1, j, t);
    var y, ys := View(a, b, k, r2, i, t + h);
    SortedPointwise(x, y, m, xs, ys, j);
  }

  lemma {:induction false} FarPos(h: nat, k: nat, r1: nat, r2: nat, m: nat, j: nat, mid: nat)
    requires mid == r1 + h == Pos(r2, k, m)
    ensures Pos(r2, k, m + j) == Pos(r1, k, j) + h
    decreases m
  {
    if m == 0 {
      PosShift(r1, h, k, j);
    } else {
      FarPos(h, k, r1, r2 + k, m - 1, j, mid);
    }
  }

  lemma FarTail(a: seq<int>, h: nat, k: nat, r1: nat, r2: nat, m: nat)
    requires k > 0 && r1 >= 1 && GapSorted(a, h) && r1 + h == Pos(r2, k, m) < |a|
    ensures var x, y := Chain(a, r1, k), Chain(a, r2, k);
      m <= |y| <= |x| + m && forall i :: 0 <= i < |y| - m ==> x[i] <= y[m + i]
  {
    Tail(a, r2, k, m);
    ChainBelow(a, r1, h, k);
    var y := Chain(a, r2, k);
    assert forall i :: 0 <= i < |y| - m ==> y[m..][i] == y[m + i];
  }

  // ---------- one exchange along a chain ----------

  /** `s'` is `s` with the elements `p` and `q` exchanged. */
  ghost predicate Exchanged(s: seq<int>, s': seq<int>, p: nat, q: nat) {
    && p < q < |s| == |s'| && s'[p] == s[q] && s'[q] == s[p]
    && forall t :: 0 <= t < |s| && t != p && t != q ==> s'[t] == s[t]
  }

  lemma ChainCons(s: seq<int>, s': seq<int>, r: nat, d: nat)
    requires d > 0 && r < |s| == |s'| && s'[r] == s[r]
    requires ChainSet(s', r + d, d) == ChainSet(s, r + d, d)
    ensures ChainSet(s', r, d) == ChainSet(s, r, d)
  {
  }

  lemma {:induction false} ChainSame(s: seq<int>, s': seq<int>, r: nat, d: nat, p: nat)
    requires d > 0 && p < r && r != p + d && Exchanged(s, s', p, p + d)
    ensures ChainSet(s', r, d) == ChainSet(s, r, d)
    decreases |s| - r
  {
    if r < |s| {
      ChainSame(s, s', r + d, d, p);
      ChainCons(s, s', r, d);
    }
  }

  lemma ChainTwo(s: seq<int>, d: nat, p: nat, x: int, y: int, c: multiset<int>)
    requires d > 0 && p + d < |s| && x == s[p] && y == s[p + d] && c == ChainSet(s, p + d + d, d)
    ensures ChainSet(s, p, d) == multiset{x} + (multiset{y} + c)
  {
  }

  lemma SwapTwo(s: seq<int>, s': seq<int>, d: nat, p: nat, x: int, y: int, c: multiset<int>)
    requires d > 0 && p + d < |s| == |s'| && x == s[p] == s'[p + d] && y == s[p + d] == s'[p]
    requires c == ChainSet(s, p + d + d, d) == ChainSet(s', p + d + d, d)
    ensures ChainSet(s', p, d) == ChainSet(s, p, d)
  {
    ChainTwo(s, d, p, x, y, c);
    ChainTwo(s', d, p, y, x, c);
    Commute(x, y, c);
  }

  lemma SwapHere(s: seq<int>, s': seq<int>, d: nat, p: nat)
    requires d > 0 && Exchanged(s, s', p, p + d)
    ensures ChainSet(s', p, d) == ChainSet(s, p, d)
  {
    ChainSame(s, s', p + d + d, d, p);
    SwapTwo(s, s', d, p, s[p], s[p + d], ChainSet(s, p + d + d, d));
  }

  lemma Commute(x: int, y: int, c: multiset<int>)
    ensures multiset{x} + (multiset{y} + c) == multiset{y} + (multiset{x} + c)
  {
  }

  /** Exchanging two neighbours of one chain keeps what every chain holds. */
  lemma {:induction false} ChainSwap(s: seq<int>, s': seq<int>, r: nat, d: nat, p: nat)
    requires d > 0 && r <= p && Exchanged(s, s', p, p + d)
    ensures ChainSet(s', r, d) == ChainSet(s, r, d)
    decreases |s| - r
  {
    if r == p {
      SwapHere(s, s', d, p);
    } else if r + d <= p {
      ChainSwap(s, s', r + d, d, p);
      ChainCons(s, s', r, d);
    } else {
      ChainSame(s, s', r + d, d, p);
      ChainCons(s, s', r, d);
    }
  }

  lemma SwapKept(a: seq<int>, s: seq<int>, s': seq<int>, d: nat, p: nat)
    requires d > 0 && 1 <= p && ChainsKept(a, s, d) && Exchanged(s, s', p, p + d)
    ensures ChainsKept(a, s', d)
  {
    forall r | 1 <= r <= d ensures SameChain(a, s', r, d) {
      assert SameChain(a, s, r, d);
      if r <= p {
        ChainSwap(s, s', r, d, p);
      } else {
        ChainSame(s, s', r, d, p);
      }
    }
  }

  /** The same elements in positions 1, 2, ..., and on each chain of gap `d`. */
  ghost predicate Rearranged(a: seq<int>, b: seq<int>, d: nat)
    requires d > 0
  {
    |a| == |b| > 0 && ChainsKept(a, b, d) && multiset(b[1..]) == multiset(a[1..])
  }

  lemma SwapRearranged(a: seq<int>, s: seq<int>, s': seq<int>, d: nat, p: nat)
    requires d > 0 && 1 <= p && Rearranged(a, s, d) && Exchanged(s, s', p, p + d)
    ensures Rearranged(a, s', d)
  {
    SwapKept(a, s, s', d, p);
    var u, u' := s[1..], s'[1..];
    assert u' == u[p - 1 := u[p - 1 + d]][p - 1 + d := u[p - 1]];
  }

  lemma ScratchChain(s: seq<int>, s': seq<int>, r: nat, d: nat)
    requires d > 0 && r >= 1 && |s| == |s'| && forall t :: 1 <= t < |s| ==> s'[t] == s[t]
    ensures ChainSet(s', r, d) == ChainSet(s, r, d)
    decreases |s| - r
  {
  }

  /** Element 0 is scratch. */
  lemma ScratchRearranged(s: seq<int>, s': seq<int>, d: nat)
    requires d > 0 && |s| == |s'| > 0 && forall t :: 1 <= t < |s| ==> s'[t] == s[t]
    ensures Rearranged(s, s', d)
  {
    forall r | 1 <= r <= d ensures SameChain(s, s', r, d) {
      ScratchChain(s, s', r, d);
    }
    assert s'[1..] == s[1..];
  }

  lemma GapOneSorted(s: seq<int>)
    requires GapSorted(s, 1) && |s| > 0
    ensures Sorted(s[1..])
  {
    forall i, j | 0 <= i < j < |s| - 1 ensures s[1..][i] <= s[1..][j] {
      GapOneFar(s, i + 1, j + 1);
    }
  }

  lemma {:induction false} GapOneFar(s: seq<int>, i: nat, j: nat)
    requires GapSorted(s, 1) && 1 <= i <= j < |s|
    ensures s[i] <= s[j]
    decreases j - i
  {
    if i < j {
      GapOneFar(s, i, j - 1);
    }
  }

  ghost predicate GapSortedTo(s: seq<int>, d: nat, i: nat) {
    forall t :: 1 <= t && t + d <= i && t + d < |s| ==> s[t] <= s[t + d]
  }

  /** Up to `i`, elements `d` apart are in order but for those at j and j + d, and the neighbours of these agree. */
  ghost predicate InOrderBut(w: seq<int>, d: nat, i: nat, j: int) {
    && i < |w| && 0 < j + d <= i
    && (forall t :: 1 <= t && t + d <= i && t != j ==> w[t] <= w[t + d])
    && (1 <= j && j + d + d <= i ==> w[j] <= w[j + d + d])
  }

  lemma MoveDown(w: seq<int>, w': seq<int>, d: nat, i: nat, j: nat)
    requires d > 0 && j >= 1 && InOrderBut(w, d, i, j) && Exchanged(w, w', j, j + d) && w[j + d] < w[j]
    ensures InOrderBut(w', d, i, j - d)
  {
  }

  /** The array holds `w` but for the position `p`, whose element waits in position 0; beyond `w` it holds `rest`. */
  ghost predicate Hole(s: seq<int>, w: seq<int>, p: int, rest: seq<int>) {
    && 0 < p < |w| <= |s| && s[|w|..] == rest && w[p] == s[0]
    && forall t :: 0 <= t < |w| && t != p ==> s[t] == w[t]
  }

  lemma HoleStarts(a: seq<int>, w: seq<int>, d: nat, i: nat)
    requires 0 < d < i < |a| == |w| && GapSortedTo(a, d, i - 1) && forall t :: 1 <= t < |a| ==> w[t] == a[t]
    ensures InOrderBut(w, d, i, i - d)
  {
  }

  /** The state of the inner loop, where `w` is the array with s[0] put back at position j + d. */
  ghost predicate Moving(a: seq<int>, s: seq<int>, w: seq<int>, d: nat, i: nat, j: int, rest: seq<int>)
    requires d > 0
  {
    InOrderBut(w, d, i, j) && Rearranged(a, w, d) && Hole(s, w, j + d, rest)
  }

  lemma StartMoving(a: seq<int>, s: seq<int>, d: nat, i: nat, rest: seq<int>)
    requires 0 < d < i < |a| <= |s| && GapSortedTo(a, d, i - 1)
    requires s == [a[i]] + a[1..] + rest
    ensures Moving(a, s, s[..|a|], d, i, i - d, rest)
  {
    var w := s[..|a|];
    ScratchRearranged(a, w, d);
    HoleStarts(a, w, d, i);
  }

  lemma KeepMoving(a: seq<int>, s: seq<int>, w: seq<int>, d: nat, i: nat, j: nat, rest: seq<int>) returns (w': seq<int>)
    requires d > 0 && j >= 1 && Moving(a, s, w, d, i, j, rest) && s[0] < s[j]
    ensures Moving(a, s[j + d := s[j]], w', d, i, j - d, rest)
  {
    w' := w[j := w[j + d]][j + d := w[j]];
    SwapRearranged(a, w, w', d, j);
    MoveDown(w, w', d, i, j);
  }

  lemma StopMoving(a: seq<int>, s: seq<int>, w: seq<int>, d: nat, i: nat, j: int, rest: seq<int>)
    requires d > 0 && Moving(a, s, w, d, i, j, rest) && (j >= 1 ==> s[j] <= s[0])
    ensures s[j + d := s[0]] == w + rest && GapSortedTo(w, d, i) && Rearranged(a, w, d) && |w| == |a|
  {
  }

  /** The element of position `i` of `a` is in its place, and `rest` follows as before. */
  ghost predicate Placed(a: seq<int>, s: seq<int>, d: nat, i: nat, rest: seq<int>)
    requires d > 0
  {
    |a| <= |s| && GapSortedTo(s[..|a|], d, i) && Rearranged(a, s[..|a|], d) && s[|a|..] == rest
  }

  lemma PutDown(a: seq<int>, s: seq<int>, w: seq<int>, d: nat, i: nat, j: int, rest: seq<int>)
    requires d > 0 && Moving(a, s, w, d, i, j, rest) && (j >= 1 ==> s[j] <= s[0])
    ensures Placed(a, s[j + d := s[0]], d, i, rest)
  {
    StopMoving(a, s, w, d, i, j, rest);
    assert (w + rest)[..|w|] == w && (w + rest)[|w|..] == rest;
  }

  /** The inner loop: s[0] looks for its place, and greater elements move up. */
  method MoveUp(s: array<int>, d: nat, i: nat, ghost a: seq<int>, ghost w0: seq<int>, ghost rest: seq<int>)
    returns (j: int, ghost w: seq<int>)
    requires 0 < d < i < s.Length && Moving(a, s[..], w0, d, i, i - d, rest)
    modifies s
    ensures Moving(a, s[..], w, d, i, j, rest) && 1 - d <= j <= i - d
    ensures j > 0 ==> s[j] <= s[0]
  {
    j, w := i - d, w0;
    while j > 0 && s[0] < s[j]
      invariant Moving(a, s[..], w, d, i, j, rest) && 1 - d <= j <= i - d
      decreases j
    {
      w := KeepMoving(a, s[..], w, d, i, j, rest);
      s[j + d] := s[j];
      j := j - d;
    }
  }

  method PlaceOne(s: array<int>, d: nat, i: nat, ghost a: seq<int>, ghost rest: seq<int>)
    requires 0 < d < i < |a| && s[..] == a + rest && GapSortedTo(a, d, i - 1)
    modifies s
    ensures Placed(a, s[..], d, i, rest)
  {
    s[0] := s[i];
    assert s[..] == [a[i]] + a[1..] + rest;
    StartMoving(a, s[..], d, i, rest);
    var j;
    ghost var w;
    j, w := MoveUp(s, d, i, a, s[..][..|a|], rest);
    PutDown(a, s[..], w, d, i, j, rest);
    s[j + d] := s[0];
  }

  /** One round of the inner loop: s[i] moves down its chain to its place. */
  method InsertOne(s: array<int>, n: nat, d: nat, i: nat)
    requires 0 < d < i <= n < s.Length
    requires GapSortedTo(s[..n + 1], d, i - 1)
    modifies s
    ensures GapSortedTo(s[..n + 1], d, i)
    ensures Rearranged(old(s[..n + 1]), s[..n + 1], d)
    ensures s[n + 1..] == old(s[n + 1..])
  {
    ghost var a, rest := s[..n + 1], s[n + 1..];
    PlaceOne(s, d, i, a, rest);
    assert s[..][..n + 1] == s[..n + 1] && s[..][n + 1..] == s[n + 1..];
  }

  lemma RearrangedOn(a: seq<int>, b: seq<int>, c: seq<int>, d: nat)
    requires d > 0 && Rearranged(a, b, d) && Rearranged(b, c, d)
    ensures Rearranged(a, c, d)
  {
    forall r | 1 <= r <= d ensures SameChain(a, c, r, d) {
      assert SameChain(a, b, r, d) && SameChain(b, c, r, d);
    }
  }

  method Pass(s: array<int>, n: nat, d: nat)
    requires 0 < d <= n < s.Length
    modifies s
    ensures GapSorted(s[..n + 1], d) && Rearranged(old(s[..n + 1]), s[..n + 1], d)
    ensures s[n + 1..] == old(s[n + 1..])
  {
    ScratchRearranged(s[..n + 1], s[..n + 1], d);
    for i := d + 1 to n + 1
      invariant GapSortedTo(s[..n + 1], d, i - 1) && Rearranged(old(s[..n + 1]), s[..n + 1], d)
      invariant s[n + 1..] == old(s[n + 1..])
    {
      ghost var b := s[..n + 1];
      InsertOne(s, n, d, i);
      RearrangedOn(old(s[..n + 1]), b, s[..n + 1], d);
    }
  }

  /** The gaps of the passes from `d` on. */
  ghost function Gaps(d: nat): seq<nat> {
    if d == 0 then [] else [d] + Gaps(d / 2)
  }

  lemma {:induction false} LastGap(d: nat)
    requires d > 0
    ensures 1 in Gaps(d)
  {
    if d > 1 {
      LastGap(d / 2);
    }
  }

  ghost predicate SortedForAll(s: seq<int>, gaps: seq<nat>) {
    forall g :: g in gaps ==> GapSorted(s, g)
  }

  /** A pass keeps what the passes before it gave. */
  lemma NextPass(a: seq<int>, b: seq<int>, gaps: seq<nat>, d: nat)
    requires d > 0 && GapSorted(b, d) && Rearranged(a, b, d) && SortedForAll(a, gaps)
    ensures SortedForAll(b, gaps + [d]) && multiset(b[1..]) == multiset(a[1..])
  {
    forall g | g in gaps ensures GapSorted(b, g) {
      StaysSorted(a, b, g, d);
    }
  }

  lemma GapsNext(gaps: seq<nat>, d: nat)
    requires d > 0
    ensures gaps + Gaps(d) == (gaps + [d]) + Gaps(d / 2)
  {
  }

  lemma SortedInTheEnd(s: seq<int>, gaps: seq<nat>, n: nat)
    requires |s| == n + 1 && gaps == Gaps(n / 2) && SortedForAll(s, gaps)
    ensures Sorted(s[1..])
  {
    if n >= 2 {
      LastGap(n / 2);
      GapOneSorted(s);
    }
  }

  /** In the end the array is sorted, and it still has the order that each of the passes gave it. */
  method ShellSort(s: array<int>, n: nat)
    requires n < s.Length
    modifies s
    ensures Sorted(s[1..n + 1]) && multiset(s[1..n + 1]) == multiset(old(s[1..n + 1]))
    ensures s[n + 1..] == old(s[n + 1..])
    ensures SortedForAll(s[..n + 1], Gaps(n / 2))
  {
    ghost var gaps: seq<nat> := [];
    var d := n / 2;
    while d >= 1
      invariant 0 <= d <= n && Gaps(n / 2) == gaps + Gaps(d)
      invariant SortedForAll(s[..n + 1], gaps)
      invariant multiset(s[..n + 1][1..]) == multiset(old(s[..n + 1][1..]))
      invariant s[n + 1..] == old(s[n + 1..])
    {
      ghost var a := s[..n + 1];
      Pass(s, n, d);
      NextPass(a, s[..n + 1], gaps, d);
      GapsNext(gaps, d);
      gaps := gaps + [d];
      d := d / 2;
    }
    assert s[..n + 1][1..] == s[1..n + 1];
    assert gaps + Gaps(0) == gaps;
    SortedInTheEnd(s[..n + 1], gaps, n);
  }
}
