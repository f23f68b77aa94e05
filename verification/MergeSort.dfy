/** Merge sort of elements that carry more than their key, so that the order of equal keys shows. */
module MergeSort {

  datatype Item = Item(key: int, tag: int)

  ghost predicate SortedByKey(s: seq<Item>) {
    forall i, j :: 0 <= i < j < |s| ==> s[i].key <= s[j].key
  }

  /** The elements with key `k`, in their order. */
  ghost function WithKey(s: seq<Item>, k: int): seq<Item> {
    if s == [] then [] else if s[0].key == k then [s[0]] + WithKey(s[1..], k) else WithKey(s[1..], k)
  }

  /** The elements with key `k` are the same, in the same order. */
  ghost predicate SameGroup(s: seq<Item>, t: seq<Item>, k: int) {
    WithKey(s, k) == WithKey(t, k)
  }

  /** `t` is `s` sorted, with equal keys in the order they had in `s`. */
  ghost predicate StablySorted(s: seq<Item>, t: seq<Item>) {
    SortedByKey(t) && forall k :: SameGroup(s, t, k)
  }

  lemma {:induction false} WithKeyAdd(a: seq<Item>, b: seq<Item>, k: int)
    ensures WithKey(a + b, k) == WithKey(a, k) + WithKey(b, k)
  {
    if a == [] {
      assert a + b == b;
    } else {
      WithKeyAdd(a[1..], b, k);
      assert (a + b)[1..] == a[1..] + b;
    }
  }

  lemma NoKey(s: seq<Item>, k: int)
    requires forall x :: x in s ==> x.key != k
    ensures WithKey(s, k) == []
  {
  }

  lemma {:induction false} HasKey(s: seq<Item>, i: nat)
    requires i < |s|
    ensures s[i] in WithKey(s, s[i].key)
  {
    if i > 0 {
      HasKey(s[1..], i - 1);
    }
  }

  lemma WithKeyIn(s: seq<Item>, k: int, x: Item)
    requires x in WithKey(s, k)
    ensures x in s && x.key == k
  {
  }

  /** Being stably sorted says all: there is only one such sequence, so it is a permutation in particular. */
  lemma {:induction false} StablySortedUnique(s: seq<Item>, t: seq<Item>, u: seq<Item>)
    requires StablySorted(s, t) && StablySorted(s, u)
    ensures t == u
    decreases |t|
  {
    forall k ensures SameGroup(t, u, k) {
      assert SameGroup(s, t, k) && SameGroup(s, u, k);
    }
    SameGroups(t, u);
  }

  /** The first elements agree. */
  lemma SameHead(t: seq<Item>, u: seq<Item>)
    requires SortedByKey(t) && SortedByKey(u) && (forall k :: SameGroup(t, u, k)) && t != []
    ensures u != [] && t[0] == u[0]
  {
    assert SameGroup(t, u, t[0].key);
    HasKey(t, 0);
    WithKeyIn(u, t[0].key, t[0]);
    assert SameGroup(t, u, u[0].key);
    HasKey(u, 0);
    WithKeyIn(t, u[0].key, u[0]);
    var i :| 0 <= i < |u| && u[i] == t[0];
    var j :| 0 <= j < |t| && t[j] == u[0];
    assert t[0].key == u[0].key;
    assert WithKey(t, t[0].key)[0] == t[0] && WithKey(u, u[0].key)[0] == u[0];
  }

  lemma SameTail(t: seq<Item>, u: seq<Item>, k: int)
    requires t != [] && u != [] && t[0] == u[0] && SameGroup(t, u, k)
    ensures SameGroup(t[1..], u[1..], k)
  {
    if t[0].key == k {
      assert WithKey(t[1..], k) == WithKey(t, k)[1..];
      assert WithKey(u[1..], k) == WithKey(u, k)[1..];
    }
  }

  lemma {:induction false} SameGroups(t: seq<Item>, u: seq<Item>)
    requires SortedByKey(t) && SortedByKey(u) && forall k :: SameGroup(t, u, k)
    ensures t == u
    decreases |t|
  {
    var k0 := if u == [] then 0 else u[0].key;
    assert SameGroup(t, u, k0);
    if t != [] {
      SameHead(t, u);
      forall k ensures SameGroup(t[1..], u[1..], k) {
        SameTail(t, u, k);
      }
      SameGroups(t[1..], u[1..]);
    }
  }

  lemma {:induction false} CountInGroup(s: seq<Item>, x: Item)
    ensures multiset(s)[x] == multiset(WithKey(s, x.key))[x]
  {
    if s != [] {
      CountInGroup(s[1..], x);
      assert s == [s[0]] + s[1..];
    }
  }

  /** Nothing is lost or made up: stably sorting is a permutation. */
  lemma StablySortedPermutes(s: seq<Item>, t: seq<Item>)
    requires StablySorted(s, t)
    ensures multiset(s) == multiset(t)
  {
    forall x ensures multiset(s)[x] == multiset(t)[x] {
      assert SameGroup(s, t, x.key);
      CountInGroup(s, x);
      CountInGroup(t, x);
    }
  }

  // ---------- merging ----------

  /** The merge: the smaller head first, and the left one when the keys are equal. */
  function Merged(a: seq<Item>, b: seq<Item>): seq<Item> {
    if a == [] then b
    else if b == [] then a
    else if a[0].key > b[0].key then [b[0]] + Merged(a, b[1..])
    else [a[0]] + Merged(a[1..], b)
  }

  lemma {:induction false} MergedIn(a: seq<Item>, b: seq<Item>, x: Item)
    requires x in Merged(a, b)
    ensures x in a || x in b
  {
    if a != [] && b != [] {
      if a[0].key > b[0].key {
        if x != b[0] {
          MergedIn(a, b[1..], x);
        }
      } else if x != a[0] {
        MergedIn(a[1..], b, x);
      }
    }
  }

  lemma {:induction false} MergedSorted(a: seq<Item>, b: seq<Item>)
    requires SortedByKey(a) && SortedByKey(b)
    ensures SortedByKey(Merged(a, b))
  {
    if a != [] && b != [] {
      if a[0].key > b[0].key {
        MergedSorted(a, b[1..]);
        forall x | x in Merged(a, b[1..]) ensures b[0].key <= x.key {
          MergedIn(a, b[1..], x);
        }
      } else {
        MergedSorted(a[1..], b);
        forall x | x in Merged(a[1..], b) ensures a[0].key <= x.key {
          MergedIn(a[1..], b, x);
        }
      }
    }
  }

  lemma WithKeyHead(x: Item, s: seq<Item>, k: int)
    ensures WithKey([x] + s, k) == if x.key == k then [x] + WithKey(s, k) else WithKey(s, k)
  {
  }

  lemma {:induction false} MergedStable(a: seq<Item>, b: seq<Item>, k: int)
    requires SortedByKey(a) && SortedByKey(b)
    ensures WithKey(Merged(a, b), k) == WithKey(a, k) + WithKey(b, k)
  {
    if a != [] && b != [] {
      if a[0].key > b[0].key {
        MergedStable(a, b[1..], k);
        WithKeyHead(b[0], Merged(a, b[1..]), k);
        if b[0].key == k {
          NoKey(a, k);
        }
      } else {
        MergedStable(a[1..], b, k);
        WithKeyHead(a[0], Merged(a[1..], b), k);
      }
    }
  }

  /** Merging what was stably sorted gives what is stably sorted. */
  lemma MergeStablySorted(a: seq<Item>, b: seq<Item>, a': seq<Item>, b': seq<Item>)
    requires StablySorted(a, a') && StablySorted(b, b')
    ensures StablySorted(a + b, Merged(a', b'))
  {
    MergedSorted(a', b');
    forall k ensures SameGroup(a + b, Merged(a', b'), k) {
      assert SameGroup(a, a', k) && SameGroup(b, b', k);
      MergedStable(a', b', k);
      WithKeyAdd(a, b, k);
    }
  }

  // ---------- the merge in place ----------

  /** `out` is written, and what is left is to merge `u` and `v`. */
  ghost predicate Underway(whole: seq<Item>, out: seq<Item>, u: seq<Item>, v: seq<Item>) {
    whole == out + Merged(u, v)
  }

  lemma TakeLeft(whole: seq<Item>, out: seq<Item>, u: seq<Item>, v: seq<Item>)
    requires Underway(whole, out, u, v) && u != [] && (v != [] ==> u[0].key <= v[0].key)
    ensures Underway(whole, out + [u[0]], u[1..], v)
  {
  }

  lemma TakeRight(whole: seq<Item>, out: seq<Item>, u: seq<Item>, v: seq<Item>)
    requires Underway(whole, out, u, v) && v != [] && (u != [] ==> u[0].key > v[0].key)
    ensures Underway(whole, out + [v[0]], u, v[1..])
  {
  }

  /** What the merge writes next, and what it leaves. */
  lemma Rest(R: array<Item>, i: nat, e: nat)
    requires i < e <= R.Length
    ensures R[i..e] != [] && R[i..e][0] == R[i] && R[i..e][1..] == R[i + 1..e]
  {
  }

  method Put(tmp: array<Item>, ghost l: nat, k: nat, x: Item)
    requires l <= k < tmp.Length
    modifies tmp
    ensures tmp[l..k + 1] == old(tmp[l..k]) + [x]
  {
    tmp[k] := x;
  }

  method PutSmaller(R: array<Item>, tmp: array<Item>, ghost whole: seq<Item>, ghost l: nat, i: nat, j: nat, k: nat,
      m: nat, r: nat)
      returns (i': nat, j': nat)
    requires R != tmp && l <= k < tmp.Length && i <= m < R.Length && j <= r < R.Length
    requires Underway(whole, tmp[l..k], R[i..m + 1], R[j..r + 1])
    modifies tmp
    ensures i <= i' <= m + 1 && j <= j' <= r + 1 && i' + j' == i + j + 1
    ensures Underway(whole, tmp[l..k + 1], R[i'..m + 1], R[j'..r + 1])
  {
    Rest(R, i, m + 1);
    Rest(R, j, r + 1);
    if R[i].key > R[j].key {
      TakeRight(whole, tmp[l..k], R[i..m + 1], R[j..r + 1]);
      Put(tmp, l, k, R[j]);
      i', j' := i, j + 1;
    } else {
      TakeLeft(whole, tmp[l..k], R[i..m + 1], R[j..r + 1]);
      Put(tmp, l, k, R[i]);
      i', j' := i + 1, j;
    }
  }

  /** The loop for what is left on the left, once nothing is left on the right. */
  method RestOfLeft(R: array<Item>, tmp: array<Item>, ghost whole: seq<Item>, ghost l: nat, i0: nat, k0: nat, m: nat,
      ghost v: seq<Item>)
      returns (k: nat)
    requires R != tmp && l <= k0 && i0 <= m + 1 <= R.Length && k0 + (m + 1 - i0) <= tmp.Length && (i0 <= m ==> v == [])
    requires Underway(whole, tmp[l..k0], R[i0..m + 1], v)
    modifies tmp
    ensures k == k0 + (m + 1 - i0) && Underway(whole, tmp[l..k], [], v)
  {
    var i: nat := i0;
    k := k0;
    while i <= m
      invariant i0 <= i <= m + 1 && k == k0 + (i - i0) && Underway(whole, tmp[l..k], R[i..m + 1], v)
    {
      Rest(R, i, m + 1);
      TakeLeft(whole, tmp[l..k], R[i..m + 1], v);
      Put(tmp, l, k, R[i]);
      k, i := k + 1, i + 1;
    }
  }

  /** The loop for what is left on the right, once nothing is left on the left. */
  method RestOfRight(R: array<Item>, tmp: array<Item>, ghost whole: seq<Item>, ghost l: nat, j0: nat, k0: nat, r: nat)
    requires R != tmp && l <= k0 && j0 <= r + 1 <= R.Length && k0 + (r + 1 - j0) <= tmp.Length
    requires Underway(whole, tmp[l..k0], [], R[j0..r + 1])
    modifies tmp
    ensures tmp[l..k0 + (r + 1 - j0)] == whole
  {
    var j: nat, k: nat := j0, k0;
    while j <= r
      invariant j0 <= j <= r + 1 && k == k0 + (j - j0) && Underway(whole, tmp[l..k], [], R[j..r + 1])
    {
      Rest(R, j, r + 1);
      TakeRight(whole, tmp[l..k], [], R[j..r + 1]);
      Put(tmp, l, k, R[j]);
      k, j := k + 1, j + 1;
    }
  }

  /** The three loops, from what the merge is to give. */
  method MergeLoops(R: array<Item>, tmp: array<Item>, ghost whole: seq<Item>, l: nat, m: nat, r: nat)
    requires R != tmp && l <= m < r < R.Length && r < tmp.Length
    requires Underway(whole, [], R[l..m + 1], R[m + 1..r + 1])
    modifies tmp
    ensures tmp[l..r + 1] == whole
  {
    var i: nat, j: nat, k: nat := l, m + 1, l;
    assert tmp[l..k] == [];
    while i <= m && j <= r
      invariant l <= i <= m + 1 <= j <= r + 1 && k + m + 1 == i + j
      invariant Underway(whole, tmp[l..k], R[i..m + 1], R[j..r + 1])
      decreases r + 1 - k
    {
      i, j := PutSmaller(R, tmp, whole, l, i, j, k, m, r);
      k := k + 1;
    }
    k := RestOfLeft(R, tmp, whole, l, i, k, m, R[j..r + 1]);
    assert k == j;
    RestOfRight(R, tmp, whole, l, j, k, r);
  }

  method MergeInto(R: array<Item>, tmp: array<Item>, l: nat, m: nat, r: nat)
    requires R != tmp && l <= m < r < R.Length && r < tmp.Length
    modifies tmp
    ensures tmp[l..r + 1] == Merged(R[l..m + 1], R[m + 1..r + 1])
  {
    ghost var u, v := R[l..m + 1], R[m + 1..r + 1];
    MergeLoops(R, tmp, Merged(u, v), l, m, r);
    assert R[l..m + 1] == u && R[m + 1..r + 1] == v;
  }

  /** From `s` to `t` only the elements l, ..., h - 1 changed. */
  ghost predicate OnlyWithin(s: seq<Item>, t: seq<Item>, l: nat, h: nat) {
    l <= h <= |s| == |t| && s[..l] == t[..l] && s[h..] == t[h..]
  }

  method CopyBack(R: array<Item>, tmp: array<Item>, l: nat, r: nat)
    requires R != tmp && l <= r < R.Length && r < tmp.Length
    modifies R
    ensures R[l..r + 1] == tmp[l..r + 1] && OnlyWithin(old(R[..]), R[..], l, r + 1)
  {
    ghost var s := R[..];
    var i := l;
    while i <= r
      invariant l <= i <= r + 1 && R[l..i] == tmp[l..i] && OnlyWithin(s, R[..], l, r + 1)
    {
      R[i] := tmp[i];
      i := i + 1;
    }
  }

  /** The halves l, ..., m - 1 and m, ..., h - 1 of `s` are merged in `t`. */
  ghost predicate MergedWithin(s: seq<Item>, t: seq<Item>, l: nat, m: nat, h: nat) {
    OnlyWithin(s, t, l, h) && l <= m <= h && t[l..h] == Merged(s[l..m], s[m..h])
  }

  method Merge(R: array<Item>, tmp: array<Item>, l: nat, m: nat, r: nat)
    requires R != tmp && l <= m < r < R.Length && r < tmp.Length
    modifies R, tmp
    ensures MergedWithin(old(R[..]), R[..], l, m + 1, r + 1)
  {
    ghost var s := R[..];
    assert s[l..m + 1] == R[l..m + 1] && s[m + 1..r + 1] == R[m + 1..r + 1];
    MergeInto(R, tmp, l, m, r);
    CopyBack(R, tmp, l, r);
    assert R[..][l..r + 1] == R[l..r + 1];
  }

  /** The elements l, ..., h - 1 of `s` are stably sorted in `t`, and nothing else changed. */
  ghost predicate SortedWithin(s: seq<Item>, t: seq<Item>, l: nat, h: nat) {
    OnlyWithin(s, t, l, h) && StablySorted(s[l..h], t[l..h])
  }

  /** What a part of one half keeps when only the other half changes. */
  lemma OtherHalf(s: seq<Item>, t: seq<Item>, l: nat, m: nat, h: nat)
    requires l <= m <= h <= |s| == |t|
    ensures s[l..h] == s[l..m] + s[m..h]
    ensures s[m..] == t[m..] ==> s[m..h] == t[m..h] && s[h..] == t[h..]
    ensures s[..m] == t[..m] ==> s[l..m] == t[l..m] && s[..l] == t[..l]
  {
  }

  lemma HalvesSorted(s0: seq<Item>, s1: seq<Item>, s2: seq<Item>, s3: seq<Item>, l: nat, m: nat, h: nat)
    requires SortedWithin(s0, s1, l, m) && SortedWithin(s1, s2, m, h) && MergedWithin(s2, s3, l, m, h)
    ensures SortedWithin(s0, s3, l, h)
  {
    OtherHalf(s0, s1, l, m, h);
    OtherHalf(s1, s2, l, m, h);
    MergeStablySorted(s0[l..m], s0[m..h], s2[l..m], s2[m..h]);
  }

  lemma OneSorted(s: seq<Item>, l: nat, h: nat)
    requires l <= h <= |s| && h <= l + 1
    ensures SortedWithin(s, s, l, h)
  {
  }

  method MergeSort(R: array<Item>, tmp: array<Item>, l: nat, r: int)
    requires R != tmp && -1 <= r < R.Length && r < tmp.Length && l <= r + 1
    modifies R, tmp
    ensures SortedWithin(old(R[..]), R[..], l, r + 1)
    decreases r - l
  {
    ghost var s0 := R[..];
    if l < r {
      var m := (l + r) / 2;
      MergeSort(R, tmp, l, m);
      ghost var s1 := R[..];
      MergeSort(R, tmp, m + 1, r);
      ghost var s2 := R[..];
      Merge(R, tmp, l, m, r);
      HalvesSorted(s0, s1, s2, R[..], l, m + 1, r + 1);
    } else {
      OneSorted(s0, l, r + 1);
    }
  }
}
