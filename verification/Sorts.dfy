/** What the sorts promise. */
module Sorts {

  ghost predicate Sorted(s: seq<int>) {
    forall i, j :: 0 <= i < j < |s| ==> s[i] <= s[j]
  }

  /** `b` is `a` with the elements lo, ..., hi - 1 in another order. */
  ghost predicate PermutedWithin(a: seq<int>, b: seq<int>, lo: int, hi: int) {
    && |a| == |b| && multiset(a) == multiset(b)
    && forall t :: 0 <= t < |a| && !(lo <= t < hi) ==> b[t] == a[t]
  }

  lemma ThreeParts(s: seq<int>, lo: nat, hi: nat)
    requires lo <= hi <= |s|
    ensures multiset(s) == multiset(s[..lo]) + multiset(s[lo..hi]) + multiset(s[hi..])
  {
    assert s == s[..lo] + s[lo..hi] + s[hi..];
  }

  lemma CancelAround(x: multiset<int>, m: multiset<int>, m': multiset<int>, y: multiset<int>)
    requires x + m + y == x + m' + y
    ensures m == m'
  {
    assert m == (x + m + y) - x - y;
    assert m' == (x + m' + y) - x - y;
  }

  lemma SegmentPermuted(a: seq<int>, b: seq<int>, lo: nat, hi: nat)
    requires lo <= hi <= |a| && PermutedWithin(a, b, lo, hi)
    ensures multiset(a[lo..hi]) == multiset(b[lo..hi])
  {
    ThreeParts(a, lo, hi);
    ThreeParts(b, lo, hi);
    assert b[..lo] == a[..lo] && b[hi..] == a[hi..];
    CancelAround(multiset(a[..lo]), multiset(a[lo..hi]), multiset(b[lo..hi]), multiset(a[hi..]));
  }

  /** A bound on all elements of a segment is kept by a permutation of the segment. */
  lemma BoundKept(a: seq<int>, b: seq<int>, lo: nat, hi: nat, min: int, max: int)
    requires lo <= hi <= |a| && PermutedWithin(a, b, lo, hi)
    requires forall t :: lo <= t < hi ==> min <= a[t] <= max
    ensures forall t :: lo <= t < hi ==> min <= b[t] <= max
  {
    SegmentPermuted(a, b, lo, hi);
    forall t | lo <= t < hi ensures min <= b[t] <= max {
      assert b[t] == b[lo..hi][t - lo];
      assert b[t] in multiset(b[lo..hi]);
      assert b[t] in a[lo..hi];
    }
  }

  lemma SwapPermutes(a: seq<int>, w: seq<int>, lo: int, hi: int, i: int, j: int)
    requires PermutedWithin(a, w, lo, hi) && 0 <= i < |w| && 0 <= j < |w| && lo <= i < hi && lo <= j < hi
    ensures PermutedWithin(a, w[i := w[j]][j := w[i]], lo, hi)
  {
  }

  lemma {:induction false} Least(s: seq<int>, lo: nat, hi: nat) returns (min: int)
    requires lo <= hi <= |s|
    ensures forall t :: lo <= t < hi ==> min <= s[t]
  {
    if lo == hi {
      min := 0;
    } else {
      var m := Least(s, lo, hi - 1);
      min := if m < s[hi - 1] then m else s[hi - 1];
    }
  }
}
