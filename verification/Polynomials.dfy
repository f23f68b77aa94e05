/** Polynomials over the field of two elements: their coefficients, the highest power first. */
module Polynomials {

  type Poly = seq<bool>

  function Zeros(n: nat): (z: Poly)
    ensures |z| == n
  {
    seq(n, _ => false)
  }

  /** The sum, which is the difference too. */
  function Xor(a: Poly, b: Poly): (c: Poly)
    requires |a| == |b|
    ensures |c| == |a|
  {
    seq(|a|, i requires 0 <= i < |a| => a[i] != b[i])
  }

  /** `y` less `b` times `g`, both starting with the same power. */
  function Less(y: Poly, b: bool, g: Poly): (e: Poly)
    requires |y| >= |g|
    ensures |e| == |y|
  {
    if b then Xor(y, g + Zeros(|y| - |g|)) else y
  }

  lemma LessTwice(y: Poly, b: bool, g: Poly)
    requires |y| >= |g|
    ensures Less(Less(y, b, g), b, g) == y
  {
  }

  /** Long division by x^|g| + g. */
  function Remainder(d: Poly, g: Poly): (r: Poly)
    requires |d| >= |g|
    ensures |r| == |g|
    decreases |d|
  {
    if |d| == |g| then d else Remainder(Less(d[1..], d[0], g), g)
  }

  function Quotient(d: Poly, g: Poly): (q: Poly)
    requires |d| >= |g|
    ensures |q| == |d| - |g|
    decreases |d|
  {
    if |d| == |g| then [] else [d[0]] + Quotient(Less(d[1..], d[0], g), g)
  }

  /** The product of `q` and x^|g| + g. */
  function Times(q: Poly, g: Poly): (p: Poly)
    ensures |p| == |q| + |g|
  {
    if q == [] then Zeros(|g|)
    else Xor((if q[0] then [true] + g else Zeros(1 + |g|)) + Zeros(|q| - 1), [false] + Times(q[1..], g))
  }

  /** `d` is `q` times the divisor plus `r`. */
  ghost predicate Divides(d: Poly, g: Poly, q: Poly, r: Poly) {
    |r| == |g| && |d| == |q| + |g| && d == Xor(Times(q, g), Zeros(|q|) + r)
  }

  lemma TimesOne(g: Poly, p: Poly, k: nat)
    requires |p| == k + |g|
    ensures Xor([true] + g + Zeros(k), [false] + p) == [true] + Less(p, true, g)
  {
    assert [true] + g + Zeros(k) == [true] + (g + Zeros(k));
  }

  lemma TimesZero(n: nat, p: Poly, k: nat)
    requires |p| == k + n
    ensures Xor(Zeros(1 + n) + Zeros(k), [false] + p) == [false] + p
  {
  }

  lemma TimesHead(g: Poly, q: Poly)
    requires q != []
    ensures Times(q, g) == [q[0]] + Less(Times(q[1..], g), q[0], g)
  {
    if q[0] {
      TimesOne(g, Times(q[1..], g), |q| - 1);
    } else {
      TimesZero(|g|, Times(q[1..], g), |q| - 1);
    }
  }

  /** Adding `r` below commutes with the step. */
  lemma LessXor(y: Poly, z: Poly, b: bool, g: Poly)
    requires |y| == |z| >= |g|
    ensures Xor([b] + Less(y, b, g), [false] + z) == [b] + Less(Xor(y, z), b, g)
  {
  }

  lemma ZerosHead(n: nat, r: Poly)
    ensures Zeros(n + 1) + r == [false] + (Zeros(n) + r)
  {
  }

  lemma DividendHead(g: Poly, q: Poly, r: Poly)
    requires |r| == |g| && q != []
    ensures Xor(Times(q, g), Zeros(|q|) + r) == [q[0]] + Less(Xor(Times(q[1..], g), Zeros(|q| - 1) + r), q[0], g)
  {
    TimesHead(g, q);
    LessXor(Times(q[1..], g), Zeros(|q| - 1) + r, q[0], g);
    ZerosHead(|q| - 1, r);
  }

  lemma LessEqual(d: Poly, b: bool, x: Poly, g: Poly)
    requires |d| == |x| + 1 && |x| >= |g|
    ensures d == [b] + Less(x, b, g) <==> d[0] == b && Less(d[1..], b, g) == x
  {
    LessTwice(x, b, g);
    LessTwice(d[1..], b, g);
    assert d == [d[0]] + d[1..];
  }

  lemma DividesStep(d: Poly, g: Poly, q: Poly, r: Poly)
    requires |r| == |g| && |d| == |q| + |g| && q != []
    ensures Divides(d, g, q, r) <==> d[0] == q[0] && Divides(Less(d[1..], q[0], g), g, q[1..], r)
  {
    DividendHead(g, q, r);
    LessEqual(d, q[0], Xor(Times(q[1..], g), Zeros(|q| - 1) + r), g);
  }

  /** The first bit of the dividend is the first bit of the quotient. */
  lemma QuotientStep(d: Poly, g: Poly, q: Poly, r: Poly, e: Poly)
    requires |d| == |q| + |g| && q != [] && e == Less(d[1..], d[0], g)
    ensures q == Quotient(d, g) <==> q[0] == d[0] && q[1..] == Quotient(e, g)
    ensures Remainder(d, g) == Remainder(e, g)
  {
    assert q == [q[0]] + q[1..];
  }

  /** Long division finds the quotient and the remainder, and there are no others. */
  lemma {:induction false} Division(d: Poly, g: Poly, q: Poly, r: Poly)
    requires |r| == |g| && |d| == |q| + |g|
    ensures Divides(d, g, q, r) <==> q == Quotient(d, g) && r == Remainder(d, g)
    decreases |d|
  {
    if q == [] {
      assert Divides(d, g, q, r) <==> d == r;
    } else {
      var e := Less(d[1..], d[0], g);
      DividesStep(d, g, q, r);
      QuotientStep(d, g, q, r, e);
      Division(e, g, q[1..], r);
    }
  }
}
