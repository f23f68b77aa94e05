/**
 * Shift registers that divide polynomials, for words of any kind.  The laws are all that is known of the words, so that
 * what follows from them is proved without looking at a single bit.
 */
module Registers {
  import opened Polynomials

  /**
   * `top` is the first bit and `shl` drops it, `unit` is a first bit alone and `one` a last bit alone, and `step`
   * divides by one more power.
   */
  datatype Register<!W> = Register(top: W -> bool, shl: W -> W, xor: (W, W) -> W, zero: W, unit: W, one: W, poly: W,
                                   step: W -> W)

  const WIDTH: nat := 32

  ghost predicate XorLaw<W(!new)>(g: Register<W>, x: W, y: W) {
    && g.top(g.xor(x, y)) == (g.top(x) != g.top(y))
    && g.shl(g.xor(x, y)) == g.xor(g.shl(x), g.shl(y))
  }

  /** Shifting loses the first bit only, and dividing loses nothing. */
  ghost predicate ShlLaw<W(!new)>(g: Register<W>, x: W, y: W) {
    && (g.top(x) == g.top(y) && g.shl(x) == g.shl(y) ==> x == y)
    && (g.step(x) == g.step(y) ==> x == y)
  }

  ghost predicate StepLaw<W(!new)>(g: Register<W>, x: W) {
    && g.step(x) == (if g.top(x) then g.xor(g.shl(x), g.poly) else g.shl(x))
    && g.xor(x, g.zero) == x
    && Left(g, x, WIDTH) == g.zero
  }

  ghost predicate UnitLaw<W(!new)>(g: Register<W>) {
    && Bits(g, g.unit, WIDTH) == [true] + Zeros(WIDTH - 1)
    && Bits(g, g.one, WIDTH) == Zeros(WIDTH - 1) + [true]
  }

  ghost predicate Lawful<W(!new)>(g: Register<W>) {
    && (forall x, y :: XorLaw(g, x, y))
    && (forall x, y :: ShlLaw(g, x, y))
    && (forall x :: StepLaw(g, x))
    && UnitLaw(g)
  }

  /** The first `n` bits of `x`. */
  function Bits<W>(g: Register<W>, x: W, n: nat): (s: Poly)
    ensures |s| == n
    decreases n
  {
    if n == 0 then [] else [g.top(x)] + Bits(g, g.shl(x), n - 1)
  }

  /** `x` without them. */
  function Left<W>(g: Register<W>, x: W, n: nat): W
    decreases n
  {
    if n == 0 then x else Left(g, g.shl(x), n - 1)
  }

  /** One bit of a message comes in. */
  function Push<W>(g: Register<W>, r: W, b: bool): W {
    g.step(if b then g.xor(r, g.unit) else r)
  }

  function PushAll<W>(g: Register<W>, r: W, m: Poly): W
    decreases |m|
  {
    if m == [] then r else PushAll(g, Push(g, r, m[0]), m[1..])
  }

  function Iterate<W>(f: W -> W, x: W, n: nat): W
    decreases n
  {
    if n == 0 then x else Iterate(f, f(x), n - 1)
  }

  // ---------- words as bits ----------

  lemma XorCons(i: bool, j: bool, a: Poly, b: Poly)
    requires |a| == |b|
    ensures Xor([i] + a, [j] + b) == [i != j] + Xor(a, b)
  {
  }

  lemma {:induction false} BitsXor<W(!new)>(g: Register<W>, x: W, y: W, n: nat)
    requires Lawful(g)
    ensures Bits(g, g.xor(x, y), n) == Xor(Bits(g, x, n), Bits(g, y, n))
    decreases n
  {
    if n > 0 {
      assert XorLaw(g, x, y);
      BitsXor(g, g.shl(x), g.shl(y), n - 1);
      XorCons(g.top(x), g.top(y), Bits(g, g.shl(x), n - 1), Bits(g, g.shl(y), n - 1));
    }
  }

  lemma {:induction false} BitsSnoc<W(!new)>(g: Register<W>, x: W, n: nat)
    ensures Bits(g, x, n + 1) == Bits(g, x, n) + [g.top(Left(g, x, n))]
    decreases n
  {
    if n > 0 {
      BitsSnoc(g, g.shl(x), n - 1);
    }
  }

  lemma {:induction false} LeftAdd<W>(g: Register<W>, x: W, m: nat, n: nat)
    ensures Left(g, Left(g, x, m), n) == Left(g, x, m + n)
    decreases m
  {
    if m > 0 {
      LeftAdd(g, g.shl(x), m - 1, n);
    }
  }

  lemma LeftFour<W>(g: Register<W>, x: W, a: W, b: W, c: W, d: W)
    requires Left(g, x, 8) == a && Left(g, a, 8) == b && Left(g, b, 8) == c && Left(g, c, 8) == d
    ensures Left(g, x, 32) == d
  {
    LeftAdd(g, x, 8, 8);
    LeftAdd(g, x, 16, 8);
    LeftAdd(g, x, 24, 8);
  }

  lemma {:induction false} BitsApart<W(!new)>(g: Register<W>, x: W, y: W, n: nat)
    requires Lawful(g) && Bits(g, x, n) == Bits(g, y, n) && Left(g, x, n) == Left(g, y, n)
    ensures x == y
    decreases n
  {
    if n > 0 {
      assert Bits(g, x, n)[0] == Bits(g, y, n)[0];
      assert Bits(g, g.shl(x), n - 1) == Bits(g, x, n)[1..] == Bits(g, g.shl(y), n - 1);
      BitsApart(g, g.shl(x), g.shl(y), n - 1);
      assert ShlLaw(g, x, y);
    }
  }

  /** The bits tell the word. */
  lemma BitsEqual<W(!new)>(g: Register<W>, x: W, y: W)
    requires Lawful(g)
    ensures Bits(g, x, WIDTH) == Bits(g, y, WIDTH) <==> x == y
  {
    if Bits(g, x, WIDTH) == Bits(g, y, WIDTH) {
      assert StepLaw(g, x) && StepLaw(g, y);
      BitsApart(g, x, y, WIDTH);
    }
  }

  lemma ZeroBits<W(!new)>(g: Register<W>, n: nat)
    requires Lawful(g)
    ensures Bits(g, g.zero, n) == Zeros(n) && !g.top(g.zero)
  {
    assert StepLaw(g, g.zero) && XorLaw(g, g.zero, g.zero);
    BitsXor(g, g.zero, g.zero, n);
    assert forall i :: 0 <= i < n ==> !Xor(Bits(g, g.zero, n), Bits(g, g.zero, n))[i];
  }

  lemma BitsShl<W(!new)>(g: Register<W>, x: W)
    requires Lawful(g)
    ensures Bits(g, g.shl(x), WIDTH) == Bits(g, x, WIDTH)[1..] + [false]
  {
    BitsSnoc(g, g.shl(x), WIDTH - 1);
    assert Left(g, g.shl(x), WIDTH - 1) == Left(g, x, WIDTH);
    assert StepLaw(g, x);
    ZeroBits(g, 0);
  }

  // ---------- dividing ----------

  ghost function Divisor<W(!new)>(g: Register<W>): Poly {
    Bits(g, g.poly, WIDTH)
  }

  lemma BitsStep<W(!new)>(g: Register<W>, x: W)
    requires Lawful(g)
    ensures Bits(g, g.step(x), WIDTH) == Less(Bits(g, x, WIDTH)[1..] + [false], g.top(x), Divisor(g))
  {
    assert StepLaw(g, x);
    BitsShl(g, x);
    BitsXor(g, g.shl(x), g.poly, WIDTH);
    assert Divisor(g) + Zeros(0) == Divisor(g);
  }

  lemma FlipFirst(h: Poly)
    requires h != []
    ensures Xor(h, [true] + Zeros(|h| - 1)) == [!h[0]] + h[1..]
  {
  }

  lemma BitsUnit<W(!new)>(g: Register<W>, r: W)
    requires Lawful(g)
    ensures Bits(g, g.xor(r, g.unit), WIDTH) == [!Bits(g, r, WIDTH)[0]] + Bits(g, r, WIDTH)[1..]
  {
    BitsXor(g, r, g.unit, WIDTH);
    assert UnitLaw(g);
    FlipFirst(Bits(g, r, WIDTH));
  }

  lemma BitsPush<W(!new)>(g: Register<W>, r: W, b: bool)
    requires Lawful(g)
    ensures Bits(g, Push(g, r, b), WIDTH)
         == Less(Bits(g, r, WIDTH)[1..] + [false], Bits(g, r, WIDTH)[0] != b, Divisor(g))
  {
    var h := Bits(g, r, WIDTH);
    if b {
      var x := g.xor(r, g.unit);
      BitsUnit(g, r);
      BitsStep(g, x);
      assert Bits(g, x, WIDTH)[0] == g.top(x);
      assert Bits(g, x, WIDTH)[1..] == h[1..];
    } else {
      BitsStep(g, r);
      assert h[0] == g.top(r);
    }
  }

  /** What is still to divide when the register holds the bits `h` and the bits `m` are still to come. */
  function Dividend(h: Poly, m: Poly): (d: Poly)
    requires |h| == WIDTH
    ensures |d| == WIDTH + |m|
  {
    Xor(h + Zeros(|m|), m + Zeros(WIDTH))
  }

  lemma DividendStep(h: Poly, m: Poly, divisor: Poly)
    requires |h| == |divisor| == WIDTH && m != []
    ensures Less(Dividend(h, m)[1..], Dividend(h, m)[0], divisor)
         == Dividend(Less(h[1..] + [false], h[0] != m[0], divisor), m[1..])
  {
    var d := Dividend(h, m)[1..];
    var h' := h[1..] + [false];
    assert Dividend(h, m)[0] == (h[0] != m[0]);
    assert d == Dividend(h', m[1..]);
    LessDividend(h', m[1..], divisor);
  }

  lemma LessDividend(h: Poly, m: Poly, divisor: Poly)
    requires |h| == |divisor| == WIDTH
    ensures Less(Dividend(h, m), true, divisor) == Dividend(Less(h, true, divisor), m)
  {
  }

  /** The register computes the remainder of what it held and the message times x^32. */
  lemma {:induction false} PushDivides<W(!new)>(g: Register<W>, r: W, m: Poly)
    requires Lawful(g)
    ensures Bits(g, PushAll(g, r, m), WIDTH) == Remainder(Dividend(Bits(g, r, WIDTH), m), Divisor(g))
    decreases |m|
  {
    var h := Bits(g, r, WIDTH);
    if m == [] {
      assert Dividend(h, m) == h;
    } else {
      BitsPush(g, r, m[0]);
      DividendStep(h, m, Divisor(g));
      PushDivides(g, Push(g, r, m[0]), m[1..]);
    }
  }

  // ---------- several bits at once ----------

  lemma {:induction false} PushAdd<W(!new)>(g: Register<W>, r: W, m: Poly, n: Poly)
    ensures PushAll(g, r, m + n) == PushAll(g, PushAll(g, r, m), n)
    decreases |m|
  {
    if m == [] {
      assert m + n == n;
    } else {
      assert (m + n)[1..] == m[1..] + n;
      PushAdd(g, Push(g, r, m[0]), m[1..], n);
    }
  }

  lemma XorSwap<W(!new)>(g: Register<W>, x: W, y: W, z: W)
    requires Lawful(g)
    ensures g.xor(g.xor(x, y), z) == g.xor(g.xor(x, z), y)
  {
    BitsXor(g, x, y, WIDTH);
    BitsXor(g, x, z, WIDTH);
    BitsXor(g, g.xor(x, y), z, WIDTH);
    BitsXor(g, g.xor(x, z), y, WIDTH);
    var a, b, c := Bits(g, x, WIDTH), Bits(g, y, WIDTH), Bits(g, z, WIDTH);
    assert Xor(Xor(a, b), c) == Xor(Xor(a, c), b);
    BitsEqual(g, g.xor(g.xor(x, y), z), g.xor(g.xor(x, z), y));
  }

  /** A word can be shifted in bit by bit, or be added as a whole first. */
  lemma Align<W(!new)>(g: Register<W>, r: W, s: W)
    requires Lawful(g)
    ensures g.step(g.xor(r, s)) == g.xor(Push(g, r, g.top(s)), g.shl(s))
  {
    UnitShl(g);
    var q := if g.top(s) then g.xor(r, g.unit) else r;
    assert XorLaw(g, r, s) && XorLaw(g, r, g.unit);
    assert StepLaw(g, g.xor(r, s)) && StepLaw(g, q) && StepLaw(g, g.shl(r));
    XorSwap(g, g.shl(r), g.shl(s), g.poly);
  }

  lemma UnitShl<W(!new)>(g: Register<W>)
    requires Lawful(g)
    ensures g.top(g.unit) && g.shl(g.unit) == g.zero
  {
    assert UnitLaw(g);
    assert g.top(g.unit) by {
      assert Bits(g, g.unit, WIDTH)[0];
    }
    BitsShl(g, g.unit);
    ZeroBits(g, WIDTH);
    assert ([true] + Zeros(WIDTH - 1))[1..] + [false] == Zeros(WIDTH);
    BitsEqual(g, g.shl(g.unit), g.zero);
  }

  lemma {:induction false} PushWord<W(!new)>(g: Register<W>, r: W, s: W, n: nat)
    requires Lawful(g)
    ensures Iterate(g.step, g.xor(r, s), n) == g.xor(PushAll(g, r, Bits(g, s, n)), Left(g, s, n))
    decreases n
  {
    if n > 0 {
      Align(g, r, s);
      var b := g.top(s);
      assert Bits(g, s, n)[0] == b && Bits(g, s, n)[1..] == Bits(g, g.shl(s), n - 1);
      PushWord(g, Push(g, r, b), g.shl(s), n - 1);
    }
  }

  lemma {:induction false} PushZeros<W(!new)>(g: Register<W>, r: W, n: nat)
    ensures PushAll(g, r, Zeros(n)) == Iterate(g.step, r, n)
    decreases n
  {
    if n > 0 {
      assert Zeros(n)[1..] == Zeros(n - 1);
      PushZeros(g, g.step(r), n - 1);
    }
  }

  /** The steps for what leaves the register can be taken alone: nothing else reaches the first bit. */
  lemma PushApartFromLow<W(!new)>(g: Register<W>, s: W, high: W, low: W, y: W, n: nat)
    requires Lawful(g) && s == g.xor(high, low) && Bits(g, low, n) == Zeros(n) && Left(g, low, n) == y
    ensures Iterate(g.step, s, n) == g.xor(Iterate(g.step, high, n), y)
  {
    PushWord(g, high, low, n);
    PushZeros(g, high, n);
  }

  // ---------- what the remainder detects ----------

  /** A word with given last bits. */
  function Word<W>(g: Register<W>, m: Poly): W
    decreases |m|
  {
    if m == [] then g.zero
    else
      var x := g.shl(Word(g, m[..|m| - 1]));
      if m[|m| - 1] then g.xor(x, g.one) else x
  }

  lemma NextBit(m: Poly)
    requires m != []
    ensures (Zeros(WIDTH) + m)[|m|..] == (Zeros(WIDTH) + m[..|m| - 1])[|m| - 1..][1..] + [m[|m| - 1]]
  {
  }

  lemma SetLast(h: Poly)
    requires |h| == WIDTH - 1
    ensures Xor(h + [false], Zeros(WIDTH - 1) + [true]) == h + [true]
  {
  }

  lemma {:induction false} WordBits<W(!new)>(g: Register<W>, m: Poly)
    requires Lawful(g)
    ensures Bits(g, Word(g, m), WIDTH) == (Zeros(WIDTH) + m)[|m|..]
    decreases |m|
  {
    if m == [] {
      ZeroBits(g, WIDTH);
      assert Zeros(WIDTH) + m == Zeros(WIDTH);
    } else {
      var x := Word(g, m[..|m| - 1]);
      WordBits(g, m[..|m| - 1]);
      NextBit(m);
      BitsShl(g, x);
      assert UnitLaw(g);
      BitsXor(g, g.shl(x), g.one, WIDTH);
      SetLast(Bits(g, x, WIDTH)[1..]);
    }
  }

  lemma {:induction false} IterateApart<W(!new)>(g: Register<W>, x: W, y: W, n: nat)
    requires Lawful(g) && x != y
    ensures Iterate(g.step, x, n) != Iterate(g.step, y, n)
    decreases n
  {
    if n > 0 {
      assert ShlLaw(g, x, y);
      IterateApart(g, g.step(x), g.step(y), n - 1);
    }
  }

  lemma XorApart<W(!new)>(g: Register<W>, r: W, x: W, y: W)
    requires Lawful(g) && g.xor(r, x) == g.xor(r, y)
    ensures x == y
  {
    BitsXor(g, r, x, WIDTH);
    BitsXor(g, r, y, WIDTH);
    var a, b, c := Bits(g, r, WIDTH), Bits(g, x, WIDTH), Bits(g, y, WIDTH);
    forall i | 0 <= i < WIDTH ensures b[i] == c[i] {
      assert Xor(a, b)[i] == Xor(a, c)[i];
    }
    BitsEqual(g, x, y);
  }

  /** Different words give different registers, and so do different registers before equal bits. */
  lemma WindowApart<W(!new)>(g: Register<W>, r: W, a: Poly, b: Poly)
    requires Lawful(g) && |a| == |b| == WIDTH && a != b
    ensures PushAll(g, r, a) != PushAll(g, r, b)
  {
    var s, t := Word(g, a), Word(g, b);
    WordBits(g, a);
    WordBits(g, b);
    assert (Zeros(WIDTH) + a)[WIDTH..] == a && (Zeros(WIDTH) + b)[WIDTH..] == b;
    assert Bits(g, s, WIDTH) == a && Bits(g, t, WIDTH) == b;
    if g.xor(r, s) == g.xor(r, t) {
      XorApart(g, r, s, t);
    }
    IterateApart(g, g.xor(r, s), g.xor(r, t), WIDTH);
    PushWord(g, r, s, WIDTH);
    PushWord(g, r, t, WIDTH);
    var x, y := PushAll(g, r, a), PushAll(g, r, b);
    assert StepLaw(g, s) && StepLaw(g, t) && StepLaw(g, x) && StepLaw(g, y);
  }

  lemma {:induction false} PushApart<W(!new)>(g: Register<W>, x: W, y: W, m: Poly)
    requires Lawful(g) && x != y
    ensures PushAll(g, x, m) != PushAll(g, y, m)
    decreases |m|
  {
    if m != [] {
      var b := m[0];
      var x', y' := if b then g.xor(x, g.unit) else x, if b then g.xor(y, g.unit) else y;
      if x' == y' {
        assert b;
        XorApartLeft(g, x, y, g.unit);
      }
      assert ShlLaw(g, x', y');
      PushApart(g, Push(g, x, b), Push(g, y, b), m[1..]);
    }
  }

  lemma XorApartLeft<W(!new)>(g: Register<W>, x: W, y: W, z: W)
    requires Lawful(g) && g.xor(x, z) == g.xor(y, z)
    ensures x == y
  {
    BitsXor(g, x, z, WIDTH);
    BitsXor(g, y, z, WIDTH);
    var a, b, c := Bits(g, z, WIDTH), Bits(g, x, WIDTH), Bits(g, y, WIDTH);
    forall i | 0 <= i < WIDTH ensures b[i] == c[i] {
      assert Xor(b, a)[i] == Xor(c, a)[i];
    }
    BitsEqual(g, x, y);
  }

  lemma BetweenApart<W(!new)>(g: Register<W>, r: W, pre: Poly, a: Poly, b: Poly, post: Poly)
    requires Lawful(g) && |a| == |b| == WIDTH && a != b
    ensures PushAll(g, r, pre + (a + post)) != PushAll(g, r, pre + (b + post))
  {
    var x := PushAll(g, r, pre);
    PushAdd(g, r, pre, a + post);
    PushAdd(g, r, pre, b + post);
    PushAdd(g, x, a, post);
    PushAdd(g, x, b, post);
    WindowApart(g, x, a, b);
    PushApart(g, PushAll(g, x, a), PushAll(g, x, b), post);
  }

  lemma ThreeParts(m: Poly, i: nat, j: nat)
    requires i <= j <= |m|
    ensures m == m[..i] + (m[i..j] + m[j..])
  {
  }

  lemma WindowDetected<W(!new)>(g: Register<W>, r: W, m: Poly, n: Poly, i: nat)
    requires Lawful(g) && |m| == |n| && m != n && i + WIDTH <= |m|
    requires m[..i] == n[..i] && m[i + WIDTH..] == n[i + WIDTH..]
    ensures PushAll(g, r, m) != PushAll(g, r, n)
  {
    var j := i + WIDTH;
    ThreeParts(m, i, j);
    ThreeParts(n, i, j);
    BetweenApart(g, r, m[..i], m[i..j], n[i..j], m[j..]);
  }

  /** Short messages are told apart as if zeros followed them. */
  lemma ShortDetected<W(!new)>(g: Register<W>, r: W, m: Poly, n: Poly)
    requires Lawful(g) && |m| == |n| <= WIDTH && m != n
    ensures PushAll(g, r, m) != PushAll(g, r, n)
  {
    var z := Zeros(WIDTH - |m|);
    assert (m + z)[..|m|] == m && (n + z)[..|m|] == n;
    WindowApart(g, r, m + z, n + z);
    PushAdd(g, r, m, z);
    PushAdd(g, r, n, z);
  }

  /** The end of a window of 32 bits from `i` on, in a message of `n` bits. */
  function WindowEnd(i: nat, n: nat): nat {
    if i + WIDTH <= n then i + WIDTH else n
  }

  /** Messages that differ within 32 consecutive bits only leave different remainders. */
  lemma BurstDetected<W(!new)>(g: Register<W>, r: W, m: Poly, n: Poly, i: nat)
    requires Lawful(g) && |m| == |n| && m != n && i <= |m|
    requires m[..i] == n[..i] && m[WindowEnd(i, |m|)..] == n[WindowEnd(i, |m|)..]
    ensures PushAll(g, r, m) != PushAll(g, r, n)
  {
    if |m| <= WIDTH {
      ShortDetected(g, r, m, n);
    } else if i + WIDTH <= |m| {
      WindowDetected(g, r, m, n, i);
    } else {
      var k := |m| - WIDTH;
      assert m[..k] == m[..i][..k] && n[..k] == n[..i][..k];
      WindowDetected(g, r, m, n, k);
    }
  }
}
