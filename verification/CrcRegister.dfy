/** The 32-bit shift register of the CRC: its step and that the laws hold for it. */
module CrcRegister {
  import opened Polynomials
  import opened Registers

  const POLY: bv32 := 0x04c1_1db7  // CRC32_POLY

  function Shl(x: bv32): bv32 {
    x << 1
  }

  function Sub(c: bv32): bv32 {
    if c & 0x8000_0000 != 0 then 0x04c1_1db7 else 0
  }

  /** One turn of the loop that builds the table. */
  function Shift1(c: bv32): bv32 {
    Shl(c) ^ Sub(c)
  }

  function Top(x: bv32): bool {
    x & 0x8000_0000 != 0
  }

  function Add(x: bv32, y: bv32): bv32 {
    x ^ y
  }

  const W32: Register<bv32> := Register(Top, Shl, Add, 0, 0x8000_0000, 1, 0x04c1_1db7, Shift1)

  // ---------- the laws ----------

  lemma XorZero(x: bv32)
    ensures x ^ 0 == x
  {
  }

  lemma ShiftIsSub(c: bv32)
    ensures Shift1(c) == Shl(c) ^ Sub(c)
  {
  }

  /** The turn as the source has it. */
  lemma ShiftIsTurn(c: bv32)
    ensures Shift1(c) == if c & 0x8000_0000 != 0 then Shl(c) ^ 0x04c1_1db7 else Shl(c)
  {
    ShiftIsSub(c);
    XorZero(Shl(c));
    if c & 0x8000_0000 != 0 {
      assert Sub(c) == 0x04c1_1db7;
    } else {
      assert Sub(c) == 0;
    }
  }

  lemma XorFacts(x: bv32, y: bv32)
    ensures (x ^ y) & 0x8000_0000 != 0 <==> ((x & 0x8000_0000 != 0) != (y & 0x8000_0000 != 0))
    ensures Shl(x ^ y) == Shl(x) ^ Shl(y)
  {
  }

  lemma ShlFacts(x: bv32, y: bv32)
    requires (x & 0x8000_0000 != 0) == (y & 0x8000_0000 != 0) && Shl(x) == Shl(y)
    ensures x == y
  {
  }

  lemma SubFacts(u: bv32, v: bv32, x: bv32, y: bv32)
    requires u == 0x04c1_1db7 || u == 0
    requires v == 0x04c1_1db7 || v == 0
    requires Shl(x) ^ u == Shl(y) ^ v
    ensures u == v && Shl(x) == Shl(y)
  {
  }

  lemma ShiftApartFrom(x: bv32, y: bv32, u: bv32, v: bv32)
    requires u == if x & 0x8000_0000 != 0 then 0x04c1_1db7 else 0
    requires v == if y & 0x8000_0000 != 0 then 0x04c1_1db7 else 0
    requires Shl(x) ^ u == Shl(y) ^ v
    ensures x == y
  {
    SubFacts(u, v, x, y);
    ShlFacts(x, y);
  }

  lemma ShiftApart(x: bv32, y: bv32)
    requires Shift1(x) == Shift1(y)
    ensures x == y
  {
    ShiftIsSub(x);
    ShiftIsSub(y);
    ShiftApartFrom(x, y, Sub(x), Sub(y));
  }

  lemma TopIs(x: bv32, i: bool)
    requires i == (x & 0x8000_0000 != 0)
    ensures W32.top(x) == i
  {
  }

  lemma XorIs(x: bv32, y: bv32, z: bv32)
    requires z == x ^ y
    ensures W32.xor(x, y) == z
  {
  }

  lemma TopOfXorIs(x: bv32, y: bv32, z: bv32, i: bool, j: bool)
    requires z == x ^ y && i == (x & 0x8000_0000 != 0) && j == (y & 0x8000_0000 != 0)
    requires (z & 0x8000_0000 != 0) == (i != j)
    ensures W32.top(W32.xor(x, y)) == (W32.top(x) != W32.top(y))
  {
    XorIs(x, y, z);
    TopIs(x, i);
    TopIs(y, j);
    TopIs(z, i != j);
  }

  lemma TopOfXor(x: bv32, y: bv32)
    ensures W32.top(W32.xor(x, y)) == (W32.top(x) != W32.top(y))
  {
    XorFacts(x, y);
    TopOfXorIs(x, y, x ^ y, x & 0x8000_0000 != 0, y & 0x8000_0000 != 0);
  }

  lemma ShlOfXor(x: bv32, y: bv32)
    ensures W32.shl(W32.xor(x, y)) == W32.xor(W32.shl(x), W32.shl(y))
  {
    XorFacts(x, y);
  }

  lemma XorLaw32(x: bv32, y: bv32)
    ensures XorLaw(W32, x, y)
  {
    TopOfXor(x, y);
    ShlOfXor(x, y);
  }

  lemma ShlNamed(x: bv32, y: bv32)
    ensures Top(x) == Top(y) && Shl(x) == Shl(y) ==> x == y
  {
  }

  lemma ShiftNamed(x: bv32, y: bv32)
    ensures Shift1(x) == Shift1(y) ==> x == y
  {
    if Shift1(x) == Shift1(y) {
      ShiftApart(x, y);
    }
  }

  lemma ShlLaw32(x: bv32, y: bv32)
    ensures ShlLaw(W32, x, y)
  {
    ShlNamed(x, y);
    ShiftNamed(x, y);
  }

  lemma Shl8(x: bv32)
    ensures Shl(Shl(Shl(Shl(Shl(Shl(Shl(Shl(x)))))))) == x << 8
  {
  }

  lemma Left8(x: bv32, y: bv32)
    requires y == x << 8
    ensures Left(W32, x, 8) == y
  {
    Shl8(x);
  }

  lemma Shifts(x: bv32) returns (a: bv32, b: bv32, c: bv32)
    ensures a == x << 8 && b == a << 8 && c == b << 8 && 0 == c << 8
  {
    a := x << 8;
    b := a << 8;
    c := b << 8;
  }

  lemma LeftAll(x: bv32)
    ensures Left(W32, x, 32) == 0
  {
    var a, b, c := Shifts(x);
    Left8(x, a);
    Left8(a, b);
    Left8(b, c);
    Left8(c, 0);
    LeftFour(W32, x, a, b, c, 0);
  }

  lemma StepNamed(x: bv32)
    ensures Shift1(x) == if Top(x) then Add(Shl(x), 0x04c1_1db7) else Shl(x)
    ensures Add(x, 0) == x
  {
    ShiftIsTurn(x);
    XorZero(x);
  }

  lemma StepLaw32(x: bv32)
    ensures StepLaw(W32, x)
  {
    StepNamed(x);
    LeftAll(x);
  }

  lemma {:induction false} ZeroBits32(n: nat)
    ensures Bits(W32, 0, n) == Zeros(n)
  {
    if n > 0 {
      assert W32.shl(0) == 0;
      ZeroBits32(n - 1);
      assert Zeros(n) == [false] + Zeros(n - 1);
    }
  }

  lemma UnitBits()
    ensures Bits(W32, 0x8000_0000, 32) == [true] + Zeros(31)
  {
    assert W32.shl(0x8000_0000) == 0;
    ZeroBits32(31);
  }

  lemma {:induction false} FalseBits(x: bv32, k: nat, n: nat, y: bv32)
    requires Left(W32, x, k) == y && forall i :: 0 <= i < k ==> !Top(Left(W32, x, i))
    ensures Bits(W32, x, k + n) == Zeros(k) + Bits(W32, y, n)
    decreases k
  {
    if k > 0 {
      assert !Top(Left(W32, x, 0));
      forall i | 0 <= i < k - 1 ensures !Top(Left(W32, W32.shl(x), i)) {
        assert !Top(Left(W32, x, i + 1));
      }
      FalseBits(W32.shl(x), k - 1, n, y);
      assert Zeros(k) + Bits(W32, y, n) == [false] + (Zeros(k - 1) + Bits(W32, y, n));
    } else {
      assert Zeros(0) + Bits(W32, y, n) == Bits(W32, y, n);
    }
  }

  /** Numbers below `c` have their first bit clear for `i` more turns. */
  predicate Room(c: bv32, i: nat)
    decreases i
  {
    c <= 0x8000_0000 && (i == 0 || (c <= 0x4000_0000 && Room(Shl(c), i - 1)))
  }

  lemma RoomStep(x: bv32, c: bv32)
    requires x < c
    ensures c <= 0x8000_0000 ==> !Top(x)
    ensures c <= 0x4000_0000 ==> Shl(x) < Shl(c)
  {
  }

  lemma {:induction false} NoTop(x: bv32, c: bv32, k: nat)
    requires x < c && Room(c, k)
    ensures forall i :: 0 <= i <= k ==> !Top(Left(W32, x, i))
    decreases k
  {
    RoomStep(x, c);
    if k > 0 {
      NoTop(Shl(x), Shl(c), k - 1);
      forall i | 0 < i <= k ensures !Top(Left(W32, x, i)) {
        assert !Top(Left(W32, Shl(x), i - 1));
      }
    }
  }

  lemma Eight(x: bv32, y: bv32, n: nat)
    requires y == x << 8 && x < 0x0100_0000
    ensures Bits(W32, x, 8 + n) == Zeros(8) + Bits(W32, y, n)
  {
    Left8(x, y);
    assert Room(0x0100_0000, 7);
    NoTop(x, 0x0100_0000, 7);
    FalseBits(x, 8, n, y);
  }

  /** `k` bits are clear and the next one is set. */
  predicate FirstSet(x: bv32, k: nat)
    decreases k
  {
    if k == 0 then Top(x) else !Top(x) && FirstSet(Shl(x), k - 1)
  }

  lemma {:induction false} FirstSetBits(x: bv32, k: nat)
    requires FirstSet(x, k)
    ensures Bits(W32, x, k + 1) == Zeros(k) + [true]
    decreases k
  {
    if k > 0 {
      FirstSetBits(Shl(x), k - 1);
      assert Zeros(k) + [true] == [false] + (Zeros(k - 1) + [true]);
    }
  }

  predicate AllSet(x: bv32, k: nat)
    decreases k
  {
    k == 0 || (Top(x) && AllSet(Shl(x), k - 1))
  }

  function Ones(n: nat): (s: Poly)
    ensures |s| == n
  {
    seq(n, _ => true)
  }

  lemma {:induction false} AllSetBits(x: bv32, k: nat)
    requires AllSet(x, k)
    ensures Bits(W32, x, k) == Ones(k)
    decreases k
  {
    if k > 0 {
      AllSetBits(Shl(x), k - 1);
      assert Ones(k) == [true] + Ones(k - 1);
    }
  }

  lemma OneBits()
    ensures Bits(W32, 1, 32) == Zeros(31) + [true]
  {
    assert FirstSet(0x100_0000, 7);
    assert FirstSet(0x1_0000, 15);
    assert FirstSet(0x100, 23);
    assert FirstSet(1, 31);
    FirstSetBits(1, 31);
  }

  lemma AllBits()
    ensures Bits(W32, 0xffff_ffff, 32) == Ones(32)
  {
    assert AllSet(0xff00_0000, 8);
    assert AllSet(0xffff_0000, 16);
    assert AllSet(0xffff_ff00, 24);
    assert AllSet(0xffff_ffff, 32);
    AllSetBits(0xffff_ffff, 32);
  }

  lemma Lawful32()
    ensures Lawful(W32)
  {
    forall x, y ensures XorLaw(W32, x, y) { XorLaw32(x, y); }
    forall x, y ensures ShlLaw(W32, x, y) { ShlLaw32(x, y); }
    forall x ensures StepLaw(W32, x) { StepLaw32(x); }
    UnitBits();
    OneBits();
  }
}
