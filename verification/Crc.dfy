/** The two CRC-32 programs: table-driven with the first bit first, and bit-serial with the last bit first. */
module Crc {
  import opened Polynomials
  import opened Registers
  import opened CrcRegister

  /** A byte where it meets the register. */
  function Byte(b: bv8): bv32 {
    (b as bv32) << 24
  }

  /** A byte goes through the register. */
  function Feed(r: bv32, b: bv8): bv32 {
    Iterate(W32.step, W32.xor(r, Byte(b)), 8)
  }

  function FeedAll(r: bv32, m: seq<bv8>): bv32 {
    if m == [] then r else Feed(FeedAll(r, m[..|m| - 1]), m[|m| - 1])
  }

  /** The bits of a message, each byte with its first bit first. */
  function MessageBits(m: seq<bv8>): Poly {
    if m == [] then [] else MessageBits(m[..|m| - 1]) + Bits(W32, Byte(m[|m| - 1]), 8)
  }

  lemma ByteGone(b: bv8)
    ensures 0 == Byte(b) << 8
  {
  }

  lemma FeedPushes(r: bv32, b: bv8)
    ensures Feed(r, b) == PushAll(W32, r, Bits(W32, Byte(b), 8))
  {
    Lawful32();
    PushWord(W32, r, Byte(b), 8);
    ByteGone(b);
    Left8(Byte(b), 0);
    assert StepLaw(W32, PushAll(W32, r, Bits(W32, Byte(b), 8)));
  }

  lemma {:induction false} FeedAllPushes(r: bv32, m: seq<bv8>)
    ensures FeedAll(r, m) == PushAll(W32, r, MessageBits(m))
  {
    if m != [] {
      var k := |m| - 1;
      FeedAllPushes(r, m[..k]);
      FeedPushes(FeedAll(r, m[..k]), m[k]);
      PushAdd(W32, r, MessageBits(m[..k]), Bits(W32, Byte(m[k]), 8));
    }
  }

  /** The generator without its highest term. */
  ghost function Generator(): Poly {
    Divisor(W32)
  }

  /** The message times x^32 with its first 32 bits complemented, as section 3.2.9 of IEEE 802.3 has it. */
  function Preset(m: Poly): Poly {
    Xor(Ones(32) + Zeros(|m|), m + Zeros(32))
  }

  /** What the register holds after the whole message. */
  lemma FeedDivides(m: seq<bv8>)
    ensures Bits(W32, FeedAll(0xffff_ffff, m), 32) == Remainder(Preset(MessageBits(m)), Generator())
  {
    Lawful32();
    AllBits();
    FeedAllPushes(0xffff_ffff, m);
    PushDivides(W32, 0xffff_ffff, MessageBits(m));
  }

  lemma XorZeros(m: nat, d: Poly)
    requires |d| == 32 + m
    ensures Xor(Zeros(32) + Zeros(m), d) == d
  {
  }

  lemma FeedDividesFromZero(m: seq<bv8>)
    ensures Bits(W32, FeedAll(0, m), 32) == Remainder(MessageBits(m) + Zeros(32), Generator())
  {
    Lawful32();
    ZeroBits32(32);
    FeedAllPushes(0, m);
    PushDivides(W32, 0, MessageBits(m));
    XorZeros(|MessageBits(m)|, MessageBits(m) + Zeros(32));
  }

  // ---------- the table ----------

  function Entry(i: nat): bv32
    requires i < 256
  {
    Iterate(W32.step, (i as bv32) << 24, 8)
  }

  /** The register in two parts: the byte that leaves it, met by the byte that comes, and the rest. */
  lemma HighPart(c: bv32, b: bv8, x: bv32)
    requires x == (c >> 24) ^ (b as bv32)
    ensures x < 256
  {
  }

  lemma LowPart(c: bv32, low: bv32, y: bv32)
    requires low == c & 0x00ff_ffff && y == c << 8
    ensures low < 0x0100_0000 && y == low << 8
  {
  }

  lemma Parts(c: bv32, b: bv8, x: bv32, high: bv32, low: bv32)
    requires x == (c >> 24) ^ (b as bv32) && high == x << 24 && low == c & 0x00ff_ffff
    ensures c ^ Byte(b) == high ^ low
  {
  }

  lemma AddParts(c: bv32, b: bv8, high: bv32, low: bv32)
    requires c ^ Byte(b) == high ^ low
    ensures W32.xor(c, Byte(b)) == W32.xor(high, low)
  {
  }

  lemma RoundTrip(x: bv32, i: nat)
    requires x < 256 && i == x as nat
    ensures i < 256 && i as bv32 == x
  {
  }

  lemma LowBits(low: bv32, y: bv32)
    requires low < 0x0100_0000 && y == low << 8
    ensures Bits(W32, low, 8) == Zeros(8) && Left(W32, low, 8) == y
  {
    Left8(low, y);
    Eight(low, y, 0);
    assert Zeros(8) + Bits(W32, y, 0) == Zeros(8);
  }

  lemma FeedParts(c: bv32, b: bv8, high: bv32, low: bv32, y: bv32)
    requires W32.xor(c, Byte(b)) == W32.xor(high, low) && low < 0x0100_0000 && y == low << 8
    ensures Feed(c, b) == W32.xor(Iterate(W32.step, high, 8), y)
  {
    LowBits(low, y);
    Lawful32();
    PushApartFromLow(W32, W32.xor(c, Byte(b)), high, low, y, 8);
  }

  lemma EntryIs(i: nat, x: bv32, high: bv32)
    requires i < 256 && i as bv32 == x && high == x << 24
    ensures Entry(i) == Iterate(W32.step, high, 8)
  {
  }

  lemma FeedHigh(c: bv32, b: bv8, high: bv32, low: bv32, y: bv32)
    requires c ^ Byte(b) == high ^ low && low < 0x0100_0000 && y == low << 8
    ensures Feed(c, b) == W32.xor(Iterate(W32.step, high, 8), y)
  {
    AddParts(c, b, high, low);
    FeedParts(c, b, high, low, y);
  }

  lemma FeedTable(c: bv32, b: bv8, x: bv32, high: bv32, y: bv32)
    requires x == (c >> 24) ^ (b as bv32) && high == x << 24 && y == c << 8
    ensures Feed(c, b) == W32.xor(Iterate(W32.step, high, 8), y)
  {
    var low := c & 0x00ff_ffff;
    LowPart(c, low, y);
    Parts(c, b, x, high, low);
    FeedHigh(c, b, high, low, y);
  }

  /** One byte through the table. */
  lemma TableStep(c: bv32, b: bv8, x: bv32, y: bv32, i: nat)
    requires x == (c >> 24) ^ (b as bv32) && y == c << 8 && i == x as nat
    ensures i < 256 && Feed(c, b) == W32.xor(Entry(i), y)
  {
    HighPart(c, b, x);
    RoundTrip(x, i);
    FeedTable(c, b, x, x << 24, y);
    EntryIs(i, x, x << 24);
  }

  // ---------- the program ----------

  /** The whole table. */
  function Entries(): (t: seq<bv32>)
    ensures |t| == 256
  {
    seq(256, i requires 0 <= i < 256 => Entry(i))
  }

  /** A built table is told from an empty one by its second entry. */
  lemma EntryOne()
    ensures Entries()[1] == POLY
  {
  }

  class TableCrc {
    const table: array<bv32>  // crc32_table

    constructor ()
      ensures fresh(table) && Usable()
    {
      table := new bv32[256](_ => 0);
    }

    ghost predicate Built()
      reads table
    {
      table[..] == Entries()
    }

    /** The test of the source tells whether the table is built. */
    ghost predicate Usable()
      reads table
    {
      table.Length == 256 && (table[1] == 0 || Built())
    }

    method MakeEntry(i: nat) returns (c: bv32)
      requires i < 256
      ensures c == Entries()[i]
    {
      c := (i as bv32) << 24;
      var j := 8;
      while j > 0
        invariant 0 <= j <= 8 && Iterate(W32.step, c, j) == Entry(i)
      {
        c := Turn(c);
        j := j - 1;
      }
    }

    method Turn(c: bv32) returns (d: bv32)
      ensures d == W32.step(c)
    {
      StepNamed(c);
      d := if c & 0x8000_0000 != 0 then (c << 1) ^ POLY else c << 1;
    }

    method Init()
      requires table.Length == 256
      modifies table
      ensures Built()
    {
      ghost var t := Entries();
      for i := 0 to 256
        invariant table[..i] == t[..i]
      {
        var c := MakeEntry(i);
        table[i] := c;
        assert table[..i + 1] == table[..i] + [c];
      }
    }

    method Step(crc: bv32, b: bv8) returns (crc': bv32)
      requires Built()
      ensures crc' == Feed(crc, b)
    {
      ghost var x, y := (crc >> 24) ^ (b as bv32), crc << 8;
      TableStep(crc, b, x, y, x as nat);
      var i: nat := ((crc >> 24) ^ (b as bv32)) as nat;
      assert table[i] == Entries()[i];
      crc' := (crc << 8) ^ table[i];
    }

    /** The loop of `crc32`, from any register. */
    method Run(crc0: bv32, buf: array<bv8>, len: int) returns (crc: bv32)
      requires Built() && len <= buf.Length
      ensures crc == FeedAll(crc0, if len <= 0 then [] else buf[..len])
    {
      crc := crc0;
      var p := 0;
      while len - p > 0
        invariant 0 <= p && (p <= len || p == 0)
        invariant crc == FeedAll(crc0, buf[..p])
      {
        assert buf[..p + 1][..p] == buf[..p];
        crc := Step(crc, buf[p]);
        p := p + 1;
      }
    }

    /** Builds the table if that is not yet done. */
    method EnsureBuilt()
      requires Usable()
      modifies table
      ensures Built() && (old(Built()) ==> table[..] == old(table[..]))
    {
      EntryOne();
      if table[1] == 0 {
        Init();
      }
    }

    method Crc32(buf: array<bv8>, len: int) returns (crc: bv32)
      requires Usable() && len <= buf.Length
      modifies table
      ensures Built() && (old(Built()) ==> table[..] == old(table[..]))
      ensures Bits(W32, crc, 32) == Checksum(if len <= 0 then [] else buf[..len])
    {
      EnsureBuilt();
      crc := Run(0xffff_ffff, buf, len);
      crc := Complemented(crc, if len <= 0 then [] else buf[..len]);
    }

    method Complemented(crc: bv32, ghost m: seq<bv8>) returns (r: bv32)
      requires crc == FeedAll(0xffff_ffff, m)
      ensures Bits(W32, r, 32) == Checksum(m)
    {
      ChecksumBits(m, crc);
      r := !crc;
    }
  }

  // ---------- what it computes ----------

  /** The complement of the remainder, as section 3.2.9 of IEEE 802.3 has it. */
  ghost function Checksum(m: seq<bv8>): Poly {
    Xor(Ones(32), Remainder(Preset(MessageBits(m)), Generator()))
  }

  lemma Complement(x: bv32)
    ensures !x == W32.xor(0xffff_ffff, x)
  {
  }

  lemma ComplementBits(x: bv32)
    ensures Bits(W32, !x, 32) == Xor(Ones(32), Bits(W32, x, 32))
  {
    Lawful32();
    AllBits();
    Complement(x);
    BitsXor(W32, 0xffff_ffff, x, 32);
  }

  lemma ChecksumBits(m: seq<bv8>, crc: bv32)
    requires crc == FeedAll(0xffff_ffff, m)
    ensures Bits(W32, !crc, 32) == Checksum(m)
  {
    FeedDivides(m);
    ComplementBits(crc);
  }

  /** The powers of the generator polynomial below 32, in section 3.2.9 of IEEE 802.3. */
  const POWERS: set<int> := {0, 1, 2, 4, 5, 7, 8, 10, 11, 12, 16, 22, 23, 26}

  lemma FirstOctet()
    ensures Bits(W32, 0x04c1_1db7, 32) == [false, false, false, false, false, true, false, false]
              + Bits(W32, 0xc11d_b700, 24)
  {
  }

  lemma SecondOctet()
    ensures Bits(W32, 0xc11d_b700, 24) == [true, true, false, false, false, false, false, true]
              + Bits(W32, 0x1db7_0000, 16)
  {
  }

  lemma ThirdOctet()
    ensures Bits(W32, 0x1db7_0000, 16) == [false, false, false, true, true, true, false, true]
              + Bits(W32, 0xb700_0000, 8)
  {
  }

  lemma LastOctet()
    ensures Bits(W32, 0xb700_0000, 8) == [true, false, true, true, false, true, true, true]
  {
    assert Bits(W32, 0x7000_0000, 4) == [false, true, true, true];
    assert Bits(W32, 0xb700_0000, 8) == [true, false, true, true] + Bits(W32, 0x7000_0000, 4);
  }

  lemma GeneratorOctets()
    ensures Generator() == [false, false, false, false, false, true, false, false]
                           + ([true, true, false, false, false, false, false, true]
                              + ([false, false, false, true, true, true, false, true]
                                 + [true, false, true, true, false, true, true, true]))
  {
    FirstOctet();
    SecondOctet();
    ThirdOctet();
    LastOctet();
  }

  lemma OctetPowers(s: Poly, i: nat)
    requires i < 32
    requires s == [false, false, false, false, false, true, false, false]
                  + ([true, true, false, false, false, false, false, true]
                     + ([false, false, false, true, true, true, false, true]
                        + [true, false, true, true, false, true, true, true]))
    ensures |s| == 32 && (s[31 - i] <==> i in POWERS)
  {
  }

  /** The divisor is x^32 + x^26 + x^23 + x^22 + x^16 + x^12 + x^11 + x^10 + x^8 + x^7 + x^5 + x^4 + x^2 + x + 1. */
  lemma GeneratorPowers(i: nat)
    requires i < 32
    ensures |Generator()| == 32 && (Generator()[31 - i] <==> i in POWERS)
  {
    GeneratorOctets();
    OctetPowers(Generator(), i);
  }

  /** The remainder is the only one: the preset message is a multiple of the generator polynomial plus it. */
  lemma ChecksumRemains(m: seq<bv8>, q: Poly, r: Poly)
    requires |r| == 32 && |q| == |MessageBits(m)|
    ensures Divides(Preset(MessageBits(m)), Generator(), q, r)
            <==> q == Quotient(Preset(MessageBits(m)), Generator()) && Xor(Ones(32), r) == Checksum(m)
  {
    var d := Preset(MessageBits(m));
    Division(d, Generator(), q, r);
    XorOnes(r, Remainder(d, Generator()));
  }

  lemma XorOnes(r: Poly, s: Poly)
    requires |r| == |s| == 32
    ensures Xor(Ones(32), r) == Xor(Ones(32), s) <==> r == s
  {
    if Xor(Ones(32), r) == Xor(Ones(32), s) {
      forall i | 0 <= i < 32 ensures r[i] == s[i] {
        assert Xor(Ones(32), r)[i] == Xor(Ones(32), s)[i];
      }
    }
  }

  lemma ByteOf(x: bv8, y: bv8)
    ensures Byte(x) == Byte(y) ==> x == y
  {
  }

  lemma ByteBitsApart(x: bv8, y: bv8)
    requires Bits(W32, Byte(x), 8) == Bits(W32, Byte(y), 8)
    ensures x == y
  {
    Lawful32();
    ByteGone(x);
    ByteGone(y);
    Left8(Byte(x), 0);
    Left8(Byte(y), 0);
    BitsApart(W32, Byte(x), Byte(y), 8);
    ByteOf(x, y);
  }

  lemma {:induction false} MessageBitsLength(m: seq<bv8>)
    ensures |MessageBits(m)| == 8 * |m|
  {
    if m != [] {
      MessageBitsLength(m[..|m| - 1]);
    }
  }

  lemma LastApart(m: seq<bv8>, n: seq<bv8>, a: Poly, b: Poly)
    requires |m| == |n| > 0 && MessageBits(m) == MessageBits(n)
    requires a == MessageBits(m[..|m| - 1]) && b == MessageBits(n[..|n| - 1])
    ensures a == b && m[|m| - 1] == n[|n| - 1]
  {
    var x, y := m[|m| - 1], n[|n| - 1];
    MessageBitsLength(m[..|m| - 1]);
    MessageBitsLength(n[..|n| - 1]);
    SamePrefix(a, Bits(W32, Byte(x), 8), b, Bits(W32, Byte(y), 8));
    ByteBitsApart(x, y);
  }

  lemma SameBytes(m: seq<bv8>, n: seq<bv8>, k: nat)
    requires |m| == |n| == k + 1 && m[..k] == n[..k] && m[k] == n[k]
    ensures m == n
  {
    assert m == m[..k] + [m[k]] && n == n[..k] + [n[k]];
  }

  /** The bits tell the bytes. */
  lemma {:induction false} MessageBitsApart(m: seq<bv8>, n: seq<bv8>)
    requires |m| == |n| && MessageBits(m) == MessageBits(n)
    ensures m == n
  {
    if m != [] {
      var k := |m| - 1;
      LastApart(m, n, MessageBits(m[..k]), MessageBits(n[..k]));
      MessageBitsApart(m[..k], n[..k]);
      SameBytes(m, n, k);
    }
  }

  lemma SamePrefix(a: Poly, x: Poly, b: Poly, y: Poly)
    requires |a| == |b| && a + x == b + y
    ensures a == b && x == y
  {
    assert a == (a + x)[..|a|] && b == (b + y)[..|b|];
    assert x == (a + x)[|a|..] && y == (b + y)[|b|..];
  }

  /** Two messages of one length that differ within 32 consecutive bits only have different checksums. */
  lemma BurstChecksum(m: seq<bv8>, n: seq<bv8>, i: nat)
    requires |m| == |n| && m != n && i <= |MessageBits(m)|
    requires var a, b, j := MessageBits(m), MessageBits(n), WindowEnd(i, |MessageBits(m)|);
             |a| == |b| && a[..i] == b[..i] && a[j..] == b[j..]
    ensures Checksum(m) != Checksum(n)
  {
    var x, y := FeedAll(0xffff_ffff, m), FeedAll(0xffff_ffff, n);
    if MessageBits(m) == MessageBits(n) {
      MessageBitsApart(m, n);
    }
    Lawful32();
    FeedAllPushes(0xffff_ffff, m);
    FeedAllPushes(0xffff_ffff, n);
    BurstDetected(W32, 0xffff_ffff, MessageBits(m), MessageBits(n), i);
    BitsEqual(W32, x, y);
    FeedDivides(m);
    FeedDivides(n);
    XorOnes(Bits(W32, x, 32), Bits(W32, y, 32));
  }
}
