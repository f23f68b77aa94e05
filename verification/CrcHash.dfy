/** The bit-serial CRC of crc32hash.c: the last bit first, a register of zeros, no complement. */
module CrcHash {
  import opened Polynomials
  import opened Registers
  import opened CrcRegister
  import opened Crc

  /** The register with its bits in the opposite order. */
  function Reverse(x: bv32): bv32 {
    ReverseBytes(ReverseInBytes(x))
  }

  function ReverseInBytes(x: bv32): bv32 {
    var a := ((x >> 1) & 0x5555_5555) | ((x & 0x5555_5555) << 1);
    var b := ((a >> 2) & 0x3333_3333) | ((a & 0x3333_3333) << 2);
    ((b >> 4) & 0x0f0f_0f0f) | ((b & 0x0f0f_0f0f) << 4)
  }

  function ReverseBytes(c: bv32): bv32 {
    var d := ((c >> 8) & 0x00ff_00ff) | ((c & 0x00ff_00ff) << 8);
    (d >> 16) | (d << 16)
  }

  function ReverseByte(x: bv8): bv8 {
    var a := ((x >> 1) & 0x55) | ((x & 0x55) << 1);
    var b := ((a >> 2) & 0x33) | ((a & 0x33) << 2);
    (b >> 4) | (b << 4)
  }

  /** Bit 7 - i of a byte comes to i. */
  lemma BitInByte(x: bv32, i: bv32)
    requires i < 32
    ensures (ReverseInBytes(x) >> i) & 1 == (x >> (i ^ 7)) & 1
  {
  }

  lemma BitOfByte(c: bv32, i: bv32)
    requires i < 32
    ensures (ReverseBytes(c) >> i) & 1 == (c >> (i ^ 24)) & 1
  {
  }

  lemma BitMoved(x: bv32, c: bv32, r: bv32, i: bv32)
    requires i < 32 && (c >> (i ^ 24)) & 1 == (x >> (i ^ 24 ^ 7)) & 1 && (r >> i) & 1 == (c >> (i ^ 24)) & 1
    ensures (r >> i) & 1 == (x >> (31 - i)) & 1
  {
    assert i ^ 24 ^ 7 == 31 - i;
  }

  lemma Below32(i: bv32)
    requires i < 32
    ensures i ^ 24 < 32
  {
  }

  lemma ReverseBit(x: bv32, i: bv32)
    requires i < 32
    ensures (Reverse(x) >> i) & 1 == (x >> (31 - i)) & 1
  {
    Below32(i);
    BitOfByte(ReverseInBytes(x), i);
    BitInByte(x, i ^ 24);
    BitMoved(x, ReverseInBytes(x), Reverse(x), i);
  }

  lemma ReverseByteBit(x: bv8, i: bv8)
    requires i < 8
    ensures (ReverseByte(x) >> i) & 1 == (x >> (7 - i)) & 1
  {
  }

  /** Each byte in its place, with its bits in the opposite order. */
  function Reversed(m: seq<bv8>): (r: seq<bv8>)
    ensures |r| == |m| && forall i :: 0 <= i < |m| ==> r[i] == ReverseByte(m[i])
  {
    seq(|m|, i requires 0 <= i < |m| => ReverseByte(m[i]))
  }

  /** One turn of the inner loop. */
  function ShiftDown(c: bv32): bv32 {
    (c >> 1) ^ (if c & 1 != 0 then 0xedb8_8320 else 0)
  }

  /** It is the step of the other program seen in a mirror. */
  lemma ShiftDownMirrors(c: bv32)
    ensures Reverse(ShiftDown(c)) == W32.step(Reverse(c))
  {
  }

  lemma ByteMirrors(c: bv32, b: bv8)
    ensures Reverse(c ^ (b as bv32)) == W32.xor(Reverse(c), Byte(ReverseByte(b)))
  {
  }

  method TurnDown(c: bv32) returns (d: bv32)
    ensures Reverse(d) == W32.step(Reverse(c))
  {
    ShiftDownMirrors(c);
    d := (c >> 1) ^ (if c & 1 != 0 then 0xedb8_8320 else 0);
  }

  method HashByte(crc0: bv32, b: bv8) returns (crc: bv32)
    ensures Reverse(crc) == Feed(Reverse(crc0), ReverseByte(b))
  {
    crc := crc0 ^ (b as bv32);
    ByteMirrors(crc0, b);
    ghost var f := Feed(Reverse(crc0), ReverseByte(b));
    for i := 0 to 8
      invariant Iterate(W32.step, Reverse(crc), 8 - i) == f
    {
      crc := TurnDown(crc);
    }
  }

  /**
   * The two programs agree up to the order of the bits: the result is the mirror image of what the other program's
   * table loop makes of the mirrored bytes from a register of zeros.
   */
  method Hash(p: array<bv8>, len: nat) returns (crc: bv32)
    requires len <= p.Length
    ensures Reverse(crc) == FeedAll(0, Reversed(p[..len]))
  {
    crc := 0;
    assert Reverse(0) == 0;
    for k := 0 to len
      invariant Reverse(crc) == FeedAll(0, Reversed(p[..k]))
    {
      assert p[..k + 1][..k] == p[..k];
      assert Reversed(p[..k + 1])[..k] == Reversed(p[..k]);
      crc := HashByte(crc, p[k]);
    }
  }

  /** So it is the remainder of the mirrored message times x^32, with its own bits mirrored. */
  lemma HashDivides(m: seq<bv8>, crc: bv32)
    requires Reverse(crc) == FeedAll(0, Reversed(m))
    ensures Bits(W32, Reverse(crc), 32) == Remainder(MessageBits(Reversed(m)) + Zeros(32), Generator())
  {
    FeedDividesFromZero(Reversed(m));
  }

  /** The two programs side by side. */
  method Bridge(crc: TableCrc, p: array<bv8>, q: array<bv8>) returns (r: bv32, s: bv32)
    requires crc.Built() && q[..] == Reversed(p[..])
    ensures Reverse(r) == s
  {
    r := Hash(p, p.Length);
    s := crc.Run(0, q, q.Length);
    assert p[..p.Length] == p[..] && q[..q.Length] == q[..];
  }
}
