/** The checksum of the nine digits, which is published as a check of the CRC-32 that takes the first bit first. */
module CrcValue {
  import opened Polynomials
  import opened Registers
  import opened CrcRegister
  import opened Crc

  predicate Turned(x: bv32, y: bv32) {
    y == if x & 0x8000_0000 != 0 then (x << 1) ^ 0x04c1_1db7 else x << 1
  }

  lemma TurnedStep(x: bv32, y: bv32, n: nat)
    requires Turned(x, y)
    ensures Iterate(W32.step, x, n + 1) == Iterate(W32.step, y, n)
  {
    ShiftIsTurn(x);
  }

  lemma EightTurns(a: bv32, b: bv32, c: bv32, d: bv32, e: bv32, f: bv32, g: bv32, h: bv32, i: bv32)
    requires Turned(a, b) && Turned(b, c) && Turned(c, d) && Turned(d, e)
    requires Turned(e, f) && Turned(f, g) && Turned(g, h) && Turned(h, i)
    ensures Iterate(W32.step, a, 8) == i
  {
    TurnedStep(a, b, 7);
    TurnedStep(b, c, 6);
    TurnedStep(c, d, 5);
    TurnedStep(d, e, 4);
    TurnedStep(e, f, 3);
    TurnedStep(f, g, 2);
    TurnedStep(g, h, 1);
    TurnedStep(h, i, 0);
  }

  lemma ByteIs(x: bv8, e: bv32)
    requires e == (x as bv32) << 24
    ensures Byte(x) == e
  {
  }

  lemma Meets(r: bv32, x: bv8, e: bv32, a: bv32)
    requires Byte(x) == e && a == r ^ e
    ensures W32.xor(r, Byte(x)) == a
  {
    XorIs(r, e, a);
  }

  lemma FeedOf(r: bv32, x: bv8, a: bv32, i: bv32)
    requires W32.xor(r, Byte(x)) == a && Iterate(W32.step, a, 8) == i
    ensures Feed(r, x) == i
  {
  }

  lemma FeedAllNext(m: seq<bv8>, k: nat, r: bv32, i: bv32)
    requires k < |m| && FeedAll(0xffff_ffff, m[..k]) == r && Feed(r, m[k]) == i
    ensures FeedAll(0xffff_ffff, m[..k + 1]) == i
  {
    assert m[..k + 1][..k] == m[..k];
  }

  /** Byte `k` meets the register `r` in the place `e`, which then holds a, b, ... and at last `i`. */
  lemma FeedNext(m: seq<bv8>, k: nat, r: bv32, e0: bv32, a: bv32, b: bv32, c: bv32, d: bv32, e: bv32, f: bv32,
      g: bv32, h: bv32, i: bv32)
    requires k < |m| && FeedAll(0xffff_ffff, m[..k]) == r && Byte(m[k]) == e0 && a == r ^ e0
    requires Turned(a, b) && Turned(b, c) && Turned(c, d) && Turned(d, e)
    requires Turned(e, f) && Turned(f, g) && Turned(g, h) && Turned(h, i)
    ensures FeedAll(0xffff_ffff, m[..k + 1]) == i
  {
    Meets(r, m[k], e0, a);
    EightTurns(a, b, c, d, e, f, g, h, i);
    FeedOf(r, m[k], a, i);
    FeedAllNext(m, k, r, i);
  }

  lemma StartValue(m: seq<bv8>)
    requires |m| == 9 && m[0] == 0x31 && m[1] == 0x32 && m[2] == 0x33
    requires FeedAll(0xffff_ffff, m[..0]) == 0xffff_ffff
    ensures FeedAll(0xffff_ffff, m[..3]) == 0xd952_f164
  {
    ByteIs(m[0], 0x3100_0000);
    FeedNext(m, 0, 0xffff_ffff, 0x3100_0000, 0xceff_ffff, 0x993e_e249, 0x36bc_d925, 0x6d79_b24a,
             0xdaf3_6494, 0xb127_d49f, 0x668e_b489, 0xcd1d_6912, 0x9efb_cf93);
    ByteIs(m[1], 0x3200_0000);
    FeedNext(m, 1, 0x9efb_cf93, 0x3200_0000, 0xacfb_cf93, 0x5d36_8291, 0xba6d_0522, 0x701b_17f3,
             0xe036_2fe6, 0xc4ad_427b, 0x8d9b_9941, 0x1ff6_2f35, 0x3fec_5e6a);
    ByteIs(m[2], 0x3300_0000);
    FeedNext(m, 2, 0x3fec_5e6a, 0x3300_0000, 0x0cec_5e6a, 0x19d8_bcd4, 0x33b1_79a8, 0x6762_f350,
             0xcec5_e6a0, 0x994a_d0f7, 0x3654_bc59, 0x6ca9_78b2, 0xd952_f164);
  }

  lemma MiddleValue(m: seq<bv8>)
    requires |m| == 9 && m[3] == 0x34 && m[4] == 0x35 && m[5] == 0x36
    requires FeedAll(0xffff_ffff, m[..3]) == 0xd952_f164
    ensures FeedAll(0xffff_ffff, m[..6]) == 0xd8f0_6c8f
  {
    ByteIs(m[3], 0x3400_0000);
    FeedNext(m, 3, 0xd952_f164, 0x3400_0000, 0xed52_f164, 0xde64_ff7f, 0xb808_e349, 0x74d0_db25,
             0xe9a1_b64a, 0xd782_7123, 0xabc5_fff1, 0x534a_e255, 0xa695_c4aa);
    ByteIs(m[4], 0x3500_0000);
    FeedNext(m, 4, 0xa695_c4aa, 0x3500_0000, 0x9395_c4aa, 0x23ea_94e3, 0x47d5_29c6, 0x8faa_538c,
             0x1b95_baaf, 0x372b_755e, 0x6e56_eabc, 0xdcad_d578, 0xbd9a_b747);
    ByteIs(m[5], 0x3600_0000);
    FeedNext(m, 5, 0xbd9a_b747, 0x3600_0000, 0x8b9a_b747, 0x13f4_7339, 0x27e8_e672, 0x4fd1_cce4,
             0x9fa3_99c8, 0x3b86_2e27, 0x770c_5c4e, 0xee18_b89c, 0xd8f0_6c8f);
  }

  lemma EndValue(m: seq<bv8>)
    requires |m| == 9 && m[6] == 0x37 && m[7] == 0x38 && m[8] == 0x39
    requires FeedAll(0xffff_ffff, m[..6]) == 0xd8f0_6c8f
    ensures FeedAll(0xffff_ffff, m[..9]) == 0x0376_e6e7
  {
    ByteIs(m[6], 0x3700_0000);
    FeedNext(m, 6, 0xd8f0_6c8f, 0x3700_0000, 0xeff0_6c8f, 0xdb21_c4a9, 0xb282_94e5, 0x61c4_347d,
             0xc388_68fa, 0x83d1_cc43, 0x0362_8531, 0x06c5_0a62, 0x0d8a_14c4);
    ByteIs(m[7], 0x3800_0000);
    FeedNext(m, 7, 0x0d8a_14c4, 0x3800_0000, 0x358a_14c4, 0x6b14_2988, 0xd628_5310, 0xa891_bb97,
             0x55e2_6a99, 0xabc4_d532, 0x5348_b7d3, 0xa691_6fa6, 0x49e3_c2fb);
    ByteIs(m[8], 0x3900_0000);
    FeedNext(m, 8, 0x49e3_c2fb, 0x3900_0000, 0x70e3_c2fb, 0xe1c7_85f6, 0xc74e_165b, 0x8a5d_3101,
             0x107b_7fb5, 0x20f6_ff6a, 0x41ed_fed4, 0x83db_fda8, 0x0376_e6e7);
  }

  /** The digits from 1 to 9. */
  predicate IsDigits(m: seq<bv8>) {
    && |m| == 9 && m[0] == 0x31 && m[1] == 0x32 && m[2] == 0x33 && m[3] == 0x34 && m[4] == 0x35 && m[5] == 0x36
    && m[6] == 0x37 && m[7] == 0x38 && m[8] == 0x39
  }

  lemma CheckValue(m: seq<bv8>)
    requires IsDigits(m)
    ensures Checksum(m) == Bits(W32, 0xfc89_1918, 32)
  {
    assert m[..0] == [] && m[..9] == m;
    StartValue(m);
    MiddleValue(m);
    EndValue(m);
    Complemented(m, FeedAll(0xffff_ffff, m), 0xfc89_1918);
  }

  lemma Complemented(m: seq<bv8>, r: bv32, c: bv32)
    requires r == FeedAll(0xffff_ffff, m) && c == !r
    ensures Checksum(m) == Bits(W32, c, 32)
  {
    ChecksumBits(m, r);
  }
}
