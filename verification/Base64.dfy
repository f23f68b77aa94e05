/** Base64 as section 4 of RFC 4648 has it, and what the decoder makes of it. */
module Base64 {
  import opened Numbers

  const UPPER: string := "ABCDEFGHIJKLMNOPQRSTUVWXYZ"
  const LOWER: string := "abcdefghijklmnopqrstuvwxyz"
  const DIGITS: string := "0123456789"
  const SIGNS: string := "+/="

  /** The alphabet with the padding character, and the terminator of the string. */
  const BASE: string := UPPER + LOWER + DIGITS + SIGNS + "\0"

  function Code(v: int): int {
    if v < 26 then 65 + v else if v < 52 then 97 + (v - 26) else if v < 62 then 48 + (v - 52)
    else if v == 62 then 43 else if v == 63 then 47 else if v == 64 then 61 else 0
  }

  lemma UpperCode(v: int)
    requires 0 <= v < 26
    ensures |UPPER| == 26 && UPPER[v] as int == 65 + v
  {
  }

  lemma LowerCode(v: int)
    requires 0 <= v < 26
    ensures |LOWER| == 26 && LOWER[v] as int == 97 + v
  {
  }

  lemma DigitCode(v: int)
    requires 0 <= v < 10
    ensures |DIGITS| == 10 && DIGITS[v] as int == 48 + v
  {
  }

  lemma SignCode(v: int)
    requires 0 <= v < 3
    ensures |SIGNS| == 3 && SIGNS[v] as int == if v == 0 then 43 else if v == 1 then 47 else 61
  {
  }

  lemma InParts(u: string, l: string, d: string, s: string, e: string, v: nat)
    requires |u| == 26 && |l| == 26 && |d| == 10 && |s| == 3 && |e| == 1 && v <= 65
    ensures |u + l + d + s + e| == 66
    ensures (u + l + d + s + e)[v]
         == if v < 26 then u[v] else if v < 52 then l[v - 26] else if v < 62 then d[v - 52]
            else if v < 65 then s[v - 62] else e[0]
  {
  }

  lemma LetterCode(v: int)
    requires 0 <= v <= 65
    ensures |BASE| == 66 && BASE[v] as int == Code(v)
  {
    InParts(UPPER, LOWER, DIGITS, SIGNS, "\0", v);
    if v < 26 {
      UpperCode(v);
    } else if v < 52 {
      LowerCode(v - 26);
    } else if v < 62 {
      DigitCode(v - 52);
    } else if v < 65 {
      SignCode(v - 62);
    }
  }

  lemma LettersDiffer(v: int, w: int)
    requires 0 <= v <= 65 && 0 <= w <= 65
    ensures |BASE| == 66 && (BASE[v] == BASE[w] <==> v == w) && BASE[64] == '=' && BASE[65] == '\0'
  {
    LetterCode(v);
    LetterCode(w);
    LetterCode(64);
    LetterCode(65);
  }

  /** The alphabet of section 4 of RFC 4648, then the padding character and the terminator. */
  function Letter(v: int): (c: char)
    requires 0 <= v <= 65
    ensures v < 26 ==> c as int == 'A' as int + v
    ensures 26 <= v < 52 ==> c as int == 'a' as int + (v - 26)
    ensures 52 <= v < 62 ==> c as int == '0' as int + (v - 52)
    ensures (v == 62 ==> c == '+') && (v == 63 ==> c == '/') && (v == 64 ==> c == '=') && (v == 65 ==> c == '\0')
  {
    LetterCode(v);
    BASE[v]
  }

  // ---------- encoding ----------

  /** The bits of three bytes in four groups of six. */
  function Sextet(a: int, b: int, c: int, i: int): (v: int)
    requires 0 <= a < 256 && 0 <= b < 256 && 0 <= c < 256
    ensures 0 <= v < 64
  {
    if i == 0 then a / 4
    else if i == 1 then a % 4 * 16 + b / 16
    else if i == 2 then b % 16 * 4 + c / 64
    else c % 64
  }

  function First(g: seq<Byte>): Byte {
    if |g| > 0 then g[0] else 0
  }

  function Second(g: seq<Byte>): Byte {
    if |g| > 1 then g[1] else 0
  }

  function Third(g: seq<Byte>): Byte {
    if |g| > 2 then g[2] else 0
  }

  /** How many groups `n` bytes take: n / 3, rounded up. */
  function Groups(n: nat): (k: nat)
    ensures 3 * k >= n && 3 * k < n + 3
  {
    if n == 0 then 0 else if n <= 3 then 1 else 1 + Groups(n - 3)
  }

  /** A place in the string: a group of six bits, padding for a group without a bit of the input, or the terminator. */
  type Symbol = v: int | 0 <= v <= 65

  const PAD: Symbol := 64
  const END: Symbol := 65

  function SymbolAt(g: seq<Byte>, i: int): Symbol {
    if |g| < i then PAD else Sextet(First(g), Second(g), Third(g), i)
  }

  function EncodeGroup(g: seq<Byte>): (s: seq<Symbol>)
    ensures |s| == 4
  {
    [SymbolAt(g, 0), SymbolAt(g, 1), SymbolAt(g, 2), SymbolAt(g, 3)]
  }

  function Encode(x: seq<Byte>): (s: seq<Symbol>)
    ensures |s| == 4 * Groups(|x|)
  {
    if x == [] then []
    else if |x| <= 3 then EncodeGroup(x)
    else EncodeGroup(x[..3]) + Encode(x[3..])
  }

  lemma {:induction false} EncodePlain(x: seq<Byte>)
    ensures END !in Encode(x)
  {
    if |x| > 3 {
      EncodePlain(x[3..]);
    }
  }

  // ---------- the text bit by bit ----------

  /** Bit `p` of the input, the first bit of a byte first, and zeros behind the input. */
  function InputBit(x: seq<Byte>, p: nat): (b: nat)
    ensures b <= 1
  {
    if p / 8 < |x| then BitOf(x[p / 8], p % 8) else 0
  }

  function BitOf(a: Byte, k: nat): (b: nat)
    requires k < 8
    ensures b <= 1
  {
    if k == 0 then a / 128 else if k == 1 then a / 64 % 2 else if k == 2 then a / 32 % 2
    else if k == 3 then a / 16 % 2 else if k == 4 then a / 8 % 2 else if k == 5 then a / 4 % 2
    else if k == 6 then a / 2 % 2 else a % 2
  }

  /** Six bits from bit `p` on, as a number. */
  function SixBits(x: seq<Byte>, p: nat): (v: nat)
    ensures v < 64
  {
    32 * InputBit(x, p) + 16 * InputBit(x, p + 1) + 8 * InputBit(x, p + 2)
    + 4 * InputBit(x, p + 3) + 2 * InputBit(x, p + 4) + InputBit(x, p + 5)
  }

  lemma Half(a: nat, d: nat)
    requires d > 0
    ensures a / d == 2 * (a / (2 * d)) + a / d % 2
  {
    var e, r := a / (2 * d), a % (2 * d);
    assert a == e * (2 * d) + r == (2 * e) * d + r;
    if r < d {
      Quotient(a, d, 2 * e, r);
    } else {
      assert a == (2 * e + 1) * d + (r - d);
      Quotient(a, d, 2 * e + 1, r - d);
    }
  }

  lemma ByteHalves(a: Byte)
    ensures a / 64 == 2 * (a / 128) + a / 64 % 2 && a / 32 == 2 * (a / 64) + a / 32 % 2
    ensures a / 16 == 2 * (a / 32) + a / 16 % 2 && a / 8 == 2 * (a / 16) + a / 8 % 2
    ensures a / 4 == 2 * (a / 8) + a / 4 % 2 && a / 2 == 2 * (a / 4) + a / 2 % 2 && a == 2 * (a / 2) + a % 2
  {
    Half(a, 64);
    Half(a, 32);
    Half(a, 16);
    Half(a, 8);
    Half(a, 4);
    Half(a, 2);
  }

  lemma HighBits(a: Byte)
    ensures a / 4 == 32 * BitOf(a, 0) + 16 * BitOf(a, 1) + 8 * BitOf(a, 2) + 4 * BitOf(a, 3) + 2 * BitOf(a, 4)
                     + BitOf(a, 5)
    ensures a / 16 == 8 * BitOf(a, 0) + 4 * BitOf(a, 1) + 2 * BitOf(a, 2) + BitOf(a, 3)
    ensures a / 64 == 2 * BitOf(a, 0) + BitOf(a, 1)
    ensures a % 4 == 2 * BitOf(a, 6) + BitOf(a, 7)
    ensures a % 16 == 8 * BitOf(a, 4) + 4 * BitOf(a, 5) + 2 * BitOf(a, 6) + BitOf(a, 7)
    ensures a % 64 == 32 * BitOf(a, 2) + 16 * BitOf(a, 3) + 8 * BitOf(a, 4) + 4 * BitOf(a, 5) + 2 * BitOf(a, 6)
                      + BitOf(a, 7)
  {
    ByteHalves(a);
  }

  /** Bit `p` of a group; a missing byte has no bit set. */
  function GroupBit(g: seq<Byte>, p: nat): (b: nat)
    requires |g| <= 3 && p < 24
    ensures b <= 1
  {
    if p < 8 then BitOf(First(g), p) else if p < 16 then BitOf(Second(g), p - 8) else BitOf(Third(g), p - 16)
  }

  lemma BitInGroup(g: seq<Byte>, p: nat)
    requires |g| <= 3 && p < 24
    ensures InputBit(g, p) == GroupBit(g, p)
  {
  }

  lemma Sextet0Bits(a: Byte, b: Byte, c: Byte)
    ensures Sextet(a, b, c, 0)
         == 32 * BitOf(a, 0) + 16 * BitOf(a, 1) + 8 * BitOf(a, 2) + 4 * BitOf(a, 3) + 2 * BitOf(a, 4) + BitOf(a, 5)
  {
    HighBits(a);
  }

  lemma Sextet1Bits(a: Byte, b: Byte, c: Byte)
    ensures Sextet(a, b, c, 1)
         == 32 * BitOf(a, 6) + 16 * BitOf(a, 7) + 8 * BitOf(b, 0) + 4 * BitOf(b, 1) + 2 * BitOf(b, 2) + BitOf(b, 3)
  {
    HighBits(a);
    HighBits(b);
  }

  lemma Sextet2Bits(a: Byte, b: Byte, c: Byte)
    ensures Sextet(a, b, c, 2)
         == 32 * BitOf(b, 4) + 16 * BitOf(b, 5) + 8 * BitOf(b, 6) + 4 * BitOf(b, 7) + 2 * BitOf(c, 0) + BitOf(c, 1)
  {
    HighBits(b);
    HighBits(c);
  }

  lemma Sextet3Bits(a: Byte, b: Byte, c: Byte)
    ensures Sextet(a, b, c, 3)
         == 32 * BitOf(c, 2) + 16 * BitOf(c, 3) + 8 * BitOf(c, 4) + 4 * BitOf(c, 5) + 2 * BitOf(c, 6) + BitOf(c, 7)
  {
    HighBits(c);
  }

  /** The bits from `p` to `p + 5`, each in its byte. */
  lemma SixOf(g: seq<Byte>, p: nat)
    requires |g| <= 3 && (p == 0 || p == 6 || p == 12 || p == 18)
    ensures SixBits(g, p) == 32 * GroupBit(g, p) + 16 * GroupBit(g, p + 1) + 8 * GroupBit(g, p + 2)
                             + 4 * GroupBit(g, p + 3) + 2 * GroupBit(g, p + 4) + GroupBit(g, p + 5)
  {
    BitInGroup(g, p);
    BitInGroup(g, p + 1);
    BitInGroup(g, p + 2);
    BitInGroup(g, p + 3);
    BitInGroup(g, p + 4);
    BitInGroup(g, p + 5);
  }

  lemma Place0(g: seq<Byte>)
    requires |g| <= 3
    ensures SixBits(g, 0) == Sextet(First(g), Second(g), Third(g), 0)
  {
    Sextet0Bits(First(g), Second(g), Third(g));
    SixOf(g, 0);
  }

  lemma Place1(g: seq<Byte>)
    requires |g| <= 3
    ensures SixBits(g, 6) == Sextet(First(g), Second(g), Third(g), 1)
  {
    Sextet1Bits(First(g), Second(g), Third(g));
    SixOf(g, 6);
  }

  lemma Place2(g: seq<Byte>)
    requires |g| <= 3
    ensures SixBits(g, 12) == Sextet(First(g), Second(g), Third(g), 2)
  {
    Sextet2Bits(First(g), Second(g), Third(g));
    SixOf(g, 12);
  }

  lemma Place3(g: seq<Byte>)
    requires |g| <= 3
    ensures SixBits(g, 18) == Sextet(First(g), Second(g), Third(g), 3)
  {
    Sextet3Bits(First(g), Second(g), Third(g));
    SixOf(g, 18);
  }

  /** Place `i` of a group takes the bits from 6 * i on. */
  lemma GroupBits(g: seq<Byte>, i: nat)
    requires |g| <= 3 && i < 4
    ensures SixBits(g, 6 * i) == Sextet(First(g), Second(g), Third(g), i)
  {
    if i == 0 {
      Place0(g);
    } else if i == 1 {
      Place1(g);
    } else if i == 2 {
      Place2(g);
    } else {
      Place3(g);
    }
  }

  /** What place `i` of the text holds: six bits of the input, or padding where no bit of it is left. */
  function TextSymbol(x: seq<Byte>, i: nat): Symbol {
    if 6 * i < 8 * |x| then SixBits(x, 6 * i) else PAD
  }

  lemma LaterBit(x: seq<Byte>, p: nat)
    requires |x| > 3 && p >= 24
    ensures InputBit(x, p) == InputBit(x[3..], p - 24)
  {
    assert (p - 24) / 8 == p / 8 - 3 && (p - 24) % 8 == p % 8;
  }

  lemma EarlierBit(x: seq<Byte>, p: nat)
    requires |x| > 3 && p < 24
    ensures InputBit(x, p) == InputBit(x[..3], p)
  {
  }

  predicate SameBit(x: seq<Byte>, p: nat, y: seq<Byte>, q: nat, k: nat) {
    InputBit(x, p + k) == InputBit(y, q + k)
  }

  lemma SameBits(x: seq<Byte>, p: nat, y: seq<Byte>, q: nat)
    requires forall k: nat :: k < 6 ==> SameBit(x, p, y, q, k)
    ensures SixBits(x, p) == SixBits(y, q)
  {
    assert SameBit(x, p, y, q, 0) && SameBit(x, p, y, q, 1) && SameBit(x, p, y, q, 2);
    assert SameBit(x, p, y, q, 3) && SameBit(x, p, y, q, 4) && SameBit(x, p, y, q, 5);
  }

  lemma LaterSymbol(x: seq<Byte>, i: nat)
    requires |x| > 3 && i >= 4
    ensures TextSymbol(x, i) == TextSymbol(x[3..], i - 4)
  {
    var y, p, q := x[3..], 6 * i, 6 * (i - 4);
    forall k: nat | k < 6 ensures SameBit(x, p, y, q, k) {
      LaterBit(x, p + k);
    }
    SameBits(x, p, y, q);
  }

  lemma EarlierSymbol(x: seq<Byte>, i: nat)
    requires |x| > 3 && i < 4
    ensures TextSymbol(x, i) == TextSymbol(x[..3], i)
  {
    var y, p := x[..3], 6 * i;
    forall k: nat | k < 6 ensures SameBit(x, p, y, p, k) {
      EarlierBit(x, p + k);
    }
    SameBits(x, p, y, p);
  }

  lemma GroupText(g: seq<Byte>, i: nat)
    requires 1 <= |g| <= 3 && i < 4
    ensures EncodeGroup(g)[i] == TextSymbol(g, i)
  {
    GroupBits(g, i);
    assert 6 * i < 8 * |g| <==> i <= |g|;
  }

  lemma EncodeSplit(x: seq<Byte>, i: nat)
    requires |x| > 3 && i < 4 * Groups(|x|)
    ensures i < 4 ==> Encode(x)[i] == EncodeGroup(x[..3])[i]
    ensures i >= 4 ==> i - 4 < 4 * Groups(|x[3..]|) && Encode(x)[i] == Encode(x[3..])[i - 4]
  {
  }

  /** The text takes the bits of the input six at a time, with zeros to fill the last six and padding after them. */
  lemma {:induction false} EncodeBits(x: seq<Byte>, i: nat)
    requires i < 4 * Groups(|x|)
    ensures Encode(x)[i] == TextSymbol(x, i)
  {
    if |x| <= 3 {
      assert Encode(x) == EncodeGroup(x);
      GroupText(x, i);
    } else {
      EncodeSplit(x, i);
      if i < 4 {
        EarlierSymbol(x, i);
        GroupText(x[..3], i);
      } else {
        LaterSymbol(x, i);
        EncodeBits(x[3..], i - 4);
      }
    }
  }

  /** The text of `x`, by the characters. */
  ghost predicate TextIs(x: seq<Byte>, t: string) {
    |t| == |Encode(x)| && forall i :: 0 <= i < |t| ==> t[i] == Letter(Encode(x)[i])
  }

  /** Section 10 of RFC 4648: the texts of "f", "fo" and "foo". */
  lemma PublishedTexts()
    ensures TextIs([102], "Zg==") && TextIs([102, 111], "Zm8=") && TextIs([102, 111, 111], "Zm9v")
  {
    assert Encode([102]) == [25, 32, PAD, PAD];
    assert Encode([102, 111]) == [25, 38, 60, PAD];
    assert Encode([102, 111, 111]) == [25, 38, 61, 47];
  }

  // ---------- how the source takes a group apart ----------

  /** The three bytes in one number of 24 bits, the first byte highest. */
  function Packed(a: int, b: int, c: int): int {
    a * 0x1_0000 + b * 0x100 + c
  }

  lemma Sextet0(a: int, b: int, c: int)
    requires 0 <= a < 256 && 0 <= b < 256 && 0 <= c < 256
    ensures Packed(a, b, c) / 0x4_0000 % 0x40 == Sextet(a, b, c, 0)
  {
  }

  lemma Sextet1(a: int, b: int, c: int)
    requires 0 <= a < 256 && 0 <= b < 256 && 0 <= c < 256
    ensures Packed(a, b, c) / 0x1000 % 0x40 == Sextet(a, b, c, 1)
  {
    Quotient(Packed(a, b, c), 0x1000, a * 16 + b / 16, b % 16 * 0x100 + c);
    Quotient(a * 16 + b / 16, 0x40, a / 4, a % 4 * 16 + b / 16);
  }

  lemma Sextet2(a: int, b: int, c: int)
    requires 0 <= a < 256 && 0 <= b < 256 && 0 <= c < 256
    ensures Packed(a, b, c) / 0x40 % 0x40 == Sextet(a, b, c, 2)
  {
    Quotient(Packed(a, b, c), 0x40, a * 0x400 + b * 4 + c / 64, c % 64);
    Quotient(a * 0x400 + b * 4 + c / 64, 0x40, a * 16 + b / 16, b % 16 * 4 + c / 64);
  }

  lemma Sextet3(a: int, b: int, c: int)
    requires 0 <= a < 256 && 0 <= b < 256 && 0 <= c < 256
    ensures Packed(a, b, c) % 0x40 == Sextet(a, b, c, 3)
  {
  }

  /** What a shift to the right by (3 - i) * 6 bits divides by. */
  function Shift(i: nat): (d: nat)
    requires i < 4
    ensures d > 0
  {
    if i == 0 then 0x4_0000 else if i == 1 then 0x1000 else if i == 2 then 0x40 else 1
  }

  /** `changed[i]` */
  method Changed(ghost g: seq<Byte>, prepare: nat, temp: nat, i: nat) returns (v: Symbol)
    requires temp == |g| <= 3 && prepare == Packed(First(g), Second(g), Third(g)) && i < 4
    ensures v == SymbolAt(g, i)
  {
    ghost var a, b, c := First(g), Second(g), Third(g);
    Sextet0(a, b, c);
    Sextet1(a, b, c);
    Sextet2(a, b, c);
    Sextet3(a, b, c);
    if temp < i {
      v := 0x40;
    } else {
      v := prepare / Shift(i) % 0x40;
    }
  }

  /** The first `n` of three bytes in one number. */
  function Partial(a: int, b: int, c: int, n: nat): int {
    if n == 0 then 0 else if n == 1 then a else if n == 2 then a * 0x100 + b else a * 0x1_0000 + b * 0x100 + c
  }

  lemma PartialNext(g: seq<Byte>, n: nat)
    requires n < |g| <= 3
    ensures var a, b, c := First(g), Second(g), Third(g); Partial(a, b, c, n + 1) == Partial(a, b, c, n) * 0x100 + g[n]
  {
  }

  lemma PartialPacked(g: seq<Byte>)
    requires 1 <= |g| <= 3
    ensures var a, b, c, n := First(g), Second(g), Third(g), |g|;
            Packed(a, b, c) == Partial(a, b, c, n) * (if n == 1 then 0x1_0000 else if n == 2 then 0x100 else 1)
  {
  }

  /** The bytes of the next group in one number, and how many they are. */
  method Prepare(data: array<Byte>, tmp0: nat, dataLen: nat) returns (prepare: int, temp: nat, tmp: nat)
    requires tmp0 < dataLen <= data.Length
    ensures tmp == (if dataLen - tmp0 < 3 then dataLen else tmp0 + 3) && temp == tmp - tmp0
    ensures var g := data[tmp0..tmp]; prepare == Packed(First(g), Second(g), Third(g))
  {
    ghost var g := data[tmp0..if dataLen - tmp0 < 3 then dataLen else tmp0 + 3];
    ghost var a, b, c := First(g), Second(g), Third(g);
    prepare, temp, tmp := 0, 0, tmp0;
    while temp < 3
      invariant temp <= |g| && tmp == tmp0 + temp && prepare == Partial(a, b, c, temp)
    {
      if tmp >= dataLen {
        break;
      }
      PartialNext(g, temp);
      prepare := prepare * 0x100 + data[tmp];
      tmp := tmp + 1;
      temp := temp + 1;
    }
    PartialPacked(g);
    prepare := prepare * (if temp == 1 then 0x1_0000 else if temp == 2 then 0x100 else 1);
  }

  /** `ret` holds the text of `s` from place 0 on. */
  ghost predicate Holds(ret: array<char>, s: seq<Symbol>)
    reads ret
  {
    |s| <= ret.Length && forall i :: 0 <= i < |s| ==> ret[i] == Letter(s[i])
  }

  method Append(ret: array<char>, f: nat, v: Symbol, ghost s: seq<Symbol>)
    requires f == |s| < ret.Length && Holds(ret, s)
    modifies ret
    ensures Holds(ret, s + [v])
  {
    ret[f] := Letter(v);
  }

  method PutGroup(ret: array<char>, f: nat, prepare: nat, temp: nat, ghost g: seq<Byte>, ghost s: seq<Symbol>)
    requires temp == |g| <= 3 && prepare == Packed(First(g), Second(g), Third(g))
    requires f == |s| && f + 4 <= ret.Length && Holds(ret, s)
    modifies ret
    ensures Holds(ret, s + EncodeGroup(g))
  {
    for i := 0 to 4
      invariant Holds(ret, s + EncodeGroup(g)[..i])
    {
      var v := Changed(g, prepare, temp, i);
      Append(ret, f + i, v, s + EncodeGroup(g)[..i]);
      assert s + EncodeGroup(g)[..i] + [v] == s + EncodeGroup(g)[..i + 1];
    }
    assert EncodeGroup(g)[..4] == EncodeGroup(g);
  }

  /** What is written and what is still to encode make up the whole. */
  ghost predicate Underway(whole: seq<Symbol>, s: seq<Symbol>, rest: seq<Byte>) {
    whole == s + Encode(rest)
  }

  lemma UnderwayNext(whole: seq<Symbol>, s: seq<Symbol>, rest: seq<Byte>, k: nat)
    requires Underway(whole, s, rest) && rest != [] && k == (if |rest| < 3 then |rest| else 3)
    ensures Underway(whole, s + EncodeGroup(rest[..k]), rest[k..])
  {
  }

  /** One turn of the outer loop of the encoder. */
  method EncodeRound(data: array<Byte>, dataLen: nat, ret: array<char>, tmp: nat, f: nat,
                     ghost whole: seq<Symbol>, ghost s: seq<Symbol>)
      returns (tmp': nat, ghost s': seq<Symbol>)
    requires tmp < dataLen <= data.Length && f == |s| && f + 4 <= ret.Length
    requires Holds(ret, s) && Underway(whole, s, data[tmp..dataLen])
    modifies ret
    ensures tmp' == (if dataLen - tmp < 3 then dataLen else tmp + 3)
    ensures |s'| == f + 4 && Holds(ret, s') && Underway(whole, s', data[tmp'..dataLen])
    ensures Groups(dataLen - tmp) == 1 + Groups(dataLen - tmp')
  {
    var prepare, temp;
    prepare, temp, tmp' := Prepare(data, tmp, dataLen);
    ghost var rest, g := data[tmp..dataLen], data[tmp..tmp'];
    UnderwayNext(whole, s, rest, tmp' - tmp);
    assert rest[..tmp' - tmp] == g && rest[tmp' - tmp..] == data[tmp'..dataLen];
    PutGroup(ret, f, prepare, temp, g, s);
    s' := s + EncodeGroup(g);
  }

  method RetLen(dataLen: nat) returns (retLen: nat)
    ensures retLen == 4 * Groups(dataLen) + 1
  {
    retLen := dataLen / 3;
    if dataLen % 3 > 0 {
      retLen := retLen + 1;
    }
    retLen := retLen * 4 + 1;
  }

  lemma UnderwayDone(whole: seq<Symbol>, s: seq<Symbol>, rest: seq<Byte>)
    requires Underway(whole, s, rest) && rest == []
    ensures s == whole
  {
  }

  /** `ret` holds the text of `x`, bit by bit. */
  ghost predicate Spells(ret: array<char>, x: seq<Byte>)
    reads ret
  {
    4 * Groups(|x|) <= ret.Length && forall i: nat :: i < 4 * Groups(|x|) ==> ret[i] == Letter(TextSymbol(x, i))
  }

  lemma HoldsSpells(ret: array<char>, x: seq<Byte>)
    requires Holds(ret, Encode(x))
    ensures Spells(ret, x)
  {
    forall i: nat | i < 4 * Groups(|x|) ensures ret[i] == Letter(TextSymbol(x, i)) {
      EncodeBits(x, i);
    }
  }

  /** The encoder: the text of the whole and a terminator, in a buffer that just fits. */
  method Base64Encode(data: array<Byte>, dataLen: nat) returns (ret: array<char>)
    requires dataLen <= data.Length
    ensures fresh(ret) && ret.Length == 4 * Groups(dataLen) + 1
    ensures Holds(ret, Encode(data[..dataLen])) && ret[ret.Length - 1] == '\0'
    ensures Spells(ret, data[..dataLen])
  {
    var retLen := RetLen(dataLen);
    ret := new char[retLen];
    ghost var whole, s: seq<Symbol> := Encode(data[..dataLen]), [];
    var tmp, f: nat := 0, 0;
    assert data[0..dataLen] == data[..dataLen];
    while tmp < dataLen
      invariant tmp <= dataLen && f == |s| && f + 4 * Groups(dataLen - tmp) + 1 == ret.Length
      invariant Holds(ret, s) && Underway(whole, s, data[tmp..dataLen])
    {
      tmp, s := EncodeRound(data, dataLen, ret, tmp, f, whole, s);
      f := f + 4;
    }
    UnderwayDone(whole, s, data[tmp..dataLen]);
    assert Groups(dataLen - tmp) == 0;
    Terminate(ret, f, s, data[..dataLen]);
  }

  method Terminate(ret: array<char>, f: nat, ghost s: seq<Symbol>, ghost x: seq<Byte>)
    requires f == |s| == ret.Length - 1 && Holds(ret, s) && s == Encode(x)
    modifies ret
    ensures Holds(ret, s) && Spells(ret, x) && ret[f] == '\0'
  {
    ret[f] := '\0';
    HoldsSpells(ret, x);
  }

  // ---------- decoding ----------

  lemma LetterInjective(v: Symbol, w: Symbol)
    ensures Letter(v) == Letter(w) <==> v == w
    ensures (Letter(v) == '\0' <==> v == END) && (Letter(v) == '=' <==> v == PAD)
  {
    LettersDiffer(v, w);
    LettersDiffer(v, PAD);
    LettersDiffer(v, END);
  }

  method IsAt(ch: char, pos: Symbol, ghost v: Symbol) returns (same: bool)
    requires ch == Letter(v)
    ensures same <==> pos == v
  {
    LetterInjective(pos, v);
    same := Letter(pos) == ch;
  }

  /** The last place of a character of the string, its terminator included, which is its only one. */
  method FindPos(ch: char, ghost v: Symbol) returns (pos: Symbol)
    requires ch == Letter(v)
    ensures pos == v
  {
    pos := 65;
    var same := IsAt(ch, pos, v);
    while !same
      invariant v <= pos && (same <==> pos == v)
      decreases pos
    {
      pos := pos - 1;
      same := IsAt(ch, pos, v);
    }
  }

  /** (p << 6) | v: padding and the terminator have the seventh bit set, where the last bit of `p` goes. */
  function ShiftOr(p: nat, v: Symbol): nat {
    p * 64 + (if v >= 64 && p % 2 == 1 then v - 64 else v)
  }

  function Number(v: seq<Symbol>): nat {
    if v == [] then 0 else ShiftOr(Number(v[..|v| - 1]), v[|v| - 1])
  }

  /** What the last shift of a group multiplies by. */
  function Fill(n: nat): nat {
    if n == 1 then 0x4_0000 else if n == 2 then 0x1000 else if n == 3 then 0x40 else 1
  }

  function ByteAt(p: nat, i: nat): Byte {
    if i == 0 then p / 0x1_0000 % 0x100 else if i == 1 then p / 0x100 % 0x100 else p % 0x100
  }

  function DecodeGroup(v: seq<Symbol>): (g: seq<Byte>)
    requires 1 <= |v| <= 4
  {
    var p := Number(v) * Fill(|v|);
    [ByteAt(p, 0), ByteAt(p, 1), ByteAt(p, 2)][..if |v| < 3 then |v| else 3]
  }

  function Decode(v: seq<Symbol>): (x: seq<Byte>)
    ensures |x| == Bytes(|v|)
  {
    if v == [] then []
    else if |v| <= 4 then DecodeGroup(v)
    else DecodeGroup(v[..4]) + Decode(v[4..])
  }

  /** How many bytes the decoder writes for `n` characters. */
  function Bytes(n: nat): (k: nat)
    ensures k == n / 4 * 3 + n % 4
  {
    if n < 4 then n else if n == 4 then 3 else 3 + Bytes(n - 4)
  }

  /** How many of the last three characters are padding. */
  function EqualCount(s: seq<Symbol>): (n: nat)
    requires |s| >= 3
    ensures n <= 3
  {
    var n := |s|;
    (if s[n - 1] == PAD then 1 else 0) + (if s[n - 2] == PAD then 1 else 0) + (if s[n - 3] == PAD then 1 else 0)
  }

  function BufferLength(dataLen: nat, equalCount: nat): nat {
    dataLen / 4 * 3 + (if equalCount <= 1 then 4 else if equalCount == 2 then 3 else 2)
  }

  /** The buffer has room for all that is written, whatever the length and the padding. */
  lemma BufferFits(dataLen: nat, equalCount: nat)
    requires equalCount <= 3 <= dataLen
    ensures Bytes(dataLen - equalCount) + 1 <= BufferLength(dataLen, equalCount)
  {
  }

  /** `ret` holds `x` and is zero beyond. */
  ghost predicate HoldsBytes(ret: array<Byte>, x: seq<Byte>)
    reads ret
  {
    && |x| <= ret.Length
    && (forall i :: 0 <= i < |x| ==> ret[i] == x[i])
    && forall i :: |x| <= i < ret.Length ==> ret[i] == 0
  }

  method AppendByte(ret: array<Byte>, f: nat, b: Byte, ghost x: seq<Byte>)
    requires f == |x| < ret.Length && HoldsBytes(ret, x)
    modifies ret
    ensures HoldsBytes(ret, x + [b])
  {
    ret[f] := b;
  }

  /** The places from `i` to `j` are in the number `p`. */
  ghost predicate Collected(p: nat, s: seq<Symbol>, i: nat, j: nat) {
    i <= j <= |s| && p == Number(s[i..j])
  }

  lemma CollectedNext(p: nat, s: seq<Symbol>, i: nat, j: nat)
    requires j < |s| && Collected(p, s, i, j)
    ensures Collected(ShiftOr(p, s[j]), s, i, j + 1)
  {
    assert s[i..j + 1][..j - i] == s[i..j];
  }

  /** The places of the next characters in one number, and how many they are. */
  method Collect(data: array<char>, tmp0: nat, end: nat, ghost s: seq<Symbol>)
      returns (prepare: nat, temp: nat, tmp: nat)
    requires tmp0 < end <= |s| && Holds(data, s)
    ensures tmp == (if end - tmp0 < 4 then end else tmp0 + 4) && temp == tmp - tmp0
    ensures prepare == Number(s[tmp0..tmp]) * Fill(temp)
  {
    prepare, temp, tmp := 0, 0, tmp0;
    while temp < 4
      invariant temp <= 4 && tmp == tmp0 + temp <= end && Collected(prepare, s, tmp0, tmp)
    {
      if tmp >= end {
        break;
      }
      var pos := FindPos(data[tmp], s[tmp]);
      CollectedNext(prepare, s, tmp0, tmp);
      prepare := ShiftOr(prepare, pos);
      temp := temp + 1;
      tmp := tmp + 1;
    }
    prepare := prepare * Fill(temp);
  }

  method PutBytes(ret: array<Byte>, f: nat, prepare: nat, temp: nat, ghost v: seq<Symbol>, ghost x: seq<Byte>)
      returns (f': nat)
    requires 1 <= temp == |v| <= 4 && prepare == Number(v) * Fill(temp)
    requires f == |x| && f + |DecodeGroup(v)| <= ret.Length && HoldsBytes(ret, x)
    modifies ret
    ensures f' == f + |DecodeGroup(v)| && HoldsBytes(ret, x + DecodeGroup(v))
  {
    ghost var g := DecodeGroup(v);
    f' := f;
    var i := 0;
    while i < 3
      invariant 0 <= i <= |g| && f' == f + i && HoldsBytes(ret, x + g[..i])
    {
      if i == temp {
        break;
      }
      AppendByte(ret, f', ByteAt(prepare, i), x + g[..i]);
      assert x + g[..i] + [g[i]] == x + g[..i + 1];
      f' := f' + 1;
      i := i + 1;
    }
    assert g[..i] == g;
  }

  ghost predicate Unfinished(whole: seq<Byte>, x: seq<Byte>, rest: seq<Symbol>) {
    whole == x + Decode(rest)
  }

  lemma DecodeHead(rest: seq<Symbol>, k: nat)
    requires rest != [] && k == (if |rest| < 4 then |rest| else 4)
    ensures Decode(rest) == DecodeGroup(rest[..k]) + Decode(rest[k..])
  {
    if |rest| <= 4 {
      assert rest[..k] == rest && rest[k..] == [];
    }
  }

  lemma Regroup(whole: seq<Byte>, x: seq<Byte>, g: seq<Byte>, y: seq<Byte>)
    requires whole == x + (g + y)
    ensures whole == (x + g) + y && |x + g| <= |whole|
  {
  }

  lemma UnfinishedNext(whole: seq<Byte>, x: seq<Byte>, rest: seq<Symbol>, k: nat)
    requires Unfinished(whole, x, rest) && rest != [] && k == (if |rest| < 4 then |rest| else 4)
    ensures Unfinished(whole, x + DecodeGroup(rest[..k]), rest[k..])
    ensures |x + DecodeGroup(rest[..k])| <= |whole|
  {
    DecodeHead(rest, k);
    Regroup(whole, x, DecodeGroup(rest[..k]), Decode(rest[k..]));
  }

  method DecodeRound(data: array<char>, end: nat, ret: array<Byte>, tmp: nat, f: nat, ghost s: seq<Symbol>,
                     ghost whole: seq<Byte>, ghost x: seq<Byte>)
      returns (tmp': nat, f': nat, ghost x': seq<Byte>)
    requires tmp < end <= |s| && Holds(data, s) && f == |x| && |whole| <= ret.Length
    requires HoldsBytes(ret, x) && Unfinished(whole, x, s[tmp..end])
    modifies ret
    ensures tmp < tmp' <= end && f' == |x'| && HoldsBytes(ret, x') && Unfinished(whole, x', s[tmp'..end])
  {
    var prepare, temp;
    prepare, temp, tmp' := Collect(data, tmp, end, s);
    ghost var rest, v := s[tmp..end], s[tmp..tmp'];
    assert rest[..temp] == v && rest[temp..] == s[tmp'..end];
    UnfinishedNext(whole, x, rest, temp);
    f' := PutBytes(ret, f, prepare, temp, v, x);
    x' := x + DecodeGroup(v);
  }

  method CountEquals(data: array<char>, dataLen: nat, ghost s: seq<Symbol>) returns (n: nat)
    requires 3 <= dataLen == |s| && Holds(data, s)
    ensures n == EqualCount(s)
  {
    LetterInjective(s[dataLen - 1], PAD);
    LetterInjective(s[dataLen - 2], PAD);
    LetterInjective(s[dataLen - 3], PAD);
    n := 0;
    if data[dataLen - 1] == '=' {
      n := n + 1;
    }
    if data[dataLen - 2] == '=' {
      n := n + 1;
    }
    if data[dataLen - 3] == '=' {
      n := n + 1;
    }
  }

  /** The decoder, for any text of at least three characters of the string. */
  method Base64Decode(data: array<char>, dataLen: nat, ghost s: seq<Symbol>) returns (ret: array<Byte>)
    requires 3 <= dataLen == |s| && Holds(data, s)
    ensures fresh(ret) && ret.Length == BufferLength(dataLen, EqualCount(s))
    ensures HoldsBytes(ret, Decode(s[..dataLen - EqualCount(s)])) && |Decode(s[..dataLen - EqualCount(s)])| < ret.Length
  {
    var equalCount := CountEquals(data, dataLen, s);
    var end := dataLen - equalCount;
    BufferFits(dataLen, equalCount);
    ret := new Byte[BufferLength(dataLen, equalCount)](_ => 0);
    ghost var whole, x: seq<Byte> := Decode(s[..end]), [];
    var tmp, f: nat := 0, 0;
    assert s[0..end] == s[..end];
    while tmp < end
      invariant tmp <= end && f == |x| && HoldsBytes(ret, x) && Unfinished(whole, x, s[tmp..end])
      decreases end - tmp
    {
      tmp, f, x := DecodeRound(data, end, ret, tmp, f, s, whole, x);
    }
    assert x == whole;
    ret[f] := 0;
  }

  // ---------- there and back ----------

  /** The size of the last group. */
  function LastGroup(n: nat): (k: nat)
    requires n > 0
    ensures 1 <= k <= 3 && (k == 3 <==> n % 3 == 0)
  {
    if n <= 3 then n else LastGroup(n - 3)
  }

  lemma NumberOfTwo(v: seq<Symbol>, a: int, b: int)
    requires |v| == 2 && v[0] == a < 64 && v[1] == b < 64
    ensures Number(v) == a * 64 + b
  {
    assert v[..1][..0] == [];
    assert Number(v[..1]) == a;
  }

  lemma NumberOfThree(v: seq<Symbol>, a: int, b: int, c: int)
    requires |v| == 3 && v[0] == a < 64 && v[1] == b < 64 && v[2] == c < 64
    ensures Number(v) == a * 0x1000 + b * 64 + c
  {
    NumberOfTwo(v[..2], a, b);
  }

  lemma NumberOfFour(v: seq<Symbol>, a: int, b: int, c: int, d: int)
    requires |v| == 4 && v[0] == a < 64 && v[1] == b < 64 && v[2] == c < 64 && v[3] == d < 64
    ensures Number(v) == a * 0x4_0000 + b * 0x1000 + c * 64 + d
  {
    NumberOfThree(v[..3], a, b, c);
  }

  /** Four groups of six bits are the three bytes they were taken from. */
  lemma SextetsPacked(a: int, b: int, c: int)
    requires 0 <= a < 256 && 0 <= b < 256 && 0 <= c < 256
    ensures Sextet(a, b, c, 0) * 0x4_0000 + Sextet(a, b, c, 1) * 0x1000 + Sextet(a, b, c, 2) * 64 + Sextet(a, b, c, 3)
         == Packed(a, b, c)
  {
  }

  lemma PackedBytes(a: Byte, b: Byte, c: Byte, p: nat)
    requires p == Packed(a, b, c)
    ensures ByteAt(p, 0) == a && ByteAt(p, 1) == b && ByteAt(p, 2) == c
  {
    var x: int, y: int, z: int := a, b, c;
    Quotient(p, 0x1_0000, x, y * 0x100 + z);
    Quotient(p, 0x100, x * 0x100 + y, z);
    Quotient(x * 0x100 + y, 0x100, x, y);
    Quotient(x, 0x100, 0, x);
  }

  /** Without its padding a group decodes to itself, and to one zero byte more if it was not full. */
  lemma GroupRoundTrip(g: seq<Byte>)
    requires 1 <= |g| <= 3
    ensures DecodeGroup(EncodeGroup(g)[..|g| + 1]) == if |g| == 3 then g else g + [0]
  {
    var a, b, c := First(g), Second(g), Third(g);
    var v := EncodeGroup(g)[..|g| + 1];
    SextetsPacked(a, b, c);
    if |g| == 1 {
      NumberOfTwo(v, v[0], v[1]);
    } else if |g| == 2 {
      NumberOfThree(v, v[0], v[1], v[2]);
    } else {
      NumberOfFour(v, v[0], v[1], v[2], v[3]);
    }
    assert Number(v) * Fill(|v|) == Packed(a, b, c);
    PackedBytes(a, b, c, Packed(a, b, c));
  }

  lemma SameEnd(p: seq<Symbol>, t: seq<Symbol>)
    requires |t| >= 3
    ensures EqualCount(p + t) == EqualCount(t)
  {
    var n, k := |p|, |t|;
    assert (p + t)[n + k - 1] == t[k - 1] && (p + t)[n + k - 2] == t[k - 2] && (p + t)[n + k - 3] == t[k - 3];
  }

  lemma {:induction false} EncodeEnd(x: seq<Byte>)
    requires x != []
    ensures EqualCount(Encode(x)) == 3 - LastGroup(|x|)
  {
    if |x| > 3 {
      EncodeEnd(x[3..]);
      SameEnd(EncodeGroup(x[..3]), Encode(x[3..]));
    }
  }

  /** The text without its padding. */
  function Unpadded(x: seq<Byte>): (v: seq<Symbol>)
    requires x != []
  {
    var s := Encode(x);
    s[..|s| - EqualCount(s)]
  }

  lemma UnpaddedSplit(x: seq<Byte>)
    requires |x| > 3
    ensures Unpadded(x) == EncodeGroup(x[..3]) + Unpadded(x[3..]) && Unpadded(x[3..]) != []
  {
  }

  lemma DecodeJoin(e: seq<Symbol>, w: seq<Symbol>)
    requires |e| == 4 && w != []
    ensures Decode(e + w) == DecodeGroup(e) + Decode(w)
  {
  }

  function Padded(x: seq<Byte>): seq<Byte> {
    if |x| % 3 == 0 then x else x + [0]
  }

  lemma {:induction false} RoundTrip(x: seq<Byte>)
    requires x != []
    ensures Decode(Unpadded(x)) == Padded(x)
  {
    if |x| <= 3 {
      EncodeEnd(x);
      GroupRoundTrip(x);
    } else {
      var g, y := x[..3], x[3..];
      RoundTrip(y);
      UnpaddedSplit(x);
      DecodeJoin(EncodeGroup(g), Unpadded(y));
      GroupRoundTrip(g);
      assert EncodeGroup(g)[..4] == EncodeGroup(g);
      PaddedSplit(x);
    }
  }

  lemma PaddedSplit(x: seq<Byte>)
    requires |x| > 3
    ensures Padded(x) == x[..3] + Padded(x[3..])
  {
  }

  lemma {:induction false} LengthFromGroups(n: nat)
    requires n > 0
    ensures Groups(n) >= 1 && n == 3 * Groups(n) - (3 - LastGroup(n))
  {
    if n > 3 {
      LengthFromGroups(n - 3);
    }
  }

  lemma PaddedInjective(x: seq<Byte>, y: seq<Byte>)
    requires |x| == |y| && Padded(x) == Padded(y)
    ensures x == y
  {
    assert Padded(x)[..|x|] == x && Padded(y)[..|y|] == y;
  }

  lemma LengthFromText(x: seq<Byte>, s: seq<Symbol>)
    requires x != [] && Encode(x) == s
    ensures |s| == 4 * Groups(|x|) && |s| >= 4 && |x| == 3 * Groups(|x|) - EqualCount(s)
  {
    LengthFromGroups(|x|);
    EncodeEnd(x);
  }

  lemma TextRoundTrip(x: seq<Byte>, s: seq<Symbol>)
    requires x != [] && Encode(x) == s
    ensures |s| >= 4 && Decode(s[..|s| - EqualCount(s)]) == Padded(x)
  {
    RoundTrip(x);
    LengthFromText(x, s);
  }

  /** Different inputs have different texts. */
  lemma EncodeInjective(x: seq<Byte>, y: seq<Byte>, s: seq<Symbol>)
    requires x != [] && y != [] && Encode(x) == s && Encode(y) == s
    ensures x == y
  {
    LengthFromText(x, s);
    LengthFromText(y, s);
    TextRoundTrip(x, s);
    TextRoundTrip(y, s);
    PaddedInjective(x, y);
  }

  method StrLen(t: array<char>, ghost s: seq<Symbol>) returns (n: nat)
    requires Holds(t, s) && |s| < t.Length && t[|s|] == '\0' && END !in s
    ensures n == |s|
  {
    n := 0;
    var c := t[0];
    while c != '\0'
      invariant n <= |s| && c == t[n]
      decreases |s| - n
    {
      n := n + 1;
      c := t[n];
    }
    if n < |s| {
      LetterInjective(s[n], PAD);
      assert false;
    }
  }

  /** What `main` does: the input comes back, followed by zeros. */
  method ThereAndBack(data: array<Byte>, dataLen: nat) returns (dec: array<Byte>)
    requires 0 < dataLen <= data.Length
    ensures dataLen < dec.Length && dec[..dataLen] == data[..dataLen]
    ensures forall i :: dataLen <= i < dec.Length ==> dec[i] == 0
    ensures 0 !in data[..dataLen] ==> CString(dec[..]) == data[..dataLen]
  {
    ghost var x := data[..dataLen];
    ghost var s := Encode(x);
    var enc := Base64Encode(data, dataLen);
    EncodePlain(x);
    var len := StrLen(enc, s);
    dec := Base64Decode(enc, len, s);
    RoundTrip(x);
    BackWithZeros(dec, x, Padded(x));
    if 0 !in x {
      CStringEnds(dec[..], x);
    }
  }

  /** What printing shows: the bytes before the first zero. */
  function CString(s: seq<Byte>): seq<Byte> {
    if s == [] || s[0] == 0 then [] else [s[0]] + CString(s[1..])
  }

  lemma {:induction false} CStringEnds(s: seq<Byte>, x: seq<Byte>)
    requires |x| < |s| && s[..|x|] == x && s[|x|] == 0 && 0 !in x
    ensures CString(s) == x
  {
    if x != [] {
      assert s[0] == x[0] && s[1..][..|x| - 1] == x[1..];
      CStringEnds(s[1..], x[1..]);
    }
  }

  lemma BackWithZeros(dec: array<Byte>, x: seq<Byte>, y: seq<Byte>)
    requires HoldsBytes(dec, y) && |y| < dec.Length && (y == x || y == x + [0])
    ensures |x| < dec.Length && dec[..|x|] == x && forall i :: |x| <= i < dec.Length ==> dec[i] == 0
  {
  }
}
