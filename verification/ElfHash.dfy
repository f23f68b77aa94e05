/** The ELF hash function, where `unsigned long` has 64 bits and where it has 32. */
module ElfHash {
  import opened Numbers

  type Name = seq<Byte>

  /** The exclusive or of the last `k` bits. */
  function Xor(a: nat, b: nat, k: nat): (x: nat)
    decreases k
  {
    if k == 0 then 0 else (if a % 2 != b % 2 then 1 else 0) + 2 * Xor(a / 2, b / 2, k - 1)
  }

  lemma XorNibble(a: nat, b: nat)
    requires a < 16 && b < 16
    ensures Xor(a, b, 4) < 16 && Xor(a, 0, 4) == a
  {
  }

  /** Bits 28 to 31, and bits 4 to 7. */
  function HighNibble(s: nat): (n: nat)
    ensures n < 16
  {
    s / 0x1000_0000 % 16
  }

  function LowNibble(s: nat): (n: nat)
    ensures n < 16
  {
    s / 16 % 16
  }

  /** The high nibble goes into the low one and is cleared. */
  function Fold(s: nat): (h: int)
    ensures 0 <= h && h / TWO32 == s / TWO32 && HighNibble(h) == 0
  {
    var n, m := HighNibble(s), LowNibble(s);
    XorNibble(m, n);
    FoldFacts(s, n, m, Xor(m, n, 4));
    s - n * 0x1000_0000 + (Xor(m, n, 4) - m) * 16
  }

  /** A word is what is above 32 bits, the high nibble, twenty bits, the low nibble and four bits. */
  function Word(q: nat, n: nat, u: nat, m: nat, l: nat): nat {
    q * TWO32 + n * 0x1000_0000 + u * 0x100 + m * 16 + l
  }

  lemma WordParts(s: nat, q: nat, n: nat, u: nat, m: nat, l: nat)
    requires s == Word(q, n, u, m, l) && n < 16 && u < 0x10_0000 && m < 16 && l < 16
    ensures s / TWO32 == q && HighNibble(s) == n && LowNibble(s) == m
  {
    Quotient(s, TWO32, q, Word(0, n, u, m, l));
    Quotient(s, 0x1000_0000, q * 16 + n, Word(0, 0, u, m, l));
    Quotient(q * 16 + n, 16, q, n);
    Quotient(s, 16, q * 0x1000_0000 + n * 0x100_0000 + u * 16 + m, l);
    Quotient(q * 0x1000_0000 + n * 0x100_0000 + u * 16 + m, 16, q * 0x100_0000 + n * 0x10_0000 + u, m);
  }

  lemma PartsOf(s: nat) returns (q: nat, n: nat, u: nat, m: nat, l: nat)
    ensures s == Word(q, n, u, m, l) && n < 16 && u < 0x10_0000 && m < 16 && l < 16
  {
    var w := s / 16;
    l := s % 16;
    m := w % 16;
    var x := w / 16;
    u := x % 0x10_0000;
    var y := x / 0x10_0000;
    n := y % 16;
    q := y / 16;
  }

  lemma FoldFacts(s: nat, n: nat, m: nat, x: nat)
    requires n == HighNibble(s) && m == LowNibble(s) && x < 16
    ensures var h := s - n * 0x1000_0000 + (x - m) * 16; h >= 0 && h / TWO32 == s / TWO32 && HighNibble(h) == 0
  {
    var q, n', u, m', l := PartsOf(s);
    WordParts(s, q, n', u, m', l);
    WordParts(s - n * 0x1000_0000 + (x - m) * 16, q, 0, u, x, l);
  }

  /** One turn of the loop with words below `size`. */
  function Step(h: nat, c: Byte, size: nat): (r: nat)
    requires size > 0
  {
    Fold((16 * h + c) % size)
  }

  function Hash(name: Name, size: nat): nat
    requires size > 0
  {
    if name == [] then 0 else Step(Hash(name[..|name| - 1], size), name[|name| - 1], size)
  }

  /** The loop of `elf_hash`, where `unsigned long` has values below `size`. */
  method HashName(name: Name, size: nat) returns (h: nat)
    requires size > 0
    ensures h == Hash(name, size)
  {
    h := 0;
    for i := 0 to |name|
      invariant h == Hash(name[..i], size)
    {
      assert name[..i + 1][..i] == name[..i];
      h := Turn(h, name[i], size);
    }
    assert name[..|name|] == name;
  }

  method Turn(h0: nat, c: Byte, size: nat) returns (h: nat)
    requires size > 0
    ensures h == Step(h0, c, size)
  {
    h := (16 * h0 + c) % size;
    var s := h;
    var g := HighNibble(h);
    XorNibble(LowNibble(h), g);
    FoldFacts(h, g, LowNibble(h), Xor(LowNibble(h), g, 4));
    FoldFacts(h, g, LowNibble(h), LowNibble(h));
    if g != 0 {
      h := s - g * 0x1000_0000 + (Xor(LowNibble(h), g, 4) - LowNibble(h)) * 16;
    }
  }

  // ---------- the turn bit by bit ----------

  /** Bit `k` of a number, the last bit being bit 0. */
  function Bit(h: nat, k: nat): bool
    decreases k
  {
    if k == 0 then h % 2 == 1 else Bit(h / 2, k - 1)
  }

  function Pow2(k: nat): (p: nat)
    ensures p > 0
  {
    if k == 0 then 1 else 2 * Pow2(k - 1)
  }

  lemma HalfOf(a: nat, p: nat, b: nat)
    requires b < 2 * p
    ensures (a * (2 * p) + b) / 2 == a * p + b / 2 && (a * (2 * p) + b) % 2 == b % 2 && b / 2 < p
  {
    assert a * (2 * p) == 2 * (a * p);
    Quotient(a * (2 * p) + b, 2, a * p + b / 2, b % 2);
  }

  /** The bits of two parts of a number. */
  lemma {:induction false} BitOfParts(a: nat, j: nat, b: nat, k: nat, p: nat)
    requires p == Pow2(j) && b < p
    ensures Bit(a * p + b, k) == if k < j then Bit(b, k) else Bit(a, k - j)
    decreases j
  {
    if j == 0 {
      assert a * p + b == a;
    } else {
      var p' := Pow2(j - 1);
      HalfOf(a, p', b);
      assert a * p + b == a * (2 * p') + b;
      if k > 0 {
        BitOfParts(a, j - 1, b / 2, k - 1, p');
      }
    }
  }

  lemma {:induction false} XorBit(a: nat, b: nat, n: nat, k: nat)
    requires k < n
    ensures Bit(Xor(a, b, n), k) == (Bit(a, k) != Bit(b, k))
    decreases n
  {
    var x := if a % 2 != b % 2 then 1 else 0;
    HalfOf(Xor(a / 2, b / 2, n - 1), 1, x);
    assert Xor(a, b, n) == Xor(a / 2, b / 2, n - 1) * (2 * 1) + x;
    if k > 0 {
      XorBit(a / 2, b / 2, n - 1, k - 1);
    }
  }

  lemma Powers()
    ensures Pow2(4) == 16 && Pow2(20) == 0x10_0000
  {
    assert Pow2(8) == 16 * Pow2(4);
    assert Pow2(12) == 16 * Pow2(8);
    assert Pow2(16) == 16 * Pow2(12);
    assert Pow2(20) == 16 * Pow2(16);
  }

  /** The parts of a word and where their bits are. */
  lemma WordBit(q: nat, n: nat, u: nat, m: nat, l: nat, k: nat)
    requires n < 16 && u < 0x10_0000 && m < 16 && l < 16
    ensures Bit(Word(q, n, u, m, l), k)
         == if k < 4 then Bit(l, k) else if k < 8 then Bit(m, k - 4) else if k < 28 then Bit(u, k - 8)
            else if k < 32 then Bit(n, k - 28) else Bit(q, k - 32)
  {
    Powers();
    var c := q * 16 + n;
    var b := c * 0x10_0000 + u;
    var a := b * 16 + m;
    assert Word(q, n, u, m, l) == a * 16 + l;
    BitOfParts(a, 4, l, k, 16);
    if k >= 4 {
      BitOfParts(b, 4, m, k - 4, 16);
    }
    if k >= 8 {
      BitOfParts(c, 20, u, k - 8, 0x10_0000);
    }
    if k >= 28 {
      BitOfParts(q, 4, n, k - 28, 16);
    }
  }

  lemma NoBit(k: nat)
    ensures !Bit(0, k)
  {
  }

  lemma FoldBit(s: nat, k: nat)
    ensures Bit(Fold(s), k) == if 28 <= k < 32 then false else if 4 <= k < 8 then Bit(s, k) != Bit(s, k + 24)
                               else Bit(s, k)
  {
    var q, n, u, m, l := PartsOf(s);
    WordParts(s, q, n, u, m, l);
    var x := Xor(m, n, 4);
    XorNibble(m, n);
    assert Fold(s) == Word(q, 0, u, x, l);
    WordBit(q, n, u, m, l, k);
    WordBit(q, 0, u, x, l, k);
    if 4 <= k < 8 {
      XorBit(m, n, 4, k - 4);
      WordBit(q, n, u, m, l, k + 24);
    }
    if 28 <= k < 32 {
      NoBit(k - 28);
    }
  }

  /**
   * One turn, as the "Hash Table" section has it: after a shift by four and an addition, bits 28 to 31 are cleared, and
   * turned over each of the bits 4 to 7 for which the bit 24 places higher was set.
   */
  lemma TurnBit(h: nat, c: Byte, size: nat, k: nat)
    requires size > 0
    ensures var t := (16 * h + c) % size;
      Bit(Step(h, c, size), k) == if 28 <= k < 32 then false else if 4 <= k < 8 then Bit(t, k) != Bit(t, k + 24)
                                  else Bit(t, k)
  {
    FoldBit((16 * h + c) % size, k);
  }

  // ---------- the two widths ----------

  lemma FoldLow(s: nat)
    ensures Fold(s) % TWO32 == Fold(s % TWO32)
  {
    var q, n, u, m, l := PartsOf(s);
    WordParts(s, q, n, u, m, l);
    Quotient(s, TWO32, q, Word(0, n, u, m, l));
    WordParts(s % TWO32, 0, n, u, m, l);
    var x := Xor(m, n, 4);
    XorNibble(m, n);
    Quotient(Fold(s), TWO32, q, Word(0, 0, u, x, l));
  }

  /** A sum of 64 bits in its halves: `b` is what is left of the carry and the high half. */
  lemma Halves(h: nat, c: Byte, t: nat, w: nat)
    requires h == h / TWO32 * TWO32 + h % TWO32
    requires 16 * (h % TWO32) + c == t * TWO32 + w && w < TWO32
    ensures (16 * h + c) % TWO64 == (16 * (h / TWO32) + t) % TWO32 * TWO32 + w
  {
  }

  lemma SumHalves(h: nat, c: Byte)
    requires HighNibble(h) == 0
    ensures var s := (16 * h + c) % TWO64;
            s % TWO32 == (16 * (h % TWO32) + c) % TWO32
            && s / TWO32 == (16 * (h / TWO32) + Carry(h % TWO32, c)) % TWO32
  {
    var low := h % TWO32;
    var t := Carry(low, c);
    LowBound(h);
    var w := 16 * low + c - t * TWO32;
    Halves(h, c, t, w);
    Quotient(16 * low + c, TWO32, t, w);
    var b := (16 * (h / TWO32) + t) % TWO32;
    Quotient(b * TWO32 + w, TWO32, b, w);
  }

  lemma StepHalves(h: nat, c: Byte)
    requires HighNibble(h) == 0
    ensures Step(h, c, TWO64) % TWO32 == Step(h % TWO32, c, TWO32)
    ensures Step(h, c, TWO64) / TWO32 == (16 * (h / TWO32) + Carry(h % TWO32, c)) % TWO32
  {
    SumHalves(h, c);
    FoldLow((16 * h + c) % TWO64);
  }

  /** Whether the next turn overflows 32 bits. */
  function Carry(low: nat, c: Byte): (t: nat)
    ensures t <= 1
  {
    if 16 * low + c >= TWO32 then 1 else 0
  }

  lemma LowBound(h: nat)
    requires HighNibble(h) == 0
    ensures h % TWO32 < 0x1000_0000
  {
  }

  lemma HashNibble(name: Name, size: nat)
    requires size > 0
    ensures HighNibble(Hash(name, size)) == 0
  {
  }

  /** The low half is what 32 bits give, for every name. */
  lemma {:induction false} LowHalf(name: Name)
    ensures Hash(name, TWO64) % TWO32 == Hash(name, TWO32)
  {
    if name != [] {
      var n := |name| - 1;
      LowHalf(name[..n]);
      HashNibble(name[..n], TWO64);
      StepHalves(Hash(name[..n], TWO64), name[n]);
    }
  }

  /** So the hash of a version is right for either width, being cut to 32 bits before it is compared. */
  lemma VersionHash(name: Name, size: nat)
    requires size == TWO32 || size == TWO64
    ensures Hash(name, size) % TWO32 == Hash(name, TWO32)
  {
    LowHalf(name);
    Below(Hash(name, TWO64), Hash(name, TWO32));
  }

  lemma Below(h: nat, low: nat)
    requires h % TWO32 == low
    ensures low % TWO32 == low
  {
  }

  ghost predicate CarryAt(name: Name, i: nat)
    requires i < |name|
  {
    Carry(Hash(name[..i], TWO32), name[i]) == 1
  }

  /** The carries of the last `k` turns as a number in base 16, the last turn lowest. */
  ghost function Carries(name: Name, k: nat): (u: nat)
    decreases k
  {
    if k == 0 || name == [] then 0
    else 16 * Carries(name[..|name| - 1], k - 1) + Carry(Hash(name[..|name| - 1], TWO32), name[|name| - 1])
  }

  function Pow16(k: nat): (p: nat)
    ensures p > 0
  {
    if k == 0 then 1 else 16 * Pow16(k - 1)
  }

  lemma {:induction false} CarriesBound(name: Name, k: nat)
    ensures Carries(name, k) < Pow16(k)
    decreases k
  {
    if k > 0 && name != [] {
      CarriesBound(name[..|name| - 1], k - 1);
    }
  }

  /** One more turn back adds a digit in front. */
  lemma {:induction false} CarriesMore(name: Name, k: nat)
    ensures Carries(name, k + 1) % Pow16(k) == Carries(name, k)
    decreases k
  {
    if k == 0 || name == [] {
      CarriesStart(name, k);
    } else {
      CarriesMore(name[..|name| - 1], k - 1);
      CarriesDigit(name, k);
    }
  }

  lemma CarriesStart(name: Name, k: nat)
    requires k == 0 || name == []
    ensures Carries(name, k + 1) % Pow16(k) == Carries(name, k)
  {
    if k == 0 {
      assert Pow16(k) == 1 && Carries(name, k) == 0;
    } else {
      assert Carries(name, k + 1) == 0 == Carries(name, k);
    }
  }

  lemma CarriesDigit(name: Name, k: nat)
    requires k > 0 && name != []
    requires Carries(name[..|name| - 1], k) % Pow16(k - 1) == Carries(name[..|name| - 1], k - 1)
    ensures Carries(name, k + 1) % Pow16(k) == Carries(name, k)
  {
    var m := name[..|name| - 1];
    ModMore(Carries(m, k), Carries(m, k - 1), Pow16(k - 1), Carry(Hash(m, TWO32), name[|name| - 1]));
  }

  lemma ModMore(x: nat, y: nat, p: nat, t: nat)
    requires p > 0 && x % p == y && t <= 1
    ensures (16 * x + t) % (16 * p) == 16 * y + t
  {
    var q := x / p;
    assert 16 * x + t == q * (16 * p) + (16 * y + t);
    Quotient(16 * x + t, 16 * p, q, 16 * y + t);
  }

  lemma CarriesNext(name: Name, k: nat, u: nat, t: nat, p: nat)
    requires name != [] && p == Pow16(k)
    requires u == Carries(name[..|name| - 1], k) && t == Carry(Hash(name[..|name| - 1], TWO32), name[|name| - 1])
    ensures Carries(name, k) == (16 * u + t) % p
  {
    CarriesMore(name, k);
    assert Carries(name, k + 1) == 16 * u + t;
  }

  lemma HighNext(name: Name, h: nat, c: Byte, u: nat, k: nat)
    requires name != [] && h == Hash(name[..|name| - 1], TWO64) && c == name[|name| - 1]
    requires HighNibble(h) == 0 && h % TWO32 == Hash(name[..|name| - 1], TWO32)
    requires h / TWO32 == u == Carries(name[..|name| - 1], k) && Pow16(k) == TWO32
    ensures Step(h, c, TWO64) / TWO32 == Carries(name, k)
  {
    var t, r := Carry(h % TWO32, c), Step(h, c, TWO64) / TWO32;
    HighIs(h, c, u, t, r);
    CarriesNext(name, k, u, t, Pow16(k));
  }

  lemma HighIs(h: nat, c: Byte, u: nat, t: nat, r: nat)
    requires HighNibble(h) == 0 && h / TWO32 == u && t == Carry(h % TWO32, c) && r == Step(h, c, TWO64) / TWO32
    ensures r == (16 * u + t) % TWO32
  {
    StepHalves(h, c);
  }

  /** The high half remembers as many turns as it has nibbles. */
  lemma {:induction false} HighHalf(name: Name, k: nat)
    requires Pow16(k) == TWO32
    ensures Hash(name, TWO64) / TWO32 == Carries(name, k)
  {
    if name != [] {
      var n := |name| - 1;
      var m := name[..n];
      HighHalf(m, k);
      LowHalf(m);
      HashNibble(m, TWO64);
      HighNext(name, Hash(m, TWO64), name[n], Carries(m, k), k);
    }
  }

  /** None of the last `k` turns overflows 32 bits. */
  ghost predicate Quiet(name: Name, k: nat) {
    forall i :: 0 <= i < |name| && |name| - k <= i ==> !CarryAt(name, i)
  }

  lemma QuietNext(name: Name, k: nat)
    requires name != [] && k > 0
    ensures Quiet(name, k) <==> Quiet(name[..|name| - 1], k - 1) && !CarryAt(name, |name| - 1)
  {
    var n := |name| - 1;
    forall i | 0 <= i < n ensures CarryAt(name[..n], i) <==> CarryAt(name, i) {
      assert name[..n][..i] == name[..i];
    }
  }

  lemma CarriesZero(name: Name, k: nat)
    requires name != [] && k > 0
    ensures Carries(name, k) == 0 <==> Carries(name[..|name| - 1], k - 1) == 0 && !CarryAt(name, |name| - 1)
  {
  }

  lemma QuietStart(name: Name, k: nat)
    requires k == 0 || name == []
    ensures Carries(name, k) == 0 && Quiet(name, k)
  {
  }

  lemma QuietStep(name: Name, k: nat)
    requires name != [] && k > 0
    requires Carries(name[..|name| - 1], k - 1) == 0 <==> Quiet(name[..|name| - 1], k - 1)
    ensures Carries(name, k) == 0 <==> Quiet(name, k)
  {
    QuietNext(name, k);
    CarriesZero(name, k);
  }

  lemma {:induction false} NoCarries(name: Name, k: nat)
    ensures Carries(name, k) == 0 <==> Quiet(name, k)
    decreases k
  {
    if k == 0 || name == [] {
      QuietStart(name, k);
    } else {
      NoCarries(name[..|name| - 1], k - 1);
      QuietStep(name, k);
    }
  }

  /** With 64 bits the hash is the one of the ABI exactly when none of the last eight turns overflows 32 bits. */
  lemma WidthsAgree(name: Name)
    ensures Hash(name, TWO64) == Hash(name, TWO32) <==> Quiet(name, 8)
  {
    assert Pow16(8) == TWO32;
    LowHalf(name);
    HighHalf(name, 8);
    NoCarries(name, 8);
  }

  lemma HashSnoc(name: Name, c: Byte, size: nat)
    requires size > 0
    ensures Hash(name + [c], size) == Step(Hash(name, size), c, size)
  {
  }

  /** While 28 bits are enough, the characters are only shifted in. */
  lemma SmallStep(h: nat, c: Byte, size: nat)
    requires 16 * h + c < 0x1000_0000 && size >= TWO32
    ensures Step(h, c, size) == 16 * h + c
  {
    Quotient(16 * h + c, size, 0, 16 * h + c);
    FoldSmall(16 * h + c);
  }

  lemma FoldSmall(s: nat)
    requires s < 0x1000_0000
    ensures Fold(s) == s
  {
    Quotient(s, 0x1000_0000, 0, s);
    XorNibble(LowNibble(s), 0);
  }

  lemma FoldWord(s: nat, n: nat, u: nat, m: nat, l: nat, x: nat)
    requires s == Word(0, n, u, m, l) && n < 16 && u < 0x10_0000 && m < 16 && l < 16 && x == Xor(m, n, 4)
    ensures Fold(s) == Word(0, 0, u, x, l)
  {
    WordParts(s, 0, n, u, m, l);
  }

  lemma StepWord(h: nat, c: Byte, n: nat, u: nat, m: nat, l: nat, x: nat)
    requires 16 * h + c == Word(0, n, u, m, l) && n < 16 && u < 0x10_0000 && m < 16 && l < 16 && x == Xor(m, n, 4)
    ensures Step(h, c, TWO32) == Word(0, 0, u, x, l)
  {
    var s := 16 * h + c;
    Quotient(s, TWO32, 0, s);
    FoldWord(s, n, u, m, l, x);
  }

  lemma NextHash(v: Name, w: Name, c: Byte, h: nat, n: nat, u: nat, m: nat, l: nat, x: nat)
    requires w == v + [c] && Hash(v, TWO32) == h && 16 * h + c == Word(0, n, u, m, l)
    requires n < 16 && u < 0x10_0000 && m < 16 && l < 16 && x == Xor(m, n, 4)
    ensures Hash(w, TWO32) == Word(0, 0, u, x, l)
  {
    HashSnoc(v, c, TWO32);
    StepWord(h, c, n, u, m, l, x);
  }

  lemma NibbleTurns()
    ensures Xor(4, 0, 4) == 4 && Xor(0, 0, 4) == 0 && Xor(13, 0, 4) == 13 && Xor(3, 0, 4) == 3 && Xor(10, 0, 4) == 10
    ensures Xor(2, 5, 4) == 7 && Xor(1, 14, 4) == 15
  {
  }

  lemma VersionStart(v: Name)
    requires |v| == 9 && v[0] == 0x4c && v[1] == 0x49 && v[2] == 0x4e
    requires Hash(v[..0], TWO32) == 0x0
    ensures Hash(v[..3], TWO32) == 0x50de
  {
    NibbleTurns();
    assert v[..1] == v[..0] + [v[0]];
    NextHash(v[..0], v[..1], v[0], 0x0, 0, 0x0, 4, 12, 4);
    assert v[..2] == v[..1] + [v[1]];
    NextHash(v[..1], v[..2], v[1], 0x4c, 0, 0x5, 0, 9, 0);
    assert v[..3] == v[..2] + [v[2]];
    NextHash(v[..2], v[..3], v[2], 0x509, 0, 0x50, 13, 14, 13);
  }

  lemma VersionMiddle(v: Name)
    requires |v| == 9 && v[3] == 0x55 && v[4] == 0x58 && v[5] == 0x5f
    requires Hash(v[..3], TWO32) == 0x50de
    ensures Hash(v[..6], TWO32) == 0x50e3adf
  {
    NibbleTurns();
    assert v[..4] == v[..3] + [v[3]];
    NextHash(v[..3], v[..4], v[3], 0x50de, 0, 0x50e, 3, 5, 3);
    assert v[..5] == v[..4] + [v[4]];
    NextHash(v[..4], v[..5], v[4], 0x50e35, 0, 0x50e3, 10, 8, 10);
    assert v[..6] == v[..5] + [v[5]];
    NextHash(v[..5], v[..6], v[5], 0x50e3a8, 0, 0x50e3a, 13, 15, 13);
  }

  lemma VersionEnd(v: Name)
    requires |v| == 9 && v[6] == 0x32 && v[7] == 0x2e && v[8] == 0x36
    requires Hash(v[..6], TWO32) == 0x50e3adf
    ensures Hash(v[..9], TWO32) == 0x3ae75f6
  {
    NibbleTurns();
    assert v[..7] == v[..6] + [v[6]];
    NextHash(v[..6], v[..7], v[6], 0x50e3adf, 5, 0xe3ae, 2, 2, 7);
    assert v[..8] == v[..7] + [v[7]];
    NextHash(v[..7], v[..8], v[7], 0xe3ae72, 0, 0xe3ae7, 4, 14, 4);
    assert v[..9] == v[..8] + [v[8]];
    NextHash(v[..8], v[..9], v[8], 0xe3ae74e, 14, 0x3ae75, 1, 6, 15);
  }

  /** "LINUX_2.6", the version of the symbols of the vDSO. */
  predicate IsLinuxVersion(v: Name) {
    && |v| == 9 && v[0] == 0x4c && v[1] == 0x49 && v[2] == 0x4e && v[3] == 0x55 && v[4] == 0x58 && v[5] == 0x5f
    && v[6] == 0x32 && v[7] == 0x2e && v[8] == 0x36
  }

  /** Its hash, which the version definition of the kernel carries. */
  lemma VersionValue(v: Name)
    requires IsLinuxVersion(v)
    ensures Hash(v, TWO32) == 0x3ae_75f6
  {
    assert v[..0] == [] && v[..9] == v;
    VersionStart(v);
    VersionMiddle(v);
    VersionEnd(v);
  }

  /** Seven bytes for which the two widths disagree. */
  const LONG_NAME: Name := [0xff, 0x0f, 0x0f, 0x0f, 0x0f, 0x0f, 0x12]

  lemma Shifted(k: nat, h: nat, size: nat)
    requires k < 6 && size >= TWO32 && Hash(LONG_NAME[..k], size) == h && 16 * h + LONG_NAME[k] < 0x1000_0000
    ensures Hash(LONG_NAME[..k + 1], size) == 16 * h + LONG_NAME[k]
  {
    HashSnoc(LONG_NAME[..k], LONG_NAME[k], size);
    assert LONG_NAME[..k] + [LONG_NAME[k]] == LONG_NAME[..k + 1];
    SmallStep(h, LONG_NAME[k], size);
  }

  lemma SixBytes(size: nat)
    requires size >= TWO32
    ensures Hash(LONG_NAME[..6], size) == 0xfff_ffff
  {
    assert LONG_NAME[..0] == [];
    Shifted(0, 0, size);
    Shifted(1, 0xff, size);
    Shifted(2, 0xfff, size);
    Shifted(3, 0xffff, size);
    Shifted(4, 0xf_ffff, size);
    Shifted(5, 0xff_ffff, size);
  }

  lemma LastByte(size: nat)
    requires size >= TWO32
    ensures Hash(LONG_NAME, size) == Fold(0x1_0000_0002 % size)
  {
    SixBytes(size);
    HashSnoc(LONG_NAME[..6], LONG_NAME[6], size);
    assert LONG_NAME[..6] + [LONG_NAME[6]] == LONG_NAME;
  }

  lemma WidthsDiffer()
    ensures Hash(LONG_NAME, TWO64) == 0x1_0000_0002 && Hash(LONG_NAME, TWO32) == 2
  {
    LastByte(TWO64);
    LastByte(TWO32);
    XorNibble(0, 0);
    WordParts(0x1_0000_0002, 1, 0, 0, 0, 2);
    WordParts(2, 0, 0, 0, 0, 2);
    assert Fold(0x1_0000_0002) == 0x1_0000_0002 && Fold(2) == 2;
  }
}
