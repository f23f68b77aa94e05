/** Looking a function up in the symbol hash table of a vDSO. */
module Vdso {
  import opened ElfHash
  import opened Numbers

  datatype Option<T> = None | Some(value: T)

  const STT_FUNC := 2
  const STB_GLOBAL := 1
  const STB_WEAK := 2
  const SHN_UNDEF := 0
  const STN_UNDEF := 0

  /** A symbol, with its name in place of the offset of it. */
  datatype Sym = Sym(name: Name, info: nat, shndx: nat, value: nat)

  /** A version definition with its first name; `next` tells how many entries on the next one is, 0 for none. */
  datatype Verdef = Verdef(flags: nat, ndx: nat, hash: nat, name: Name, next: nat)

  class VdsoInfo {
    var valid: bool
    var loadOffset: nat
    var symtab: seq<Sym>
    var words: seq<nat>  // the hash table: nbucket, nchain, the buckets, the chains
    var nbucket: nat
    var nchain: nat
    var versym: Option<seq<nat>>
    var verdef: seq<Verdef>
    const size: nat  // the values of `unsigned long` and of addresses are below

    constructor (size: nat)
      ensures !valid && this.size == size
    {
      this.size := size;
      valid, loadOffset, symtab, words, nbucket, nchain, versym, verdef := false, 0, [], [], 0, 0, None, [];
    }

    /**
     * The initialisation: `headerOk` tells that the image has the right class, a segment to load and a dynamic one, and
     * the tables are those the dynamic segment names, if it names them.  Without definitions versions are not looked
     * at.
     */
    method Init(headerOk: bool, loadOffset: nat, symstrings: bool, symtab: Option<seq<Sym>>, hash: Option<seq<nat>>,
                versym: Option<seq<nat>>, verdef: Option<seq<Verdef>>)
      requires hash.Some? ==> |hash.value| >= 2
      modifies this
      ensures valid <==> headerOk && symstrings && symtab.Some? && hash.Some?
      ensures valid ==> this.loadOffset == loadOffset && this.symtab == symtab.value && words == hash.value
      ensures valid ==> nbucket == hash.value[0] && nchain == hash.value[1]
      ensures valid ==> this.versym == (if verdef.None? then None else versym)
      ensures valid && verdef.Some? ==> this.verdef == verdef.value
    {
      valid := false;
      if !headerOk {
        return;
      }
      this.loadOffset, this.versym := loadOffset, versym;
      if !symstrings || symtab.None? || hash.None? {
        return;
      }
      if verdef.None? {
        this.versym, this.verdef := None, [];
      } else {
        this.verdef := verdef.value;
      }
      this.symtab, words := symtab.value, hash.value;
      nbucket, nchain := words[0], words[1];
      valid := true;
    }

    // ---------- versions ----------

    /** Every step through the version definitions leads to one. */
    ghost predicate VerdefsLinked()
      reads this
    {
      verdef != [] && forall d :: 0 <= d < |verdef| ==> verdef[d].next == 0 || d + verdef[d].next < |verdef|
    }

    /** Definition `d` is of version `ver` and not of the file itself. */
    ghost predicate Defines(d: nat, ver: nat)
      requires d < |verdef|
      reads this
    {
      verdef[d].flags % 2 == 0 && verdef[d].ndx % 0x8000 == ver
    }

    /** The links lead from definition `d` to definition `e`. */
    ghost predicate Linked(d: nat, e: nat)
      requires VerdefsLinked() && d < |verdef|
      reads this
      decreases |verdef| - d
    {
      d == e || (verdef[d].next != 0 && Linked(d + verdef[d].next, e))
    }

    /** The first definition of version `ver` that is not the file itself, from `d` on. */
    ghost function FindVersion(d: nat, ver: nat): (r: Option<nat>)
      requires VerdefsLinked() && d < |verdef|
      reads this
      ensures r.Some? ==> r.value < |verdef|
      decreases |verdef| - d
    {
      if Defines(d, ver) then Some(d)
      else if verdef[d].next == 0 then None
      else FindVersion(d + verdef[d].next, ver)
    }

    lemma {:induction false} LinkedOn(d: nat, e: nat)
      requires VerdefsLinked() && d < |verdef| && Linked(d, e)
      ensures d <= e < |verdef|
      decreases |verdef| - d
    {
      if d != e {
        LinkedOn(d + verdef[d].next, e);
      }
    }

    /** What is found is on the links, defines the version, and nothing before it on the links does. */
    lemma {:induction false} FindsFirst(d: nat, ver: nat, e: nat)
      requires VerdefsLinked() && d < |verdef| && e < |verdef|
      ensures FindVersion(d, ver) == Some(e)
              <==> Linked(d, e) && Defines(e, ver)
                   && forall f: nat :: f < e && Linked(d, f) ==> !Defines(f, ver)
      decreases |verdef| - d
    {
      if Defines(d, ver) {
        assert Linked(d, d);
        forall f: nat | Linked(d, f) ensures d <= f {
          LinkedOn(d, f);
        }
      } else if verdef[d].next != 0 {
        var d' := d + verdef[d].next;
        FindsFirst(d', ver, e);
        forall f: nat | f < e && f < |verdef| ensures Linked(d, f) <==> f == d || Linked(d', f) {
        }
      }
    }

    /** Nothing is found exactly if no definition on the links is of the version. */
    lemma {:induction false} FindsNone(d: nat, ver: nat)
      requires VerdefsLinked() && d < |verdef|
      ensures FindVersion(d, ver).None? <==> forall f: nat :: f < |verdef| && Linked(d, f) ==> !Defines(f, ver)
      decreases |verdef| - d
    {
      assert Linked(d, d);
      if !Defines(d, ver) && verdef[d].next != 0 {
        var d' := d + verdef[d].next;
        FindsNone(d', ver);
        assert forall f: nat :: f < |verdef| && Linked(d', f) ==> Linked(d, f);
      }
    }

    ghost predicate VersionMatches(ver: nat, name: Name, hash: nat)
      requires VerdefsLinked()
      reads this
    {
      var d := FindVersion(0, ver % 0x8000);
      d.Some? && verdef[d.value].hash == hash && verdef[d.value].name == name
    }

    method MatchVersion(ver0: nat, name: Name, hash: nat) returns (matches: bool)
      requires VerdefsLinked()
      ensures matches <==> VersionMatches(ver0, name, hash)
    {
      var ver := ver0 % 0x8000;
      var def: nat := 0;
      while true
        invariant def < |verdef| && FindVersion(def, ver) == FindVersion(0, ver)
        decreases |verdef| - def
      {
        if verdef[def].flags % 2 == 0 && verdef[def].ndx % 0x8000 == ver {
          break;
        }
        if verdef[def].next == 0 {
          return false;
        }
        def := def + verdef[def].next;
      }
      matches := verdef[def].hash == hash && verdef[def].name == name;
    }

    // ---------- symbols ----------

    /** A defined global or weak function of this name and version. */
    ghost predicate Qualifies(i: nat, version: Name, name: Name)
      requires i < |symtab| && (versym.Some? ==> VerdefsLinked() && i < |versym.value|)
      reads this
    {
      var s := symtab[i];
      && s.info % 16 == STT_FUNC && (s.info / 16 == STB_GLOBAL || s.info / 16 == STB_WEAK) && s.shndx != SHN_UNDEF
      && s.name == name
      && (versym.Some? ==> VersionMatches(versym.value[i], version, Hash(version, TWO32)))
    }

    /** Definition `e` is the first on the links with the index `ver` that is not the file's own. */
    ghost predicate FirstOf(e: nat, ver: nat)
      requires VerdefsLinked()
      reads this
    {
      && e < |verdef| && Linked(0, e) && verdef[e].flags % 2 == 0 && verdef[e].ndx % 0x8000 == ver
      && forall f: nat :: f < e && Linked(0, f) ==> !(verdef[f].flags % 2 == 0 && verdef[f].ndx % 0x8000 == ver)
    }

    /** What is looked for, in the numbers of the System V gABI; the top bit of a version index does not count. */
    lemma QualifiesMeans(i: nat, version: Name, name: Name)
      requires Sized() && i < |symtab|
      ensures Qualifies(i, version, name)
              <==> && symtab[i].name == name && symtab[i].shndx != 0
                   && symtab[i].info % 16 == 2 && (symtab[i].info / 16 == 1 || symtab[i].info / 16 == 2)
                   && (versym.Some? ==>
                         exists e: nat :: FirstOf(e, versym.value[i] % 0x8000)
                           && verdef[e].name == version && verdef[e].hash == Hash(version, TWO32))
    {
      if versym.Some? {
        var ver := versym.value[i] % 0x8000;
        var d := FindVersion(0, ver);
        if d.Some? {
          FindsFirst(0, ver, d.value);
          assert FirstOf(d.value, ver);
        }
        forall e: nat | FirstOf(e, ver) ensures d == Some(e) {
          FindsFirst(0, ver, e);
        }
      }
    }

    /** The words are large enough for what the header says, and there is a version for every symbol. */
    ghost predicate Sized()
      reads this
    {
      && nbucket > 0 && |words| == 2 + nbucket + nchain && |symtab| == nchain
      && (versym.Some? ==> VerdefsLinked() && |versym.value| == |symtab|)
      && (size == TWO32 || size == TWO64)
    }

    function Bucket(b: nat): nat
      requires b < nbucket && 2 + nbucket <= |words|
      reads this
    {
      words[2 + b]
    }

    function Chain(i: nat): nat
      requires 2 + nbucket + i < |words|
      reads this
    {
      words[2 + nbucket + i]
    }

    /** Following the chain from `start` visits the symbols `s` and ends. */
    ghost predicate Path(s: seq<nat>, start: nat)
      requires Sized()
      reads this
    {
      if s == [] then start == STN_UNDEF
      else start != STN_UNDEF && s[0] == start < nchain && Path(s[1..], Chain(start))
    }

    ghost predicate NoneQualifies(s: seq<nat>, version: Name, name: Name)
      requires Sized()
      reads this
    {
      forall k :: 0 <= k < |s| ==> s[k] < |symtab| && !Qualifies(s[k], version, name)
    }

    /** The address `a` is the value of symbol `i`, moved by the load offset. */
    ghost predicate Leads(i: nat, a: nat)
      requires i < |symtab| && size > 0
      reads this
    {
      a == (loadOffset + symtab[i].value) % size
    }

    function Address(i: nat): (a: nat)
      requires i < |symtab| && size > 0
      reads this
      ensures Leads(i, a)
    {
      (loadOffset + symtab[i].value) % size
    }

    /** Whether symbol `i` is what is looked for, test by test. */
    method Accepts(i: nat, version: Name, name: Name, verHash: nat) returns (ok: bool)
      requires Sized() && i < nchain && verHash % TWO32 == Hash(version, TWO32)
      ensures ok <==> Qualifies(i, version, name)
    {
      var sym := symtab[i];
      if sym.info % 16 != STT_FUNC {
        return false;
      }
      if sym.info / 16 != STB_GLOBAL && sym.info / 16 != STB_WEAK {
        return false;
      }
      if sym.shndx == SHN_UNDEF {
        return false;
      }
      if name != sym.name {
        return false;
      }
      if versym.Some? {
        ok := MatchVersion(versym.value[i], version, verHash % TWO32);
        return;
      }
      ok := true;
    }

    /** Symbol `s[k]` is the first one of `s` that is looked for. */
    ghost predicate IsFirst(s: seq<nat>, k: nat, version: Name, name: Name)
      requires Sized()
      reads this
    {
      k < |s| && s[k] < |symtab| && Qualifies(s[k], version, name) && NoneQualifies(s[..k], version, name)
    }

    /** The walk is at `chain`, behind `past`. */
    ghost predicate Walking(s: seq<nat>, past: seq<nat>, rest: seq<nat>, chain: nat, version: Name, name: Name)
      requires Sized()
      reads this
    {
      Path(rest, chain) && s == past + rest && NoneQualifies(past, version, name)
    }

    lemma Walked(s: seq<nat>, past: seq<nat>, rest: seq<nat>, chain: nat, version: Name, name: Name)
      requires Sized() && chain != STN_UNDEF && Walking(s, past, rest, chain, version, name)
      ensures rest != [] && 0 < chain < |symtab|
      ensures if Qualifies(chain, version, name)
              then IsFirst(s, |past|, version, name) && s[|past|] == chain
              else Walking(s, past + [chain], rest[1..], Chain(chain), version, name)
    {
      assert rest == [chain] + rest[1..];
      assert s == past + [chain] + rest[1..] && s[..|past|] == past;
    }

    /** The search along one chain. */
    method Search(start: nat, version: Name, name: Name, verHash: nat, ghost s: seq<nat>) returns (r: Option<nat>)
      requires Sized() && Path(s, start) && verHash % TWO32 == Hash(version, TWO32)
      ensures r.None? ==> NoneQualifies(s, version, name)
      ensures r.Some? ==> exists k: nat :: IsFirst(s, k, version, name) && r.value == Address(s[k])
    {
      var chain := start;
      ghost var past, rest: seq<nat> := [], s;
      while chain != STN_UNDEF
        invariant Walking(s, past, rest, chain, version, name)
        decreases |rest|
      {
        Walked(s, past, rest, chain, version, name);
        var ok := Accepts(chain, version, name, verHash);
        if ok {
          return Some(Address(chain));
        }
        past, rest := past + [chain], rest[1..];
        chain := Chain(chain);
      }
      assert s == past;
      r := None;
    }

    /** The chain of bucket `b` visits `paths[b]`: every symbol but the first is there, in the bucket of its name. */
    ghost predicate Homed(paths: seq<seq<nat>>)
      requires Sized()
      reads this
    {
      && |paths| == nbucket
      && (forall b :: 0 <= b < nbucket ==> Path(paths[b], Bucket(b)))
      && (forall i :: 0 < i < |symtab| ==> i in paths[Hash(symtab[i].name, TWO32) % nbucket])
      && forall b, i: nat :: 0 <= b < nbucket && i < |symtab| && i in paths[b]
          ==> Hash(symtab[i].name, TWO32) % nbucket == b
    }

    /** No symbol of the whole table is what is looked for: what a scan from the second symbol on would tell. */
    ghost predicate NoneInTable(version: Name, name: Name)
      requires Sized()
      reads this
    {
      forall i :: 0 < i < |symtab| ==> !Qualifies(i, version, name)
    }

    /** Symbol `j` is the only one that is looked for. */
    ghost predicate IsOnly(j: nat, version: Name, name: Name)
      requires Sized()
      reads this
    {
      0 < j < |symtab| && Qualifies(j, version, name)
      && forall i :: 0 < i < |symtab| && Qualifies(i, version, name) ==> i == j
    }

    /** The bucket that is searched, and the one the table has the name in. */
    ghost function Used(name: Name): (b: nat)
      requires Sized()
      reads this
      ensures b < nbucket
    {
      Hash(name, size) % nbucket
    }

    ghost function Home(name: Name): (b: nat)
      requires Sized()
      reads this
      ensures b < nbucket
    {
      Hash(name, TWO32) % nbucket
    }

    lemma {:induction false} PathInside(s: seq<nat>, start: nat, k: nat)
      requires Sized() && Path(s, start) && k < |s|
      ensures 0 < s[k] < |symtab|
    {
      if k > 0 {
        PathInside(s[1..], Chain(start), k - 1);
      }
    }

    /** One chain tells about the whole table. */
    lemma ChainTells(paths: seq<seq<nat>>, version: Name, name: Name)
      requires Sized() && Homed(paths)
      ensures NoneQualifies(paths[Used(name)], version, name)
              <==> Used(name) != Home(name) || NoneInTable(version, name)
    {
      var s := paths[Used(name)];
      forall k | 0 <= k < |s| ensures 0 < s[k] < |symtab| && s[k] in s {
        assert Path(s, Bucket(Used(name)));
        PathInside(s, Bucket(Used(name)), k);
      }
      if Used(name) != Home(name) {
        assert forall k :: 0 <= k < |s| ==> !Qualifies(s[k], version, name);
      } else if NoneQualifies(s, version, name) {
        forall i | 0 < i < |symtab| ensures !Qualifies(i, version, name) {
          if symtab[i].name == name {
            assert i in s;
            var k :| 0 <= k < |s| && s[k] == i;
          }
        }
      }
    }

    /**
     * The lookup finds nothing exactly when a scan of the whole table finds nothing, or when the wide hash leads to a
     * bucket where the name is not.
     */
    method Sym(version: Name, name: Name, ghost paths: seq<seq<nat>>) returns (r: Option<nat>)
      requires valid ==> Sized() && Homed(paths)
      ensures !valid ==> r.None?
      ensures valid ==> (r.None? <==> Used(name) != Home(name) || NoneInTable(version, name))
      ensures valid && r.Some? ==> exists i :: 0 < i < |symtab| && Qualifies(i, version, name) && Leads(i, r.value)
      ensures valid && r.Some? ==>
        var s := paths[Used(name)];
        exists k: nat :: IsFirst(s, k, version, name) && r.value == Address(s[k])
      ensures valid && Used(name) == Home(name) ==> forall j: nat :: IsOnly(j, version, name) ==> r == Some(Address(j))
    {
      if !valid {
        return None;
      }
      VersionHash(version, size);
      var verHash := HashName(version, size);
      var h := HashName(name, size);
      var chain := Bucket(h % nbucket);
      r := Search(chain, version, name, verHash, paths[Used(name)]);
      ChainTells(paths, version, name);
      FoundInTable(paths[Used(name)], chain, version, name, r);
      forall j: nat | IsOnly(j, version, name)
        ensures !NoneInTable(version, name) && (r.Some? ==> r == Some(Address(j)))
      {
        OnlyOne(version, name, r, j);
      }
    }

    lemma {:induction false} PathLive(s: seq<nat>, start: nat, k: nat)
      requires Sized() && Path(s, start) && k < |s|
      ensures s[k] != STN_UNDEF
    {
      if k > 0 {
        PathLive(s[1..], Chain(start), k - 1);
      }
    }

    lemma FoundInTable(s: seq<nat>, start: nat, version: Name, name: Name, r: Option<nat>)
      requires Sized() && Path(s, start)
      requires r.Some? ==> exists k: nat :: IsFirst(s, k, version, name) && r.value == Address(s[k])
      ensures r.Some? ==> exists i :: 0 < i < |symtab| && Qualifies(i, version, name) && Leads(i, r.value)
      ensures r.Some? ==> !NoneQualifies(s, version, name)
    {
      if r.Some? {
        var k: nat :| IsFirst(s, k, version, name) && r.value == Address(s[k]);
        PathLive(s, start, k);
        var i := s[k];
        assert 0 < i < |symtab| && Qualifies(i, version, name) && Leads(i, r.value);
      }
    }

    lemma OnlyOne(version: Name, name: Name, r: Option<nat>, j: nat)
      requires Sized() && IsOnly(j, version, name)
      requires r.Some? ==> exists i :: 0 < i < |symtab| && Qualifies(i, version, name) && Leads(i, r.value)
      ensures !NoneInTable(version, name) && (r.Some? ==> r == Some(Address(j)))
    {
    }
  }

  // ---------- which bucket ----------

  /** The search is in the right bucket with 32 bits, and with 64 if none of the last eight characters overflows. */
  lemma RightBucket(name: Name, size: nat, nbucket: nat)
    requires nbucket > 0 && (size == TWO32 || (size == TWO64 && Quiet(name, 8)))
    ensures Hash(name, size) % nbucket == Hash(name, TWO32) % nbucket
  {
    if size == TWO64 {
      WidthsAgree(name);
    }
  }

  /** It is always, when the number of buckets divides 2^32. */
  lemma DividingBuckets(name: Name, nbucket: nat, k: nat)
    requires nbucket > 0 && nbucket * k == TWO32
    ensures Hash(name, TWO64) % nbucket == Hash(name, TWO32) % nbucket
  {
    LowHalf(name);
    ModDivides(Hash(name, TWO64), nbucket, k, TWO32);
  }

  lemma ModDivides(h: nat, n: nat, k: nat, m: nat)
    requires n > 0 && m > 0 && n * k == m
    ensures h % m % n == h % n
  {
    var q, low := h / m, h % m;
    var a, b := low / n, low % n;
    assert h == q * (n * k) + a * n + b;
    assert q * (n * k) == (q * k) * n;
    assert (q * k) * n + a * n == (q * k + a) * n;
    Quotient(h, n, q * k + a, b);
  }

  // ---------- a symbol that is missed ----------

  /** The null symbol and one global function. */
  const TWO_SYMBOLS: seq<Sym> := [Sym([], 0, 0, 0), Sym(LONG_NAME, 0x12, 1, 64)]

  /** Three buckets and two chains: the function is in the last bucket. */
  const THREE_BUCKETS: seq<nat> := [3, 2, 0, 0, 1, 0, 0]

  lemma Residues(x: nat, y: nat)
    requires x == 0x1_0000_0002 && y == 2
    ensures x % 3 == 0 && y % 3 == 2
  {
  }

  lemma LongNameBuckets()
    ensures Hash(LONG_NAME, TWO64) % 3 == 0 && Hash(LONG_NAME, TWO32) % 3 == 2
  {
    WidthsDiffer();
    Residues(Hash(LONG_NAME, TWO64), Hash(LONG_NAME, TWO32));
  }

  ghost predicate HoldsExample(v: VdsoInfo)
    reads v
  {
    && v.valid && v.symtab == TWO_SYMBOLS && v.words == THREE_BUCKETS && v.nbucket == 3 && v.nchain == 2
    && v.versym.None? && v.loadOffset == 0 && (v.size == TWO32 || v.size == TWO64)
  }

  lemma ExamplePaths(v: VdsoInfo)
    requires HoldsExample(v)
    ensures v.Sized() && v.Path([], v.Bucket(0)) && v.Path([], v.Bucket(1)) && v.Path([1], v.Bucket(2))
  {
    assert v.Path([1][1..], v.Chain(1));
  }

  lemma ExampleHomed(v: VdsoInfo)
    requires HoldsExample(v)
    ensures v.Sized() && v.Homed([[], [], [1]])
  {
    var paths: seq<seq<nat>> := [[], [], [1]];
    ExamplePaths(v);
    LongNameBuckets();
    assert v.symtab[1].name == LONG_NAME;
    forall b | 0 <= b < 3 ensures v.Path(paths[b], v.Bucket(b)) {
      assert b == 0 || b == 1 || b == 2;
    }
    forall i | 0 < i < |v.symtab| ensures i in paths[Hash(v.symtab[i].name, TWO32) % 3] {
      assert i == 1 && 1 in paths[2];
    }
    forall b, i: nat | 0 <= b < 3 && i < |v.symtab| && i in paths[b] ensures Hash(v.symtab[i].name, TWO32) % 3 == b {
      assert b == 2 && i == 1;
    }
  }

  /** The function is in the table and qualifies; it is found with 32 bits, and missed with 64. */
  method LookForLongName(size: nat, version: Name) returns (v: VdsoInfo, ghost paths: seq<seq<nat>>, r: Option<nat>)
    requires size == TWO32 || size == TWO64
    ensures v.valid && v.size == size && v.Sized() && v.Homed(paths)
    ensures 1 < |v.symtab| && v.Qualifies(1, version, LONG_NAME) && !v.NoneInTable(version, LONG_NAME)
    ensures r == if size == TWO32 then Some(v.Address(1)) else None
  {
    v := new VdsoInfo(size);
    v.Init(true, 0, true, Some(TWO_SYMBOLS), Some(THREE_BUCKETS), None, None);
    paths := [[], [], [1]];
    ExampleHomed(v);
    LongNameBuckets();
    assert v.Qualifies(1, version, LONG_NAME);
    assert v.IsOnly(1, version, LONG_NAME);
    r := v.Sym(version, LONG_NAME, paths);
  }

  // ---------- a symbol that is found ----------

  /** A weak function `name` of version 2, which is `version`; the mark of a hidden symbol is set. */
  ghost predicate HoldsWeak(v: VdsoInfo, version: Name, name: Name)
    reads v
  {
    && v.valid && v.loadOffset == 0x1000 && (v.size == TWO32 || v.size == TWO64)
    && v.symtab == [Sym([], 0, 0, 0), Sym(name, 0x22, 1, 64)] && v.words == [1, 2, 1, 0, 0]
    && v.nbucket == 1 && v.nchain == 2 && v.versym == Some([0, 0x8002])
    && v.verdef == [Verdef(1, 1, 0, [], 1), Verdef(0, 2, 0x3ae_75f6, version, 0)]
  }

  lemma WeakHomed(v: VdsoInfo, version: Name, name: Name)
    requires HoldsWeak(v, version, name)
    ensures v.Sized() && v.Homed([[1]]) && v.Used(name) == v.Home(name)
  {
    assert v.Path([1][1..], v.Chain(1));
    forall x: nat ensures x % 1 == 0 {
    }
    assert 1 in [1];
  }

  lemma WeakVersion(v: VdsoInfo, version: Name, name: Name)
    requires HoldsWeak(v, version, name) && v.Sized()
    ensures v.FirstOf(1, 2)
  {
    assert v.Linked(1, 1);
    assert v.Linked(0, 1);
    assert v.Defines(1, 2) && !v.Defines(0, 2);
  }

  lemma WeakIsWeak(v: VdsoInfo, version: Name, name: Name)
    requires HoldsWeak(v, version, name)
    ensures |v.symtab| == 2 && v.symtab[1] == Sym(name, 0x22, 1, 64)
    ensures v.versym.Some? && |v.versym.value| == 2 && v.versym.value[1] % 0x8000 == 2
    ensures |v.verdef| == 2 && v.verdef[1].name == version && v.verdef[1].hash == 0x3ae_75f6
  {
  }

  lemma WeakQualifiesFrom(v: VdsoInfo, version: Name, name: Name)
    requires v.Sized() && |v.symtab| == 2 && v.symtab[1] == Sym(name, 0x22, 1, 64)
    requires v.versym.Some? && v.versym.value[1] % 0x8000 == 2 && v.FirstOf(1, 2)
    requires v.verdef[1].name == version && v.verdef[1].hash == Hash(version, TWO32)
    ensures v.Qualifies(1, version, name)
  {
    assert v.FirstOf(1, v.versym.value[1] % 0x8000);
    v.QualifiesMeans(1, version, name);
  }

  lemma WeakQualifies(v: VdsoInfo, version: Name, name: Name)
    requires HoldsWeak(v, version, name) && v.Sized() && Hash(version, TWO32) == 0x3ae_75f6
    ensures v.Qualifies(1, version, name)
  {
    WeakVersion(v, version, name);
    WeakIsWeak(v, version, name);
    WeakQualifiesFrom(v, version, name);
  }

  lemma WeakOnly(v: VdsoInfo, version: Name, name: Name)
    requires HoldsWeak(v, version, name) && v.Sized() && v.Qualifies(1, version, name)
    ensures v.IsOnly(1, version, name) && !v.NoneInTable(version, name) && v.Address(1) == 0x1040
  {
  }

  method MakeWeak(size: nat, version: Name, name: Name) returns (v: VdsoInfo)
    requires size == TWO32 || size == TWO64
    ensures fresh(v) && HoldsWeak(v, version, name)
  {
    v := new VdsoInfo(size);
    var symtab, words := [Sym([], 0, 0, 0), Sym(name, 0x22, 1, 64)], [1, 2, 1, 0, 0];
    var verdef := [Verdef(1, 1, 0, [], 1), Verdef(0, 2, 0x3ae_75f6, version, 0)];
    v.Init(true, 0x1000, true, Some(symtab), Some(words), Some([0, 0x8002]), Some(verdef));
  }

  /** It is found with either width, at its value moved by the load offset. */
  method LookForWeak(size: nat, version: Name, name: Name) returns (r: Option<nat>)
    requires (size == TWO32 || size == TWO64) && IsLinuxVersion(version)
    ensures r == Some(0x1040)
  {
    var v := MakeWeak(size, version, name);
    VersionValue(version);
    WeakHomed(v, version, name);
    WeakQualifies(v, version, name);
    WeakOnly(v, version, name);
    r := v.Sym(version, name, [[1]]);
  }
}
