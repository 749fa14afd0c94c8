/** Symbol lookup through the DT_GNU_HASH and DT_HASH tables of a module (ta_elf_rel.c). */
module ElfHash {
  import opened Arith
  import opened Bytes
  import opened Distinct

  // ---- Hash functions.

  /** gnu_hash: h * 33 + c over the bytes, from 5381. */
  function GnuHash(name: seq<byte>): (h: nat)
    ensures h < TWO32
  {
    if name == [] then 5381
    else (33 * GnuHash(name[..|name| - 1]) + Value(name[|name| - 1])) % TWO32
  }

  function Power33(n: nat): nat {
    if n == 0 then 1 else 33 * Power33(n - 1)
  }

  /** The sum of the first k bytes of a name of n bytes, byte i times 33^(n - 1 - i). */
  ghost function Weighted(name: seq<byte>, n: nat, k: nat): nat
    requires k <= |name| && k <= n
  {
    if k == 0 then 0 else Weighted(name, n, k - 1) + Value(name[k - 1]) * Power33(n - k)
  }

  lemma {:induction false} WeightedLonger(name: seq<byte>, n: nat, k: nat)
    requires k <= |name| && k <= n
    ensures Weighted(name, n + 1, k) == 33 * Weighted(name, n, k)
  {
    if k > 0 {
      WeightedLonger(name, n, k - 1);
      assert Power33(n + 1 - k) == 33 * Power33(n - k);
      MulRearranges(Value(name[k - 1]), 33, Power33(n - k));
    }
  }

  lemma {:induction false} WeightedPrefix(name: seq<byte>, n: nat, k: nat, m: nat)
    requires k <= m <= |name| && k <= n
    ensures Weighted(name[..m], n, k) == Weighted(name, n, k)
  {
    if k > 0 {
      WeightedPrefix(name, n, k - 1, m);
    }
  }

  lemma ModOfSum(a: nat, v: nat)
    ensures (33 * (a % TWO32) + v) % TWO32 == (33 * a + v) % TWO32
  {
    var q, r := a / TWO32, a % TWO32;
    var q', r' := (33 * r + v) / TWO32, (33 * r + v) % TWO32;
    assert a == TWO32 * q + r && 33 * r + v == TWO32 * q' + r';
    DivModUnique(33 * a + v, TWO32, 33 * q + q', r');
  }

  /** The hash as one sum: 5381 * 33^n and byte i times 33^(n - 1 - i), modulo 2^32. */
  lemma {:induction false} GnuHashSum(name: seq<byte>)
    ensures GnuHash(name) == (5381 * Power33(|name|) + Weighted(name, |name|, |name|)) % TWO32
  {
    if name != [] {
      var n := |name| - 1;
      GnuHashSum(name[..n]);
      WeightedPrefix(name, n, n, n);
      WeightedLonger(name, n, n);
      ModOfSum(5381 * Power33(n) + Weighted(name, n, n), Value(name[n]));
    }
  }

  lemma ShiftAndAdd(h: nat, c: nat)
    ensures (h * 32 % TWO32 + h + c) % TWO32 == (33 * h + c) % TWO32
  {
  }

  /** The loop of gnu_hash, with its shift. */
  method ComputeGnuHash(name: seq<byte>) returns (h: nat)
    ensures h == GnuHash(name)
  {
    h := 5381;
    for i := 0 to |name|
      invariant h == GnuHash(name[..i])
    {
      ShiftAndAdd(h, Value(name[i]));
      h := (h * 32 % TWO32 + h + Value(name[i])) % TWO32;
      assert name[..i + 1][..i] == name[..i];
    }
    assert name[..|name|] == name;
  }

  function Shifted(h: bv32, c: byte): bv32 {
    (h << 4) + (c as bv32)
  }

  function Top(s: bv32): bv32 {
    s & 0xf000_0000
  }

  function FoldInto(s: bv32, g: bv32): bv32 {
    s ^ (g >> 24)
  }

  function Without(h: bv32, g: bv32): bv32 {
    h & !g
  }

  /** One byte of elf_hash: the top four bits are folded down into bits 4 to 7 and cleared. */
  function ElfMix(h: bv32, c: byte): bv32 {
    var s := Shifted(h, c);
    Without(FoldInto(s, Top(s)), Top(s))
  }

  lemma FoldNothing(s: bv32)
    ensures FoldInto(s, 0) == s
  {
  }

  lemma TopCleared(s: bv32)
    ensures Top(Without(FoldInto(s, Top(s)), Top(s))) == 0
  {
  }

  function ElfHashWord(name: seq<byte>): bv32 {
    if name == [] then 0 else ElfMix(ElfHashWord(name[..|name| - 1]), name[|name| - 1])
  }

  /** s with its top four bits, if any is set, folded down and cleared, as the source writes it. */
  ghost predicate Folded(s: bv32, r: bv32) {
    var g := s & 0xf000_0000;
    r == if g == 0 then s else (s ^ (g >> 24)) & !g
  }

  ghost predicate MixedIn(h: bv32, c: byte, r: bv32) {
    Folded((h << 4) + (c as bv32), r)
  }

  lemma FoldedIs(s: bv32)
    ensures Folded(s, Without(FoldInto(s, Top(s)), Top(s)))
  {
    if Top(s) == 0 {
      hide FoldInto, Without;
      FoldNothing(s);
      KeepsAll(s);
    } else {
      hide Top;
      FoldedBits(s, Top(s), Without(FoldInto(s, Top(s)), Top(s)));
    }
  }

  lemma KeepsAll(s: bv32)
    ensures Without(s, 0) == s
  {
  }

  lemma FoldedBits(s: bv32, g: bv32, r: bv32)
    requires g == Top(s) != 0 && r == Without(FoldInto(s, g), g)
    ensures Folded(s, r)
  {
  }

  lemma ElfMixMixes(h: bv32, c: byte)
    ensures MixedIn(h, c, ElfMix(h, c))
  {
    hide Folded, Top, FoldInto, Without;
    FoldedIs(Shifted(h, c));
  }

  /** elf_hash from zero, byte by byte. */
  lemma ElfHashSteps(name: seq<byte>, c: byte)
    ensures ElfHashWord([]) == 0 && MixedIn(ElfHashWord(name), c, ElfHashWord(name + [c]))
  {
    hide ElfMix, MixedIn;
    assert (name + [c])[..|name|] == name;
    ElfMixMixes(ElfHashWord(name), c);
  }

  lemma ElfAppended(name: seq<byte>, whole: seq<byte>, c: byte, e: bv32, next: bv32)
    requires |name| < |whole| && name == whole[..|name|] && ElfHashWord(name) == e
    requires whole[|name|] == c && next == ElfMix(e, c)
    ensures ElfHashWord(whole[..|name| + 1]) == next
  {
    hide ElfMix;
    assert whole[..|name| + 1][..|name|] == name;
  }

  /** elf_hash of "init_array", a name long enough for the top bits to be folded down. */
  lemma KnownElfHash(name: seq<byte>)
    requires name == [0x69, 0x6e, 0x69, 0x74, 0x5f, 0x61, 0x72, 0x72, 0x61, 0x79]
    ensures ElfHashWord(name) == 0xa5f9d89
  {
    assert ElfHashWord(name[..0]) == 0;
    hide ElfHashWord;
    ElfAppended(name[..0], name, 0x69, 0x0, 0x69);
    ElfAppended(name[..1], name, 0x6e, 0x69, 0x6fe);
    ElfAppended(name[..2], name, 0x69, 0x6fe, 0x7049);
    ElfAppended(name[..3], name, 0x74, 0x7049, 0x70504);
    ElfAppended(name[..4], name, 0x5f, 0x70504, 0x70509f);
    ElfAppended(name[..5], name, 0x61, 0x70509f, 0x7050a51);
    ElfAppended(name[..6], name, 0x72, 0x7050a51, 0x50a5f2);
    ElfAppended(name[..7], name, 0x72, 0x50a5f2, 0x50a5f92);
    ElfAppended(name[..8], name, 0x61, 0x50a5f92, 0xa5f9d1);
    ElfAppended(name[..9], name, 0x79, 0xa5f9d1, 0xa5f9d89);
    assert name[..10] == name;
  }

  function ElfHashOf(name: seq<byte>): nat {
    ElfHashWord(name) as nat
  }

  /** The loop of elf_hash. */
  method ComputeElfHash(name: seq<byte>) returns (h: bv32)
    ensures h == ElfHashWord(name) && Top(h) == 0
  {
    hide ElfMix;
    h := 0;
    for i := 0 to |name|
      invariant h == ElfHashWord(name[..i]) && Top(h) == 0
    {
      h := NextElfHash(h, name[i]);
      assert name[..i + 1][..i] == name[..i];
    }
    assert name[..|name|] == name;
  }

  method NextElfHash(h0: bv32, c: byte) returns (h: bv32)
    ensures h == ElfMix(h0, c) && Top(h) == 0
  {
    hide Shifted, Top, FoldInto, Without;
    h := Shifted(h0, c);
    var g := Top(h);
    FoldNothing(h);
    TopCleared(h);
    if g != 0 {
      h := FoldInto(h, g);
    }
    h := Without(h, g);
  }

  // ---- Symbols.

  const STB_GLOBAL: nat := 1
  const STB_WEAK: nat := 2
  const SHN_UNDEF: nat := 0
  const SHN_XINDEX: nat := 0xffff
  const STT_NOTYPE: nat := 0
  const STT_OBJECT: nat := 1
  const STT_FUNC: nat := 2
  const STT_TLS: nat := 6

  datatype Sym = Sym(bind: nat, typ: nat, shndx: nat, name: nat, value: nat)

  /** DivideByZero stands for what a division by a size of zero in a table does, which C leaves open. */
  datatype Error = BadFormat | NotSupported | DivideByZero

  /**
   * What sym_compare says; Fatal is a call of err, which ends the loader. An undefined weak symbol matches with the
   * value zero, and only defined tells it from others.
   */
  datatype Compared = NoMatch | Match(val: nat, defined: bool) | Fatal(error: Error)

  datatype Module = Module(dynstr: seq<byte>, syms: seq<Sym>, loadAddr: nat, maxAddr: nat, is32: bool,
                           gnu: Option<GnuTable>, hash: Option<HashTable>)

  datatype Option<T> = None | Some(value: T)

  /** past is the word behind the section, which the bounds check of the chain lets through. */
  datatype GnuTable = GnuTable(symoffset: nat, bloomShift: nat, bloom: seq<bv64>, buckets: seq<nat>,
                               chain: seq<nat>, past: nat)

  datatype HashTable = HashTable(buckets: seq<nat>, chain: seq<nat>)

  /** The string at an offset of the string table, up to its terminator. */
  function CString(table: seq<byte>, off: nat): (s: seq<byte>)
    decreases |table| - off
  {
    if off >= |table| || table[off] == 0 then [] else [table[off]] + CString(table, off + 1)
  }

  /** sym_compare */
  function SymCompare(elf: Module, sym: Sym, name: seq<byte>, weakOk: bool): Compared {
    if sym.name == 0 then NoMatch
    else if sym.name > |elf.dynstr| then Fatal(BadFormat)
    else if name != CString(elf.dynstr, sym.name) then NoMatch
    else if !(sym.bind == STB_GLOBAL || (weakOk && sym.bind == STB_WEAK)) then NoMatch
    else if sym.bind == STB_WEAK && sym.shndx == SHN_UNDEF then Match(0, false)
    else if sym.shndx == SHN_UNDEF || sym.shndx == SHN_XINDEX then NoMatch
    else if sym.typ == STT_NOTYPE || sym.typ == STT_OBJECT || sym.typ == STT_FUNC then
      if sym.value > elf.maxAddr - elf.loadAddr then Fatal(BadFormat) else Match(sym.value + elf.loadAddr, true)
    else if sym.typ == STT_TLS then Match(sym.value, true)
    else Fatal(NotSupported)
  }

  /** At off the table holds s and a terminator, or s up to the end of the table. */
  ghost predicate StringAt(table: seq<byte>, off: nat, s: seq<byte>) {
    && off + |s| <= |table| && table[off..off + |s|] == s && 0 !in s
    && (off + |s| < |table| ==> table[off + |s|] == 0)
  }

  lemma {:induction false} CStringIs(table: seq<byte>, off: nat, s: seq<byte>)
    requires off <= |table|
    ensures s == CString(table, off) <==> StringAt(table, off, s)
    decreases |table| - off
  {
    if off < |table| && table[off] != 0 && s != [] {
      var rest := s[1..];
      CStringIs(table, off + 1, rest);
      assert s == [s[0]] + rest;
      if off + |s| <= |table| {
        assert table[off..off + |s|] == [table[off]] + table[off + 1..off + |s|];
        assert 0 in s <==> s[0] == 0 || 0 in rest;
      }
    }
  }

  /** The symbol has this name and a binding that is looked for. */
  ghost predicate LookedFor(elf: Module, sym: Sym, name: seq<byte>, weakOk: bool) {
    && 0 < sym.name <= |elf.dynstr| && StringAt(elf.dynstr, sym.name, name)
    && (sym.bind == 1 || (weakOk && sym.bind == 2))
  }

  /** When sym_compare matches and with what value, and when it ends the loader. */
  lemma CompareWhen(elf: Module, sym: Sym, name: seq<byte>, weakOk: bool)
    ensures
      var r := SymCompare(elf, sym, name, weakOk);
      var found := LookedFor(elf, sym, name, weakOk);
      var weakUndefined := sym.bind == 2 && sym.shndx == 0;
      var defined := sym.shndx != 0 && sym.shndx != 0xffff;
      && (r.Match? <==> found && (weakUndefined
                                  || (defined && (sym.typ == 6
                                                  || (sym.typ < 3 && sym.value <= elf.maxAddr - elf.loadAddr)))))
      && (r.Match? ==> r == if weakUndefined then Match(0, false)
                            else Match(if sym.typ == 6 then sym.value else elf.loadAddr + sym.value, true))
      && (r == Fatal(BadFormat) <==> sym.name > |elf.dynstr|
                                     || (found && defined && sym.typ < 3 && sym.value > elf.maxAddr - elf.loadAddr))
      && (r == Fatal(NotSupported) <==> found && defined && sym.typ > 2 && sym.typ != 6)
      && r != Fatal(DivideByZero)
  {
    hide CString, StringAt;
    if sym.name <= |elf.dynstr| {
      CStringIs(elf.dynstr, sym.name, name);
    }
  }

  /** check_found_sym */
  function CheckFoundSym(elf: Module, name: seq<byte>, weakOk: bool, n: nat): Compared {
    if n >= |elf.syms| then Fatal(BadFormat) else SymCompare(elf, elf.syms[n], name, weakOk)
  }

  /** Where the table maps this name; only for symbols that sym_compare can accept for it. */
  ghost predicate Named(elf: Module, n: nat, name: seq<byte>)
    requires n < |elf.syms|
  {
    elf.syms[n].name != 0 && CString(elf.dynstr, elf.syms[n].name) == name
  }

  /** Every symbol name lies in the string table. */
  ghost predicate NamesInRange(elf: Module) {
    forall n :: 0 <= n < |elf.syms| ==> elf.syms[n].name <= |elf.dynstr|
  }

  lemma OnlyNamedMatch(elf: Module, n: nat, name: seq<byte>, weakOk: bool)
    requires NamesInRange(elf) && n < |elf.syms| && !Named(elf, n, name)
    ensures CheckFoundSym(elf, name, weakOk, n) == NoMatch
  {
  }

  /** The simple form: the first symbol from n on that sym_compare does not pass over. */
  function Scan(elf: Module, name: seq<byte>, weakOk: bool, n: nat): Compared
    decreases |elf.syms| - n
  {
    if n >= |elf.syms| then NoMatch
    else
      var c := SymCompare(elf, elf.syms[n], name, weakOk);
      if c != NoMatch then c else Scan(elf, name, weakOk, n + 1)
  }

  lemma {:induction false} ScanSkips(elf: Module, name: seq<byte>, weakOk: bool, from: nat, n: nat)
    requires from <= n <= |elf.syms|
    requires forall k :: from <= k < n ==> CheckFoundSym(elf, name, weakOk, k) == NoMatch
    ensures Scan(elf, name, weakOk, from) == Scan(elf, name, weakOk, n)
    decreases n - from
  {
    if from < n {
      assert CheckFoundSym(elf, name, weakOk, from) == NoMatch;
      ScanSkips(elf, name, weakOk, from + 1, n);
    }
  }

  /** The symbol r comes from: no symbol between from and it matches. */
  ghost predicate FirstMatch(elf: Module, name: seq<byte>, weakOk: bool, from: nat, n: nat, r: Compared) {
    && from <= n < |elf.syms| && SymCompare(elf, elf.syms[n], name, weakOk) == r != NoMatch
    && forall k :: from <= k < n ==> SymCompare(elf, elf.syms[k], name, weakOk) == NoMatch
  }

  lemma {:induction false} ScanFinds(elf: Module, name: seq<byte>, weakOk: bool, from: nat)
    ensures
      var r := Scan(elf, name, weakOk, from);
      if r == NoMatch
      then forall n :: from <= n < |elf.syms| ==> SymCompare(elf, elf.syms[n], name, weakOk) == NoMatch
      else exists n :: FirstMatch(elf, name, weakOk, from, n, r)
    decreases |elf.syms| - from
  {
    hide SymCompare;
    if from < |elf.syms| {
      ScanFinds(elf, name, weakOk, from + 1);
      var r := Scan(elf, name, weakOk, from);
      if SymCompare(elf, elf.syms[from], name, weakOk) != NoMatch {
        assert FirstMatch(elf, name, weakOk, from, from, r);
      } else if r != NoMatch {
        var n :| FirstMatch(elf, name, weakOk, from + 1, n, r);
        assert FirstMatch(elf, name, weakOk, from, n, r);
      }
    }
  }

  // ---- The Bloom filter.

  function Bit(i: bv6): bv64 {
    1 << i
  }

  function Or64(x: bv64, y: bv64): bv64 { x | y }

  predicate HasMask(word: bv64, mask: bv64) {
    word & mask == mask
  }

  /** (word & mask) != mask */
  predicate Rejected(word: bv64, a: bv6, b: bv6) {
    !HasMask(word, Or64(Bit(a), Bit(b)))
  }

  predicate HasBit(word: bv64, k: bv6) {
    word & Bit(k) != 0
  }

  /** Nothing of a mask is missing in a word. */
  predicate LacksNothing(word: bv64, mask: bv64) {
    !word & mask == 0
  }

  lemma MaskHeld(word: bv64, mask: bv64)
    requires HasMask(word, mask)
    ensures LacksNothing(word, mask)
  {
  }

  lemma MaskHolds(word: bv64, mask: bv64)
    requires LacksNothing(word, mask)
    ensures HasMask(word, mask)
  {
  }

  lemma LacksOfOr(word: bv64, x: bv64, y: bv64)
    ensures LacksNothing(word, Or64(x, y)) <==> LacksNothing(word, x) && LacksNothing(word, y)
  {
    hide LacksNothing, Or64;
    if LacksNothing(word, Or64(x, y)) {
      LacksOfBoth(word, x, y);
    }
    if LacksNothing(word, x) && LacksNothing(word, y) {
      LacksOfEither(word, x, y);
    }
  }

  lemma LacksOfBoth(word: bv64, x: bv64, y: bv64)
    requires LacksNothing(word, Or64(x, y))
    ensures LacksNothing(word, x) && LacksNothing(word, y)
  {
  }

  lemma LacksOfEither(word: bv64, x: bv64, y: bv64)
    requires LacksNothing(word, x) && LacksNothing(word, y)
    ensures LacksNothing(word, Or64(x, y))
  {
  }

  lemma LacksBit(word: bv64, k: bv6)
    ensures HasBit(word, k) <==> LacksNothing(word, Bit(k))
  {
  }

  lemma RejectedMeans(word: bv64, a: bv6, b: bv6)
    ensures Rejected(word, a, b) <==> !(HasBit(word, a) && HasBit(word, b))
  {
    hide Bit, LacksNothing, HasBit, HasMask, Or64;
    var mask := Or64(Bit(a), Bit(b));
    if HasMask(word, mask) {
      MaskHeld(word, mask);
    }
    if LacksNothing(word, mask) {
      MaskHolds(word, mask);
    }
    LacksOfOr(word, Bit(a), Bit(b));
    LacksBit(word, a);
    LacksBit(word, b);
  }

  /** The number a word of the filter stands for. */
  function Number(word: bv64): nat
    decreases word
  {
    if word == 0 then 0 else 2 * Number(word >> 1) + if word & 1 != 0 then 1 else 0
  }

  lemma NumberStep(word: bv64)
    ensures Number(word) == 2 * Number(word >> 1) + if word & 1 != 0 then 1 else 0
  {
    assert word == 0 ==> word >> 1 == 0 && word & 1 == 0;
  }

  lemma BitDown(word: bv64, k: bv6)
    requires k > 0
    ensures HasBit(word >> 1, k - 1) <==> HasBit(word, k)
  {
  }

  lemma FirstBit(word: bv64)
    ensures HasBit(word, 0) <==> word & 1 != 0
  {
  }

  function Index(k: bv6): nat { k as nat }

  lemma IndexDown(k: bv6)
    ensures if k == 0 then Index(k) == 0 else Index(k) == Index(k - 1) + 1
  {
  }

  lemma IndexOf(a: nat)
    requires a < 64
    ensures Index(a as bv6) == a
  {
  }

  /** The bits of a word are those of its number. */
  lemma {:induction false} BitIs(word: bv64, k: bv6)
    ensures HasBit(word, k) <==> BitOf(Number(word), Index(k))
    decreases Index(k)
  {
    hide Number, HasBit, Index;
    NumberStep(word);
    IndexDown(k);
    if k == 0 {
      FirstBit(word);
    } else {
      BitDown(word, k);
      BitIs(word >> 1, k - 1);
      HalfThenDown(Number(word), Pow2(Index(k - 1)));
    }
  }

  /** Bits in a word of the Bloom filter. */
  function WordBits(elf: Module): nat {
    if elf.is32 then 32 else 64
  }

  /** The filter says that no symbol has this hash. */
  predicate FilteredOut(elf: Module, t: GnuTable, h: nat)
    requires |t.bloom| > 0
  {
    var w := WordBits(elf);
    Rejected(t.bloom[h / w % |t.bloom|], (h % w) as bv6, (h / Pow2(t.bloomShift) % w) as bv6)
  }

  /** The two bits of a hash in a filter of words of w bits. */
  ghost predicate Marked(bloom: seq<bv64>, w: nat, shift: nat, h: nat)
    requires |bloom| > 0 && w > 0
  {
    var word := Number(bloom[h / w % |bloom|]);
    word / Pow2(h % w) % 2 == 1 && word / Pow2(h / Pow2(shift) % w) % 2 == 1
  }

  lemma RejectedNumber(word: bv64, a: nat, b: nat)
    requires a < 64 && b < 64
    ensures Rejected(word, a as bv6, b as bv6) <==> !(BitOf(Number(word), a) && BitOf(Number(word), b))
  {
    hide Rejected, Number, HasBit, BitOf, Index;
    RejectedMeans(word, a as bv6, b as bv6);
    BitIs(word, a as bv6);
    BitIs(word, b as bv6);
    IndexOf(a);
    IndexOf(b);
  }

  /** It says so exactly when one of them is clear. */
  lemma FilteredWhen(elf: Module, t: GnuTable, h: nat)
    requires |t.bloom| > 0
    ensures FilteredOut(elf, t, h) <==> !Marked(t.bloom, if elf.is32 then 32 else 64, t.bloomShift, h)
  {
    hide Rejected, Number, Pow2;
    var w := WordBits(elf);
    RejectedNumber(t.bloom[h / w % |t.bloom|], h % w, h / Pow2(t.bloomShift) % w);
  }

  // ---- DT_GNU_HASH.

  /** 32-bit words, in a section of less than 16 GiB. */
  ghost predicate InWords(t: GnuTable) {
    && t.symoffset < TWO32 && |t.chain| + 1 < TWO32
    && forall b :: 0 <= b < |t.buckets| ==> t.buckets[b] < TWO32
  }

  /** There is a filter, and there are buckets. */
  ghost predicate Sized(t: GnuTable) {
    InWords(t) && |t.bloom| > 0 && |t.buckets| > 0
  }

  ghost function SymHash(elf: Module, n: nat): nat
    requires n < |elf.syms|
  {
    GnuHash(CString(elf.dynstr, elf.syms[n].name))
  }

  ghost function BucketOf(elf: Module, t: GnuTable, n: nat): nat
    requires |t.buckets| > 0 && n < |elf.syms|
  {
    SymHash(elf, n) % |t.buckets|
  }

  /** The symbols from symoffset on are grouped by bucket, each bucket names its first symbol. */
  ghost predicate Grouped(elf: Module, t: GnuTable)
    requires Sized(t)
  {
    && (forall b, n :: 0 <= b < |t.buckets| && t.symoffset <= n < |elf.syms| && BucketOf(elf, t, n) == b ==>
          t.symoffset <= t.buckets[b] <= n)
    && (forall b :: 0 <= b < |t.buckets| && t.symoffset <= t.buckets[b] ==>
          t.buckets[b] < |elf.syms| && BucketOf(elf, t, t.buckets[b]) == b)
    && (forall n, m :: t.symoffset <= n < m < |elf.syms| && BucketOf(elf, t, n) == BucketOf(elf, t, m) ==>
          BucketOf(elf, t, n + 1) == BucketOf(elf, t, n))
  }

  /** The chain word of a symbol: its hash, with the low bit replaced by the end mark of the bucket. */
  ghost predicate ChainEntry(elf: Module, t: GnuTable, n: nat)
    requires Sized(t) && t.symoffset <= n < |elf.syms| <= t.symoffset + |t.chain|
  {
    && t.chain[n - t.symoffset] / 2 == SymHash(elf, n) / 2
    && (t.chain[n - t.symoffset] % 2 == 1 <==>
          n + 1 == |elf.syms| || BucketOf(elf, t, n + 1) != BucketOf(elf, t, n))
  }

  ghost predicate Chained(elf: Module, t: GnuTable)
    requires Sized(t)
  {
    && |elf.syms| <= t.symoffset + |t.chain|
    && forall n :: t.symoffset <= n < |elf.syms| ==> ChainEntry(elf, t, n)
  }

  /** The filter has the bits of every symbol. */
  ghost predicate Admitted(elf: Module, t: GnuTable)
    requires Sized(t)
  {
    forall n :: t.symoffset <= n < |elf.syms| ==>
      Marked(t.bloom, if elf.is32 then 32 else 64, t.bloomShift, SymHash(elf, n))
  }

  /** What the linker writes. */
  ghost predicate WellFormed(elf: Module, t: GnuTable) {
    && Sized(t) && t.symoffset <= |elf.syms| <= TWO32 && NamesInRange(elf)
    && Grouped(elf, t) && Chained(elf, t) && Admitted(elf, t)
  }

  /** hash | 1 */
  function OrOne(h: nat): nat {
    h / 2 * 2 + 1
  }

  /** The word a chain lookup reads. */
  function ChainWord(t: GnuTable, idx: nat): nat
    requires idx <= |t.chain|
  {
    if idx < |t.chain| then t.chain[idx] else t.past
  }

  lemma OtherHash(elf: Module, name: seq<byte>, weakOk: bool, n: nat)
    requires NamesInRange(elf) && n < |elf.syms| && SymHash(elf, n) != GnuHash(name)
    ensures CheckFoundSym(elf, name, weakOk, n) == NoMatch
  {
    OnlyNamedMatch(elf, n, name, weakOk);
  }

  /** The Bloom filter never loses a symbol. */
  lemma FilterLosesNothing(elf: Module, t: GnuTable, name: seq<byte>, weakOk: bool)
    requires WellFormed(elf, t) && FilteredOut(elf, t, GnuHash(name))
    ensures Scan(elf, name, weakOk, t.symoffset) == NoMatch
  {
    hide FilteredOut, Marked, Grouped, Chained, GnuHash, SymCompare, CString;
    FilteredWhen(elf, t, GnuHash(name));
    forall k | t.symoffset <= k < |elf.syms| ensures CheckFoundSym(elf, name, weakOk, k) == NoMatch {
      OtherHash(elf, name, weakOk, k);
    }
    ScanSkips(elf, name, weakOk, t.symoffset, |elf.syms|);
  }

  /** All symbols before n have been passed over, rightly, and n lies in the bucket of the name. */
  ghost predicate Reached(elf: Module, t: GnuTable, name: seq<byte>, weakOk: bool, n: nat)
    requires Sized(t)
  {
    && t.symoffset <= n < |elf.syms| && BucketOf(elf, t, n) == GnuHash(name) % |t.buckets|
    && forall k :: t.symoffset <= k < n ==> CheckFoundSym(elf, name, weakOk, k) == NoMatch
  }

  /** The bucket word: no symbol before it has the hash, and none at all if it is too small. */
  lemma BucketStarts(elf: Module, t: GnuTable, name: seq<byte>, weakOk: bool)
    requires WellFormed(elf, t)
    ensures var n := t.buckets[GnuHash(name) % |t.buckets|];
      if n < t.symoffset then Scan(elf, name, weakOk, t.symoffset) == NoMatch else Reached(elf, t, name, weakOk, n)
  {
    hide GnuHash, SymCompare, CString, Chained, Admitted;
    var n := t.buckets[GnuHash(name) % |t.buckets|];
    var end := if n < t.symoffset then |elf.syms| else n;
    forall k | t.symoffset <= k < end ensures CheckFoundSym(elf, name, weakOk, k) == NoMatch {
      assert t.symoffset <= t.buckets[BucketOf(elf, t, k)] <= k;
      OtherHash(elf, name, weakOk, k);
    }
    if n < t.symoffset {
      ScanSkips(elf, name, weakOk, t.symoffset, |elf.syms|);
    }
  }

  /** A chain word with another hash is never that of a symbol of this name. */
  lemma ChainTestLosesNothing(elf: Module, t: GnuTable, name: seq<byte>, weakOk: bool, n: nat)
    requires WellFormed(elf, t) && t.symoffset <= n < |elf.syms|
    requires OrOne(t.chain[n - t.symoffset]) != OrOne(GnuHash(name))
    ensures CheckFoundSym(elf, name, weakOk, n) == NoMatch
  {
    hide GnuHash, SymCompare, CString, Grouped, Admitted;
    assert ChainEntry(elf, t, n);
    OtherHash(elf, name, weakOk, n);
  }

  /** Past a symbol that does not match: on to the next one, or done at the end mark. */
  lemma ChainMovesOn(elf: Module, t: GnuTable, name: seq<byte>, weakOk: bool, n: nat)
    requires WellFormed(elf, t) && Reached(elf, t, name, weakOk, n)
    requires CheckFoundSym(elf, name, weakOk, n) == NoMatch
    ensures if t.chain[n - t.symoffset] % 2 == 1 then Scan(elf, name, weakOk, t.symoffset) == NoMatch
            else Reached(elf, t, name, weakOk, n + 1)
  {
    hide GnuHash, SymCompare, CString, Admitted;
    assert ChainEntry(elf, t, n);
    if t.chain[n - t.symoffset] % 2 == 1 {
      forall k | t.symoffset <= k < |elf.syms| ensures CheckFoundSym(elf, name, weakOk, k) == NoMatch {
        if k > n {
          assert BucketOf(elf, t, k) != BucketOf(elf, t, n);
          OtherHash(elf, name, weakOk, k);
        }
      }
      ScanSkips(elf, name, weakOk, t.symoffset, |elf.syms|);
    }
  }

  lemma ScanStops(elf: Module, t: GnuTable, name: seq<byte>, weakOk: bool, n: nat)
    requires WellFormed(elf, t) && Reached(elf, t, name, weakOk, n)
    requires CheckFoundSym(elf, name, weakOk, n) != NoMatch
    ensures Scan(elf, name, weakOk, t.symoffset) == CheckFoundSym(elf, name, weakOk, n)
  {
    hide SymCompare, WellFormed, BucketOf;
    ScanSkips(elf, name, weakOk, t.symoffset, n);
  }

  /** One round of the chain loop on a well-formed table. */
  lemma Round(elf: Module, t: GnuTable, name: seq<byte>, weakOk: bool, n: nat)
    requires WellFormed(elf, t) && Reached(elf, t, name, weakOk, n)
    ensures t.symoffset <= n < t.symoffset + |t.chain| && n < TWO32
    ensures var word, c := t.chain[n - t.symoffset], CheckFoundSym(elf, name, weakOk, n);
      if OrOne(word) == OrOne(GnuHash(name)) && c != NoMatch then Scan(elf, name, weakOk, t.symoffset) == c
      else if word % 2 == 1 then Scan(elf, name, weakOk, t.symoffset) == NoMatch
      else n + 1 < TWO32 && Reached(elf, t, name, weakOk, n + 1)
  {
    hide GnuHash, CheckFoundSym, Scan, Grouped, Admitted, BucketOf, Chained, OrOne;
    assert |elf.syms| <= t.symoffset + |t.chain| by { ChainLength(elf, t); }
    if OrOne(t.chain[n - t.symoffset]) != OrOne(GnuHash(name)) {
      ChainTestLosesNothing(elf, t, name, weakOk, n);
    }
    if CheckFoundSym(elf, name, weakOk, n) != NoMatch {
      ScanStops(elf, t, name, weakOk, n);
    } else {
      ChainMovesOn(elf, t, name, weakOk, n);
    }
  }

  lemma ChainLength(elf: Module, t: GnuTable)
    requires Sized(t) && Chained(elf, t)
    ensures |elf.syms| <= t.symoffset + |t.chain|
  {
  }

  /** a + b and a - b as uint32_t */
  function Up32(a: nat, b: nat): (r: nat)
    ensures r < TWO32
  {
    (a + b) % TWO32
  }

  function Down32(a: nat, b: nat): nat
    requires b <= TWO32
  {
    (a + TWO32 - b) % TWO32
  }

  lemma Index32(a: nat, i: nat)
    requires a < TWO32 && i < TWO32
    ensures Down32(Up32(a, i), a) == i && Up32(Up32(a, i), 1) == Up32(a, i + 1)
    ensures a + i < TWO32 ==> Up32(a, i) == a + i
  {
  }

  /** The test of one round of the chain loop: the hash fits and sym_compare does not pass the symbol over. */
  function ChainHit(elf: Module, t: GnuTable, name: seq<byte>, weakOk: bool, i: nat): Compared
    requires i <= |t.chain|
  {
    if OrOne(ChainWord(t, i)) == OrOne(GnuHash(name)) then
      CheckFoundSym(elf, name, weakOk, Up32(t.symoffset, i))
    else NoMatch
  }

  /** The chain loop from chain index i on. */
  function ChainWalk(elf: Module, t: GnuTable, name: seq<byte>, weakOk: bool, i: nat): Compared
    decreases |t.chain| + 1 - i
  {
    if i > |t.chain| then NoMatch
    else if ChainHit(elf, t, name, weakOk, i) != NoMatch then ChainHit(elf, t, name, weakOk, i)
    else if ChainWord(t, i) % 2 == 1 then NoMatch
    else ChainWalk(elf, t, name, weakOk, i + 1)
  }

  function GnuStart(t: GnuTable, name: seq<byte>): nat
    requires |t.buckets| > 0
  {
    t.buckets[GnuHash(name) % |t.buckets|]
  }

  lemma NoDivision(elf: Module, name: seq<byte>, weakOk: bool, n: nat)
    ensures CheckFoundSym(elf, name, weakOk, n) != Fatal(DivideByZero)
  {
    hide CString;
  }

  /** What the DT_GNU_HASH half of resolve_sym_helper answers, for any section. */
  function GnuAnswer(elf: Module, t: GnuTable, name: seq<byte>, weakOk: bool): Compared {
    if |t.bloom| == 0 then Fatal(DivideByZero)
    else if FilteredOut(elf, t, GnuHash(name)) then NoMatch
    else if |t.buckets| == 0 then Fatal(DivideByZero)
    else if GnuStart(t, name) < t.symoffset then NoMatch
    else ChainWalk(elf, t, name, weakOk, GnuStart(t, name) - t.symoffset)
  }

  lemma {:induction false} ChainWalkIsScan(elf: Module, t: GnuTable, name: seq<byte>, weakOk: bool, i: nat)
    requires WellFormed(elf, t) && Reached(elf, t, name, weakOk, t.symoffset + i)
    ensures ChainWalk(elf, t, name, weakOk, i) == Scan(elf, name, weakOk, t.symoffset)
    decreases |t.chain| + 1 - i
  {
    hide GnuHash, CheckFoundSym, Scan, WellFormed, Reached, OrOne;
    Round(elf, t, name, weakOk, t.symoffset + i);
    if ChainHit(elf, t, name, weakOk, i) == NoMatch && ChainWord(t, i) % 2 == 0 {
      ChainWalkIsScan(elf, t, name, weakOk, i + 1);
    }
  }

  /** On a well-formed section the answer is that of the linear scan from symoffset. */
  lemma GnuIsScan(elf: Module, t: GnuTable, name: seq<byte>, weakOk: bool)
    requires WellFormed(elf, t)
    ensures GnuAnswer(elf, t, name, weakOk) == Scan(elf, name, weakOk, t.symoffset)
  {
    hide GnuHash, CheckFoundSym, Scan, Reached, FilteredOut, Grouped, Chained, Admitted;
    if FilteredOut(elf, t, GnuHash(name)) {
      FilterLosesNothing(elf, t, name, weakOk);
    } else {
      BucketStarts(elf, t, name, weakOk);
      if GnuStart(t, name) >= t.symoffset {
        ChainWalkIsScan(elf, t, name, weakOk, GnuStart(t, name) - t.symoffset);
      }
    }
  }

  /**
   * The DT_GNU_HASH half of resolve_sym_helper. For any section it ends, and what it finds is a symbol sym_compare
   * accepts, unless it divides by a size of zero; for a well-formed one it returns what the scan from symoffset
   * returns.
   */
  method LookupGnu(elf: Module, t: GnuTable, name: seq<byte>, weakOk: bool) returns (r: Compared)
    requires InWords(t)
    ensures r == GnuAnswer(elf, t, name, weakOk)
    ensures r == Fatal(DivideByZero) <==>
      |t.bloom| == 0 || (|t.buckets| == 0 && !FilteredOut(elf, t, GnuHash(name)))
    ensures r != NoMatch && r != Fatal(DivideByZero) ==>
      exists n :: 0 <= n < TWO32 && CheckFoundSym(elf, name, weakOk, n) == r
    ensures WellFormed(elf, t) ==> r == Scan(elf, name, weakOk, t.symoffset)
    ensures WellFormed(elf, t) && r != NoMatch ==> exists n :: FirstMatch(elf, name, weakOk, t.symoffset, n, r)
    ensures WellFormed(elf, t) && r == NoMatch ==>
      forall n :: t.symoffset <= n < |elf.syms| ==> SymCompare(elf, elf.syms[n], name, weakOk) == NoMatch
  {
    hide SymCompare, FilteredOut, GnuHash, CheckFoundSym, Scan, WellFormed, OrOne, ChainWord, Up32, Down32;
    if WellFormed(elf, t) {
      GnuIsScan(elf, t, name, weakOk);
      ScanFinds(elf, name, weakOk, t.symoffset);
    }
    var hash := ComputeGnuHash(name);
    if |t.bloom| == 0 {
      return Fatal(DivideByZero);
    }
    if FilteredOut(elf, t, hash) {
      return NoMatch;
    }
    if |t.buckets| == 0 {
      return Fatal(DivideByZero);
    }
    var n := t.buckets[hash % |t.buckets|];
    if n < t.symoffset {
      return NoMatch;
    }
    ghost var i: nat := n - t.symoffset;
    Index32(t.symoffset, i);
    while true
      invariant n == Up32(t.symoffset, i) && i < TWO32
      invariant GnuAnswer(elf, t, name, weakOk) == ChainWalk(elf, t, name, weakOk, i)
      decreases |t.chain| + 1 - i
    {
      Index32(t.symoffset, i);
      var idx := Down32(n, t.symoffset);
      if idx > |t.chain| {
        return NoMatch;
      }
      var word := ChainWord(t, idx);
      if OrOne(word) == OrOne(hash) {
        var c := CheckFoundSym(elf, name, weakOk, n);
        if c != NoMatch {
          NoDivision(elf, name, weakOk, n);
          return c;
        }
      }
      n := Up32(n, 1);
      i := i + 1;
      if word % 2 == 1 {
        return NoMatch;
      }
    }
  }

  // ---- The word behind the section.

  /** The chain loop goes on from index i: no match and no end mark. */
  predicate GoesOn(elf: Module, t: GnuTable, name: seq<byte>, weakOk: bool, i: nat)
    requires i < |t.chain|
  {
    ChainHit(elf, t, name, weakOk, i) == NoMatch && t.chain[i] % 2 == 0
  }

  predicate PastFrom(elf: Module, t: GnuTable, name: seq<byte>, weakOk: bool, i: nat)
    decreases |t.chain| - i
  {
    if i >= |t.chain| then i == |t.chain|
    else GoesOn(elf, t, name, weakOk, i) && PastFrom(elf, t, name, weakOk, i + 1)
  }

  /** The lookup reads the word behind the section, which its bounds check lets through. */
  predicate ReadsPast(elf: Module, t: GnuTable, name: seq<byte>, weakOk: bool) {
    && |t.bloom| > 0 && |t.buckets| > 0 && !FilteredOut(elf, t, GnuHash(name)) && GnuStart(t, name) >= t.symoffset
    && PastFrom(elf, t, name, weakOk, GnuStart(t, name) - t.symoffset)
  }

  lemma {:induction false} PastFromWhen(elf: Module, t: GnuTable, name: seq<byte>, weakOk: bool, i: nat)
    ensures PastFrom(elf, t, name, weakOk, i) <==>
      (i <= |t.chain| && forall j :: i <= j < |t.chain| ==> GoesOn(elf, t, name, weakOk, j))
    decreases |t.chain| - i
  {
    hide GoesOn;
    if i < |t.chain| {
      PastFromWhen(elf, t, name, weakOk, i + 1);
    }
  }

  /** It is read exactly when a chain that the filter and the bucket lead to has neither match nor end mark. */
  lemma ReadsPastWhen(elf: Module, t: GnuTable, name: seq<byte>, weakOk: bool)
    ensures ReadsPast(elf, t, name, weakOk) <==>
      (|t.bloom| > 0 && |t.buckets| > 0 && !FilteredOut(elf, t, GnuHash(name))
       && t.symoffset <= GnuStart(t, name) <= t.symoffset + |t.chain|
       && forall j :: GnuStart(t, name) - t.symoffset <= j < |t.chain| ==> GoesOn(elf, t, name, weakOk, j))
  {
    hide GoesOn, PastFrom, FilteredOut;
    if |t.buckets| > 0 && GnuStart(t, name) >= t.symoffset {
      PastFromWhen(elf, t, name, weakOk, GnuStart(t, name) - t.symoffset);
    }
  }

  lemma {:induction false} InsideFrom(elf: Module, t: GnuTable, name: seq<byte>, weakOk: bool, i: nat)
    requires WellFormed(elf, t) && Reached(elf, t, name, weakOk, t.symoffset + i)
    ensures !PastFrom(elf, t, name, weakOk, i)
    decreases |t.chain| - i
  {
    hide GnuHash, CheckFoundSym, Scan, WellFormed, Reached, OrOne;
    Round(elf, t, name, weakOk, t.symoffset + i);
    if GoesOn(elf, t, name, weakOk, i) {
      InsideFrom(elf, t, name, weakOk, i + 1);
    }
  }

  /** A well-formed section is never read past its end. */
  lemma NeverReadsPast(elf: Module, t: GnuTable, name: seq<byte>, weakOk: bool)
    requires WellFormed(elf, t)
    ensures !ReadsPast(elf, t, name, weakOk)
  {
    hide GnuHash, CheckFoundSym, Reached, FilteredOut, Grouped, Chained, Admitted, PastFrom;
    BucketStarts(elf, t, name, weakOk);
    if GnuStart(t, name) >= t.symoffset {
      InsideFrom(elf, t, name, weakOk, GnuStart(t, name) - t.symoffset);
    }
  }

  lemma {:induction false} PastUnusedFrom(elf: Module, t: GnuTable, past: nat, name: seq<byte>, weakOk: bool, i: nat)
    requires !PastFrom(elf, t, name, weakOk, i)
    ensures ChainWalk(elf, t.(past := past), name, weakOk, i) == ChainWalk(elf, t, name, weakOk, i)
    decreases |t.chain| + 1 - i
  {
    hide CheckFoundSym, GnuHash, OrOne;
    var u := t.(past := past);
    if i < |t.chain| {
      assert ChainHit(elf, u, name, weakOk, i) == ChainHit(elf, t, name, weakOk, i);
      if GoesOn(elf, t, name, weakOk, i) {
        PastUnusedFrom(elf, t, past, name, weakOk, i + 1);
      }
    }
  }

  /** Where it is not read, the answer does not depend on it. */
  lemma PastUnused(elf: Module, t: GnuTable, past: nat, name: seq<byte>, weakOk: bool)
    requires !ReadsPast(elf, t, name, weakOk)
    ensures GnuAnswer(elf, t.(past := past), name, weakOk) == GnuAnswer(elf, t, name, weakOk)
  {
    hide FilteredOut, ChainWalk, PastFrom;
    var u := t.(past := past);
    if |t.bloom| > 0 {
      SameFilter(elf, t, past, name);
    }
    if |t.bloom| > 0 && |t.buckets| > 0 && GnuStart(t, name) >= t.symoffset && !FilteredOut(elf, t, GnuHash(name)) {
      PastUnusedFrom(elf, t, past, name, weakOk, GnuStart(t, name) - t.symoffset);
    }
  }

  lemma SameFilter(elf: Module, t: GnuTable, past: nat, name: seq<byte>)
    requires |t.bloom| > 0
    ensures FilteredOut(elf, t.(past := past), GnuHash(name)) == FilteredOut(elf, t, GnuHash(name))
  {
    hide Rejected;
  }

  lemma AllOnesAdmit(a: bv6, b: bv6)
    ensures !Rejected(0xffff_ffff_ffff_ffff, a, b)
  {
  }

  lemma AllOnesAdmitAll(elf: Module, t: GnuTable, h: nat)
    requires t.bloom == [0xffff_ffff_ffff_ffff]
    ensures !FilteredOut(elf, t, h)
  {
    hide Rejected;
    var w := WordBits(elf);
    AllOnesAdmit((h % w) as bv6, (h / Pow2(t.bloomShift) % w) as bv6);
    assert h / w % 1 == 0;
  }

  /** A section without chain words, and a module without symbols. */
  function Chainless(past: nat): GnuTable {
    GnuTable(0, 0, [0xffff_ffff_ffff_ffff], [0], [], past)
  }

  function Bare(): Module {
    Module([], [], 0, 0, false, None, None)
  }

  lemma ChainlessStarts(name: seq<byte>, past: nat)
    ensures !FilteredOut(Bare(), Chainless(past), GnuHash(name)) && GnuStart(Chainless(past), name) == 0
  {
    hide GnuHash;
    AllOnesAdmitAll(Bare(), Chainless(past), GnuHash(name));
    assert GnuHash(name) % 1 == 0;
  }

  lemma ChainlessWalk(name: seq<byte>, past: nat)
    requires past % 2 == 1
    ensures PastFrom(Bare(), Chainless(past), name, true, 0)
    ensures ChainWalk(Bare(), Chainless(past), name, true, 0) ==
      if OrOne(past) == OrOne(GnuHash(name)) then Fatal(BadFormat) else NoMatch
  {
    hide GnuHash;
  }

  /** A section without chain words: the answer comes from whatever lies behind it. */
  lemma PastDecides(name: seq<byte>) returns (elf: Module, t: GnuTable, past: nat)
    ensures Sized(t) && ReadsPast(elf, t, name, true)
    ensures GnuAnswer(elf, t, name, true) != GnuAnswer(elf, t.(past := past), name, true)
  {
    hide GnuHash, FilteredOut, GnuStart, ChainWalk, PastFrom;
    var word := OrOne(GnuHash(name));
    elf, t, past := Bare(), Chainless(word), word + 2;
    ChainlessStarts(name, word);
    ChainlessStarts(name, past);
    ChainlessWalk(name, word);
    ChainlessWalk(name, past);
    assert t.(past := past) == Chainless(past);
  }

  // ---- DT_HASH.

  function HashStart(t: HashTable, name: seq<byte>): nat
    requires |t.buckets| > 0
  {
    t.buckets[ElfHashOf(name) % |t.buckets|]
  }

  /** The chain loop from symbol n on, given up after k steps. */
  function HashWalk(elf: Module, t: HashTable, name: seq<byte>, weakOk: bool, n: nat, k: nat): Option<Compared>
    decreases k
  {
    if n == 0 then Some(NoMatch)
    else if n >= |t.chain| then Some(Fatal(BadFormat))
    else if CheckFoundSym(elf, name, weakOk, n) != NoMatch then Some(CheckFoundSym(elf, name, weakOk, n))
    else if k == 0 then None
    else HashWalk(elf, t, name, weakOk, t.chain[n], k - 1)
  }

  /** What the DT_HASH half of resolve_sym_helper answers; None if the loop never ends. */
  function HashAnswer(elf: Module, t: HashTable, name: seq<byte>, weakOk: bool): Option<Compared> {
    if |t.buckets| == 0 then Some(Fatal(DivideByZero))
    else HashWalk(elf, t, name, weakOk, HashStart(t, name), |t.chain|)
  }

  function Next(t: HashTable, n: nat): nat {
    if n == 0 || n >= |t.chain| then 0 else t.chain[n]
  }

  /** The symbol i chain words behind n. */
  function Node(t: HashTable, n: nat, i: nat): nat
    decreases i
  {
    if i == 0 then n else Node(t, Next(t, n), i - 1)
  }

  lemma {:induction false} NodeAdds(t: HashTable, n: nat, i: nat, j: nat)
    ensures Node(t, Node(t, n, i), j) == Node(t, n, i + j)
    decreases i
  {
    if i > 0 {
      NodeAdds(t, Next(t, n), i - 1, j);
    }
  }

  lemma {:induction false} NodeOfZero(t: HashTable, i: nat)
    ensures Node(t, 0, i) == 0
  {
    if i > 0 {
      NodeOfZero(t, i - 1);
    }
  }

  /** A walk that has ended does not change with more steps. */
  lemma {:induction false} EndedStays(elf: Module, t: HashTable, name: seq<byte>, weakOk: bool, n: nat, k: nat, m: nat)
    requires k <= m && HashWalk(elf, t, name, weakOk, n, k).Some?
    ensures HashWalk(elf, t, name, weakOk, n, m) == HashWalk(elf, t, name, weakOk, n, k)
    decreases k
  {
    hide CheckFoundSym;
    if 0 < n < |t.chain| && CheckFoundSym(elf, name, weakOk, n) == NoMatch {
      EndedStays(elf, t, name, weakOk, t.chain[n], k - 1, m - 1);
    }
  }

  /** A walk still going after i steps continues as the walk from the node it has come to. */
  lemma {:induction false} WalkContinues(elf: Module, t: HashTable, name: seq<byte>, weakOk: bool,
                                         n: nat, i: nat, k: nat)
    requires i <= k && HashWalk(elf, t, name, weakOk, n, i).None?
    ensures 0 < Node(t, n, i) < |t.chain|
    ensures HashWalk(elf, t, name, weakOk, n, k) == HashWalk(elf, t, name, weakOk, Node(t, n, i), k - i)
    decreases i
  {
    hide CheckFoundSym;
    if i > 0 {
      WalkContinues(elf, t, name, weakOk, t.chain[n], i - 1, k - 1);
    }
  }

  /** A node that is come back to keeps the walk going for ever. */
  lemma {:induction false} CircleGoesOn(elf: Module, t: HashTable, name: seq<byte>, weakOk: bool,
                                        m: nat, p: nat, k: nat)
    requires p > 0 && Node(t, m, p) == m && HashWalk(elf, t, name, weakOk, m, p).None?
    ensures HashWalk(elf, t, name, weakOk, m, k).None?
    decreases k
  {
    hide HashWalk;
    if k < p {
      if HashWalk(elf, t, name, weakOk, m, k).Some? {
        EndedStays(elf, t, name, weakOk, m, k, p);
      }
    } else {
      WalkContinues(elf, t, name, weakOk, m, p, k);
      CircleGoesOn(elf, t, name, weakOk, m, p, k - p);
    }
  }

  /** The loop goes on from symbol m. */
  predicate PassedBy(elf: Module, t: HashTable, name: seq<byte>, weakOk: bool, m: nat) {
    0 < m < |t.chain| && CheckFoundSym(elf, name, weakOk, m) == NoMatch
  }

  /** The chain from n on comes back to a symbol it has been at, and no symbol up to there stops the search. */
  ghost predicate RunsInCircle(elf: Module, t: HashTable, name: seq<byte>, weakOk: bool, n: nat) {
    exists i, j :: 0 <= i < j <= |t.chain| && Node(t, n, i) == Node(t, n, j) && AllPassed(elf, t, name, weakOk, n, j)
  }

  ghost predicate AllPassed(elf: Module, t: HashTable, name: seq<byte>, weakOk: bool, n: nat, j: nat) {
    forall l :: 0 <= l <= j ==> PassedBy(elf, t, name, weakOk, Node(t, n, l))
  }

  /** A walk is still going exactly when all the symbols it has come to have been passed by. */
  lemma {:induction false} StillGoingWhen(elf: Module, t: HashTable, name: seq<byte>, weakOk: bool, n: nat, k: nat)
    ensures HashWalk(elf, t, name, weakOk, n, k).None? <==> AllPassed(elf, t, name, weakOk, n, k)
    decreases k
  {
    hide CheckFoundSym;
    assert Node(t, n, 0) == n;
    if PassedBy(elf, t, name, weakOk, n) && k > 0 {
      StillGoingWhen(elf, t, name, weakOk, t.chain[n], k - 1);
      assert forall l :: 0 <= l <= k - 1 ==> Node(t, n, l + 1) == Node(t, t.chain[n], l);
      if AllPassed(elf, t, name, weakOk, t.chain[n], k - 1) {
        forall l | 0 <= l <= k ensures PassedBy(elf, t, name, weakOk, Node(t, n, l)) {
          assert l > 0 ==> Node(t, n, l) == Node(t, t.chain[n], l - 1);
        }
      }
    } else {
      assert AllPassed(elf, t, name, weakOk, n, k) ==> PassedBy(elf, t, name, weakOk, Node(t, n, 0));
    }
  }

  lemma CircleFound(elf: Module, t: HashTable, name: seq<byte>, weakOk: bool, n: nat)
    requires HashWalk(elf, t, name, weakOk, n, |t.chain|).None?
    ensures RunsInCircle(elf, t, name, weakOk, n)
  {
    hide HashWalk;
    StillGoingWhen(elf, t, name, weakOk, n, |t.chain|);
    var nodes := seq(|t.chain| + 1, i requires 0 <= i <= |t.chain| => Node(t, n, i));
    Repeats(nodes, |t.chain|);
    var i, j :| 0 <= i < j < |nodes| && nodes[i] == nodes[j];
    assert Node(t, n, i) == Node(t, n, j) && AllPassed(elf, t, name, weakOk, n, j);
  }

  lemma CircleKeepsGoing(elf: Module, t: HashTable, name: seq<byte>, weakOk: bool, n: nat, k: nat)
    requires RunsInCircle(elf, t, name, weakOk, n)
    ensures HashWalk(elf, t, name, weakOk, n, k).None?
  {
    hide HashWalk, PassedBy;
    var i, j :| 0 <= i < j <= |t.chain| && Node(t, n, i) == Node(t, n, j) && AllPassed(elf, t, name, weakOk, n, j);
    StillGoingWhen(elf, t, name, weakOk, n, i);
    StillGoingWhen(elf, t, name, weakOk, n, j);
    NodeAdds(t, n, i, j - i);
    WalkContinues(elf, t, name, weakOk, n, i, j);
    if k < i {
      StillGoingWhen(elf, t, name, weakOk, n, k);
    } else {
      WalkContinues(elf, t, name, weakOk, n, i, k);
      CircleGoesOn(elf, t, name, weakOk, Node(t, n, i), j - i, k - i);
    }
  }

  /** The loop never ends exactly when the chain runs in a circle before any symbol stops the search. */
  lemma NeverEndsWhen(elf: Module, t: HashTable, name: seq<byte>, weakOk: bool, n: nat)
    ensures (forall k: nat :: HashWalk(elf, t, name, weakOk, n, k).None?) <==> RunsInCircle(elf, t, name, weakOk, n)
    ensures HashWalk(elf, t, name, weakOk, n, |t.chain|).None? <==> RunsInCircle(elf, t, name, weakOk, n)
  {
    hide HashWalk, RunsInCircle;
    if HashWalk(elf, t, name, weakOk, n, |t.chain|).None? {
      CircleFound(elf, t, name, weakOk, n);
    }
    if RunsInCircle(elf, t, name, weakOk, n) {
      forall k: nat ensures HashWalk(elf, t, name, weakOk, n, k).None? {
        CircleKeepsGoing(elf, t, name, weakOk, n, k);
      }
    } else {
      assert HashWalk(elf, t, name, weakOk, n, |t.chain|).Some?;
    }
  }

  /** The loop ends within as many steps as there are chain words, or never. */
  lemma EndsSoonOrNever(elf: Module, t: HashTable, name: seq<byte>, weakOk: bool, n: nat, k: nat)
    requires HashWalk(elf, t, name, weakOk, n, |t.chain|).None?
    ensures HashWalk(elf, t, name, weakOk, n, k).None?
  {
    hide HashWalk, RunsInCircle;
    NeverEndsWhen(elf, t, name, weakOk, n);
  }

  /** Chains along which some rank falls run in no circle: the loop ends for every name. */
  lemma {:induction false} WithoutCircleEnds(elf: Module, t: HashTable, rank: nat -> nat, name: seq<byte>, weakOk: bool,
                                             n: nat)
    requires forall m :: 0 < m < |t.chain| && 0 < t.chain[m] ==> rank(t.chain[m]) < rank(m)
    ensures HashWalk(elf, t, name, weakOk, n, rank(n) + 1).Some?
    ensures HashWalk(elf, t, name, weakOk, n, |t.chain|).Some?
    decreases rank(n)
  {
    hide CheckFoundSym;
    if 0 < n < |t.chain| && t.chain[n] != 0 {
      WithoutCircleEnds(elf, t, rank, name, weakOk, t.chain[n]);
      EndedStays(elf, t, name, weakOk, t.chain[n], rank(t.chain[n]) + 1, rank(n));
    }
    if HashWalk(elf, t, name, weakOk, n, |t.chain|).None? {
      EndsSoonOrNever(elf, t, name, weakOk, n, rank(n) + 1);
    }
  }

  /** A symbol whose chain word is its own index, under another name: the loop of the source does not end. */
  lemma CircleNeverEnds(name: seq<byte>, k: nat) returns (elf: Module, t: HashTable)
    ensures |t.buckets| > 0 && HashWalk(elf, t, name, true, HashStart(t, name), k).None?
  {
    elf := Module([], [Sym(0, 0, 0, 0, 0), Sym(0, 0, 0, 0, 0)], 0, 0, false, None, None);
    t := HashTable([1], [0, 1]);
    assert CheckFoundSym(elf, name, true, 1) == NoMatch;
    assert HashStart(t, name) == 1 by { assert ElfHashOf(name) % 1 == 0; }
    assert Node(t, 1, 1) == 1 && HashWalk(elf, t, name, true, 1, 1).None?;
    CircleGoesOn(elf, t, name, true, 1, 1, k);
  }

  /** Every symbol is on the chain of its bucket, and every index is that of a symbol. */
  ghost predicate Filed(elf: Module, t: HashTable)
    requires |t.buckets| > 0
  {
    && NamesInRange(elf) && |t.chain| == |elf.syms|
    && (forall b :: 0 <= b < |t.buckets| ==> t.buckets[b] < |t.chain|)
    && (forall n :: 0 <= n < |t.chain| ==> t.chain[n] < |t.chain|)
    && (forall n :: 0 < n < |elf.syms| ==> OnChain(t, ChainOf(elf, t, n), n))
  }

  ghost predicate OnChain(t: HashTable, start: nat, n: nat) {
    exists i: nat :: Node(t, start, i) == n
  }

  ghost function ChainOf(elf: Module, t: HashTable, n: nat): nat
    requires |t.buckets| > 0 && n < |elf.syms|
  {
    t.buckets[ElfHashOf(CString(elf.dynstr, elf.syms[n].name)) % |t.buckets|]
  }

  /** A walk that has come to the end without a match has passed over every symbol of the chain. */
  lemma {:induction false} PassedOver(elf: Module, t: HashTable, name: seq<byte>, weakOk: bool, s: nat, k: nat, i: nat)
    requires HashWalk(elf, t, name, weakOk, s, k) == Some(NoMatch) && Node(t, s, i) != 0
    ensures CheckFoundSym(elf, name, weakOk, Node(t, s, i)) == NoMatch
    decreases i
  {
    hide CheckFoundSym;
    if s == 0 {
      NodeOfZero(t, i);
    } else if i > 0 {
      PassedOver(elf, t, name, weakOk, t.chain[s], k - 1, i - 1);
    }
  }

  /** Nothing on the chain of its bucket matches, so nothing in the table does. */
  lemma ChainSaysAll(elf: Module, t: HashTable, name: seq<byte>, weakOk: bool, n: nat)
    requires |t.buckets| > 0 && Filed(elf, t) && 0 < n < |elf.syms|
    requires HashAnswer(elf, t, name, weakOk) == Some(NoMatch)
    ensures CheckFoundSym(elf, name, weakOk, n) == NoMatch
  {
    hide CheckFoundSym, CString, ElfHashOf, HashWalk;
    if Named(elf, n, name) {
      assert OnChain(t, ChainOf(elf, t, n), n);
      var i: nat :| Node(t, HashStart(t, name), i) == n;
      PassedOver(elf, t, name, weakOk, HashStart(t, name), |t.chain|, i);
    } else {
      OnlyNamedMatch(elf, n, name, weakOk);
    }
  }

  /**
   * The DT_HASH half of resolve_sym_helper, for a name whose loop ends. In a table that files every symbol it passes
   * over the name only when sym_compare passes over every symbol.
   */
  method LookupHash(elf: Module, t: HashTable, name: seq<byte>, weakOk: bool) returns (r: Compared)
    requires |t.buckets| > 0 ==> !RunsInCircle(elf, t, name, weakOk, HashStart(t, name))
    ensures HashAnswer(elf, t, name, weakOk) == Some(r)
    ensures r == Fatal(DivideByZero) <==> |t.buckets| == 0
    ensures r.Match? ==> exists n :: 0 < n < |elf.syms| && CheckFoundSym(elf, name, weakOk, n) == r
    ensures |t.buckets| > 0 && Filed(elf, t) && r != NoMatch ==>
      exists n :: 0 < n < |elf.syms| && CheckFoundSym(elf, name, weakOk, n) == r
    ensures |t.buckets| > 0 && Filed(elf, t) ==>
      (r == NoMatch <==> forall n :: 0 < n < |elf.syms| ==> CheckFoundSym(elf, name, weakOk, n) == NoMatch)
  {
    hide ElfHashWord, CString, SymCompare;
    var hash := ComputeElfHash(name);
    if |t.buckets| == 0 {
      return Fatal(DivideByZero);
    }
    NeverEndsWhen(elf, t, name, weakOk, HashStart(t, name));
    ghost var good := Filed(elf, t);
    var n: nat := t.buckets[hash as nat % |t.buckets|];
    ghost var k: nat := |t.chain|;
    while n != 0
      invariant good ==> n < |t.chain|
      invariant HashWalk(elf, t, name, weakOk, n, k) == HashAnswer(elf, t, name, weakOk)
      decreases n != 0, k
    {
      if n >= |t.chain| {
        return Fatal(BadFormat);
      }
      r := CheckFoundSym(elf, name, weakOk, n);
      if r != NoMatch {
        NoDivision(elf, name, weakOk, n);
        return;
      }
      n := t.chain[n];
      k := k - 1;
    }
    if good {
      forall j | 0 < j < |elf.syms| ensures CheckFoundSym(elf, name, weakOk, j) == NoMatch {
        ChainSaysAll(elf, t, name, weakOk, j);
      }
    }
    return NoMatch;
  }
}
