/** Which module of the queue a symbol is resolved in (ta_elf_rel.c, resolve_sym_helper and ta_elf_resolve_sym). */
module ElfResolve {
  import opened Arith
  import opened Bytes
  import opened ElfHash

  /** The lookups of a module end: its DT_GNU_HASH section is below 16 GiB, its DT_HASH chain runs in no circle. */
  ghost predicate Ready(elf: Module, name: seq<byte>) {
    if elf.gnu.Some? then InWords(elf.gnu.value)
    else elf.hash.Some? ==> var t := elf.hash.value;
      |t.buckets| > 0 ==> forall weakOk: bool :: !RunsInCircle(elf, t, name, weakOk, HashStart(t, name))
  }

  ghost predicate AllReady(queue: seq<Module>, name: seq<byte>) {
    forall k :: 0 <= k < |queue| ==> Ready(queue[k], name)
  }

  lemma ReadyEnds(elf: Module, name: seq<byte>, weakOk: bool)
    requires Ready(elf, name) && elf.gnu.None? && elf.hash.Some?
    ensures HashAnswer(elf, elf.hash.value, name, weakOk).Some?
  {
    hide RunsInCircle, HashWalk;
    var t := elf.hash.value;
    if |t.buckets| > 0 {
      NeverEndsWhen(elf, t, name, weakOk, HashStart(t, name));
    }
  }

  /** What a module answers: by DT_GNU_HASH if it has one, else by DT_HASH, else nothing. */
  ghost function Answer(elf: Module, name: seq<byte>, weakOk: bool): Compared
    requires Ready(elf, name)
  {
    if elf.gnu.Some? then GnuAnswer(elf, elf.gnu.value, name, weakOk)
    else if elf.hash.Some? then
      ReadyEnds(elf, name, weakOk);
      HashAnswer(elf, elf.hash.value, name, weakOk).value
    else NoMatch
  }

  /** resolve_sym_helper */
  method ResolveSymHelper(elf: Module, name: seq<byte>, weakOk: bool) returns (r: Compared)
    requires Ready(elf, name)
    ensures r == Answer(elf, name, weakOk)
    ensures elf.gnu.Some? && WellFormed(elf, elf.gnu.value) ==> r == Scan(elf, name, weakOk, elf.gnu.value.symoffset)
    ensures elf.gnu.None? && elf.hash.Some? && |elf.hash.value.buckets| > 0 && Filed(elf, elf.hash.value) ==>
      (r == NoMatch <==> forall n :: 0 < n < |elf.syms| ==> CheckFoundSym(elf, name, weakOk, n) == NoMatch)
  {
    if elf.gnu.Some? {
      r := LookupGnu(elf, elf.gnu.value, name, weakOk);
    } else if elf.hash.Some? {
      r := LookupHash(elf, elf.hash.value, name, weakOk);
    } else {
      r := NoMatch;
    }
  }

  // ---- Weak symbols.

  lemma CompareWeakOk(elf: Module, name: seq<byte>, n: nat)
    requires CheckFoundSym(elf, name, false, n) != NoMatch
    ensures CheckFoundSym(elf, name, true, n) == CheckFoundSym(elf, name, false, n)
  {
    hide CString;
  }

  lemma {:induction false} ChainWeakOk(elf: Module, t: GnuTable, name: seq<byte>, i: nat)
    requires ChainWalk(elf, t, name, false, i) != NoMatch
    ensures ChainWalk(elf, t, name, true, i) != NoMatch
    decreases |t.chain| + 1 - i
  {
    hide CheckFoundSym, GnuHash, OrOne, ChainWord;
    if CheckFoundSym(elf, name, false, (t.symoffset + i) % TWO32) != NoMatch {
      CompareWeakOk(elf, name, (t.symoffset + i) % TWO32);
    }
    if ChainHit(elf, t, name, true, i) == NoMatch {
      ChainWeakOk(elf, t, name, i + 1);
    }
  }

  lemma {:induction false} HashWeakOk(elf: Module, t: HashTable, name: seq<byte>, n: nat, k: nat)
    requires HashWalk(elf, t, name, false, n, k).Some? && HashWalk(elf, t, name, false, n, k) != Some(NoMatch)
    ensures HashWalk(elf, t, name, true, n, k).Some? && HashWalk(elf, t, name, true, n, k) != Some(NoMatch)
    decreases k
  {
    hide CheckFoundSym;
    if 0 < n < |t.chain| {
      if CheckFoundSym(elf, name, false, n) != NoMatch {
        CompareWeakOk(elf, name, n);
      } else if CheckFoundSym(elf, name, true, n) == NoMatch {
        HashWeakOk(elf, t, name, t.chain[n], k - 1);
      }
    }
  }

  /** Allowing weak symbols never loses a global one. */
  lemma WeakOkFindsMore(elf: Module, name: seq<byte>)
    requires Ready(elf, name) && Answer(elf, name, false) != NoMatch
    ensures Answer(elf, name, true) != NoMatch
  {
    hide ChainWalk, HashWalk, FilteredOut, RunsInCircle;
    if elf.gnu.Some? {
      var t := elf.gnu.value;
      if |t.bloom| > 0 && !FilteredOut(elf, t, GnuHash(name)) && |t.buckets| > 0 {
        ChainWeakOk(elf, t, name, GnuStart(t, name) - t.symoffset);
      }
    } else if elf.hash.Some? {
      var t := elf.hash.value;
      ReadyEnds(elf, name, false);
      ReadyEnds(elf, name, true);
      if |t.buckets| > 0 {
        HashWeakOk(elf, t, name, HashStart(t, name), |t.chain|);
      }
    }
  }

  // ---- ta_elf_resolve_sym.

  /** A module answers for its global symbols first, then for its weak ones too. */
  ghost function InModule(elf: Module, name: seq<byte>): Compared
    requires Ready(elf, name)
  {
    if Answer(elf, name, false) != NoMatch then Answer(elf, name, false) else Answer(elf, name, true)
  }

  /** The first module with an acceptable symbol, the length of the queue if there is none. */
  ghost function FirstWith(queue: seq<Module>, name: seq<byte>, weakOk: bool): (k: nat)
    requires AllReady(queue, name)
    ensures k <= |queue| && (k < |queue| ==> Answer(queue[k], name, weakOk) != NoMatch)
    ensures forall i :: 0 <= i < k ==> Answer(queue[i], name, weakOk) == NoMatch
  {
    if queue == [] then 0
    else
      var k := FirstWith(queue[..|queue| - 1], name, weakOk);
      if k < |queue| - 1 || Answer(queue[k], name, weakOk) != NoMatch then k else |queue|
  }

  /** What ta_elf_resolve_sym finds: in the given module, else in the first one of the queue. */
  ghost function Resolved(name: seq<byte>, queue: seq<Module>, elf: Option<Module>): Compared
    requires AllReady(queue, name) && (elf.Some? ==> Ready(elf.value, name))
  {
    if elf.Some? && InModule(elf.value, name) != NoMatch then InModule(elf.value, name)
    else
      var k := FirstWith(queue, name, true);
      if k < |queue| then InModule(queue[k], name) else NoMatch
  }

  /** ta_elf_resolve_sym; elf is the module the caller gives, k the place of the module found in the queue. */
  method ResolveSym(name: seq<byte>, queue: seq<Module>, elf: Option<Module>) returns (r: Compared, k: nat)
    requires AllReady(queue, name) && (elf.Some? ==> Ready(elf.value, name))
    ensures r == Resolved(name, queue, elf)
    ensures elf.None? || InModule(elf.value, name) == NoMatch ==> k == FirstWith(queue, name, true)
    // In each module the global symbols first, in the queue up to the first module that has an answer.
    ensures elf.Some? && Answer(elf.value, name, false) != NoMatch ==> r == Answer(elf.value, name, false)
    ensures elf.Some? && Answer(elf.value, name, false) == NoMatch && Answer(elf.value, name, true) != NoMatch ==>
      r == Answer(elf.value, name, true)
    ensures elf.None? || (Answer(elf.value, name, false) == NoMatch && Answer(elf.value, name, true) == NoMatch) ==>
      && k <= |queue| && (r == NoMatch <==> k == |queue|)
      && (forall i :: 0 <= i < k ==>
            Answer(queue[i], name, false) == NoMatch && Answer(queue[i], name, true) == NoMatch)
      && (k < |queue| ==> r == if Answer(queue[k], name, false) != NoMatch then Answer(queue[k], name, false)
                               else Answer(queue[k], name, true))
  {
    hide Answer, Ready;
    k := 0;
    if elf.Some? {
      r := ResolveSymHelper(elf.value, name, false);
      if r != NoMatch {
        return;
      }
      r := ResolveSymHelper(elf.value, name, true);
      if r != NoMatch {
        return;
      }
    }
    while k < |queue|
      invariant k <= |queue| && forall i :: 0 <= i < k ==>
        Answer(queue[i], name, false) == NoMatch && Answer(queue[i], name, true) == NoMatch
    {
      r := ResolveSymHelper(queue[k], name, false);
      if r != NoMatch {
        WeakOkFindsMore(queue[k], name);
        assert k == FirstWith(queue, name, true);
        return;
      }
      r := ResolveSymHelper(queue[k], name, true);
      if r != NoMatch {
        assert k == FirstWith(queue, name, true);
        return;
      }
      k := k + 1;
    }
    assert FirstWith(queue, name, true) == |queue|;
    return NoMatch, k;
  }

  // ---- The order its comment promises.

  /** A module answers with something other than an undefined weak symbol. */
  ghost predicate HasDefined(elf: Module, name: seq<byte>)
    requires Ready(elf, name)
  {
    var c := Answer(elf, name, true);
    c != NoMatch && (c.Match? ==> c.defined)
  }

  ghost function FirstDefined(queue: seq<Module>, name: seq<byte>): (k: nat)
    requires AllReady(queue, name)
    ensures k <= |queue| && (k < |queue| ==> HasDefined(queue[k], name))
    ensures forall i :: 0 <= i < k ==> !HasDefined(queue[i], name)
  {
    if queue == [] then 0
    else
      var k := FirstDefined(queue[..|queue| - 1], name);
      if k < |queue| - 1 || HasDefined(queue[k], name) then k else |queue|
  }

  /** Global symbols of all modules first, then weak ones, and undefined weak ones as the last option. */
  ghost function Documented(queue: seq<Module>, name: seq<byte>): nat
    requires AllReady(queue, name)
  {
    var g, w := FirstWith(queue, name, false), FirstDefined(queue, name);
    if g < |queue| then g else if w < |queue| then w else FirstWith(queue, name, true)
  }

  ghost predicate NoGlobal(queue: seq<Module>, name: seq<byte>)
    requires AllReady(queue, name)
  {
    forall i :: 0 <= i < |queue| ==> Answer(queue[i], name, false) == NoMatch
  }

  ghost predicate NoDefined(queue: seq<Module>, name: seq<byte>)
    requires AllReady(queue, name)
  {
    forall i :: 0 <= i < |queue| ==> !HasDefined(queue[i], name)
  }

  /**
   * The module chosen, FirstWith(queue, name, true), is the documented one exactly when it has an acceptable global
   * symbol, or no module has one and its weak symbol is defined or no module has a defined one.
   */
  lemma ModuleOrderDecides(queue: seq<Module>, name: seq<byte>)
    requires AllReady(queue, name)
    ensures var k := FirstWith(queue, name, true);
      k == Documented(queue, name) <==>
      || (k < |queue| && Answer(queue[k], name, false) != NoMatch)
      || (NoGlobal(queue, name) && ((k < |queue| && HasDefined(queue[k], name)) || NoDefined(queue, name)))
  {
    hide Answer, Ready;
    forall i | 0 <= i < |queue| && Answer(queue[i], name, false) != NoMatch
      ensures Answer(queue[i], name, true) != NoMatch
    {
      WeakOkFindsMore(queue[i], name);
    }
  }

  /** The comment says that a given module is searched alone: without a match there, the code goes on to the queue. */
  lemma GivenModuleWhen(name: seq<byte>, queue: seq<Module>, elf: Module)
    requires AllReady(queue, name) && Ready(elf, name)
    ensures Resolved(name, queue, Some(elf)) != InModule(elf, name) <==>
            InModule(elf, name) == NoMatch && FirstWith(queue, name, true) < |queue|
  {
    hide Answer, Ready;
  }

  // ---- Queues for which the code does something else.

  /** A library with one symbol "a" of the given binding and section, found through a DT_HASH table of one bucket. */
  function OneSymbol(bind: nat, shndx: nat): Module {
    Module([0, 0x61, 0], [Sym(0, 0, 0, 0, 0), Sym(bind, STT_FUNC, shndx, 1, 0)], 0x1000, 0x2000, false, None,
           Some(HashTable([1], [0, 0])))
  }

  function OneAnswer(bind: nat, shndx: nat, weakOk: bool): Compared {
    if bind == STB_WEAK && !weakOk then NoMatch
    else if shndx != SHN_UNDEF then Match(0x1000, true)
    else if bind == STB_WEAK then Match(0, false)
    else NoMatch
  }

  lemma OneSymbolAnswers(bind: nat, shndx: nat)
    requires (bind == STB_GLOBAL || bind == STB_WEAK) && (shndx == SHN_UNDEF || shndx == 1)
    ensures Ready(OneSymbol(bind, shndx), [0x61])
    ensures forall weakOk :: Answer(OneSymbol(bind, shndx), [0x61], weakOk) == OneAnswer(bind, shndx, weakOk)
  {
    hide ElfHashWord, RunsInCircle;
    var elf, name := OneSymbol(bind, shndx), [0x61];
    var t := elf.hash.value;
    assert HashStart(t, name) == 1 by { assert ElfHashOf(name) % 1 == 0; }
    assert CString(elf.dynstr, 2) == [];
    assert CString(elf.dynstr, 1) == [0x61];
    forall weakOk: bool
      ensures HashAnswer(elf, t, name, weakOk) == Some(OneAnswer(bind, shndx, weakOk))
      ensures !RunsInCircle(elf, t, name, weakOk, HashStart(t, name))
    {
      assert HashWalk(elf, t, name, weakOk, 0, 1) == Some(NoMatch);
      NeverEndsWhen(elf, t, name, weakOk, 1);
    }
  }

  /** A weak symbol before a global one: the documented order takes the second module, the code the first. */
  lemma WeakBeforeGlobal() returns (queue: seq<Module>, name: seq<byte>)
    ensures AllReady(queue, name) && |queue| == 2
    ensures FirstWith(queue, name, true) == 0 && Documented(queue, name) == 1
  {
    hide Answer, Ready;
    queue, name := [OneSymbol(STB_WEAK, 1), OneSymbol(STB_GLOBAL, 1)], [0x61];
    OneSymbolAnswers(STB_WEAK, 1);
    OneSymbolAnswers(STB_GLOBAL, 1);
  }

  /** An undefined weak symbol before a defined one: the code resolves to zero, the documented order to a function. */
  lemma UndefinedBeforeWeak() returns (queue: seq<Module>, name: seq<byte>)
    ensures AllReady(queue, name) && |queue| == 2 && NoGlobal(queue, name)
    ensures FirstWith(queue, name, true) == 0 && Documented(queue, name) == 1
    ensures Resolved(name, queue, None) == Match(0, false) && InModule(queue[1], name) == Match(0x1000, true)
  {
    hide Answer, Ready;
    queue, name := [OneSymbol(STB_WEAK, SHN_UNDEF), OneSymbol(STB_WEAK, 1)], [0x61];
    OneSymbolAnswers(STB_WEAK, SHN_UNDEF);
    OneSymbolAnswers(STB_WEAK, 1);
  }

  /** A given module without the symbol: the code answers with that of another one. */
  lemma FoundElsewhere() returns (queue: seq<Module>, name: seq<byte>)
    ensures AllReady(queue, name) && |queue| == 2
    ensures InModule(queue[0], name) == NoMatch && Resolved(name, queue, Some(queue[0])) == Match(0x1000, true)
  {
    hide Answer, Ready;
    queue, name := [OneSymbol(STB_GLOBAL, SHN_UNDEF), OneSymbol(STB_GLOBAL, 1)], [0x61];
    OneSymbolAnswers(STB_GLOBAL, SHN_UNDEF);
    OneSymbolAnswers(STB_GLOBAL, 1);
  }
}
