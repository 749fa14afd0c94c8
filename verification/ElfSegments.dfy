/** adjust_segments of the ELF loader (ta_elf.c): page alignment and merging of the loadable segments. */
module ElfSegments {
  import opened Arith

  const PAGE: nat := 0x1000

  /** Permission flags as the set of their bit numbers. */
  type Flags = set<nat>
  const PF_W: nat := 1

  datatype Segment = Segment(offset: nat, vaddr: nat, filesz: nat, memsz: nat, flags: Flags, align: nat,
                             remapped: bool)

  function End(s: Segment): nat {
    s.vaddr + s.memsz
  }

  function Rounddown(v: nat): nat {
    v - v % PAGE
  }

  /** Bitwise and. */
  function And(a: nat, b: nat): nat {
    if a == 0 || b == 0 then 0 else 2 * And(a / 2, b / 2) + (if a % 2 == 1 && b % 2 == 1 then 1 else 0)
  }

  /** With the mask of an alignment that is a power of two: the offset from the boundary below. */
  lemma {:induction false} AndOfMask(a: nat, k: nat)
    ensures And(a, Pow2(k) - 1) == a % Pow2(k)
    decreases k
  {
    if k > 0 {
      var p := Pow2(k - 1);
      assert (2 * p - 1) / 2 == p - 1 && (2 * p - 1) % 2 == 1;
      AndOfMask(a / 2, k - 1);
      LowHalves(a, p);
    }
  }

  // ---- The sanity checks.

  /** The asserts about one segment, after the one before it. */
  predicate SaneAfter(prev: Segment, s: Segment) {
    s.vaddr >= End(prev) && s.offset >= (prev.offset + prev.filesz) % TWO64
  }

  predicate SaneAlone(s: Segment, align: nat) {
    && s.align >= PAGE && End(s) < TWO64 && s.filesz <= s.memsz
    && s.offset % PAGE == s.vaddr % PAGE && s.align == align
  }

  predicate Sane(segs: seq<Segment>) {
    forall n :: 0 <= n < |segs| ==> SaneAlone(segs[n], segs[0].align) && (n > 0 ==> SaneAfter(segs[n - 1], segs[n]))
  }

  /** Values of 64-bit fields. */
  predicate Words(segs: seq<Segment>) {
    forall n :: 0 <= n < |segs| ==> segs[n].offset < TWO64 && segs[n].vaddr < TWO64 && segs[n].align < TWO64
  }

  // ---- The two cases.

  /** Case 1: s starts on a page that prev reaches into. */
  predicate Touches(prev: Segment, s: Segment) {
    Rounddown(s.vaddr) < End(prev)
  }

  /** Case 2: only the file pages overlap. */
  predicate FileOverlap(prev: Segment, s: Segment, mask: nat)
  {
    And(s.offset, mask) != 0 && Rounddown(s.offset) < (prev.offset + prev.filesz) % TWO64
  }

  /** The asserts of the second loop. */
  predicate Passes(prev: Segment, s: Segment, mask: nat)
  {
    if Touches(prev, s) then And(s.vaddr, mask) == And(s.offset, mask) && prev.memsz == prev.filesz
    else FileOverlap(prev, s, mask) ==> PF_W in s.flags
  }

  function Joined(prev: Segment, s: Segment): Segment
    requires prev.vaddr <= s.vaddr
  {
    prev.(filesz := s.vaddr + s.filesz - prev.vaddr, memsz := s.vaddr + s.memsz - prev.vaddr,
          flags := prev.flags + s.flags)
  }

  function Aligned(prev: Segment, s: Segment, mask: nat): Segment
  {
    s.(offset := Rounddown(s.offset), vaddr := Rounddown(s.vaddr), filesz := s.filesz + s.vaddr % PAGE,
       memsz := s.memsz + s.vaddr % PAGE, remapped := s.remapped || FileOverlap(prev, s, mask))
  }

  /** The list after one more segment. */
  function Added(done: seq<Segment>, s: Segment, mask: nat): (r: seq<Segment>)
    requires |done| > 0 && done[|done| - 1].vaddr <= s.vaddr
    ensures |r| == |done| + if Touches(done[|done| - 1], s) then 0 else 1
  {
    var prev := done[|done| - 1];
    if Touches(prev, s) then done[|done| - 1 := Joined(prev, s)] else done + [Aligned(prev, s, mask)]
  }

  /** The result number that segment n goes into: segments that touch their predecessor join it. */
  function GroupOf(segs: seq<Segment>, n: nat): nat
    requires n < |segs|
  {
    if n == 0 then 0 else GroupOf(segs, n - 1) + if Touches(segs[n - 1], segs[n]) then 0 else 1
  }

  /** The adjusted list of the first n segments. */
  ghost function Adjusted(segs: seq<Segment>, n: nat): (r: seq<Segment>)
    requires 0 < n <= |segs| && Sane(segs) && Words(segs)
    ensures |r| > 0 && End(r[|r| - 1]) == End(segs[n - 1]) && r[|r| - 1].vaddr <= segs[n - 1].vaddr
    ensures |r| == GroupOf(segs, n - 1) + 1 && r[|r| - 1].filesz <= r[|r| - 1].memsz
  {
    if n == 1 then [segs[0]]
    else
      assert SaneAfter(segs[n - 2], segs[n - 1]);
      Added(Adjusted(segs, n - 1), segs[n - 1], segs[0].align - 1)
  }

  ghost predicate PassesAt(segs: seq<Segment>, n: nat)
    requires Sane(segs) && Words(segs) && 0 < n < |segs|
  {
    var r := Adjusted(segs, n);
    Passes(r[|r| - 1], segs[n], segs[0].align - 1)
  }

  /** All asserts of the second loop hold. */
  ghost predicate AllPass(segs: seq<Segment>)
    requires Sane(segs) && Words(segs)
  {
    forall n :: 0 < n < |segs| ==> PassesAt(segs, n)
  }

  lemma FirstAdded(segs: seq<Segment>)
    requires segs != [] && Sane(segs) && Words(segs)
    ensures Adjusted(segs, 1) == [segs[0]]
  {
  }

  lemma NextAdded(segs: seq<Segment>, n: nat)
    requires 0 < n < |segs| && Sane(segs) && Words(segs)
    ensures var r := Adjusted(segs, n);
      && r[|r| - 1].vaddr <= segs[n].vaddr < TWO64 && segs[n].offset < TWO64 && 0 < segs[0].align <= TWO64
      && Adjusted(segs, n + 1) == Added(r, segs[n], segs[0].align - 1)
  {
    hide Added;
    assert SaneAfter(segs[n - 1], segs[n]);
  }

  lemma Split(done: seq<Segment>, segs: seq<Segment>, n: nat)
    requires 0 < |done| && n < |segs|
    ensures var all := done + segs[n..];
      && all[..|done|] == done && all[|done|] == segs[n] && all[|done| + 1..] == segs[n + 1..]
      && all[|done| - 1] == done[|done| - 1]
  {
  }

  // ---- What the adjusted list is.

  /** Results go up, and from the second one on they start on a page, in memory and in the file. */
  ghost predicate Ascending(r: seq<Segment>) {
    && (forall i, j :: 0 <= i < j < |r| ==> End(r[i]) <= r[j].vaddr)
    && (forall i :: 0 < i < |r| ==> r[i].vaddr % PAGE == 0 && r[i].offset % PAGE == 0)
  }

  /** All bytes of s, in memory and from the file, lie in r. */
  predicate Inside(s: Segment, r: Segment) {
    r.vaddr <= s.vaddr && End(s) <= End(r) && s.vaddr + s.filesz <= r.vaddr + r.filesz
  }

  /** Result k has flag b exactly when a segment that goes into it has. */
  ghost predicate FlagOfMember(segs: seq<Segment>, n: nat, r: seq<Segment>, k: nat, b: nat)
    requires n <= |segs| && k < |r|
  {
    b in r[k].flags <==> exists i :: 0 <= i < n && GroupOf(segs, i) == k && b in segs[i].flags
  }

  lemma {:induction false} ResultsAscend(segs: seq<Segment>, n: nat)
    requires 0 < n <= |segs| && Sane(segs) && Words(segs)
    ensures Ascending(Adjusted(segs, n))
    decreases n
  {
    if n > 1 {
      ResultsAscend(segs, n - 1);
      assert SaneAfter(segs[n - 2], segs[n - 1]);
      AddedAscends(Adjusted(segs, n - 1), segs[n - 1], segs[0].align - 1);
    }
  }

  lemma AddedAscends(done: seq<Segment>, s: Segment, mask: nat)
    requires |done| > 0 && done[|done| - 1].vaddr <= s.vaddr
    requires Ascending(done)
    ensures Ascending(Added(done, s, mask))
  {
    hide And;
    var r, prev := Added(done, s, mask), done[|done| - 1];
    forall i, j | 0 <= i < j < |r| ensures End(r[i]) <= r[j].vaddr {
      assert i < |done| - 1 ==> End(done[i]) <= prev.vaddr;
    }
  }

  lemma {:induction false} GroupsGrow(segs: seq<Segment>, i: nat, n: nat)
    requires i <= n < |segs|
    ensures GroupOf(segs, i) <= GroupOf(segs, n)
    decreases n
  {
    if i < n {
      GroupsGrow(segs, i, n - 1);
    }
  }

  /** Every segment lies in the result it goes into. */
  lemma {:induction false} EachInside(segs: seq<Segment>, n: nat, i: nat)
    requires 0 < n <= |segs| && Sane(segs) && Words(segs) && i < n
    ensures GroupOf(segs, i) < |Adjusted(segs, n)| && Inside(segs[i], Adjusted(segs, n)[GroupOf(segs, i)])
    decreases n
  {
    hide And, Words;
    GroupsGrow(segs, i, n - 1);
    if n > 1 {
      assert SaneAfter(segs[n - 2], segs[n - 1]);
      NextAdded(segs, n - 1);
      if i < n - 1 {
        EachInside(segs, n - 1, i);
      }
    }
  }

  /** The flags of a result are those of the segments that go into it: none lost, none added. */
  lemma {:induction false} FlagsFromMembers(segs: seq<Segment>, n: nat, k: nat, b: nat)
    requires 0 < n <= |segs| && Sane(segs) && Words(segs) && k < |Adjusted(segs, n)|
    ensures FlagOfMember(segs, n, Adjusted(segs, n), k, b)
    decreases n
  {
    hide And, Words;
    if n == 1 {
      assert GroupOf(segs, 0) == 0;
    } else {
      NextAdded(segs, n - 1);
      var before := Adjusted(segs, n - 1);
      if k < |before| {
        FlagsFromMembers(segs, n - 1, k, b);
      } else {
        forall i | 0 <= i < n - 1 ensures GroupOf(segs, i) < k {
          GroupsGrow(segs, i, n - 2);
        }
      }
      assert GroupOf(segs, n - 1) == |Adjusted(segs, n)| - 1;
    }
  }

  // ---- Each result in terms of the segments that go into it.

  /** Segments number f to n make up r: where it starts in memory and in the file, and where it ends. */
  ghost predicate MadeOf(r: Segment, segs: seq<Segment>, f: nat, n: nat)
    requires f <= n < |segs|
  {
    && r.vaddr == segs[f].vaddr - (if f == 0 then 0 else segs[f].vaddr % 0x1000)
    && r.offset == segs[f].offset - (if f == 0 then 0 else segs[f].offset % 0x1000)
    && r.vaddr + r.filesz == segs[n].vaddr + segs[n].filesz
    && r.vaddr + r.memsz == segs[n].vaddr + segs[n].memsz
    && r.align == segs[0].align
    && (r.remapped <==> segs[f].remapped || (f > 0 && PageMappedBefore(segs, f)))
  }

  /** An offset that is not a multiple of the alignment, on a page that starts before end. */
  predicate CutsInto(offset: nat, mask: nat, end: nat) {
    And(offset, mask) != 0 && offset - offset % 0x1000 < end % 0x1_0000_0000_0000_0000
  }

  /** Segment f starts on a page of the file that the result in front of it maps, too. */
  ghost predicate PageMappedBefore(segs: seq<Segment>, f: nat)
    requires 0 < f < |segs|
  {
    var g := FirstOf(segs, f - 1);
    var end := segs[g].offset + segs[f - 1].vaddr + segs[f - 1].filesz - segs[g].vaddr;
    segs[0].align > 0 && end >= 0 && CutsInto(segs[f].offset, segs[0].align - 1, end)
  }

  /** The assert about segment n, in terms of the segments as they were. */
  ghost predicate Accepted(segs: seq<Segment>, n: nat)
    requires 0 < n < |segs|
  {
    segs[0].align > 0 &&
    var s, prev, mask := segs[n], segs[n - 1], segs[0].align - 1;
    if s.vaddr - s.vaddr % 0x1000 < prev.vaddr + prev.memsz
    then And(s.vaddr, mask) == And(s.offset, mask) && prev.memsz == prev.filesz
    else PageMappedBefore(segs, n) ==> 1 in s.flags
  }

  /** The next segment goes into the same result exactly when its page begins before this one ends. */
  lemma GroupsWhen(segs: seq<Segment>, n: nat)
    requires n < |segs|
    ensures GroupOf(segs, 0) == 0
    ensures n + 1 < |segs| ==>
      GroupOf(segs, n + 1) == GroupOf(segs, n)
        + if segs[n + 1].vaddr - segs[n + 1].vaddr % 0x1000 < segs[n].vaddr + segs[n].memsz then 0 else 1
  {
  }

  lemma JoinedMade(prev: Segment, segs: seq<Segment>, f: nat, n: nat)
    requires f < n < |segs| && prev.vaddr <= segs[n].vaddr && MadeOf(prev, segs, f, n - 1)
    ensures MadeOf(Joined(prev, segs[n]), segs, f, n)
  {
    hide PageMappedBefore;
  }

  lemma AlignedMade(prev: Segment, segs: seq<Segment>, n: nat)
    requires 0 < n < |segs| && SaneAlone(segs[n], segs[0].align) && segs[0].align > 0
    requires FileOverlap(prev, segs[n], segs[0].align - 1) <==> PageMappedBefore(segs, n)
    ensures MadeOf(Aligned(prev, segs[n], segs[0].align - 1), segs, n, n)
  {
    hide PageMappedBefore, FileOverlap;
  }

  lemma LastAdded(segs: seq<Segment>, n: nat)
    requires 0 < n < |segs| && Sane(segs) && Words(segs)
    ensures
      var r, r' := Adjusted(segs, n), Adjusted(segs, n + 1);
      var prev := r[|r| - 1];
      && segs[0].align > 0 && prev.vaddr <= segs[n].vaddr
      && r'[|r'| - 1] == if Touches(segs[n - 1], segs[n]) then Joined(prev, segs[n])
                         else Aligned(prev, segs[n], segs[0].align - 1)
  {
    hide Sane, Words, Joined, Aligned, Adjusted;
    NextAdded(segs, n);
  }

  lemma NextMade(segs: seq<Segment>, n: nat)
    requires 0 < n < |segs| && Sane(segs) && Words(segs)
    requires var r := Adjusted(segs, n); MadeOf(r[|r| - 1], segs, FirstOf(segs, n - 1), n - 1)
    ensures var r := Adjusted(segs, n + 1); MadeOf(r[|r| - 1], segs, FirstOf(segs, n), n)
  {
    assert SaneAlone(segs[n], segs[0].align);
    assert FirstOf(segs, n) == if Touches(segs[n - 1], segs[n]) then FirstOf(segs, n - 1) else n;
    hide *;
    LastAdded(segs, n);
    var r := Adjusted(segs, n);
    if Touches(segs[n - 1], segs[n]) {
      JoinedMade(r[|r| - 1], segs, FirstOf(segs, n - 1), n);
    } else {
      OverlapWhen(segs, n, r[|r| - 1]);
      AlignedMade(r[|r| - 1], segs, n);
    }
  }

  /** The last result so far. */
  lemma {:induction false} LastMadeOf(segs: seq<Segment>, n: nat)
    requires n < |segs| && Sane(segs) && Words(segs)
    ensures var r := Adjusted(segs, n + 1); MadeOf(r[|r| - 1], segs, FirstOf(segs, n), n)
    decreases n
  {
    hide Words, Sane, MadeOf, Adjusted;
    if n == 0 {
      FirstAdded(segs);
      FirstMade(segs);
    } else {
      LastMadeOf(segs, n - 1);
      NextMade(segs, n);
    }
  }

  lemma FirstMade(segs: seq<Segment>)
    requires segs != []
    ensures MadeOf(segs[0], segs, 0, 0)
  {
  }

  /** A result maps file bytes up to what its last segment does. */
  lemma EndInFile(segs: seq<Segment>, g: nat, m: nat, prev: Segment)
    requires g <= m < |segs| && Sane(segs) && MadeOf(prev, segs, g, m)
    ensures prev.offset + prev.filesz == segs[g].offset + (segs[m].vaddr + segs[m].filesz - segs[g].vaddr)
  {
    hide PageMappedBefore, And;
    assert SaneAlone(segs[g], segs[0].align);
  }

  lemma OverlapCuts(prev: Segment, s: Segment, mask: nat)
    ensures FileOverlap(prev, s, mask) <==> CutsInto(s.offset, mask, prev.offset + prev.filesz)
  {
    hide And;
  }

  lemma OverlapWhen(segs: seq<Segment>, n: nat, prev: Segment)
    requires 0 < n < |segs| && Sane(segs) && Words(segs) && MadeOf(prev, segs, FirstOf(segs, n - 1), n - 1)
    ensures FileOverlap(prev, segs[n], segs[0].align - 1) <==> PageMappedBefore(segs, n)
  {
    hide *;
    AlignPositive(segs);
    EndInFile(segs, FirstOf(segs, n - 1), n - 1, prev);
    OverlapCuts(prev, segs[n], segs[0].align - 1);
    MappedWhen(segs, n, prev.offset + prev.filesz);
  }

  lemma MappedWhen(segs: seq<Segment>, n: nat, end: nat)
    requires 0 < n < |segs| && segs[0].align > 0
    requires
      var g := FirstOf(segs, n - 1);
      end == segs[g].offset + (segs[n - 1].vaddr + segs[n - 1].filesz - segs[g].vaddr)
    ensures PageMappedBefore(segs, n) <==> CutsInto(segs[n].offset, segs[0].align - 1, end)
  {
    hide FirstOf, CutsInto;
  }

  lemma AlignPositive(segs: seq<Segment>)
    requires segs != [] && Sane(segs)
    ensures segs[0].align >= 0x1000
  {
    assert SaneAlone(segs[0], segs[0].align);
  }

  /** The asserts look at the results made so far, and come down to the segments as they were. */
  lemma PassesWhen(segs: seq<Segment>, n: nat)
    requires 0 < n < |segs| && Sane(segs) && Words(segs)
    ensures segs[0].align > 0 && (PassesAt(segs, n) <==> Accepted(segs, n))
  {
    hide And, Words, PageMappedBefore, FileOverlap;
    var r := Adjusted(segs, n);
    NextAdded(segs, n);
    LastMadeOf(segs, n - 1);
    OverlapWhen(segs, n, r[|r| - 1]);
  }

  /** Nothing changes a result once the next one is begun. */
  lemma {:induction false} ResultStays(segs: seq<Segment>, n: nat, m: nat)
    requires n < m <= |segs| && Sane(segs) && Words(segs)
    requires n + 1 < m ==> GroupOf(segs, n + 1) != GroupOf(segs, n)
    ensures var k := GroupOf(segs, n);
      k < |Adjusted(segs, m)| && Adjusted(segs, m)[k] == Adjusted(segs, n + 1)[k]
    decreases m
  {
    hide And, Words, Sane, Adjusted, Joined, Aligned;
    if n + 1 < m {
      ResultStays(segs, n, m - 1);
      NextAdded(segs, m - 1);
      GroupsGrow(segs, n + 1, m - 1);
      if n + 1 < m - 1 {
        GroupsGrow(segs, n + 1, m - 2);
      }
    }
  }

  /** The last segment of its result. */
  ghost predicate LastOf(segs: seq<Segment>, n: nat) {
    n < |segs| && (n + 1 < |segs| ==> GroupOf(segs, n + 1) != GroupOf(segs, n))
  }

  /** r has a result for each group of segments, made of just those. */
  ghost predicate ResultsOf(r: seq<Segment>, segs: seq<Segment>) {
    && |r| == (if segs == [] then 0 else GroupOf(segs, |segs| - 1) + 1)
    && forall n :: LastOf(segs, n) ==>
         GroupOf(segs, n) < |r| && MadeOf(r[GroupOf(segs, n)], segs, FirstOf(segs, n), n)
  }

  /** Where each result starts and ends, in memory and in the file, and which ones are remapped. */
  lemma ResultsMade(segs: seq<Segment>)
    requires segs != [] && Sane(segs) && Words(segs)
    ensures ResultsOf(Adjusted(segs, |segs|), segs)
  {
    hide MadeOf, Adjusted, Words, Sane;
    forall n | LastOf(segs, n)
      ensures var r := Adjusted(segs, |segs|);
        GroupOf(segs, n) < |r| && MadeOf(r[GroupOf(segs, n)], segs, FirstOf(segs, n), n)
    {
      LastMadeOf(segs, n);
      ResultStays(segs, n, |segs|);
    }
  }

  lemma NoneMade()
    ensures ResultsOf([], [])
  {
  }

  /** No two results share a page. */
  lemma NoSharedPage(segs: seq<Segment>, i: nat, j: nat, a: nat, b: nat)
    requires segs != [] && Sane(segs) && Words(segs) && i < j < |Adjusted(segs, |segs|)|
    requires var r := Adjusted(segs, |segs|); r[i].vaddr <= a < End(r[i]) && r[j].vaddr <= b < End(r[j])
    ensures a / PAGE < b / PAGE
  {
    hide Adjusted;
    ResultsAscend(segs, |segs|);
    PageBetween(a, Adjusted(segs, |segs|)[j].vaddr, b);
  }

  lemma PageBetween(a: nat, v: nat, b: nat)
    requires a < v <= b && v % PAGE == 0
    ensures a / PAGE < b / PAGE
  {
    assert a / PAGE < v / PAGE <= b / PAGE;
  }

  /** A segment that is not empty lies in one result only. */
  lemma OneHome(segs: seq<Segment>, n: nat, k: nat)
    requires n < |segs| && Sane(segs) && Words(segs) && segs[n].memsz > 0
    requires k < |Adjusted(segs, |segs|)|
    ensures Inside(segs[n], Adjusted(segs, |segs|)[k]) <==> k == GroupOf(segs, n)
  {
    hide Adjusted;
    ResultsAscend(segs, |segs|);
    EachInside(segs, |segs|, n);
  }

  // ---- The bytes of the file.

  /** Distance from file offset to address. */
  function Shift(s: Segment): int {
    s.vaddr - s.offset
  }

  /** The result of segment n maps the file bytes of segment n, if it has any, to the addresses of segment n. */
  ghost predicate FileKept(segs: seq<Segment>, n: nat)
    requires n < |segs| && Sane(segs) && Words(segs) && GroupOf(segs, n) < |Adjusted(segs, |segs|)|
  {
    segs[n].filesz > 0 ==> Shift(Adjusted(segs, |segs|)[GroupOf(segs, n)]) == Shift(segs[n])
  }

  /** The segment the merging around segment n starts from. */
  function FirstOf(segs: seq<Segment>, n: nat): (first: nat)
    requires n < |segs|
    ensures first <= n && GroupOf(segs, first) == GroupOf(segs, n)
    ensures first > 0 ==> !Touches(segs[first - 1], segs[first])
  {
    if n == 0 || !Touches(segs[n - 1], segs[n]) then n else FirstOf(segs, n - 1)
  }

  /** A result keeps the shift of the first segment that goes into it. */
  lemma {:induction false} ShiftOfFirst(segs: seq<Segment>, n: nat, i: nat)
    requires 0 < n <= |segs| && Sane(segs) && Words(segs) && i < n
    requires i > 0 ==> !Touches(segs[i - 1], segs[i])
    ensures GroupOf(segs, i) < |Adjusted(segs, n)|
    ensures Shift(Adjusted(segs, n)[GroupOf(segs, i)]) == Shift(segs[i])
    decreases n
  {
    hide And, Words;
    GroupsGrow(segs, i, n - 1);
    if n > 1 {
      NextAdded(segs, n - 1);
      if i < n - 1 {
        ShiftOfFirst(segs, n - 1, i);
      } else {
        assert SaneAlone(segs[i], segs[0].align);
      }
    }
  }

  /**
   * The merge asserts do not compare the distance between address and file offset, so a merge can map the wrong part
   * of the file: a segment keeps its file bytes exactly when it has none or agrees in that distance with the first
   * segment it is merged with.
   */
  lemma FileKeptWhen(segs: seq<Segment>, n: nat)
    requires n < |segs| && Sane(segs) && Words(segs)
    ensures GroupOf(segs, n) < |Adjusted(segs, |segs|)|
    ensures FileKept(segs, n) <==> segs[n].filesz == 0 || Shift(segs[n]) == Shift(segs[FirstOf(segs, n)])
  {
    hide Adjusted, Sane, Words, Shift;
    ShiftOfFirst(segs, |segs|, FirstOf(segs, n));
  }

  lemma MaskOfLow()
    ensures And(0x200, 0xffff) == And(0x1_0200, 0xffff)
  {
    hide And, Pow2;
    Pow2Of16();
    AndOfMask(0x200, 16);
    AndOfMask(0x1_0200, 16);
  }

  function Pair(filesz: nat): seq<Segment> {
    [Segment(0, 0, 0x100, 0x100, {2}, 0x1_0000, false),
     Segment(0x1_0200, 0x200, filesz, 0x10, {2}, 0x1_0000, false)]
  }

  lemma PairIsSane(filesz: nat)
    requires filesz <= 0x10
    ensures Sane(Pair(filesz)) && Words(Pair(filesz))
    ensures GroupOf(Pair(filesz), 1) == 0 && FirstOf(Pair(filesz), 1) == 0
  {
    var segs := Pair(filesz);
    assert FirstOf(segs, 0) == 0 && GroupOf(segs, 0) == 0 && Touches(segs[0], segs[1]);
  }

  lemma PairPasses(filesz: nat)
    requires filesz <= 0x10
    ensures Sane(Pair(filesz)) && Words(Pair(filesz)) && AllPass(Pair(filesz))
  {
    hide Sane, Words, And, PassesAt, PageMappedBefore;
    PairIsSane(filesz);
    MaskOfLow();
    PassesWhen(Pair(filesz), 1);
  }

  /** Two segments that pass every assert although the second one ends up with the wrong file bytes. */
  lemma FileNotKept() returns (segs: seq<Segment>)
    ensures |segs| == 2 && Sane(segs) && Words(segs) && AllPass(segs)
    ensures GroupOf(segs, 1) < |Adjusted(segs, 2)| && !FileKept(segs, 1)
  {
    segs := Pair(0x10);
    assert |segs| == 2 && Shift(segs[0]) != Shift(segs[1]) && segs[1].filesz > 0;
    hide *;
    PairIsSane(0x10);
    PairPasses(0x10);
    FileKeptWhen(segs, 1);
  }

  /** Merging a segment without file bytes loses none, whatever its offset. */
  lemma ZeroFillKept() returns (segs: seq<Segment>)
    ensures |segs| == 2 && Sane(segs) && Words(segs) && AllPass(segs) && GroupOf(segs, 1) == 0
    ensures Shift(segs[0]) != Shift(segs[1])
    ensures forall n :: 0 <= n < 2 ==> GroupOf(segs, n) < |Adjusted(segs, 2)| && FileKept(segs, n)
  {
    segs := Pair(0);
    hide Sane, Words, GroupOf, Adjusted, FileKept, AllPass;
    PairIsSane(0);
    PairPasses(0);
    FileKeptWhen(segs, 0);
    FileKeptWhen(segs, 1);
  }

  class TaElf {
    var segs: seq<Segment>

    /** adjust_segments; ok is false where an assert ends the loader. */
    method AdjustSegments() returns (ok: bool)
      requires Words(segs)
      modifies this
      ensures ok <==> Sane(old(segs)) && AllPass(old(segs))
      ensures ok <==> Sane(old(segs)) && forall n :: 0 < n < |old(segs)| ==> Accepted(old(segs), n)
      ensures ok && old(segs) != [] ==> segs == Adjusted(old(segs), |old(segs)|)
      ensures ok ==> ResultsOf(segs, old(segs))
    {
      hide SaneAlone, SaneAfter, Passes, PassesAt, Accepted, Adjusted, ResultsOf, Words, Sane;
      var align: nat;
      ok, align := SanityCheck();
      NoneMade();
      if ok && segs != [] {
        ResultsMade(segs);
        forall n | 0 < n < |segs| ensures PassesAt(segs, n) <==> Accepted(segs, n) {
          PassesWhen(segs, n);
        }
        ok := Merge(align - 1);
      }
    }

    method SanityCheck() returns (ok: bool, align: nat)
      ensures ok <==> Sane(segs)
      ensures ok && segs != [] ==> align == segs[0].align >= PAGE
    {
      align := 0;
      for n := 0 to |segs|
        invariant if n == 0 then align == 0 else align == segs[0].align != 0
        invariant forall k :: 0 <= k < n ==>
          SaneAlone(segs[k], segs[0].align) && (k > 0 ==> SaneAfter(segs[k - 1], segs[k]))
      {
        var s := segs[n];
        if s.align < PAGE || s.vaddr + s.memsz >= TWO64 || s.filesz > s.memsz || s.offset % PAGE != s.vaddr % PAGE {
          return false, align;
        }
        if n > 0 {
          var prev := segs[n - 1];
          if s.vaddr < prev.vaddr + prev.memsz || s.offset < (prev.offset + prev.filesz) % TWO64 {
            return false, align;
          }
        }
        if align == 0 {
          align := s.align;
        }
        if align != s.align {
          return false, align;
        }
      }
      ok := true;
    }

    /** The second loop. */
    method Merge(mask: nat) returns (ok: bool)
      requires Words(segs) && Sane(segs) && segs != [] && mask == segs[0].align - 1
      modifies this
      ensures ok <==> AllPass(old(segs))
      ensures ok ==> segs == Adjusted(old(segs), |old(segs)|)
    {
      hide And, SaneAlone, SaneAfter, Passes, Added, Adjusted, Sane, Words;
      ghost var given := segs;
      var i := 1;
      ghost var m := 1;
      FirstAdded(given);
      assert segs == [given[0]] + given[1..];
      while i < |segs|
        invariant 0 < m <= |given| && i == |Adjusted(given, m)|
        invariant segs == Adjusted(given, m) + given[m..]
        invariant forall n :: 0 < n < m ==> PassesAt(given, n)
        decreases |segs| - i
      {
        ghost var before := Adjusted(given, m);
        NextAdded(given, m);
        Split(before, given, m);
        ok, i := MergeOne(i, mask);
        if !ok {
          assert !PassesAt(given, m);
          return;
        }
        m := m + 1;
      }
      ok := true;
    }

    /** One round of the second loop with its asserts; next is the index of the next segment. */
    method MergeOne(i: nat, mask: nat) returns (ok: bool, next: nat)
      requires 0 < i < |segs| && segs[i - 1].vaddr <= segs[i].vaddr
      modifies this
      ensures ok <==> Passes(old(segs[i - 1]), old(segs[i]), mask)
      ensures ok ==> segs == Added(old(segs[..i]), old(segs[i]), mask) + old(segs[i + 1..])
      ensures ok ==> next == |Added(old(segs[..i]), old(segs[i]), mask)|
    {
      hide And;
      var prev, s := segs[i - 1], segs[i];
      ok, next := true, i;
      if Rounddown(s.vaddr) < prev.vaddr + prev.memsz {
        if And(s.vaddr, mask) != And(s.offset, mask) || prev.memsz != prev.filesz {
          return false, i;
        }
        prev := prev.(filesz := s.vaddr + s.filesz - prev.vaddr, memsz := s.vaddr + s.memsz - prev.vaddr,
                      flags := prev.flags + s.flags);
        segs := segs[..i - 1] + [prev] + segs[i + 1..];
      } else {
        if And(s.offset, mask) != 0 && Rounddown(s.offset) < (prev.offset + prev.filesz) % TWO64 {
          if PF_W !in s.flags {
            return false, i;
          }
          s := s.(remapped := true);
        }
        s := s.(filesz := s.filesz + (s.vaddr - Rounddown(s.vaddr)), memsz := s.memsz + (s.vaddr - Rounddown(s.vaddr)));
        s := s.(vaddr := Rounddown(s.vaddr));
        s := s.(offset := Rounddown(s.offset));
        segs := segs[i := s];
        next := i + 1;
      }
    }
  }
}
