/** The queue of modules of the ELF loader (main.c, ta_elf.c): a worklist that grows while it is walked. */
module ElfQueue {
  import opened Distinct

  /** A UUID names a module. */
  type Uuid = nat

  /** The DT_NEEDED entries of a module, in the order of its dynamic section. */
  type Needs = Uuid -> seq<Uuid>

  // ---- Dependencies.

  ghost predicate Path(needs: Needs, p: seq<Uuid>) {
    p != [] && forall i :: 0 <= i < |p| - 1 ==> p[i + 1] in needs(p[i])
  }

  /** b is a, or a needs it through any number of DT_NEEDED steps. */
  ghost predicate Reaches(needs: Needs, a: Uuid, b: Uuid) {
    exists p :: Path(needs, p) && p[0] == a && p[|p| - 1] == b
  }

  lemma ReachesSelf(needs: Needs, a: Uuid)
    ensures Reaches(needs, a, a)
  {
    assert Path(needs, [a]);
  }

  lemma ReachesNeeded(needs: Needs, a: Uuid, b: Uuid, c: Uuid)
    requires Reaches(needs, a, b) && c in needs(b)
    ensures Reaches(needs, a, c)
  {
    var p :| Path(needs, p) && p[0] == a && p[|p| - 1] == b;
    assert Path(needs, p + [c]);
  }

  ghost predicate Closed(needs: Needs, s: set<Uuid>) {
    forall a, b :: a in s && b in needs(a) ==> b in s
  }

  lemma {:induction false} ClosedHoldsPath(needs: Needs, s: set<Uuid>, p: seq<Uuid>)
    requires Closed(needs, s) && Path(needs, p) && p[0] in s
    ensures p[|p| - 1] in s
  {
    if |p| > 1 {
      var q := p[..|p| - 1];
      assert Path(needs, q);
      ClosedHoldsPath(needs, s, q);
      assert p[|p| - 1] in needs(q[|q| - 1]);
    }
  }

  /** A closed set with a in it has all that a reaches. */
  lemma ClosedHolds(needs: Needs, s: set<Uuid>, a: Uuid, b: Uuid)
    requires Closed(needs, s) && a in s && Reaches(needs, a, b)
    ensures b in s
  {
    var p :| Path(needs, p) && p[0] == a && p[|p| - 1] == b;
    ClosedHoldsPath(needs, s, p);
  }

  // ---- Queues.

  /** The first n modules of the queue have all they need in it. */
  ghost predicate Served(needs: Needs, q: seq<Uuid>, n: nat)
    requires n <= |q|
  {
    forall i, x :: 0 <= i < n && x in needs(q[i]) ==> x in q
  }

  /** Everything from position n on is reached from root. */
  ghost predicate From(needs: Needs, q: seq<Uuid>, n: nat, root: Uuid)
    requires n <= |q|
  {
    forall i :: n <= i < |q| ==> Reaches(needs, root, q[i])
  }

  /** A queue after a load: no module twice, closed under DT_NEEDED. */
  ghost predicate Complete(needs: Needs, q: seq<Uuid>) {
    NoDuplicates(q) && Closed(needs, Elements(q))
  }

  lemma ServedNext(needs: Needs, before: seq<Uuid>, q: seq<Uuid>, i: nat)
    requires i < |before| && before <= q && Served(needs, before, i)
    requires forall x :: x in needs(before[i]) ==> x in q
    ensures Served(needs, q, i + 1)
  {
    forall k, x | 0 <= k < i && x in needs(q[k]) ensures x in q {
      assert q[k] == before[k];
      assert x in before;
    }
  }

  lemma AllServed(needs: Needs, q: seq<Uuid>)
    requires Served(needs, q, |q|)
    ensures Closed(needs, Elements(q))
  {
    forall a, b | a in Elements(q) && b in needs(a) ensures b in Elements(q) {
      var i :| 0 <= i < |q| && q[i] == a;
    }
  }

  /** A queue that starts from root and holds only what root reaches is exactly what root reaches. */
  lemma QueueIsReachable(needs: Needs, q: seq<Uuid>, root: Uuid)
    requires Complete(needs, q) && root in q && From(needs, q, 0, root)
    ensures forall x :: x in q <==> Reaches(needs, root, x)
  {
    forall x | Reaches(needs, root, x) ensures x in q {
      ClosedHolds(needs, Elements(q), root, x);
    }
  }

  // ---- The order of the queue.

  /** q with the modules of a list behind it in their order, each where it is first named, unless it is there. */
  function Appended(q: seq<Uuid>, deps: seq<Uuid>): seq<Uuid> {
    if deps == [] then q
    else
      var r := Appended(q, deps[..|deps| - 1]);
      if deps[|deps| - 1] in r then r else r + [deps[|deps| - 1]]
  }

  /** The DT_NEEDED entries of all modules of a queue, one module after the other. */
  function AllNeeds(needs: Needs, q: seq<Uuid>): seq<Uuid> {
    if q == [] then [] else AllNeeds(needs, q[..|q| - 1]) + needs(q[|q| - 1])
  }

  lemma {:induction false} AppendedTwice(q: seq<Uuid>, a: seq<Uuid>, b: seq<Uuid>)
    ensures Appended(Appended(q, a), b) == Appended(q, a + b)
  {
    if b == [] {
      assert a + b == a;
    } else {
      AppendedTwice(q, a, b[..|b| - 1]);
      assert (a + b)[..|a + b| - 1] == a + b[..|b| - 1];
    }
  }

  /** Nothing is added the second time. */
  lemma {:induction false} AppendedAlready(q: seq<Uuid>, deps: seq<Uuid>)
    requires forall x :: x in deps ==> x in q
    ensures Appended(q, deps) == q
  {
    if deps != [] {
      AppendedAlready(q, deps[..|deps| - 1]);
    }
  }

  lemma NeedsOfNext(needs: Needs, q: seq<Uuid>, x: Uuid)
    ensures AllNeeds(needs, q + [x]) == AllNeeds(needs, q) + needs(x)
  {
    assert (q + [x])[..|q|] == q;
  }

  /** Position k of the list is the first that names x. */
  ghost predicate FirstNamed(deps: seq<Uuid>, x: Uuid, k: nat) {
    k < |deps| && deps[k] == x && forall j :: 0 <= j < k ==> deps[j] != x
  }

  /** What is behind q is in the order in which the list first names it, and it is all that q lacks. */
  lemma {:induction false} AppendedOrder(q: seq<Uuid>, deps: seq<Uuid>)
    ensures
      var r := Appended(q, deps);
      && q <= r
      && (forall x :: x in r <==> x in q || x in deps)
      && (forall a :: |q| <= a < |r| ==> r[a] !in q && r[a] in deps)
      && (forall a, b, k, l :: |q| <= a < b < |r| && FirstNamed(deps, r[a], k) && FirstNamed(deps, r[b], l) ==> k < l)
  {
    if deps != [] {
      var n := |deps| - 1;
      var first := deps[..n];
      AppendedOrder(q, first);
      var r := Appended(q, deps);
      assert deps == first + [deps[n]];
      forall a, b, k, l | |q| <= a < b < |r| && FirstNamed(deps, r[a], k) && FirstNamed(deps, r[b], l) ensures k < l {
        assert a < |Appended(q, first)|;
        FirstOfPrefix(deps, r[a], k);
        if b < |Appended(q, first)| {
          FirstOfPrefix(deps, r[b], l);
        }
      }
    }
  }

  lemma FirstOfPrefix(deps: seq<Uuid>, x: Uuid, k: nat)
    requires deps != [] && x in deps[..|deps| - 1] && FirstNamed(deps, x, k)
    ensures k < |deps| - 1 && FirstNamed(deps[..|deps| - 1], x, k)
  {
    var j :| 0 <= j < |deps| - 1 && deps[j] == x;
  }

  /**
   Behind `base` the queue is what the modules from position first on name, one after the other: the order in which a
   breadth-first walk comes to them.
   */
  ghost predicate InWalkOrder(needs: Needs, q: seq<Uuid>, base: seq<Uuid>, first: nat, n: nat) {
    first <= n <= |q| && q == Appended(base, AllNeeds(needs, q[first..n]))
  }

  lemma WalkBegins(needs: Needs, q: seq<Uuid>, main: Uuid)
    requires [main] <= q && q == Appended([main], needs(main))
    ensures InWalkOrder(needs, q, [main], 0, 1)
  {
    NeedsOfNext(needs, [], main);
    assert q[0..1] == [] + [main] && AllNeeds(needs, []) + needs(main) == needs(main);
  }

  lemma WalkGoesOn(needs: Needs, before: seq<Uuid>, q: seq<Uuid>, base: seq<Uuid>, first: nat, i: nat)
    requires i < |before| && InWalkOrder(needs, before, base, first, i)
    requires before <= q && q == Appended(before, needs(before[i]))
    ensures InWalkOrder(needs, q, base, first, i + 1)
  {
    hide Appended, AllNeeds;
    AppendedTwice(base, AllNeeds(needs, before[first..i]), needs(before[i]));
    NeedsOfNext(needs, before[first..i], before[i]);
    assert q[first..i + 1] == before[first..i] + [before[i]];
  }

  /** InfoFailed is the error of setting the init/fini or phdr tables, once the libraries are in place. */
  datatype Result = Success | OutOfMemory | InfoFailed | Ended

  class Loader {
    const needs: Needs
    /** Outcomes of the steps that can fail: allocating, loading, relocating, setting tables. */
    const works: nat -> bool
    /** All modules on the system: a finite set that holds what its members need. */
    ghost const universe: set<Uuid>
    var steps: nat
    var queue: seq<Uuid>
    ghost var relocated: seq<Uuid>

    ghost predicate Known()
      reads this`queue
    {
      Closed(needs, universe) && NoDuplicates(queue) && Elements(queue) <= universe
    }

    /** Between calls: the queue is complete, and its modules have been relocated once each, in queue order. */
    ghost predicate Valid()
      reads this`queue, this`relocated
    {
      Known() && Complete(needs, queue) && relocated == queue
    }

    constructor (needs: Needs, works: nat -> bool, ghost universe: set<Uuid>)
      requires Closed(needs, universe)
      ensures Valid() && queue == [] && this.needs == needs && this.universe == universe
    {
      this.needs, this.works, this.universe := needs, works, universe;
      steps, queue, relocated := 0, [], [];
    }

    ghost predicate NoFailures() {
      forall n :: works(n)
    }

    method Works() returns (ok: bool)
      modifies this`steps
      ensures NoFailures() ==> ok
    {
      ok := works(steps);
      steps := steps + 1;
    }

    /** ta_elf_find_elf */
    method FindElf(uuid: Uuid) returns (found: bool)
      ensures found <==> uuid in queue
    {
      for i := 0 to |queue|
        invariant uuid !in queue[..i]
      {
        if queue[i] == uuid {
          return true;
        }
      }
      assert queue[..|queue|] == queue;
      found := false;
    }

    /** queue_elf: ok is false when err ends the loader */
    method QueueElf(uuid: Uuid) returns (ok: bool)
      requires Known() && uuid in universe
      modifies this`queue, this`steps
      ensures Known() && old(queue) <= queue
      ensures (ok ==> uuid in queue) && (NoFailures() ==> ok)
      ensures queue == old(queue) || queue == old(queue) + [uuid]
      ensures ok ==> queue == if uuid in old(queue) then old(queue) else old(queue) + [uuid]
    {
      ok := true;
      var found := FindElf(uuid);
      if !found {
        ok := Works();
        if ok {
          queue := queue + [uuid];
        }
      }
    }

    /** add_dependencies: the DT_NEEDED entries are queued in order, each unless it is there already. */
    method AddDependencies(i: nat, ghost root: Uuid, ghost from: nat) returns (ok: bool)
      requires Known() && i < |queue| && Reaches(needs, root, queue[i])
      requires from <= |queue| && From(needs, queue, from, root)
      modifies this`queue, this`steps
      ensures Known() && old(queue) <= queue && From(needs, queue, from, root)
      ensures ok ==> forall x :: x in needs(queue[i]) ==> x in queue
      ensures ok ==> queue == Appended(old(queue), needs(old(queue)[i]))
      ensures NoFailures() ==> ok
    {
      hide Reaches, Closed, Loader.NoFailures;
      var deps := needs(queue[i]);
      for n := 0 to |deps|
        invariant Known() && old(queue) <= queue && From(needs, queue, from, root)
        invariant forall k :: 0 <= k < n ==> deps[k] in queue
        invariant queue == Appended(old(queue), deps[..n])
      {
        assert deps[..n + 1][..n] == deps[..n];
        ReachesNeeded(needs, root, queue[i], deps[n]);
        assert deps[n] in universe by { UniverseHolds(i, deps[n]); }
        ok := QueueElf(deps[n]);
        if !ok {
          return;
        }
      }
      assert deps[..|deps|] == deps;
      ok := true;
    }

    lemma UniverseHolds(i: nat, x: Uuid)
      requires Known() && i < |queue| && x in needs(queue[i])
      ensures x in universe
    {
      assert queue[i] in Elements(queue);
    }

    /** ta_elf_load_dependency, for the module at position i; the main module, at 0, is loaded already. */
    method LoadDependency(i: nat, ghost root: Uuid, ghost from: nat) returns (ok: bool)
      requires Known() && i < |queue| && Reaches(needs, root, queue[i])
      requires from <= |queue| && From(needs, queue, from, root)
      requires i == 0 ==> Served(needs, queue, 1)
      modifies this`queue, this`steps
      ensures Known() && old(queue) <= queue && From(needs, queue, from, root)
      ensures ok ==> forall x :: x in needs(queue[i]) ==> x in queue
      ensures ok ==> queue == if i == 0 then old(queue) else Appended(old(queue), needs(old(queue)[i]))
      ensures NoFailures() ==> ok
    {
      if i == 0 {
        return true;
      }
      ok := Works();
      if ok {
        ok := AddDependencies(i, root, from);
      }
      if ok {
        ok := Works();
      }
    }

    /** The load loop from position first on, over a queue that grows at its end. */
    method LoadFrom(first: nat, ghost root: Uuid, ghost base: seq<Uuid>) returns (ok: bool)
      requires Known() && first < |queue| && queue[first] == root
      requires From(needs, queue, first, root) && Served(needs, queue, if first == 0 then 1 else first)
      requires InWalkOrder(needs, queue, base, first, if first == 0 then 1 else first)
      modifies this`queue, this`steps
      ensures Known() && old(queue) <= queue && From(needs, queue, first, root)
      ensures (ok ==> Complete(needs, queue)) && (NoFailures() ==> ok)
      ensures ok ==> InWalkOrder(needs, queue, base, first, |queue|)
    {
      hide Reaches, Closed, Loader.NoFailures, InWalkOrder;
      var i := first;
      while i < |queue|
        invariant Known() && old(queue) <= queue && From(needs, queue, first, root)
        invariant first <= i <= |queue| && Served(needs, queue, i)
        invariant i == 0 ==> Served(needs, queue, 1)
        invariant InWalkOrder(needs, queue, base, first, if i == 0 then 1 else i)
        decreases |universe| - i
      {
        FitsIn(queue, universe);
        ghost var before := queue;
        ok := LoadDependency(i, root, first);
        if !ok {
          return;
        }
        ServedNext(needs, before, queue, i);
        if i > 0 {
          WalkGoesOn(needs, before, queue, base, first, i);
        }
        i := i + 1;
      }
      AllServed(needs, queue);
      ok := true;
    }

    /** The relocation loop from position first on. */
    method RelocateFrom(first: nat) returns (ok: bool)
      requires first <= |queue| && relocated == queue[..first]
      modifies this`relocated, this`steps
      ensures (ok ==> relocated == queue) && (NoFailures() ==> ok)
    {
      var i := first;
      while i < |queue|
        invariant first <= i <= |queue| && relocated == queue[..i]
      {
        ok := Works();
        if !ok {
          return;
        }
        relocated := relocated + [queue[i]];
        i := i + 1;
      }
      ok := true;
    }

    /**
     * ldelf: load the main module, then whatever the queue comes to hold, then relocate. reload says that the main
     * module turned out to be of the legacy kind and is loaded a second time.
     */
    method Ldelf(main: Uuid, reload: bool) returns (ok: bool)
      requires Valid() && queue == [] && main in universe
      modifies this
      ensures ok ==> Valid() && queue != [] && queue[0] == main
      ensures ok ==> forall x :: x in queue <==> Reaches(needs, main, x)
      ensures ok ==> queue == Appended([main], AllNeeds(needs, queue))
      ensures NoFailures() ==> ok
    {
      hide Reaches, Closed, Loader.NoFailures, Appended, AllNeeds;
      ok := QueueElf(main);
      if !ok {
        return;
      }
      assert queue == [main];
      ReachesSelf(needs, main);
      ok := AddDependencies(0, main, 0);
      ghost var loaded := queue;
      if ok && reload {
        ok := AddDependencies(0, main, 0);
        if ok {
          AppendedAlready(loaded, needs(main));
        }
      }
      if ok {
        WalkBegins(needs, queue, main);
        ok := LoadFrom(0, main, [main]);
      }
      if ok {
        assert queue[0..|queue|] == queue;
        QueueIsReachable(needs, queue, main);
        ok := RelocateFrom(0);
      }
    }

    /**
     * ta_elf_add_library, behind dlopen. The modules in the queue keep their places; those the library reaches and
     * the queue lacks are added, loaded and relocated.
     */
    method AddLibrary(uuid: Uuid) returns (r: Result)
      requires Valid() && queue != [] && uuid in universe
      modifies this
      ensures r == OutOfMemory ==> queue == old(queue) && Valid()
      ensures r == Success || r == InfoFailed ==> Valid() && old(queue) <= queue
      ensures r == Success || r == InfoFailed ==>
        forall x :: x in queue <==> x in old(queue) || Reaches(needs, uuid, x)
      ensures r == Success || r == InfoFailed ==>
        queue == if uuid in old(queue) then old(queue)
                 else Appended(old(queue) + [uuid], AllNeeds(needs, queue[|old(queue)|..]))
      ensures old(uuid in queue) ==> r == Success
      ensures NoFailures() ==> r == Success
    {
      hide Reaches, Closed, Loader.NoFailures;
      ghost var before := queue;
      var found := FindElf(uuid);
      if found {
        AlreadyThere(needs, queue, uuid);
        return Success;
      }
      var memory := Works();
      if !memory {
        return OutOfMemory;
      }
      var lib := |queue|;
      ReachesSelf(needs, uuid);
      StillServed(needs, before, uuid);
      queue := queue + [uuid];
      assert queue[lib..lib] == [];
      var ok := LoadFrom(lib, uuid, queue);
      if !ok {
        return Ended;
      }
      AddedReachable(needs, before, queue, uuid);
      assert queue[lib..|queue|] == queue[lib..];
      ok := RelocateFrom(lib);
      if !ok {
        return Ended;
      }
      ok := Works();
      if ok {
        ok := Works();
      }
      r := if ok then Success else InfoFailed;
    }
  }

  /** x is one of the first n libraries or reached from one. */
  ghost predicate ReachedFromFirst(needs: Needs, libs: seq<Uuid>, n: nat, x: Uuid)
    requires n <= |libs|
  {
    exists i :: 0 <= i < n && Reaches(needs, libs[i], x)
  }

  /**
   * Any sequence of dlopen calls that do not end the loader; a call that finds no memory adds nothing, one that cannot
   * set the tables afterwards has added its libraries all the same.
   */
  method DlopenAll(l: Loader, libs: seq<Uuid>) returns (ok: bool)
    requires l.Valid() && l.queue != [] && forall i :: 0 <= i < |libs| ==> libs[i] in l.universe
    modifies l
    ensures ok ==> l.Valid() && old(l.queue) <= l.queue
    ensures ok ==> forall x :: x in l.queue ==> x in old(l.queue) || ReachedFromFirst(l.needs, libs, |libs|, x)
    ensures l.NoFailures() ==> ok && forall x :: ReachedFromFirst(l.needs, libs, |libs|, x) ==> x in l.queue
  {
    hide Reaches, Closed, Loader.NoFailures;
    for n := 0 to |libs|
      invariant l.Valid() && old(l.queue) <= l.queue
      invariant l.NoFailures() ==> forall x :: ReachedFromFirst(l.needs, libs, n, x) ==> x in l.queue
      invariant forall x :: x in l.queue ==> x in old(l.queue) || ReachedFromFirst(l.needs, libs, n, x)
    {
      var r := l.AddLibrary(libs[n]);
      if r == Ended {
        return false;
      }
      forall x | x in l.queue ensures x in old(l.queue) || ReachedFromFirst(l.needs, libs, n + 1, x) {
      }
    }
    ok := true;
  }

  lemma AlreadyThere(needs: Needs, q: seq<Uuid>, uuid: Uuid)
    requires Complete(needs, q) && uuid in q
    ensures forall x :: Reaches(needs, uuid, x) ==> x in q
  {
    forall x | Reaches(needs, uuid, x) ensures x in q {
      ClosedHolds(needs, Elements(q), uuid, x);
    }
  }

  lemma StillServed(needs: Needs, q: seq<Uuid>, uuid: Uuid)
    requires Complete(needs, q)
    ensures Served(needs, q + [uuid], |q|)
  {
    forall i, x | 0 <= i < |q| && x in needs(q[i]) ensures x in q + [uuid] {
      assert q[i] in Elements(q);
      assert x in Elements(q);
    }
  }

  lemma AddedReachable(needs: Needs, before: seq<Uuid>, q: seq<Uuid>, uuid: Uuid)
    requires Complete(needs, q) && before <= q && uuid in q && From(needs, q, |before|, uuid)
    ensures forall x :: x in q <==> x in before || Reaches(needs, uuid, x)
  {
    hide Reaches;
    AlreadyThere(needs, q, uuid);
    forall x | x in q ensures x in before || Reaches(needs, uuid, x) {
      var i :| 0 <= i < |q| && q[i] == x;
    }
  }
}
