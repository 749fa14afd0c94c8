/**
 * The ring buffer of the Fortuna generator (rng_fortuna.c): one writer at a time pushes events while one reader
 * pops them, with no lock between the two. Every load or store of a shared location is one step, and the steps of
 * the two sides interleave in any order.
 */
module FortunaRing {
  import opened Bytes

  const SLOTS: nat := 8
  /** RING_BUF_DATA_SIZE */
  const DATA_SIZE: nat := 4

  datatype Event = Event(snum: byte, pnum: byte, data: seq<byte>)

  /** The event as the ring keeps it, its data cut to DATA_SIZE bytes. */
  function Cut(ev: Event): (r: Event)
    ensures r == Event(ev.snum, ev.pnum, if |ev.data| < 4 then ev.data else ev.data[..4])
  {
    if |ev.data| <= DATA_SIZE then ev else ev.(data := ev.data[..DATA_SIZE])
  }

  datatype Slot = Slot(snum: byte, pnum: byte, dlen: nat, data: seq<byte>)

  /** What a reader of the slot gets. */
  function Content(slot: Slot): Event
    requires slot.dlen <= |slot.data|
  {
    Event(slot.snum, slot.pnum, slot.data[..slot.dlen])
  }

  /** Inside push_ring_buffer: the stores still to come, counted from the first one. */
  datatype Writer = Idle | Writing(ev: Event, next: nat, stage: nat)

  /** Inside pop_ring_buffer: the loads already made and their results. */
  datatype Reader = Waiting | Reading(stage: nat, snum: byte, pnum: byte, dlen: nat, data: seq<byte>)

  /** accepted and popped are the histories of finished pushes and pops. */
  datatype State = State(elem: seq<Slot>, begin: nat, end: nat, writer: Writer, reader: Reader,
                         accepted: seq<Event>, popped: seq<Event>)

  const ZERO_SLOT := Slot(0, 0, 0, [0, 0, 0, 0])
  const ZERO_EVENT := Event(0, 0, [])

  function Initial(): State {
    State(seq(SLOTS, _ => ZERO_SLOT), 0, 0, Idle, Waiting, [], [])
  }

  /** Values the step functions rely on to be well formed. */
  predicate Typed(s: State) {
    && |s.elem| == SLOTS && (forall i :: 0 <= i < SLOTS ==> |s.elem[i].data| == DATA_SIZE)
    && s.begin < SLOTS && s.end < SLOTS
    && (s.writer.Writing? ==>
          s.writer.next < SLOTS && |s.writer.ev.data| <= DATA_SIZE && s.writer.stage <= 3 + |s.writer.ev.data|)
    && (s.reader.Reading? ==>
          s.reader.dlen <= DATA_SIZE && (s.reader.stage <= 3 || s.reader.stage <= 3 + s.reader.dlen))
  }

  /** One store of push_ring_buffer into the slot; the last stages copy the data byte by byte. */
  function Store(slot: Slot, ev: Event, stage: nat): (r: Slot)
    requires |slot.data| == DATA_SIZE && |ev.data| <= DATA_SIZE && stage < 3 + |ev.data|
    ensures |r.data| == DATA_SIZE
  {
    match stage
    case 0 => slot.(snum := ev.snum)
    case 1 => slot.(pnum := ev.pnum)
    case 2 => slot.(dlen := |ev.data|)
    case _ => slot.(data := slot.data[stage - 3 := ev.data[stage - 3]])
  }

  /** The next step of the writer; an idle one starts to push ev, unless it finds the buffer full. */
  function WriterStep(s: State, ev: Event): (t: State)
    requires Typed(s)
    ensures Typed(t)
  {
    match s.writer
    case Idle =>
      var next := (s.begin + 1) % SLOTS;
      if next == s.end then s else s.(writer := Writing(Cut(ev), next, 0))
    case Writing(ev, next, stage) =>
      if stage < 3 + |ev.data| then
        s.(elem := s.elem[next := Store(s.elem[next], ev, stage)], writer := Writing(ev, next, stage + 1))
      else
        s.(begin := next, writer := Idle, accepted := s.accepted + [ev])
  }

  /** One load of pop_ring_buffer from the slot. */
  function Load(slot: Slot, r: Reader): (q: Reader)
    requires |slot.data| == DATA_SIZE && r.Reading? && r.dlen <= DATA_SIZE && (r.stage < 3 || r.stage < 3 + r.dlen)
    ensures q.Reading? && q.dlen <= DATA_SIZE && q.stage == r.stage + 1
    ensures q.stage <= 3 || q.stage <= 3 + q.dlen
  {
    match r.stage
    case 0 => r.(snum := slot.snum, stage := 1)
    case 1 => r.(pnum := slot.pnum, stage := 2)
    case 2 => r.(dlen := if slot.dlen < DATA_SIZE then slot.dlen else DATA_SIZE, stage := 3)
    case _ => r.(data := r.data + [slot.data[r.stage - 3]], stage := r.stage + 1)
  }

  /** The next step of the reader; a waiting one starts to pop, unless it finds the buffer empty. */
  function ReaderStep(s: State): (t: State)
    requires Typed(s)
    ensures Typed(t)
  {
    match s.reader
    case Waiting =>
      if s.begin == s.end then s else s.(reader := Reading(0, 0, 0, 0, []))
    case Reading(stage, snum, pnum, dlen, data) =>
      if stage < 3 || stage < 3 + dlen then
        s.(reader := Load(s.elem[s.end], s.reader))
      else
        s.(end := (s.end + 1) % SLOTS, reader := Waiting, popped := s.popped + [Event(snum, pnum, data)])
  }

  datatype Action = Write(ev: Event) | Read

  function Step(s: State, a: Action): (t: State)
    requires Typed(s)
    ensures Typed(t)
  {
    match a
    case Write(ev) => WriterStep(s, ev)
    case Read => ReaderStep(s)
  }

  /** The state after an interleaving of steps. */
  function Run(schedule: seq<Action>): (s: State)
    ensures Typed(s)
  {
    if schedule == [] then Initial() else Step(Run(schedule[..|schedule| - 1]), schedule[|schedule| - 1])
  }

  /** The events in the order the reader meets them: the zeroed slot 0, then the accepted pushes. */
  function Stream(s: State): seq<Event> {
    [ZERO_EVENT] + s.accepted
  }

  /** Stream position j lies in slot j % 8 and is complete there. */
  ghost predicate InPlace(s: State, j: nat)
    requires Typed(s) && j <= |s.accepted|
  {
    var slot := s.elem[j % SLOTS];
    slot.dlen <= DATA_SIZE && Content(slot) == Stream(s)[j]
  }

  /** The stores the writer has made so far are in the slot it fills. */
  ghost predicate Stored(slot: Slot, w: Writer)
    requires w.Writing? && |w.ev.data| <= DATA_SIZE == |slot.data| && w.stage <= 3 + |w.ev.data|
  {
    && (w.stage >= 1 ==> slot.snum == w.ev.snum)
    && (w.stage >= 2 ==> slot.pnum == w.ev.pnum)
    && (w.stage >= 3 ==> slot.dlen == |w.ev.data| && slot.data[..w.stage - 3] == w.ev.data[..w.stage - 3])
  }

  /** What the reader has loaded so far is a part of ev: nothing torn. */
  ghost predicate Loaded(r: Reader, ev: Event)
    requires r.Reading?
  {
    && (r.stage >= 1 ==> r.snum == ev.snum)
    && (r.stage >= 2 ==> r.pnum == ev.pnum)
    && (r.stage >= 3 ==> r.dlen == |ev.data| && r.stage - 3 <= r.dlen && r.data == ev.data[..r.stage - 3])
    && (r.stage <= 2 ==> r.data == [])
  }

  /** The indices follow the histories, and the reader has got the stream in order so far. */
  ghost predicate Counts(s: State) {
    && |s.popped| <= |s.accepted| <= |s.popped| + 7
    && s.begin == |s.accepted| % SLOTS && s.end == |s.popped| % SLOTS
    && s.popped <= Stream(s)
  }

  /** All that waits to be read is in place. */
  ghost predicate Places(s: State)
    requires Typed(s)
  {
    forall j :: |s.popped| <= j <= |s.accepted| ==> InPlace(s, j)
  }

  ghost predicate WriterOk(s: State)
    requires Typed(s)
  {
    s.writer.Writing? ==>
      && |s.accepted| < |s.popped| + 7
      && s.writer.next == (|s.accepted| + 1) % SLOTS
      && Stored(s.elem[s.writer.next], s.writer)
  }

  ghost predicate ReaderOk(s: State) {
    s.reader.Reading? ==> |s.popped| < |s.accepted| && Loaded(s.reader, Stream(s)[|s.popped|])
  }

  ghost predicate Inv(s: State) {
    Typed(s) && Counts(s) && Places(s) && WriterOk(s) && ReaderOk(s)
  }

  /** Positions less than a turn apart lie in different slots. */
  lemma OtherSlot(j: nat, k: nat)
    requires j < k < j + 8
    ensures j % 8 != k % 8
  {
  }

  /** A store leaves every slot that is still to be read alone. */
  lemma StoreElsewhere(s: State, ev: Event, j: nat)
    requires Inv(s) && s.writer.Writing? && |s.popped| <= j <= |s.accepted|
    ensures WriterStep(s, ev).elem[j % SLOTS] == s.elem[j % SLOTS]
  {
    OtherSlot(j, |s.accepted| + 1);
  }

  lemma WriterKeepsPlaces(s: State, ev: Event)
    requires Inv(s)
    ensures Places(WriterStep(s, ev))
  {
    var t := WriterStep(s, ev);
    forall j | |t.popped| <= j <= |t.accepted| ensures InPlace(t, j) {
      if j <= |s.accepted| {
        assert InPlace(s, j);
        if s.writer.Writing? {
          StoreElsewhere(s, ev, j);
        }
      }
    }
  }

  lemma WriterKeepsInv(s: State, ev: Event)
    requires Inv(s)
    ensures Inv(WriterStep(s, ev))
  {
    WriterKeepsPlaces(s, ev);
    hide Places, InPlace;
    var t := WriterStep(s, ev);
    if s.writer.Idle? {
      NotFull(|s.accepted|, |s.popped|);
    } else {
      assert Stream(s) <= Stream(t);
    }
  }

  lemma NextSlot(a: nat)
    ensures (a % 8 + 1) % 8 == (a + 1) % 8
  {
  }

  lemma NotFull(a: nat, p: nat)
    requires p <= a <= p + 7
    ensures (a % 8 + 1) % 8 == (a + 1) % 8
    ensures (a + 1) % 8 == p % 8 <==> a == p + 7
    ensures a % 8 == p % 8 <==> a == p
  {
    NextSlot(a);
    if a < p + 7 {
      OtherSlot(p, a + 1);
    }
    if p < a {
      OtherSlot(p, a);
    }
  }

  /** A finished pop moves end on and appends the next event of the stream. */
  lemma PopCounts(s: State, t: State)
    requires Counts(s) && |s.popped| < |s.accepted|
    requires t.end == (s.end + 1) % SLOTS && t.popped == s.popped + [Stream(s)[|s.popped|]]
    requires t.begin == s.begin && t.accepted == s.accepted
    ensures Counts(t)
  {
    NextSlot(|s.popped|);
    assert Stream(t) == Stream(s);
  }

  /** A reader in the middle of a pop reads the stream position it is due to return. */
  lemma LoadKeepsLoaded(slot: Slot, r: Reader)
    requires slot.dlen <= DATA_SIZE == |slot.data|
    requires r.Reading? && r.dlen <= DATA_SIZE && (r.stage < 3 || r.stage < 3 + r.dlen) && Loaded(r, Content(slot))
    ensures Loaded(Load(slot, r), Content(slot))
  {
  }

  /** A finished pop returns the whole event. */
  lemma LoadedAll(r: Reader, ev: Event)
    requires r.Reading? && r.stage >= 3 && r.stage >= 3 + r.dlen && Loaded(r, ev)
    ensures Event(r.snum, r.pnum, r.data) == ev
  {
  }

  lemma ReaderKeepsPlaces(s: State)
    requires Inv(s)
    ensures Places(ReaderStep(s))
  {
    var t := ReaderStep(s);
    forall j | |t.popped| <= j <= |t.accepted| ensures InPlace(t, j) {
      assert InPlace(s, j);
    }
  }

  lemma ReaderStarts(s: State)
    requires Inv(s) && s.reader.Waiting?
    ensures Counts(ReaderStep(s)) && WriterOk(ReaderStep(s)) && ReaderOk(ReaderStep(s))
  {
    hide InPlace, Stored;
    NotFull(|s.accepted|, |s.popped|);
  }

  lemma ReaderLoads(s: State)
    requires Inv(s) && s.reader.Reading? && (s.reader.stage < 3 || s.reader.stage < 3 + s.reader.dlen)
    ensures Counts(ReaderStep(s)) && WriterOk(ReaderStep(s)) && ReaderOk(ReaderStep(s))
  {
    assert InPlace(s, |s.popped|);
    hide Places, Stored, Load, Loaded;
    LoadKeepsLoaded(s.elem[s.end], s.reader);
  }

  lemma ReaderPublishes(s: State)
    requires Inv(s) && s.reader.Reading? && s.reader.stage >= 3 && s.reader.stage >= 3 + s.reader.dlen
    ensures Counts(ReaderStep(s)) && WriterOk(ReaderStep(s)) && ReaderOk(ReaderStep(s))
  {
    LoadedAll(s.reader, Stream(s)[|s.popped|]);
    hide Places, InPlace, Stored, Loaded, Counts, Stream;
    assert s.reader.Reading? ==> |s.popped| < |s.accepted|;
    PopCounts(s, ReaderStep(s));
  }

  lemma ReaderKeepsInv(s: State)
    requires Inv(s)
    ensures Inv(ReaderStep(s))
  {
    ReaderKeepsPlaces(s);
    hide Counts, Places, WriterOk, ReaderOk;
    if s.reader.Waiting? {
      ReaderStarts(s);
    } else if s.reader.stage < 3 || s.reader.stage < 3 + s.reader.dlen {
      ReaderLoads(s);
    } else {
      ReaderPublishes(s);
    }
  }

  /** The invariant holds after every interleaving. */
  lemma {:induction false} RunInv(schedule: seq<Action>)
    ensures Inv(Run(schedule))
    decreases |schedule|
  {
    if schedule == [] {
      assert forall j :: 0 <= j <= 0 ==> InPlace(Initial(), j);
    } else {
      var s := Run(schedule[..|schedule| - 1]);
      RunInv(schedule[..|schedule| - 1]);
      hide Inv;
      match schedule[|schedule| - 1]
      case Write(ev) => WriterKeepsInv(s, ev);
      case Read => ReaderKeepsInv(s);
    }
  }

  /**
   * Whatever the interleaving, pop m returns accepted push m - 1 whole, and pop 1 the zeroed slot 0: nothing is
   * torn, lost, repeated or reordered. At most seven positions wait.
   */
  lemma PopsFollowPushes(schedule: seq<Action>)
    ensures var s := Run(schedule);
      && |s.popped| <= |s.accepted| <= |s.popped| + 7
      && (forall m :: 0 <= m < |s.popped| ==> s.popped[m] == if m == 0 then ZERO_EVENT else s.accepted[m - 1])
  {
    RunInv(schedule);
  }

  /** No step touches a slot that is still to be read: each keeps the event of its stream position. */
  lemma UnreadKept(schedule: seq<Action>, a: Action, j: nat)
    requires var s := Run(schedule); |s.popped| <= j <= |s.accepted|
    ensures var s := Run(schedule); Step(s, a).elem[j % SLOTS] == s.elem[j % SLOTS]
    ensures var slot := Run(schedule).elem[j % SLOTS];
      slot.dlen <= DATA_SIZE && Content(slot) == Stream(Run(schedule))[j]
  {
    var s := Run(schedule);
    RunInv(schedule);
    assert InPlace(s, j);
    if a.Write? && s.writer.Writing? {
      StoreElsewhere(s, a.ev, j);
    }
  }

  /** A push is turned away exactly when seven positions wait; one that is let in keeps its first four bytes. */
  lemma TurnedAway(schedule: seq<Action>, ev: Event)
    requires Run(schedule).writer.Idle?
    ensures var s := Run(schedule);
      && (Step(s, Write(ev)) == s <==> |s.accepted| == |s.popped| + 7)
      && (Step(s, Write(ev)) != s ==> Step(s, Write(ev)).writer.Writing? && Step(s, Write(ev)).writer.ev == Cut(ev))
  {
    RunInv(schedule);
    NotFull(|Run(schedule).accepted|, |Run(schedule).popped|);
  }

  /** The reader running alone for k steps. */
  function Reads(s: State, k: nat): (t: State)
    requires Typed(s)
    ensures Typed(t)
    decreases k
  {
    if k == 0 then s else Reads(ReaderStep(s), k - 1)
  }

  /** Steps the reader still needs at most before the buffer looks empty. */
  ghost function Outstanding(s: State): (n: int)
    requires Inv(s)
    ensures n >= 0
  {
    var left := |s.accepted| - |s.popped|;
    if s.reader.Waiting? then 9 * left else 9 * left - 1 - s.reader.stage
  }

  /** From any reachable state the reader alone can fetch everything accepted but the newest event. */
  lemma {:induction false} Drains(s: State) returns (k: nat)
    requires Inv(s)
    ensures Reads(s, k).accepted == s.accepted && Reads(s, k).popped == Stream(s)[..|s.accepted|]
    decreases Outstanding(s)
  {
    if s.reader.Waiting? && |s.accepted| == |s.popped| {
      k := 0;
    } else {
      ReaderKeepsInv(s);
      var t := ReaderStep(s);
      assert s.reader.Reading? ==> Loaded(s.reader, Stream(s)[|s.popped|]) && s.reader.dlen <= 4;
      NotFull(|s.accepted|, |s.popped|);
      var n := Drains(t);
      k := n + 1;
    }
  }

  /** An uninterrupted push keeps the invariant. */
  lemma PushKeepsInv(s: State, slot: Slot)
    requires Inv(s) && s.writer.Idle? && |s.accepted| < |s.popped| + 7
    requires slot.dlen <= DATA_SIZE == |slot.data|
    ensures var next := (s.begin + 1) % SLOTS;
      Inv(s.(elem := s.elem[next := slot], begin := next, accepted := s.accepted + [Content(slot)]))
  {
    var next := (s.begin + 1) % SLOTS;
    var t := s.(elem := s.elem[next := slot], begin := next, accepted := s.accepted + [Content(slot)]);
    NotFull(|s.accepted|, |s.popped|);
    forall j | |t.popped| <= j <= |t.accepted| ensures InPlace(t, j) {
      if j <= |s.accepted| {
        assert InPlace(s, j);
        OtherSlot(j, |s.accepted| + 1);
      }
    }
    hide InPlace;
    assert Stream(s) <= Stream(t);
  }

  /** An uninterrupted pop returns the next position of the stream and keeps the invariant. */
  lemma PopKeepsInv(s: State)
    requires Inv(s) && s.reader.Waiting? && |s.popped| < |s.accepted|
    ensures var slot := s.elem[s.end];
      && slot.dlen <= DATA_SIZE && Content(slot) == Stream(s)[|s.popped|]
      && Inv(s.(end := (s.end + 1) % SLOTS, popped := s.popped + [Content(slot)]))
  {
    assert InPlace(s, |s.popped|);
    var t := s.(end := (s.end + 1) % SLOTS, popped := s.popped + [Content(s.elem[s.end])]);
    forall j | |t.popped| <= j <= |t.accepted| ensures InPlace(t, j) {
      assert InPlace(s, j);
    }
    hide InPlace, Counts, Stream;
    PopCounts(s, t);
  }

  datatype Popped = Nothing | Got(ev: Event)

  /** The ring buffer with uninterrupted calls, as drain_ring_buffer and a push that meets no reader make them. */
  class RingBuffer {
    const elem: array<Slot>
    var begin: nat
    var end: nat
    ghost var accepted: seq<Event>
    ghost var popped: seq<Event>

    ghost function Abstract(): State
      reads this, elem
    {
      State(elem[..], begin, end, Idle, Waiting, accepted, popped)
    }

    ghost predicate Valid()
      reads this, elem
    {
      Inv(Abstract())
    }

    /** The events in the order they are popped. */
    ghost function Positions(): (s: seq<Event>)
      reads this`accepted
      ensures |s| == |accepted| + 1
    {
      [ZERO_EVENT] + accepted
    }

    constructor ()
      ensures Valid() && fresh(elem) && accepted == [] && popped == []
    {
      elem := new Slot[SLOTS](_ => ZERO_SLOT);
      begin, end := 0, 0;
      accepted, popped := [], [];
      new;
      RunInv([]);
      assert elem[..] == Initial().elem;
    }

    /** push_ring_buffer */
    method Push(snum: byte, pnum: byte, data: seq<byte>)
      requires Valid()
      modifies this`begin, this`accepted, elem
      ensures Valid()
      ensures accepted == old(accepted)
        + if |old(accepted)| == |old(popped)| + 7 then []
          else [Event(snum, pnum, if |data| < 4 then data else data[..4])]
    {
      NotFull(|accepted|, |popped|);
      var dl := if |data| < DATA_SIZE then |data| else DATA_SIZE;
      var next := (begin + 1) % SLOTS;
      if next == end {
        return;
      }
      ghost var ev := Cut(Event(snum, pnum, data));
      var slot := elem[next];
      slot := Slot(snum, pnum, dl, data[..dl] + slot.data[dl..]);
      assert Content(slot) == ev;
      PushKeepsInv(Abstract(), slot);
      hide Inv;
      elem[next] := slot;
      begin := next;
      accepted := accepted + [ev];
    }

    /** pop_ring_buffer; Nothing stands for the early return 0 */
    method Pop() returns (r: Popped)
      requires Valid()
      modifies this`end, this`popped
      ensures Valid() && |popped| <= |accepted|
      ensures if |old(popped)| == |accepted| then r == Nothing && popped == old(popped)
              else r == Got(Positions()[|old(popped)|]) && popped == old(popped) + [r.ev]
    {
      NotFull(|accepted|, |popped|);
      if begin == end {
        return Nothing;
      }
      var next := (end + 1) % SLOTS;
      var slot := elem[end];
      PopKeepsInv(Abstract());
      hide Inv;
      r := Got(Event(slot.snum, slot.pnum, slot.data[..slot.dlen]));
      end := next;
      popped := popped + [r.ev];
    }
  }
}
