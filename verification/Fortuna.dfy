/** The Fortuna generator (rng_fortuna.c), with cipher, hash and the outcome of every call into them as parameters. */
module Fortuna {
  import opened Arith
  import opened Bytes
  import opened FortunaRing

  const NUM_POOLS: nat := 32
  const KEY_SIZE: nat := 32
  const MIN_POOL_SIZE: nat := 64
  const MAX_EVENT_DATA_LEN: nat := 32
  const SIZE_1M: nat := 0x10_0000
  /** Blocks one key may encrypt: a full read and the next key. */
  const KEY_LIMIT: nat := SIZE_1M / BLOCK_SIZE + KEY_SIZE / BLOCK_SIZE

  type Key = k: seq<byte> | |k| == 32 witness seq(32, _ => 0 as byte)

  // ---- The 128-bit counter kept in two 64-bit words.

  datatype Counter = Counter(lo: nat, hi: nat)

  function CounterValue(c: Counter): nat {
    c.lo + TWO64 * c.hi
  }

  /** The words after t increments of a zero counter. */
  function CounterAt(t: nat): Counter {
    Counter(t % TWO64, t / TWO64 % TWO64)
  }

  lemma ValueAt(t: nat)
    ensures CounterValue(CounterAt(t)) == t % (TWO128)
  {
    var q, r := t / TWO64, t % TWO64;
    var qq, qr := q / TWO64, q % TWO64;
    assert t == TWO64 * q + r && q == TWO64 * qq + qr;
    DivModUnique(t, TWO128, qq, TWO64 * qr + r);
  }

  /** inc_counter */
  function Incremented(c: Counter): Counter {
    var lo := (c.lo + 1) % TWO64;
    Counter(lo, if lo == 0 then (c.hi + 1) % TWO64 else c.hi)
  }

  lemma IncrementedAt(t: nat)
    ensures Incremented(CounterAt(t)) == CounterAt(t + 1)
  {
    var q, r := t / TWO64, t % TWO64;
    if r + 1 < TWO64 {
      DivModUnique(t + 1, TWO64, q, r + 1);
    } else {
      DivModUnique(t + 1, TWO64, q + 1, 0);
    }
  }

  // ---- The record of what the cipher was given.

  /** One call of the cipher: the block it got, after how many increments, under which key installation. */
  datatype Entry = Entry(epoch: nat, key: Key, ticks: nat, block: Counter)

  /** How many blocks key installation e has encrypted. */
  ghost function Count(log: seq<Entry>, e: nat): nat {
    if log == [] then 0
    else Count(log[..|log| - 1], e) + if log[|log| - 1].epoch == e then 1 else 0
  }

  ghost predicate Ordered(log: seq<Entry>, ticks: nat) {
    && (forall i :: 0 <= i < |log| ==> log[i].ticks < ticks && log[i].block == CounterAt(log[i].ticks))
    && (forall i, j :: 0 <= i < j < |log| ==> log[i].ticks < log[j].ticks)
  }

  ghost predicate Limited(log: seq<Entry>) {
    forall e :: Count(log, e) <= KEY_LIMIT
  }

  /** An epoch is one installation of one key. */
  ghost predicate OneKeyEach(log: seq<Entry>) {
    forall i, j :: 0 <= i < j < |log| && log[i].epoch == log[j].epoch ==> log[i].key == log[j].key
  }

  /** The installation in use is epoch, of this key, and no later one has been used. */
  ghost predicate InUse(log: seq<Entry>, epoch: nat, key: Key) {
    forall i :: 0 <= i < |log| ==> log[i].epoch <= epoch && (log[i].epoch == epoch ==> log[i].key == key)
  }

  lemma {:induction false} NoneYet(log: seq<Entry>, e: nat)
    requires forall i :: 0 <= i < |log| ==> log[i].epoch < e
    ensures Count(log, e) == 0
  {
    if log != [] {
      NoneYet(log[..|log| - 1], e);
    }
  }

  lemma CountSnoc(log: seq<Entry>, x: Entry, e: nat)
    ensures Count(log + [x], e) == Count(log, e) + if x.epoch == e then 1 else 0
  {
    assert (log + [x])[..|log|] == log;
  }

  /** One more call under a key that has not reached its limit. */
  lemma RecordSnoc(log: seq<Entry>, ticks: nat, x: Entry)
    requires Ordered(log, ticks) && Limited(log) && Count(log, x.epoch) < KEY_LIMIT
    requires x.ticks == ticks && x.block == CounterAt(ticks) && OneKeyEach(log) && InUse(log, x.epoch, x.key)
    ensures Ordered(log + [x], ticks + 1) && Limited(log + [x])
    ensures OneKeyEach(log + [x]) && InUse(log + [x], x.epoch, x.key)
    ensures Count(log + [x], x.epoch) == Count(log, x.epoch) + 1
  {
    hide Count, CounterAt;
    CountSnoc(log, x, x.epoch);
    forall e ensures Count(log + [x], e) <= KEY_LIMIT {
      CountSnoc(log, x, e);
    }
  }

  /** The blocks given to the cipher go up until the counter wraps, whatever the key. */
  lemma BlocksIncrease(log: seq<Entry>, ticks: nat, i: nat, j: nat)
    requires Ordered(log, ticks) && i < j < |log| && log[j].ticks < TWO128
    ensures CounterValue(log[i].block) < CounterValue(log[j].block)
  {
    ValueAt(log[i].ticks);
    ValueAt(log[j].ticks);
    SmallMod(log[i].ticks, TWO128);
    SmallMod(log[j].ticks, TWO128);
  }

  lemma SmallMod(a: nat, d: nat)
    requires a < d
    ensures a % d == a
  {
    DivModUnique(a, d, 0, a);
  }

  // ---- The pool schedule.

  /** Pool n takes part in reseed number count. */
  ghost predicate Due(count: nat, n: nat) {
    count % Pow2(n) == 0
  }

  /** reseed_from_pool: one bit of the count */
  predicate ReseedFromPool(count: nat, n: nat) {
    n == 0 || count / Pow2(n - 1) % 2 == 0
  }

  lemma DueZero(count: nat)
    ensures Due(count, 0)
  {
  }

  /** After the pools below it the one bit decides for pool n. */
  lemma OneBitDecides(count: nat, n: nat)
    requires n > 0 ==> Due(count, n - 1)
    ensures ReseedFromPool(count, n) <==> Due(count, n)
  {
    if n > 0 {
      ExactDivision(count, Pow2(n - 1));
      HighestBit(Pow2(n - 1), count / Pow2(n - 1));
    }
  }

  lemma ExactDivision(a: nat, p: nat)
    requires p > 0 && a % p == 0
    ensures a == p * (a / p)
  {
  }

  lemma HighestBit(p: nat, q: nat)
    requires p > 0
    ensures q % 2 == 0 <==> (p * q) % (2 * p) == 0
  {
    TopBit(p, q / 2, q % 2);
  }

  lemma TopBit(p: nat, h: nat, b: nat)
    requires p > 0 && b < 2
    ensures (p * (2 * h + b)) % (2 * p) == p * b == if b == 0 then 0 else p
  {
    MulRearranges(p, 2 * h, b);
    MulRearranges(p, 2, h);
    DivModUnique(p * (2 * h + b), 2 * p, h, if b == 0 then 0 else p);
  }

  /** Pools past one that is not due are not due. */
  lemma {:induction false} NoneAfter(count: nat, n: nat, j: nat)
    requires n <= j && !Due(count, n)
    ensures !Due(count, j)
    decreases j
  {
    if n < j {
      if Due(count, j) {
        var p := Pow2(j - 1);
        assert count == (2 * p) * (count / (2 * p)) == p * (2 * (count / (2 * p)));
        Multiple(count, p, 2 * (count / (2 * p)));
      }
      NoneAfter(count, n, j - 1);
    }
  }

  type Hash = seq<byte> -> Key
  type KeyedCipher = (Key, Counter) -> Block

  // ---- Reseeding as a function of the pools.

  /** Pools below n restart from their digest when they are due. */
  ghost function Restarted(H: Hash, pools: seq<seq<byte>>, count: nat, n: nat): (r: seq<seq<byte>>)
    ensures |r| == |pools|
  {
    seq(|pools|, i requires 0 <= i < |pools| => if i < n && Due(count, i) then H(pools[i]) else pools[i])
  }

  /** The digests of the due pools below n, lowest pool first. */
  ghost function Digests(H: Hash, pools: seq<seq<byte>>, count: nat, n: nat): seq<byte>
    requires n <= |pools|
  {
    if n == 0 then []
    else Digests(H, pools, count, n - 1) + if Due(count, n - 1) then H(pools[n - 1]) else []
  }

  /** Pools 0 to m - 1 are due in reseed number count: 2^i divides it for these i and for no other. */
  ghost predicate DuePools(count: nat, m: nat) {
    && (forall i :: 0 <= i < m ==> count % Pow2(i) == 0)
    && (m < 32 ==> count % Pow2(m) != 0)
  }

  lemma {:induction false} DigestsBelow(H: Hash, pools: seq<seq<byte>>, count: nat, n: nat)
    requires n <= |pools| && forall i :: 0 <= i < n ==> Due(count, i)
    ensures |Digests(H, pools, count, n)| == 32 * n
    ensures forall i :: 0 <= i < n ==> Digests(H, pools, count, n)[32 * i..32 * i + 32] == H(pools[i])
  {
    hide Due;
    if n > 0 {
      DigestsBelow(H, pools, count, n - 1);
      var before, after := Digests(H, pools, count, n - 1), Digests(H, pools, count, n);
      assert after == before + H(pools[n - 1]);
      forall i | 0 <= i < n ensures after[32 * i..32 * i + 32] == H(pools[i]) {
        if i < n - 1 {
          assert after[32 * i..32 * i + 32] == before[32 * i..32 * i + 32];
        }
      }
    }
  }

  /** Digest i of a reseed is that of pool i, for as many pools as are due, and just these restart from it. */
  lemma ReseedAt(H: Hash, pools: seq<seq<byte>>, count: nat, m: nat)
    requires |pools| == 32 && m <= 32 && DuePools(count, m)
    ensures
      var digests, after := Digests(H, pools, count, 32), Restarted(H, pools, count, 32);
      && |digests| == 32 * m && (forall i :: 0 <= i < m ==> digests[32 * i..32 * i + 32] == H(pools[i]))
      && (forall i :: 0 <= i < m ==> after[i] == H(pools[i]))
      && (forall i :: m <= i < 32 ==> after[i] == pools[i])
  {
    hide Pow2;
    assert forall i :: 0 <= i < m ==> Due(count, i);
    DigestsBelow(H, pools, count, m);
    RestDoesNothing(H, pools, count, m, 32);
  }

  /** When the first pool that is not due is n, going on to m changes nothing. */
  lemma {:induction false} RestDoesNothing(H: Hash, pools: seq<seq<byte>>, count: nat, n: nat, m: nat)
    requires n <= m <= |pools| && (n < m ==> !Due(count, n))
    ensures Restarted(H, pools, count, m) == Restarted(H, pools, count, n)
    ensures Digests(H, pools, count, m) == Digests(H, pools, count, n)
    decreases m
  {
    if n < m {
      NoneAfter(count, n, m - 1);
      RestDoesNothing(H, pools, count, n, m - 1);
    }
  }

  /** The pools after one event: source number and length before the data. */
  ghost function Fed(pools: seq<seq<byte>>, snum: byte, pnum: nat, data: seq<byte>): (r: seq<seq<byte>>)
    ensures |r| == |pools|
  {
    var dl := AtMost(|data|, MAX_EVENT_DATA_LEN);
    if pnum < |pools| then pools[pnum := pools[pnum] + [snum, LowByte(dl)] + data[..dl]] else pools
  }

  /** What an event adds to a pool: the source number, how many bytes follow, and up to 32 bytes of data. */
  ghost predicate Gains(before: seq<byte>, after: seq<byte>, snum: byte, data: seq<byte>) {
    var n := if |data| < 32 then |data| else 32;
    && |after| == |before| + 2 + n && after[..|before|] == before
    && after[|before|] == snum && Value(after[|before| + 1]) == n
    && forall i :: 0 <= i < n ==> after[|before| + 2 + i] == data[i]
  }

  lemma FedGains(pools: seq<seq<byte>>, snum: byte, pnum: nat, data: seq<byte>)
    requires pnum < |pools|
    ensures Gains(pools[pnum], Fed(pools, snum, pnum, data)[pnum], snum, data)
    ensures forall i :: 0 <= i < |pools| && i != pnum ==> Fed(pools, snum, pnum, data)[i] == pools[i]
  {
    hide Value;
    SmallByte(AtMost(|data|, MAX_EVENT_DATA_LEN));
  }

  /** The pools after a run of events from the ring, those without data left out. */
  ghost function FedAll(pools: seq<seq<byte>>, events: seq<FortunaRing.Event>): (r: seq<seq<byte>>)
    ensures |r| == |pools|
  {
    if events == [] then pools
    else
      var r, ev := FedAll(pools, events[..|events| - 1]), events[|events| - 1];
      if ev.data == [] then r else Fed(r, ev.snum, Value(ev.pnum), ev.data)
  }

  lemma FedNothing(pools: seq<seq<byte>>)
    ensures FedAll(pools, []) == pools
  {
  }

  lemma FedAllSnoc(pools: seq<seq<byte>>, events: seq<FortunaRing.Event>, ev: FortunaRing.Event)
    ensures var r := FedAll(pools, events);
      FedAll(pools, events + [ev]) == if ev.data == [] then r else Fed(r, ev.snum, Value(ev.pnum), ev.data)
  {
    assert (events + [ev])[..|events|] == events;
  }

  /** What a reseed, if there is one, makes of the pools. */
  ghost function PoolsAfter(H: Hash, pools: seq<seq<byte>>, count: nat, reseeds: bool): seq<seq<byte>> {
    if reseeds then Restarted(H, pools, count, NUM_POOLS) else pools
  }

  /** The key after a reseed, if there is one. */
  ghost function KeyAfter(H: Hash, pools: seq<seq<byte>>, count: nat, reseeds: bool, key: Key): Key {
    if reseeds && |pools| == NUM_POOLS then H(Digests(H, pools, count, NUM_POOLS)) else key
  }

  /** Where a drain from stream position `from` ends, of which `to` are pushed: past the first event without data. */
  ghost function StopsAt(stream: seq<FortunaRing.Event>, from: nat, to: nat): (p: nat)
    requires from <= to <= |stream|
    ensures from <= p <= to
    decreases |stream| - from
  {
    if from == to then to else if stream[from].data == [] then from + 1 else StopsAt(stream, from + 1, to)
  }

  lemma StopsStep(stream: seq<FortunaRing.Event>, from: nat, to: nat)
    requires from <= to <= |stream|
    ensures StopsAt(stream, from, to) ==
      if from == to then to else if stream[from].data == [] then from + 1 else StopsAt(stream, from + 1, to)
  {
  }

  /** A drain empties the ring exactly when no position but the last one it pops is without data. */
  lemma {:induction false} DrainsAllWhen(stream: seq<FortunaRing.Event>, from: nat, to: nat)
    requires from <= to <= |stream|
    ensures StopsAt(stream, from, to) == to <==> (forall j :: from <= j < to - 1 ==> stream[j].data != [])
    decreases |stream| - from
  {
    if from < to && stream[from].data != [] {
      DrainsAllWhen(stream, from + 1, to);
    }
  }

  /** The first drain of all pops the zeroed slot and stops there, however many events wait behind it. */
  lemma FirstDrainStops(accepted: seq<FortunaRing.Event>)
    requires |accepted| >= 2
    ensures StopsAt([ZERO_EVENT] + accepted, 0, |accepted|) == 1 < |accepted|
  {
    DrainsAllWhen([ZERO_EVENT] + accepted, 0, |accepted|);
  }

  // ---- What a read delivers.

  /** The cipher output for the recorded calls. */
  ghost function Encrypted(E: KeyedCipher, log: seq<Entry>): (s: seq<byte>)
    ensures |s| == 16 * |log|
  {
    if log == [] then [] else Encrypted(E, log[..|log| - 1]) + E(log[|log| - 1].key, log[|log| - 1].block)
  }

  lemma {:induction false} EncryptedConcat(E: KeyedCipher, a: seq<Entry>, b: seq<Entry>)
    ensures Encrypted(E, a + b) == Encrypted(E, a) + Encrypted(E, b)
  {
    if b == [] {
      assert a + b == a;
    } else {
      EncryptedConcat(E, a, b[..|b| - 1]);
      assert (a + b)[..|a + b| - 1] == a + b[..|b| - 1];
    }
  }

  /** Byte j is a byte of the block that call j / 16 got back. */
  lemma {:induction false} EncryptedAt(E: KeyedCipher, log: seq<Entry>, j: nat)
    requires j < 16 * |log|
    ensures Encrypted(E, log)[j] == E(log[j / 16].key, log[j / 16].block)[j % 16]
  {
    var n := |log| - 1;
    if j < 16 * n {
      EncryptedAt(E, log[..n], j);
    } else {
      DivModUnique(j, 16, n, j - 16 * n);
    }
  }

  /** n calls in a row under one key, from t increments on. */
  ghost function Calls(epoch: nat, key: Key, t: nat, n: nat): (log: seq<Entry>)
    ensures |log| == n
  {
    seq(n, i requires 0 <= i < n => Entry(epoch, key, t + i, CounterAt(t + i)))
  }

  lemma CallsConcat(E: KeyedCipher, epoch: nat, key: Key, t: nat, m: nat, n: nat)
    ensures Calls(epoch, key, t, m + n) == Calls(epoch, key, t, m) + Calls(epoch, key, t + m, n)
    ensures Encrypted(E, Calls(epoch, key, t, m + n))
         == Encrypted(E, Calls(epoch, key, t, m)) + Encrypted(E, Calls(epoch, key, t + m, n))
  {
    hide CounterAt, Encrypted;
    assert Calls(epoch, key, t, m + n) == Calls(epoch, key, t, m) + Calls(epoch, key, t + m, n);
    EncryptedConcat(E, Calls(epoch, key, t, m), Calls(epoch, key, t + m, n));
  }

  lemma CallsSnoc(E: KeyedCipher, epoch: nat, key: Key, t: nat, n: nat)
    ensures Calls(epoch, key, t, n + 1) == Calls(epoch, key, t, n) + [Entry(epoch, key, t + n, CounterAt(t + n))]
    ensures Encrypted(E, Calls(epoch, key, t, n + 1))
         == Encrypted(E, Calls(epoch, key, t, n)) + E(key, CounterAt(t + n))
  {
    hide CounterAt;
    assert Calls(epoch, key, t, n + 1)[..n] == Calls(epoch, key, t, n);
  }

  /** Blocks needed for n bytes. */
  function BlocksFor(n: nat): nat {
    (n + 15) / 16
  }

  function AtMost(n: nat, limit: nat): nat {
    if n < limit then n else limit
  }

  /** The calls of a read of n bytes: those of its data and two for the next key, one MiB at a time. */
  ghost predicate Covers(log: seq<Entry>, n: nat)
    decreases n
  {
    if n == 0 then log == []
    else
      var k := BlocksFor(AtMost(n, SIZE_1M)) + 2;
      k <= |log| && Covers(log[k..], n - AtMost(n, SIZE_1M))
  }

  /** The bytes such a read returns. */
  ghost function Delivered(E: KeyedCipher, log: seq<Entry>, n: nat): (s: seq<byte>)
    requires Covers(log, n)
    ensures |s| == n
    decreases n
  {
    if n == 0 then []
    else
      var m := AtMost(n, SIZE_1M);
      Encrypted(E, log[..BlocksFor(m)])[..m] + Delivered(E, log[BlocksFor(m) + 2..], n - m)
  }

  lemma {:induction false} DeliveredConcat(E: KeyedCipher, a: seq<Entry>, m: nat, b: seq<Entry>, n: nat)
    requires Covers(a, m) && Covers(b, n) && m % SIZE_1M == 0
    ensures Covers(a + b, m + n) && Delivered(E, a + b, m + n) == Delivered(E, a, m) + Delivered(E, b, n)
    decreases m
  {
    hide Encrypted, BlocksFor, Covers, Delivered;
    if m == 0 {
      DeliveredNothing(E, a);
      assert a + b == b;
    } else {
      var k := BlocksFor(SIZE_1M);
      assert m >= SIZE_1M && (m - SIZE_1M) % SIZE_1M == 0;
      DeliveredStep(E, a, m);
      DeliveredConcat(E, a[k + 2..], m - SIZE_1M, b, n);
      assert (a + b)[k + 2..] == a[k + 2..] + b;
      assert (a + b)[..k] == a[..k];
      DeliveredStep(E, a + b, m + n);
    }
  }

  /** A read of at least one MiB: the first MiB, then the rest. */
  lemma DeliveredStep(E: KeyedCipher, log: seq<Entry>, n: nat)
    requires n >= SIZE_1M
    ensures Covers(log, n) <==>
      |log| >= BlocksFor(SIZE_1M) + 2 && Covers(log[BlocksFor(SIZE_1M) + 2..], n - SIZE_1M)
    ensures Covers(log, n) ==> var k := BlocksFor(SIZE_1M);
      Delivered(E, log, n) == Encrypted(E, log[..k])[..SIZE_1M] + Delivered(E, log[k + 2..], n - SIZE_1M)
  {
    hide Encrypted, BlocksFor;
  }

  lemma DeliveredNothing(E: KeyedCipher, log: seq<Entry>)
    ensures Covers(log, 0) <==> log == []
    ensures Covers(log, 0) ==> Delivered(E, log, 0) == []
  {
  }

  /**
   Byte j of a read: 65536 blocks of data and two of the next key go with each MiB, and byte j is in block j / 16 of
   its MiB.
   */
  lemma {:induction false} DeliveredAt(E: KeyedCipher, log: seq<Entry>, n: nat, j: nat)
    requires Covers(log, n) && j < n
    ensures
      var call := j / 0x10_0000 * 65538 + j % 0x10_0000 / 16;
      call < |log| && Delivered(E, log, n)[j] == E(log[call].key, log[call].block)[j % 16]
    decreases n
  {
    hide Encrypted;
    var m := AtMost(n, SIZE_1M);
    var k := BlocksFor(m);
    if j < m {
      DivModUnique(j, 0x10_0000, 0, j);
      assert j / 16 < k;
      EncryptedAt(E, log[..k], j);
    } else {
      var i := j - m;
      assert m == SIZE_1M && k == 65536;
      DeliveredAt(E, log[k + 2..], n - m, i);
      DivModUnique(j, 0x10_0000, i / 0x10_0000 + 1, i % 0x10_0000);
      DivModUnique(j, 16, i / 16 + 65536, i % 16);
    }
  }

  lemma DeliveredOnce(E: KeyedCipher, b: seq<Entry>, n: nat)
    requires 0 < n <= SIZE_1M && |b| == BlocksFor(n) + 2
    ensures Covers(b, n) && Delivered(E, b, n) == Encrypted(E, b[..BlocksFor(n)])[..n]
  {
    hide Encrypted;
    assert Covers(b[|b|..], 0);
  }

  /** From position at on the cipher ran under readKey, and its last two outputs are the next key if n > 0. */
  ghost predicate ReadUnder(E: KeyedCipher, log: seq<Entry>, at: nat, readKey: Key, next: seq<byte>, n: nat) {
    && (forall i :: at <= i < |log| ==> log[i].key == readKey)
    && (n > 0 ==> |log| >= 2 && next == Encrypted(E, log[|log| - 2..]))
    && (n == 0 ==> next == readKey)
  }

  /** The record of a read of at most one MiB from position at on. */
  lemma CallsOfRead(E: KeyedCipher, log: seq<Entry>, at: nat, epoch: nat, key: Key, t: nat, n: nat)
    requires 0 < n <= SIZE_1M && at <= |log| && log[at..] == Calls(epoch, key, t, BlocksFor(n) + 2)
    ensures Covers(log[at..], n)
    ensures Delivered(E, log[at..], n) == Encrypted(E, Calls(epoch, key, t, BlocksFor(n)))[..n]
    ensures ReadUnder(E, log, at, key, Encrypted(E, Calls(epoch, key, t + BlocksFor(n), 2)), n)
  {
    hide CounterAt, Encrypted, Covers, Delivered;
    var k := BlocksFor(n);
    DeliveredOnce(E, log[at..], n);
    assert log[at..][..k] == Calls(epoch, key, t, k);
    assert log[|log| - 2..] == log[at..][k..] == Calls(epoch, key, t + k, 2);
    forall i | at <= i < |log| ensures log[i].key == key {
      assert log[i] == log[at..][i - at];
    }
  }

  lemma NothingRead(E: KeyedCipher, log: seq<Entry>, key: Key)
    ensures ReadUnder(E, log, |log|, key, key, 0) && Covers(log[|log|..], 0) && Delivered(E, log[|log|..], 0) == []
  {
  }

  /** The pools after an init. */
  function EmptyPools(): (pools: seq<seq<byte>>)
    ensures |pools| == NUM_POOLS
  {
    seq(NUM_POOLS, _ => [])
  }

  class Generator {
    const E: KeyedCipher
    const H: Hash
    /** The outcomes of the calls into the libraries, in the order they are made: any of them may fail. */
    const outcome: nat -> bool
    /** Whether the clock finds a reseed too early, for the times it is asked. */
    const tooSoon: nat -> bool
    const ring: RingBuffer
    var calls: nat
    var asked: nat
    /** state.ctx is set */
    var running: bool
    /** state.pool_ctx is filled in */
    var pooled: bool
    var key: Key
    var counter0: nat
    var counter1: nat
    var pool0Length: nat
    var pools: seq<seq<byte>>
    var reseedCtx: seq<byte>
    var reseedCount: nat
    ghost var epoch: nat
    ghost var ticks: nat
    ghost var log: seq<Entry>

    /** The counter words and the record of cipher calls belong together. */
    ghost predicate Recorded()
      reads this`counter0, this`counter1, this`ticks, this`log, this`epoch, this`key
    {
      && Counter(counter0, counter1) == CounterAt(ticks)
      && Ordered(log, ticks) && Limited(log) && OneKeyEach(log) && InUse(log, epoch, key)
    }

    ghost predicate Pools()
      reads this`pools, this`reseedCount
    {
      |pools| == NUM_POOLS && reseedCount < TWO32
    }

    /** Every event pushed names an existing pool. */
    ghost predicate EventsInRange()
      reads ring`accepted
    {
      forall ev :: ev in ring.accepted ==> Value(ev.pnum) < NUM_POOLS
    }

    /** Between calls: the key in use has not encrypted anything yet. */
    ghost predicate Valid()
      reads this, ring, ring.elem
    {
      && Recorded() && Pools() && ring.Valid() && EventsInRange()
      && (running ==> pooled && Count(log, epoch) == 0)
    }

    constructor (E: KeyedCipher, H: Hash, outcome: nat -> bool, tooSoon: nat -> bool)
      ensures Valid() && !running && !pooled && fresh(ring) && fresh(ring.elem)
      ensures this.E == E && this.H == H && this.outcome == outcome && this.tooSoon == tooSoon
    {
      this.E, this.H, this.outcome, this.tooSoon := E, H, outcome, tooSoon;
      ring := new RingBuffer();
      calls, asked, running, pooled, key := 0, 0, false, false, Zeros(32);
      counter0, counter1, pool0Length := 0, 0, 0;
      pools, reseedCtx, reseedCount := EmptyPools(), [], 0;
      epoch, ticks, log := 0, 0, [];
    }

    ghost predicate NoFailures() {
      forall n :: outcome(n)
    }

    method Outcome() returns (ok: bool)
      modifies this`calls
      ensures ok == outcome(old(calls)) && (NoFailures() ==> ok)
    {
      ok := outcome(calls);
      calls := calls + 1;
    }

    /** inc_counter */
    method IncCounter()
      requires Counter(counter0, counter1) == CounterAt(ticks)
      modifies this`counter0, this`counter1, this`ticks
      ensures Counter(counter0, counter1) == CounterAt(ticks) && ticks == old(ticks) + 1
    {
      IncrementedAt(ticks);
      counter0 := (counter0 + 1) % TWO64;
      if counter0 == 0 {
        counter1 := (counter1 + 1) % TWO64;
      }
      ticks := ticks + 1;
    }

    /** crypto_cipher_init: a key is installed, or the call fails and the old one stays in use. */
    method CipherInit(k: Key) returns (ok: bool)
      requires Recorded()
      modifies this`calls, this`key, this`epoch
      ensures Recorded() && (NoFailures() ==> ok)
      ensures ok ==> epoch == old(epoch) + 1 && key == k && Count(log, epoch) == 0
      ensures !ok ==> epoch == old(epoch) && key == old(key)
    {
      ok := Outcome();
      if ok {
        epoch := epoch + 1;
        key := k;
        NoneYet(log, epoch);
      }
    }

    /** crypto_cipher_update on the counter block. */
    method CipherUpdate() returns (ok: bool, b: Block)
      modifies this`calls, this`log
      ensures log == old(log) + [Entry(epoch, key, ticks, Counter(counter0, counter1))]
      ensures b == E(key, Counter(counter0, counter1)) && (NoFailures() ==> ok)
    {
      ok := Outcome();
      b := E(key, Counter(counter0, counter1));
      log := log + [Entry(epoch, key, ticks, Counter(counter0, counter1))];
    }

    /** One round of generate_blocks: the counter moves on even when the cipher fails. */
    method GenerateBlock() returns (ok: bool, b: Block)
      requires Recorded() && Count(log, epoch) < KEY_LIMIT
      modifies this`calls, this`log, this`counter0, this`counter1, this`ticks
      ensures Recorded() && Count(log, epoch) == Count(old(log), epoch) + 1
      ensures log == old(log) + [Entry(epoch, key, old(ticks), CounterAt(old(ticks)))] && ticks == old(ticks) + 1
      ensures b == E(key, CounterAt(old(ticks))) && (NoFailures() ==> ok)
    {
      hide Ordered, Limited, Count, CounterAt, Generator.NoFailures;
      ok, b := CipherUpdate();
      RecordSnoc(old(log), ticks, log[|old(log)|]);
      IncCounter();
    }

    /** generate_blocks */
    method GenerateBlocks(n: nat) returns (ok: bool, b: seq<byte>)
      requires Recorded() && Count(log, epoch) + n <= KEY_LIMIT
      modifies this`calls, this`log, this`counter0, this`counter1, this`ticks
      ensures Recorded() && Count(log, epoch) <= Count(old(log), epoch) + n && old(log) <= log
      ensures ok ==> log == old(log) + Calls(epoch, key, old(ticks), n) && ticks == old(ticks) + n
      ensures ok ==> b == Encrypted(E, Calls(epoch, key, old(ticks), n))
      ensures NoFailures() ==> ok
    {
      hide Ordered, Limited, Count, CounterAt, Encrypted, Generator.NoFailures;
      b := [];
      for i := 0 to n
        invariant Recorded() && Count(log, epoch) == Count(old(log), epoch) + i && old(log) <= log
        invariant log == old(log) + Calls(epoch, key, old(ticks), i) && ticks == old(ticks) + i
        invariant b == Encrypted(E, Calls(epoch, key, old(ticks), i))
      {
        var block: Block;
        ok, block := GenerateBlock();
        CallsSnoc(E, epoch, key, old(ticks), i);
        if !ok {
          return;
        }
        b := b + block;
      }
      ok := true;
    }

    /** generate_random_data */
    method GenerateRandomData(blen: nat) returns (ok: bool, buf: seq<byte>)
      requires Recorded() && Count(log, epoch) == 0 && blen <= SIZE_1M
      modifies this`calls, this`log, this`counter0, this`counter1, this`ticks
      ensures Recorded() && Count(log, epoch) <= SIZE_1M / 16 && old(log) <= log
      ensures ok ==> log == old(log) + Calls(epoch, key, old(ticks), BlocksFor(blen))
      ensures ok ==> ticks == old(ticks) + BlocksFor(blen)
      ensures ok ==> buf == Encrypted(E, Calls(epoch, key, old(ticks), BlocksFor(blen)))[..blen]
      ensures NoFailures() ==> ok
    {
      hide Ordered, Limited, Count, CounterAt, Encrypted, Calls, Generator.NoFailures;
      ok, buf := GenerateBlocks(blen / 16);
      if ok && blen % 16 != 0 {
        var block: seq<byte>;
        ok, block := GenerateBlocks(1);
        if ok {
          CallsConcat(E, epoch, key, old(ticks), blen / 16, 1);
          buf := buf + block[..blen % 16];
        }
      }
    }

    /** fortuna_done: the contexts are gone, so nothing can be read until the next init. */
    method Done()
      modifies this`running, this`pooled
      ensures !running && !pooled
    {
      running, pooled := false, false;
    }

    /** restart_pool: final, init and update of one pool */
    method RestartPool(n: nat) returns (ok: bool, digest: seq<byte>)
      requires Pools() && n < NUM_POOLS
      modifies this`calls, this`pools
      ensures |pools| == NUM_POOLS
      ensures ok ==> digest == H(old(pools)[n]) && pools == old(pools)[n := digest]
      ensures NoFailures() ==> ok
    {
      hide Generator.NoFailures;
      digest := [];
      ok := Outcome();
      if !ok {
        return;
      }
      digest := H(pools[n]);
      ok := Outcome();
      if !ok {
        return;
      }
      pools := pools[n := []];
      ok := Outcome();
      if !ok {
        return;
      }
      pools := pools[n := digest];
    }

    /** The loop of maybe_reseed over the pools. */
    method DrainPools() returns (ok: bool)
      requires Pools() && reseedCtx == []
      modifies this`calls, this`pools, this`pool0Length, this`reseedCtx
      ensures Pools()
      ensures ok ==> pools == Restarted(H, old(pools), reseedCount, NUM_POOLS)
      ensures ok ==> reseedCtx == Digests(H, old(pools), reseedCount, NUM_POOLS) && pool0Length == 0
      ensures NoFailures() ==> ok
    {
      hide Due, Generator.NoFailures;
      var n := 0;
      ok := true;
      assert Due(reseedCount, 0) by { DueZero(reseedCount); }
      OneBitDecides(reseedCount, 0);
      while n < NUM_POOLS && ReseedFromPool(reseedCount, n)
        invariant Pools() && n <= NUM_POOLS && (n > 0 ==> Due(reseedCount, n - 1) && pool0Length == 0)
        invariant ReseedFromPool(reseedCount, n) <==> Due(reseedCount, n)
        invariant pools == Restarted(H, old(pools), reseedCount, n)
        invariant reseedCtx == Digests(H, old(pools), reseedCount, n)
      {
        var digest: seq<byte>;
        ok, digest := RestartPool(n);
        if !ok {
          return;
        }
        if n == 0 {
          pool0Length := 0;
        }
        ok := Outcome();
        if !ok {
          return;
        }
        reseedCtx := reseedCtx + digest;
        n := n + 1;
        OneBitDecides(reseedCount, n);
      }
      RestDoesNothing(H, old(pools), reseedCount, n, NUM_POOLS);
    }

    /** reseed_rate_limiting */
    method ReseedRateLimiting() returns (limited: bool)
      modifies this`asked
      ensures limited == tooSoon(old(asked))
    {
      limited := tooSoon(asked);
      asked := asked + 1;
    }

    /** Enough has been added to pool 0 and it is not too soon. */
    ghost predicate ReseedsNow()
      reads this`pool0Length, this`asked
    {
      pool0Length >= 64 && !tooSoon(asked)
    }

    /**
     * The reseed of maybe_reseed. It drains exactly the pools whose power of two divides the count, although the loop
     * tests one bit per pool, and installs the hash of their digests as the new key.
     */
    method Reseed() returns (ok: bool)
      requires Recorded() && Pools() && Count(log, epoch) == 0
      modifies this`calls, this`pools, this`pool0Length, this`reseedCtx, this`reseedCount
      modifies this`key, this`epoch, this`counter0, this`counter1, this`ticks
      ensures Recorded() && Pools() && Count(log, epoch) == 0
      ensures reseedCount == (old(reseedCount) + 1) % TWO32 && (NoFailures() ==> ok)
      ensures ok ==> pools == Restarted(H, old(pools), reseedCount, NUM_POOLS) && pool0Length == 0
      ensures ok ==> key == H(Digests(H, old(pools), reseedCount, NUM_POOLS)) && ticks == old(ticks) + 1
    {
      hide Ordered, Limited, Count, CounterAt, Restarted, Digests, Generator.NoFailures;
      reseedCount := (reseedCount + 1) % TWO32;
      ok := Outcome();
      if !ok {
        return;
      }
      reseedCtx := [];
      ok := DrainPools();
      if !ok {
        return;
      }
      ok := Outcome();
      if !ok {
        return;
      }
      ok := CipherInit(H(reseedCtx));
      if !ok {
        return;
      }
      AdvanceCounter();
    }

    /** maybe_reseed */
    method MaybeReseed() returns (ok: bool)
      requires Recorded() && Pools() && Count(log, epoch) == 0
      modifies this`calls, this`asked, this`pools, this`pool0Length, this`reseedCtx, this`reseedCount
      modifies this`key, this`epoch, this`counter0, this`counter1, this`ticks
      ensures Recorded() && Pools() && Count(log, epoch) == 0 && (NoFailures() ==> ok)
      ensures reseedCount == if old(ReseedsNow()) then (old(reseedCount) + 1) % TWO32 else old(reseedCount)
      ensures ok ==> pools == PoolsAfter(H, old(pools), reseedCount, old(ReseedsNow()))
      ensures ok ==> key == KeyAfter(H, old(pools), reseedCount, old(ReseedsNow()), old(key))
    {
      hide Ordered, Limited, Count, CounterAt, Restarted, Digests, Generator.NoFailures, Generator.Recorded;
      ok := true;
      if pool0Length < MIN_POOL_SIZE {
        return;
      }
      var limited := ReseedRateLimiting();
      if limited {
        return;
      }
      ok := Reseed();
    }

    /** An increment that skips a counter value. */
    method AdvanceCounter()
      requires Recorded()
      modifies this`counter0, this`counter1, this`ticks
      ensures Recorded() && ticks == old(ticks) + 1
    {
      hide Limited, Count, CounterAt;
      IncCounter();
    }

    /** add_event, which asserts that there are pool contexts. */
    method AddEvent(snum: byte, pnum: nat, data: seq<byte>) returns (ok: bool)
      requires Pools() && pooled
      modifies this`calls, this`pools, this`pool0Length
      ensures Pools()
      ensures pnum >= NUM_POOLS ==> !ok && pools == old(pools)
      ensures ok ==> pools == Fed(old(pools), snum, pnum, data)
      ensures ok ==> pnum < 32 && Gains(old(pools)[pnum], pools[pnum], snum, data)
      ensures ok ==> forall i :: 0 <= i < 32 && i != pnum ==> pools[i] == old(pools)[i]
      ensures ok ==>
        var l := old(pool0Length) + if |data| < 32 then |data| else 32;
        pool0Length == if pnum == 0 && l < TWO32 then l else old(pool0Length)
      ensures NoFailures() && pnum < NUM_POOLS ==> ok
    {
      hide Generator.NoFailures;
      if pnum >= NUM_POOLS {
        return false;
      }
      var dl := AtMost(|data|, MAX_EVENT_DATA_LEN);
      ok := Outcome();
      if !ok {
        return;
      }
      pools := pools[pnum := pools[pnum] + [snum, LowByte(dl)]];
      ok := Outcome();
      if !ok {
        return;
      }
      pools := pools[pnum := pools[pnum] + data[..dl]];
      FedGains(old(pools), snum, pnum, data);
      if pnum == 0 && pool0Length + dl < TWO32 {
        pool0Length := pool0Length + dl;
      }
    }

    lemma PositionInRange(k: nat)
      requires EventsInRange() && k <= |ring.accepted|
      ensures Value(ring.Positions()[k].pnum) < NUM_POOLS
    {
      hide Value;
      ValueOfZero();
      assert k > 0 ==> ring.accepted[k - 1] in ring.accepted;
    }

    /** drain_ring_buffer: pops until the ring is empty or a pop returns no data, as the first one of all does. */
    method DrainRingBuffer() returns (ok: bool)
      requires Pools() && ring.Valid() && EventsInRange() && pooled
      modifies this`calls, this`pools, this`pool0Length, ring`end, ring`popped
      ensures Pools() && ring.Valid() && old(ring.popped) <= ring.popped
      ensures ok ==> pools == FedAll(old(pools), ring.popped[|old(ring.popped)|..])
      ensures NoFailures() ==> ok
      ensures ok ==> |ring.popped| == StopsAt(ring.Positions(), |old(ring.popped)|, |ring.accepted|)
    {
      hide Fed, FedAll, StopsAt, Generator.NoFailures, Generator.EventsInRange, Value, RingBuffer.Positions;
      ok := true;
      FedNothing(pools);
      assert ring.popped[|ring.popped|..] == [];
      while true
        invariant Pools() && ring.Valid() && old(ring.popped) <= ring.popped && |ring.popped| <= |ring.accepted|
        invariant StopsAt(ring.Positions(), |old(ring.popped)|, |ring.accepted|)
               == StopsAt(ring.Positions(), |ring.popped|, |ring.accepted|)
        invariant ok && pools == FedAll(old(pools), ring.popped[|old(ring.popped)|..])
        decreases |ring.accepted| - |ring.popped|
      {
        ghost var before := ring.popped[|old(ring.popped)|..];
        StopsStep(ring.Positions(), |ring.popped|, |ring.accepted|);
        PositionInRange(|ring.popped|);
        var r := ring.Pop();
        if r == Nothing {
          return;
        }
        assert ring.popped[|old(ring.popped)|..] == before + [r.ev];
        FedAllSnoc(old(pools), before, r.ev);
        if r.ev.data == [] {
          return;
        }
        ok := AddEvent(r.ev.snum, Value(r.ev.pnum), r.ev.data);
        if !ok {
          return;
        }
      }
    }

    /** get_next_pnum of an uninterrupted caller: the pools take turns, whatever the counter starts from. */
    method GetNextPnum(oval: nat) returns (pnum: nat, nval: nat)
      requires oval < TWO32
      ensures pnum == oval % NUM_POOLS && nval == (pnum + 1) % NUM_POOLS
    {
      nval := (oval + 1) % TWO32 % NUM_POOLS;
      pnum := (nval + NUM_POOLS - 1) % NUM_POOLS;
    }

    /**
     * crypto_rng_add_event, for a source whose counter is at oval; failures are not reported. held is false where the
     * assertion on a pool context fails, which ends the core.
     */
    method CryptoRngAddEvent(snum: byte, oval: nat, data: seq<byte>, quick: bool) returns (held: bool, nval: nat)
      requires Valid() && oval < TWO32
      modifies this`calls, this`pools, this`pool0Length, ring, ring.elem
      ensures held <==> quick || pooled
      ensures !held ==> pools == old(pools) && ring.popped == old(ring.popped)
      ensures Valid() && nval == (oval % NUM_POOLS + 1) % NUM_POOLS
      ensures quick ==> pools == old(pools)
      ensures quick ==> ring.popped == old(ring.popped)
      ensures quick && |old(ring.accepted)| == |ring.popped| + 7 ==> ring.accepted == old(ring.accepted)
      ensures quick && |old(ring.accepted)| != |ring.popped| + 7 ==>
                ring.accepted == old(ring.accepted) + [FortunaRing.Event(snum, LowByte(oval % NUM_POOLS),
                                                                 if |data| < 4 then data else data[..4])]
      ensures !quick ==> ring.accepted == old(ring.accepted)
      ensures !quick && pooled && NoFailures() ==>
                FedSince(Fed(old(pools), snum, oval % NUM_POOLS, data), old(ring.popped))
    {
      hide Ordered, Limited, Count, CounterAt, Inv, Fed, FedAll, Cut, StopsAt, Value, Generator.NoFailures;
      var pnum;
      pnum, nval := GetNextPnum(oval);
      held := true;
      if quick {
        ring.Push(snum, LowByte(pnum), data);
        SmallByte(pnum);
      } else if pooled {
        var _ := AddEvent(snum, pnum, data);
        var _ := DrainRingBuffer();
      } else {
        held := false;
      }
    }

    /** Data, next key and rekeying of one fortuna_read of blen > 0 bytes. */
    method ReadOnce(blen: nat) returns (ok: bool, buf: seq<byte>)
      requires Recorded() && Count(log, epoch) == 0 && 0 < blen <= SIZE_1M
      modifies this`calls, this`key, this`epoch, this`log, this`counter0, this`counter1, this`ticks
      ensures Recorded() && old(log) <= log && (ok ==> Count(log, epoch) == 0)
      ensures var k := BlocksFor(blen);
        ok ==>
          && log == old(log) + Calls(old(epoch), old(key), old(ticks), k + 2)
          && buf == Encrypted(E, Calls(old(epoch), old(key), old(ticks), k))[..blen]
          && key == Encrypted(E, Calls(old(epoch), old(key), old(ticks) + k, 2))
      ensures NoFailures() ==> ok
    {
      hide Ordered, Limited, Count, CounterAt, Encrypted, BlocksFor, Calls, Generator.NoFailures;
      ok, buf := GenerateRandomData(blen);
      if !ok {
        return;
      }
      CallsConcat(E, epoch, key, ticks - BlocksFor(blen), BlocksFor(blen), 2);
      var newKey: seq<byte>;
      ok, newKey := GenerateBlocks(KEY_SIZE / BLOCK_SIZE);
      if !ok {
        return;
      }
      ok := CipherInit(newKey);
    }

    /** The pools are p0 with the events popped since before. */
    ghost predicate FedSince(p0: seq<seq<byte>>, before: seq<FortunaRing.Event>)
      reads this`pools, ring`popped
    {
      before <= ring.popped && pools == FedAll(p0, ring.popped[|before|..])
    }

    /** fortuna_read */
    method FortunaRead(blen: nat) returns (ok: bool, buf: seq<byte>)
      requires Valid() && blen <= SIZE_1M
      modifies this, ring`end, ring`popped
      ensures Valid() && old(log) <= log && (ok <==> running) && (!old(running) ==> !ok)
      ensures ok ==> Covers(log[|old(log)|..], blen) && buf == Delivered(E, log[|old(log)|..], blen)
      ensures ok ==> reseedCount == if old(ReseedsNow()) then (old(reseedCount) + 1) % TWO32 else old(reseedCount)
      ensures ok ==> FedSince(PoolsAfter(H, old(pools), reseedCount, old(ReseedsNow())), old(ring.popped))
      ensures ok ==> ReadUnder(E, log, |old(log)|, KeyAfter(H, old(pools), reseedCount, old(ReseedsNow()), old(key)),
                               key, blen)
      ensures old(running) && NoFailures() ==> ok
    {
      hide Ordered, Limited, Count, CounterAt, Encrypted, BlocksFor, Inv, Fed, FedAll, PoolsAfter, KeyAfter;
      hide Calls, Generator.NoFailures, Generator.EventsInRange, Generator.ReseedsNow, Generator.Recorded, ReadUnder;
      buf := [];
      if !running {
        return false, buf;
      }
      ok := MaybeReseed();
      if ok && blen > 0 {
        ghost var e, k, t := epoch, key, ticks;
        ok, buf := ReadOnce(blen);
        if ok {
          CallsOfRead(E, log, |old(log)|, e, k, t, blen);
        }
      }
      if ok && blen == 0 {
        NothingRead(E, log, key);
      }
      if ok {
        ok := DrainRingBuffer();
      }
      if !ok {
        Done();
      }
    }

    /** crypto_rng_read: at most one MiB on a key */
    method CryptoRngRead(blen: nat) returns (ok: bool, buf: seq<byte>)
      requires Valid()
      modifies this, ring`end, ring`popped
      ensures Valid() && old(log) <= log && (ok ==> running == old(running)) && (!ok ==> !running)
      ensures ok ==> Covers(log[|old(log)|..], blen) && buf == Delivered(E, log[|old(log)|..], blen)
      ensures old(running) && NoFailures() ==> ok
    {
      hide Generator.Valid, Covers, Delivered, Generator.NoFailures, Generator.ReseedsNow;
      hide FedAll, Restarted, Digests;
      var offs := 0;
      buf := [];
      DeliveredNothing(E, log[|old(log)|..]);
      while true
        invariant Valid() && old(log) <= log && running == old(running) && offs <= blen
        invariant offs < blen ==> offs % SIZE_1M == 0
        invariant Covers(log[|old(log)|..], offs) && buf == Delivered(E, log[|old(log)|..], offs)
        decreases blen - offs
      {
        var n := AtMost(blen - offs, SIZE_1M);
        if n == 0 {
          return true, buf;
        }
        ghost var before := log;
        var part: seq<byte>;
        ok, part := FortunaRead(n);
        if !ok {
          return;
        }
        DeliveredConcat(E, before[|old(log)|..], offs, log[|before|..], n);
        assert log[|old(log)|..] == before[|old(log)|..] + log[|before|..];
        buf := buf + part;
        offs := offs + n;
      }
    }

    /** crypto_rng_init; a new run starts with an empty record and the counter at one. */
    method CryptoRngInit(data: seq<byte>) returns (ok: bool)
      requires Valid()
      modifies this
      ensures Valid() && (old(running) ==> !ok && running && log == old(log) && pooled == old(pooled))
      ensures !old(running) ==> ok == running && log == []
      ensures ok ==> key == H(data) && ticks == 1 && reseedCount == 0 && pools == EmptyPools()
      ensures !old(running) && NoFailures() ==> ok
    {
      hide Generator.NoFailures, Generator.EventsInRange, Generator.Recorded, RingBuffer.Valid, Count, EmptyPools;
      if running {
        return false;
      }
      Reset();
      ok := AllocatePools();
      if ok {
        ok := Setup();
      }
      if ok {
        ok := CipherInit(H(data));
      }
      if ok {
        AdvanceCounter();
        running := true;
      }
    }

    /** The memset of crypto_rng_init */
    method Reset()
      modifies this`counter0, this`counter1, this`pool0Length, this`pools, this`reseedCtx, this`reseedCount
      modifies this`epoch, this`ticks, this`log, this`pooled
      ensures Recorded() && Pools() && log == [] && ticks == 0 && reseedCount == 0 && !pooled
      ensures pools == EmptyPools()
    {
      counter0, counter1, pool0Length, reseedCount := 0, 0, 0, 0;
      pools, reseedCtx := EmptyPools(), [];
      epoch, ticks, log := 0, 0, [];
      pooled := false;
    }

    /** Each pool context is allocated and initialized, then the reseed context; after a failure all are freed. */
    method AllocatePools() returns (ok: bool)
      modifies this`calls, this`pooled
      ensures pooled == ok && (NoFailures() ==> ok)
    {
      hide Generator.NoFailures;
      ok := CallSeveral(2 * NUM_POOLS + 1);
      pooled := ok;
    }

    /** The hash of the seed and the cipher context; a failure leaves the pool contexts in place. */
    method Setup() returns (ok: bool)
      modifies this`calls
      ensures NoFailures() ==> ok
    {
      hide Generator.NoFailures;
      ok := CallSeveral(4);
    }

    /** So many calls, up to the first that fails. */
    method CallSeveral(count: nat) returns (ok: bool)
      modifies this`calls
      ensures NoFailures() ==> ok
    {
      hide Generator.NoFailures;
      ok := true;
      var n := 0;
      while n < count && ok
        invariant NoFailures() ==> ok
      {
        ok := Outcome();
        n := n + 1;
      }
    }
  }

  lemma SmallByte(n: nat)
    requires n < 256
    ensures Value(LowByte(n)) == n
  {
    hide Value, LowByte;
    ByteValues(0, n);
  }

  /** An event comes from a source whose counter is at turn. */
  datatype Op = Read(blen: nat) | Event(snum: byte, turn: nat, data: seq<byte>, quick: bool)

  /**
   * Any run from one init: reads of every length and events, with every library call free to fail. The record only
   * grows, its counter blocks are in order, an epoch is one key and none exceeds its limit; a failed installation
   * does not start a new epoch. The assertion on the pool contexts fails only after a failure, or in a run that has
   * not been started.
   */
  method RunAll(g: Generator, ops: seq<Op>) returns (held: bool)
    requires g.Valid() && forall n :: 0 <= n < |ops| && ops[n].Event? ==> ops[n].turn < TWO32
    modifies g, g.ring, g.ring.elem
    ensures !held ==> !g.pooled
    ensures old(g.running) && g.NoFailures() ==> held && g.running
    ensures g.Valid() && old(g.log) <= g.log
    ensures Ordered(g.log, g.ticks) && Limited(g.log) && OneKeyEach(g.log)
  {
    hide Ordered, Limited, Count, CounterAt, Inv, OneKeyEach, InUse, Generator.NoFailures;
    held := true;
    for n := 0 to |ops|
      invariant g.Valid() && old(g.log) <= g.log
      invariant old(g.running) && g.NoFailures() ==> g.running
    {
      match ops[n] {
        case Read(blen) =>
          var _, _ := g.CryptoRngRead(blen);
        case Event(snum, turn, data, quick) =>
          var next;
          held, next := g.CryptoRngAddEvent(snum, turn, data, quick);
          if !held {
            return;
          }
      }
    }
  }
}
