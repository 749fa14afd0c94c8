/** Whole GCM operations: any cutting of the data gives the one-shot result, which is that of the standard. */
module GcmRuns {
  import opened Arith
  import opened Bytes
  import opened Buffers
  import opened CounterMode
  import opened GcmSpec
  import opened Gcm

  /** A state right after a successful init. */
  method Start(E: Cipher, tableBased: bool, mode: Mode, nonce: seq<byte>, nonceAddr: nat, tagLen: nat)
    returns (st: State)
    requires tagLen <= 16
    ensures fresh(st) && fresh(st.table.HL) && fresh(st.table.HH) && fresh(st.hash_subkey) && fresh(st.ctr)
    ensures fresh(st.hash_state) && fresh(st.buf_tag) && fresh(st.buf_hash) && fresh(st.buf_cryp)
    ensures st.E == E && st.mode == mode && st.nonce == nonce && st.tag_len == tagLen
    ensures st.Valid() && st.stream == [] && st.aad_bytes == 0 && st.done == 0
  {
    hide *;
    st := new State(E, tableBased);
    var status := st.Init(mode, nonce, nonceAddr, tagLen);
  }

  /** Any number of update_aad calls. */
  method FeedAad(st: State, aads: seq<seq<byte>>, addrs: seq<nat>)
    requires st.Valid() && st.stream == [] && st.aad_bytes == 0 && st.done == 0 && |addrs| == |aads|
    modifies st`aad_bytes, st`buf_pos, st`stream, st.hash_state, st.buf_hash
    ensures st.Valid() && st.stream == Flatten(aads) && st.aad_bytes == |Flatten(aads)| % TWO32
  {
    hide Flatten, State.Valid;
    NothingCounted(st);
    FlattenNothing();
    assert aads[..0] == [];
    for i := 0 to |aads|
      invariant st.Valid() && st.stream == Flatten(aads[..i]) && st.aad_bytes == |Flatten(aads[..i])| % TWO32
    {
      var status := st.UpdateAad(aads[i], addrs[i]);
      FlattenSnoc(aads, i);
      ModAdds(|Flatten(aads[..i])|, |aads[i]|);
    }
    assert aads[..|aads|] == aads;
  }

  lemma ModAdds(a: nat, b: nat)
    ensures (a % TWO32 + b) % TWO32 == (a + b) % TWO32
  {
  }

  /** Any number of update_payload calls into one output buffer. */
  method FeedPayload(st: State, m: Mode, chunks: seq<seq<byte>>, dst: array<byte>, ghost aad: seq<byte>)
    requires st.Valid() && st.stream == aad && st.done == 0 && st.mode == m
    requires |Flatten(chunks)| <= dst.Length && st.Apart(dst)
    modifies st`stream, st`done, st`payload_bytes, st`buf_pos, st.ctr, st.hash_state, st.buf_hash, st.buf_cryp, dst
    ensures st.Valid() && st.done == |Flatten(chunks)|
    ensures
      var p := Flatten(chunks);
      var out := Gctr(st.E, st.Icb(), 0, p);
      && dst[..] == Splice(old(dst[..]), 0, out)
      && PaddedAad(st.payload_bytes, st.stream) == Pad(aad) + HashedSide(m, p, out)
  {
    hide Flatten, State.Valid, State.PayloadOk, Gctr, Splice, State.Icb, Pad, PaddedAad;
    ghost var icb := st.Icb();
    FlattenNothing();
    FlattenPrefix(chunks, 0);
    GctrEmpty(st.E, icb, 0);
    SpliceNothing(dst[..], 0);
    assert chunks[..0] == [] && Pad(aad) + [] == Pad(aad);
    NothingPaid(aad);
    NothingCounted(st);
    var pos := 0;
    for i := 0 to |chunks|
      invariant st.Valid() && pos == st.done == |Flatten(chunks[..i])| <= |Flatten(chunks)|
      invariant st.payload_bytes == st.done % TWO32
      invariant dst[..] == Splice(old(dst[..]), 0, Gctr(st.E, icb, 0, Flatten(chunks[..i])))
      invariant PaddedAad(st.payload_bytes, st.stream)
             == Pad(aad) + HashedSide(m, Flatten(chunks[..i]), Gctr(st.E, icb, 0, Flatten(chunks[..i])))
    {
      ghost var before := Flatten(chunks[..i]);
      PayloadFolds(st.payload_bytes, st.stream, aad, HashedSide(m, before, Gctr(st.E, icb, 0, before)),
                   HashedSide(m, chunks[i], Gctr(st.E, icb, |before|, chunks[i])));
      FlattenSnoc(chunks, i);
      FlattenPrefix(chunks, i + 1);
      st.UpdatePayload(m, chunks[i], dst, pos);
      CountIs(st);
      pos := pos + |chunks[i]|;
      GctrConcat(st.E, icb, 0, before, chunks[i]);
      SpliceTwice(old(dst[..]), 0, Gctr(st.E, icb, 0, before), Gctr(st.E, icb, |before|, chunks[i]));
    }
    assert chunks[..|chunks|] == chunks;
  }

  lemma NothingPaid(stream: seq<byte>)
    ensures PaddedAad(0, stream) == Pad(stream)
  {
  }

  lemma NothingCounted(st: State)
    requires st.Valid() && st.done == 0
    ensures st.payload_bytes == 0
  {
  }

  lemma CountIs(st: State)
    requires st.Valid()
    ensures st.payload_bytes == st.done % TWO32
  {
  }

  /** Payload pieces follow the padded AAD, also past a wrap of the byte count. */
  lemma PayloadFolds(paid: nat, stream: seq<byte>, aad: seq<byte>, x: seq<byte>, y: seq<byte>)
    requires paid == |x| % TWO32 && PaddedAad(paid, stream) == Pad(aad) + x
    ensures PaddedAad(|x + y| % TWO32, PaddedAad(paid, stream) + y) == Pad(aad) + (x + y)
  {
    assert (Pad(aad) + x) + y == Pad(aad) + (x + y);
    if |x + y| % TWO32 == 0 {
      BytesCounted(|x + y|, 0);
      assert |Pad(aad) + (x + y)| % 16 == 0;
    }
  }

  /**
   init, update_aad..., update_payload..., enc_final, with any cutting of the
   associated data and of the payload (empty pieces included) and any addresses.
   */
  method Seal(E: Cipher, tableBased: bool, nonce: seq<byte>, nonceAddr: nat, aads: seq<seq<byte>>, addrs: seq<nat>,
              chunks: seq<seq<byte>>, last: seq<byte>, tagLen: nat) returns (c: seq<byte>, tag: seq<byte>)
    requires tagLen <= 16 && |addrs| == |aads|
    ensures c == Crypt(E, nonce, Flatten(chunks) + last)
    ensures tag == Tag(E, nonce, Flatten(aads), c, tagLen)
  {
    hide Flatten, State.Valid, State.PayloadOk, Gctr, State.Icb, FullTag, Pad, J0, Inc;
    var total := |Flatten(chunks)| + |last|;
    ghost var aad, p := Flatten(aads), Flatten(chunks);
    var st := Start(E, tableBased, ENCRYPT, nonce, nonceAddr, tagLen);
    var dst := new byte[total];
    ghost var icb := st.Icb();
    assert icb == Inc(J0(E, nonce)) by { IcbIs(st); }
    FeedAad(st, aads, addrs);
    FeedPayload(st, ENCRYPT, chunks, dst, aad);
    var status;
    status, tag := st.EncFinal(last, dst, |Flatten(chunks)|, tagLen);
    c := dst[..];
    GctrConcat(E, icb, 0, p, last);
    PadAfterAad(aad, Gctr(E, icb, 0, p), Gctr(E, icb, |p|, last));
    FullTagOfLengths(E, nonce, Pad(aad) + Pad(c), |aad|, |c|);
  }

  /** The same for decryption. */
  method Open(E: Cipher, tableBased: bool, nonce: seq<byte>, nonceAddr: nat, aads: seq<seq<byte>>, addrs: seq<nat>,
              chunks: seq<seq<byte>>, last: seq<byte>, tag: seq<byte>) returns (status: Status, p: seq<byte>)
    requires |tag| <= 16 && |addrs| == |aads|
    ensures p == Crypt(E, nonce, Flatten(chunks) + last)
    ensures
      var expected := Tag(E, nonce, Flatten(aads), Flatten(chunks) + last, |tag|);
      status == if tag == expected then SUCCESS else MAC_INVALID
  {
    hide Flatten, State.Valid, State.PayloadOk, Gctr, State.Icb, FullTag, Pad, J0, Inc;
    var total := |Flatten(chunks)| + |last|;
    ghost var aad, c := Flatten(aads), Flatten(chunks);
    var st := Start(E, tableBased, DECRYPT, nonce, nonceAddr, |tag|);
    var dst := new byte[total];
    ghost var icb := st.Icb();
    assert icb == Inc(J0(E, nonce)) by { IcbIs(st); }
    FeedAad(st, aads, addrs);
    FeedPayload(st, DECRYPT, chunks, dst, aad);
    status := st.DecFinal(last, dst, |Flatten(chunks)|, tag);
    p := dst[..];
    GctrConcat(E, icb, 0, c, last);
    PadAfterAad(aad, c, last);
    FullTagOfLengths(E, nonce, Pad(aad) + Pad(c + last), |aad|, |c + last|);
  }

  lemma IcbIs(st: State)
    ensures st.Icb() == Inc(J0(st.E, st.nonce))
  {
  }

  lemma PadAfterAad(aad: seq<byte>, a: seq<byte>, b: seq<byte>)
    ensures Pad((Pad(aad) + a) + b) == Pad(aad) + Pad(a + b)
  {
    var n := |a + b|;
    assert (Pad(aad) + a) + b == Pad(aad) + (a + b);
    assert |Pad(aad) + (a + b)| % 16 == n % 16;
    if n % 16 != 0 {
      assert Pad(aad) + (a + b) + Zeros(16 - n % 16) == Pad(aad) + ((a + b) + Zeros(16 - n % 16));
    }
  }

  /**
   Decrypting under any other cutting, on either build, returns the payload and
   accepts the tag.  `cut` chooses the pieces the ciphertext is fed in.
   */
  method RoundTrip(E: Cipher, nonce: seq<byte>, nonceAddr: nat, nonceAddr': nat,
                   aads: seq<seq<byte>>, addrs: seq<nat>, chunks: seq<seq<byte>>, last: seq<byte>,
                   aads': seq<seq<byte>>, addrs': seq<nat>, cut: seq<byte> -> seq<seq<byte>>,
                   tagLen: nat, tables: (bool, bool))
    returns (status: Status, p: seq<byte>)
    requires tagLen <= 16 && |addrs| == |aads| && |addrs'| == |aads'| && Flatten(aads) == Flatten(aads')
    requires forall s :: Flatten(cut(s)) == s
    ensures status == SUCCESS && p == Flatten(chunks) + last
  {
    hide Flatten, Gctr, FullTag, Pad, Tag;
    var c, tag := Seal(E, tables.0, nonce, nonceAddr, aads, addrs, chunks, last, tagLen);
    TagLength(E, nonce, Flatten(aads), c, tagLen);
    assert c + [] == c;
    status, p := Open(E, tables.1, nonce, nonceAddr', aads', addrs', cut(c), [], tag);
    GctrCancels(E, Inc(J0(E, nonce)), 0, Flatten(chunks) + last);
  }

  lemma TagLength(E: Cipher, nonce: seq<byte>, aad: seq<byte>, c: seq<byte>, tagLen: nat)
    requires tagLen <= 16
    ensures |Tag(E, nonce, aad, c, tagLen)| == tagLen
  {
  }

  // AAD after a payload update of zero bytes.

  /** AAD a1, an empty payload update, more AAD a2. */
  method FeedSplitAad(st: State, a1: seq<byte>, addr1: nat, a2: seq<byte>, addr2: nat, dst: array<byte>)
    requires st.Valid() && st.mode == ENCRYPT && st.stream == [] && st.aad_bytes == 0 && st.done == 0 && st.Apart(dst)
    modifies st`aad_bytes, st`stream, st`done, st`payload_bytes, st`buf_pos
    modifies st.ctr, st.hash_state, st.buf_hash, st.buf_cryp, dst
    ensures st.Valid() && st.stream == Pad(a1) + a2 && st.aad_bytes == (|a1| + |a2|) % TWO32 && st.done == 0
  {
    hide State.Valid, State.PayloadOk, Gctr, State.Icb, Pad, Splice, PaddedAad, HashedSide;
    NothingCounted(st);
    var status := st.UpdateAad(a1, addr1);
    assert [] + a1 == a1;
    st.UpdatePayload(ENCRYPT, [], dst, 0);
    NothingHashed(ENCRYPT, Gctr(st.E, st.Icb(), 0, []));
    NothingPaid(a1);
    NothingCounted(st);
    assert Pad(a1) + [] == Pad(a1);
    status := st.UpdateAad(a2, addr2);
    ModAdds(|a1|, |a2|);
  }

  lemma NothingHashed(m: Mode, out: seq<byte>)
    requires out == []
    ensures HashedSide(m, [], out) == []
  {
  }

  /** The whole operation: a1 and a2 are padded as two pieces. */
  method SealSplitAad(E: Cipher, tableBased: bool, nonce: seq<byte>, nonceAddr: nat, a1: seq<byte>, addr1: nat,
                      a2: seq<byte>, addr2: nat, p: seq<byte>, tagLen: nat) returns (c: seq<byte>, tag: seq<byte>)
    requires tagLen <= 16
    ensures c == Crypt(E, nonce, p)
    ensures tag == FullTag(E, nonce, SplitAad(a1, a2) + Pad(c), |a1| + |a2|, |c|)[..tagLen]
  {
    hide State.Valid, State.PayloadOk, Gctr, State.Icb, FullTag, Pad, J0, Inc, Splice, PaddedAad;
    var st := Start(E, tableBased, ENCRYPT, nonce, nonceAddr, tagLen);
    var dst := new byte[|p|];
    FeedSplitAad(st, a1, addr1, a2, addr2, dst);
    IcbIs(st);
    NothingCounted(st);
    NothingPaid(Pad(a1) + a2);
    var status;
    status, tag := st.EncFinal(p, dst, 0, tagLen);
    c := dst[..];
    SpliceAll(Gctr(E, Inc(J0(E, nonce)), 0, p));
    PadThenPad(Pad(a1) + a2, c);
    FullTagOfLengths(E, nonce, SplitAad(a1, a2) + Pad(c), |a1| + |a2|, |c|);
  }

  function SplitAad(a1: seq<byte>, a2: seq<byte>): seq<byte> {
    Pad(Pad(a1) + a2)
  }

  lemma PadThenPad(s: seq<byte>, c: seq<byte>)
    ensures Pad(Pad(s) + c) == Pad(s) + Pad(c)
  {
    assert |Pad(s) + c| % 16 == |c| % 16;
    if |c| % 16 != 0 {
      assert Pad(s) + c + Zeros(16 - |c| % 16) == Pad(s) + (c + Zeros(16 - |c| % 16));
    }
  }

  /** The zeros that fill the last block of n bytes. */
  function Fill(n: nat): nat {
    (16 - n % 16) % 16
  }

  /** The two pieces are hashed like one exactly in these cases; in the last, a2 is zeros that fill the same blocks. */
  lemma SplitAadWhen(a1: seq<byte>, a2: seq<byte>)
    ensures SplitAad(a1, a2) == Pad(a1 + a2) <==>
      || |a1| % 16 == 0 || a2 == []
      || (a2 == Zeros(|a2|) && |a1| % 16 + (|a2| - 1) % 16 + 1 > 16)
  {
    hide Pad, Fill;
    SplitAadIs(a1, a2);
    FillIsZero(|a1|);
    if a2 == [] {
      assert Zeros(Fill(|a1|)) + a2 + Zeros(Fill(0)) == a2 + Zeros(Fill(|a1|)) by { FillIsZero(0); }
    } else if Fill(|a1|) == 0 {
      assert Zeros(0) + a2 == a2;
      FillAfterBlocks(|a1|, |a2|);
    } else {
      SplitLists(a1, a2, Fill(|a1|), Fill(|a2|), Fill(|a1| + |a2|));
      FillSums(|a1|, |a2|);
    }
  }

  /** Both strings, from the end of a1 on. */
  lemma SplitAadIs(a1: seq<byte>, a2: seq<byte>)
    ensures SplitAad(a1, a2) == a1 + (Zeros(Fill(|a1|)) + a2 + Zeros(Fill(|a2|)))
    ensures Pad(a1 + a2) == a1 + (a2 + Zeros(Fill(|a1| + |a2|)))
  {
    hide Pad, Fill;
    PadIs(a1);
    PadIs(a1 + a2);
    PadIs(Pad(a1) + a2);
    FillAfterBlocks(|Pad(a1)|, |a2|);
  }

  lemma SplitLists(a1: seq<byte>, a2: seq<byte>, p: nat, q: nat, t: nat)
    requires p > 0 && a2 != []
    ensures a1 + (Zeros(p) + a2 + Zeros(q)) == a1 + (a2 + Zeros(t)) <==> a2 == Zeros(|a2|) && p + q == t
  {
    var x, y := Zeros(p) + a2 + Zeros(q), a2 + Zeros(t);
    assert (a1 + x)[|a1|..] == x && (a1 + y)[|a1|..] == y;
    if a1 + x == a1 + y {
      ShiftedIntoItself(a2, p, q);
    }
    if a2 == Zeros(|a2|) && p + q == t {
      assert x == Zeros(p + |a2| + q) == y;
    }
  }

  lemma PadIs(s: seq<byte>)
    ensures Pad(s) == s + Zeros(Fill(|s|))
  {
  }

  lemma FillIsZero(n: nat)
    ensures Fill(n) == 0 <==> n % 16 == 0
  {
  }

  lemma FillAfterBlocks(n: nat, b: nat)
    requires n % 16 == 0
    ensures Fill(n + b) == Fill(b)
  {
    DivModUnique(n + b, 16, n / 16 + b / 16, b % 16);
  }

  lemma FillSums(a: nat, b: nat)
    requires a % 16 > 0 && b > 0
    ensures Fill(a) + Fill(b) == Fill(a + b) <==> a % 16 + (b - 1) % 16 + 1 > 16
  {
    hide Fill;
    var k, r, m, s := a / 16, a % 16, (b - 1) / 16, (b - 1) % 16 + 1;
    FillIs(k, r);
    FillIs(m, s);
    if r + s <= 16 {
      FillIs(k + m, r + s);
    } else {
      FillIs(k + m + 1, r + s - 16);
    }
  }

  lemma FillIs(k: nat, r: nat)
    requires 0 < r <= 16
    ensures Fill(16 * k + r) == 16 - r
  {
  }

  lemma ShiftedIntoItself(s: seq<byte>, p: nat, q: nat)
    requires p > 0 && Zeros(p) + s + Zeros(q) == s + Zeros(p + q)
    ensures s == Zeros(|s|)
  {
    for i := 0 to |s|
      invariant forall j :: 0 <= j < i ==> s[j] == 0
    {
      assert (s + Zeros(p + q))[i] == (Zeros(p) + s + Zeros(q))[i];
    }
  }

  /** One byte before and one after the empty update are hashed differently from two bytes at once. */
  lemma SplitAadDiffers()
    ensures SplitAad([1], [1]) != Pad([1] + [1])
  {
    hide Pad;
    SplitAadWhen([1], [1]);
    assert Zeros(1)[0] == 0;
  }
}
