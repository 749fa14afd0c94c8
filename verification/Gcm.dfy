/** The streaming state machine of aes-gcm.c over the block functions of aes-gcm-sw.c. */
module Gcm {
  import opened Arith
  import opened Bytes
  import opened Buffers
  import opened CounterMode
  import opened GaloisField
  import opened Ghash
  import opened GcmSpec

  datatype Mode = ENCRYPT | DECRYPT

  datatype Status = SUCCESS | BAD_PARAMETERS | SHORT_BUFFER | MAC_INVALID

  predicate BlockAligned(addr: nat) { addr % 16 == 0 }

  /**
   The counter and the xor buffer after `done` payload bytes.  Encryption keeps
   the key stream one block ahead of decryption.
   */
  ghost predicate StreamAt(E: Cipher, mode: Mode, icb: Block, done: nat, ctr: seq<byte>, cryp: seq<byte>) {
    var k, pos := done / 16, done % 16;
    && |ctr| == |cryp| == 16
    && ctr == Ctr(icb, if mode == ENCRYPT then k + 1 else k)
    && (mode == ENCRYPT || pos > 0 ==> cryp[pos..] == E(Ctr(icb, k))[pos..])
  }

  /** StreamAt once the xor buffer is filled, which decryption does only when it needs it. */
  ghost predicate Keyed(E: Cipher, mode: Mode, icb: Block, done: nat, ctr: seq<byte>, cryp: seq<byte>) {
    var k, pos := done / 16, done % 16;
    && |ctr| == |cryp| == 16
    && ctr == Ctr(icb, if mode == ENCRYPT then k + 1 else k)
    && cryp[pos..] == E(Ctr(icb, k))[pos..]
  }

  lemma StreamStarts(E: Cipher, icb: Block, cryp: seq<byte>)
    requires |cryp| == 16
    ensures StreamAt(E, DECRYPT, icb, 0, icb, cryp)
    ensures StreamAt(E, ENCRYPT, icb, 0, Inc(icb), E(icb))
  {
    hide Inc;
    assert Ctr(icb, 1) == Inc(Ctr(icb, 0));
  }

  lemma StreamKeyed(E: Cipher, mode: Mode, icb: Block, done: nat, ctr: seq<byte>, cryp: seq<byte>)
    requires StreamAt(E, mode, icb, done, ctr, cryp)
    ensures Keyed(E, mode, icb, done, ctr, if mode == DECRYPT && done % 16 == 0 then E(ctr) else cryp)
  {
  }

  /** Using n bytes of the xor buffer, and what either mode does at the end of the block. */
  lemma StreamAdvances(E: Cipher, mode: Mode, icb: Block, done: nat, ctr: seq<byte>, cryp: seq<byte>, n: nat,
                       cryp': seq<byte>)
    requires Keyed(E, mode, icb, done, ctr, cryp) && 0 < n && done % 16 + n <= 16 && |cryp'| == 16
    ensures done % 16 + n < 16 && cryp'[done % 16 + n..] == cryp[done % 16 + n..] ==>
      StreamAt(E, mode, icb, done + n, ctr, cryp')
    ensures done % 16 + n == 16 && mode == ENCRYPT ==> StreamAt(E, mode, icb, done + n, Inc(ctr), E(ctr))
    ensures done % 16 + n == 16 && mode == DECRYPT ==> StreamAt(E, mode, icb, done + n, Inc(ctr), cryp')
    ensures (done + n) % 16 == (done % 16 + n) % 16
  {
    hide Inc;
    var pos, k := done % 16, done / 16;
    if pos + n == 16 {
      assert (done + n) / 16 == k + 1 && (done + n) % 16 == 0;
    } else {
      assert (done + n) / 16 == k && (done + n) % 16 == pos + n;
      assert cryp[pos + n..] == cryp[pos..][n..];
    }
  }

  /** Xoring with the xor buffer is xoring with the key stream. */
  lemma KeyedXor(E: Cipher, mode: Mode, icb: Block, done: nat, ctr: seq<byte>, cryp: seq<byte>, s: seq<byte>,
                 out: seq<byte>)
    requires Keyed(E, mode, icb, done, ctr, cryp) && done % 16 + |s| <= 16
    requires out == Xor(cryp[done % 16..done % 16 + |s|], s)
    ensures out == Gctr(E, icb, done, s)
  {
    hide Xor, Gctr;
    GctrInBlock(E, icb, done, s);
    var pos := done % 16;
    var k := E(Ctr(icb, done / 16));
    assert cryp[pos..pos + |s|] == cryp[pos..][..|s|] == k[pos..][..|s|] == k[pos..pos + |s|];
    XorLaws(k[pos..pos + |s|], s);
  }

  /** struct internal_aes_gcm_ctx, with the expanded key as the cipher it stands for. */
  class State {
    const E: Cipher
    const tableBased: bool // CFG_AES_GCM_TABLE_BASED
    const table: Table
    const hash_subkey: array<byte>
    const ctr: array<byte>
    const hash_state: array<byte>
    const buf_tag: array<byte>
    const buf_hash: array<byte>
    const buf_cryp: array<byte>
    var tag_len: nat
    var aad_bytes: nat
    var payload_bytes: nat
    var buf_pos: nat
    ghost var mode: Mode
    ghost var nonce: seq<byte>
    ghost var stream: seq<byte> // all bytes fed to GHASH since init, padding included
    ghost var done: nat // payload bytes processed

    ghost predicate Shape()
      reads {}
    {
      && hash_subkey.Length == ctr.Length == hash_state.Length == 16
      && buf_tag.Length == buf_hash.Length == buf_cryp.Length == 16
      && hash_subkey != ctr && hash_subkey != hash_state && hash_subkey != buf_tag && hash_subkey != buf_hash
      && hash_subkey != buf_cryp && ctr != hash_state && ctr != buf_tag && ctr != buf_hash && ctr != buf_cryp
      && hash_state != buf_tag && hash_state != buf_hash && hash_state != buf_cryp
      && buf_tag != buf_hash && buf_tag != buf_cryp && buf_hash != buf_cryp
      && table.HL != table.HH && table.HL.Length == table.HH.Length == 16
    }

    ghost function H(): Block { HashKey(E) }

    ghost function Icb(): Block
      reads this`nonce
    {
      Inc(J0(E, nonce))
    }

    ghost predicate KeyOk()
      reads table.HL, table.HH, hash_subkey
    {
      if tableBased then table.Holds(H()) else hash_subkey[..] == H()
    }

    /** hash_state and buf_hash account for exactly the bytes of `stream`. */
    ghost predicate HashOk()
      requires Shape()
      reads this`buf_pos, this`stream, hash_state, buf_hash
    {
      && buf_pos == |stream| % 16
      && hash_state[..] == GhashFrom(H(), ZERO, stream[..|stream| - buf_pos])
      && buf_hash[..buf_pos] == stream[|stream| - buf_pos..]
    }

    ghost predicate CrypOk()
      requires Shape()
      reads this`mode, this`nonce, this`done, ctr, buf_cryp
    {
      StreamAt(E, mode, Icb(), done, ctr[..], buf_cryp[..])
    }

    ghost predicate Running()
      reads this, table.HL, table.HH, hash_subkey, ctr, hash_state, buf_tag, buf_hash, buf_cryp
    {
      && Shape() && KeyOk() && HashOk() && CrypOk()
      && tag_len <= 16 && aad_bytes < TWO32
      && buf_tag[..] == E(J0(E, nonce))
    }

    ghost predicate Valid()
      reads this, table.HL, table.HH, hash_subkey, ctr, hash_state, buf_tag, buf_hash, buf_cryp
    {
      && Running()
      && payload_bytes == done % TWO32
      && (payload_bytes != 0 ==> buf_pos == done % 16)
    }

    constructor (E: Cipher, tableBased: bool)
      ensures Shape() && this.E == E && this.tableBased == tableBased
      ensures fresh(table.HL) && fresh(table.HH) && fresh(hash_subkey) && fresh(ctr)
      ensures fresh(hash_state) && fresh(buf_tag) && fresh(buf_hash) && fresh(buf_cryp)
    {
      this.E := E;
      this.tableBased := tableBased;
      table := new Table();
      hash_subkey := new byte[16];
      ctr := new byte[16];
      hash_state := new byte[16];
      buf_tag := new byte[16];
      buf_hash := new byte[16];
      buf_cryp := new byte[16];
    }

    lemma Distinct()
      requires Shape()
      ensures hash_subkey != hash_state && hash_subkey != buf_hash && hash_state != buf_hash
    {
    }

    lemma HashOkBound()
      requires Shape() && HashOk()
      ensures buf_pos < 16 && buf_pos == |stream| % 16
    {
    }

    lemma PendingNone()
      requires Shape()
      ensures buf_pos == 0 ==> (HashOk() <==> Pending([]))
    {
      if buf_pos == 0 {
        assert stream[..|stream|] == stream && stream[|stream|..] == [] && buf_hash[..0] == [];
      }
    }

    /** internal_aes_gcm_inc_ctr */
    method IncCtr()
      requires Shape()
      modifies ctr
      ensures ctr[..] == Inc(old(ctr[..]))
    {
      hide FromBe, ToBe, Inc;
      ghost var b: Block := ctr[..];
      IncByWords(b);
      assert ctr[8..] == b[8..] && ctr[..8] == b[..8];
      var c := (FromBe(ctr[8..]) + 1) % TWO64;
      Memcpy(ctr, 8, ToBe(c, 8));
      if c == 0 {
        assert ctr[..8] == b[..8];
        c := (FromBe(ctr[..8]) + 1) % TWO64;
        Memcpy(ctr, 0, ToBe(c, 8));
      }
    }

    /** ghash_update_block */
    method GhashUpdateBlock(data: Block)
      requires Shape() && KeyOk()
      modifies hash_state
      ensures hash_state[..] == Mul(Xor(old(hash_state[..]), data), H())
    {
      hide Mul, Xor;
      XorBuf(hash_state, 0, data);
      var y: Block := hash_state[..];
      if tableBased {
        y := table.MultTbl(y, H());
      } else {
        MulCommutes(y, H());
        y := Gfmul(hash_subkey[..], y);
      }
      Memcpy(hash_state, 0, y);
    }

    /** internal_aes_gcm_ghash_update; the empty string stands for a NULL head. */
    method GhashUpdate(head: seq<byte>, data: seq<byte>)
      requires Shape() && KeyOk()
      requires |head| == 0 || |head| == 16
      requires |data| % 16 == 0
      modifies hash_state
      ensures hash_state[..] == GhashFrom(H(), old(hash_state[..]), head + data)
    {
      hide Mul, Xor;
      ghost var y: Block := hash_state[..];
      if |head| != 0 {
        GhashUpdateBlock(head);
        GhashOneBlock(H(), y, [], head);
      }
      assert head + data[..0] == head;
      for n := 0 to |data| / 16
        invariant hash_state[..] == GhashFrom(H(), y, head + data[..16 * n])
      {
        GhashUpdateBlock(data[16 * n..16 * n + 16]);
        GhashNextBlock(H(), y, head, data, n);
      }
      assert data[..16 * (|data| / 16)] == data;
    }

    /** `stream` ends with the block `head`, which GHASH has not seen yet. */
    ghost predicate Pending(head: seq<byte>)
      requires Shape()
      reads this`buf_pos, this`stream, hash_state
    {
      && buf_pos == 0 && |stream| % 16 == 0
      && (|head| == 0 || |head| == 16) && |head| <= |stream|
      && stream[|stream| - |head|..] == head
      && hash_state[..] == GhashFrom(H(), ZERO, stream[..|stream| - |head|])
    }

    /** The buffered branch: append to buf_hash, handing out the block when it is full. */
    method Fill(chunk: seq<byte>) returns (head: seq<byte>)
      requires Shape() && KeyOk() && HashOk() && buf_pos + |chunk| <= 16 && |chunk| > 0
      modifies this`buf_pos, this`stream, buf_hash
      ensures stream == old(stream) + chunk
      ensures old(buf_pos) + |chunk| < 16 ==> HashOk() && buf_pos == old(buf_pos) + |chunk|
      ensures old(buf_pos) + |chunk| == 16 ==> |head| == 16 && Pending(head)
    {
      hide GhashFrom;
      ghost var whole := |stream| - buf_pos;
      Memcpy(buf_hash, buf_pos, chunk);
      stream := stream + chunk;
      buf_pos := buf_pos + |chunk|;
      assert stream[..whole] == old(stream[..whole]);
      assert stream[whole..] == old(stream[whole..]) + chunk;
      assert |stream| == whole + buf_pos && whole % 16 == 0;
      head := [];
      if buf_pos == 16 {
        head := buf_hash[..];
        buf_pos := 0;
      }
    }

    method HashWhole(head: seq<byte>, data: seq<byte>)
      requires Shape() && KeyOk() && Pending(head) && |data| % 16 == 0
      modifies this`stream, hash_state
      ensures stream == old(stream) + data && buf_pos == 0 && HashOk()
    {
      hide GhashFrom;
      ghost var before := stream[..|stream| - |head|];
      GhashUpdate(head, data);
      stream := stream + data;
      assert stream == before + (head + data);
      GhashFromConcat(H(), ZERO, before, head + data);
      assert stream[..|stream|] == stream;
      PendingNone();
    }

    /** The loop of __gcm_update_aad. */
    method Absorb(data: seq<byte>, addr: nat)
      requires Shape() && KeyOk() && HashOk()
      modifies this`buf_pos, this`stream, hash_state, buf_hash
      ensures KeyOk() && HashOk() && stream == old(stream) + data
    {
      hide *;
      var d, head := 0, [];
      assert old(stream) + data[..0] == old(stream);
      while d < |data|
        invariant 0 <= d <= |data|
        invariant KeyOk() && HashOk() && stream == old(stream) + data[..d]
        // A head left over from the previous round is always replaced before the next hashing.
        invariant d == |data| || head == [] || (buf_pos == 0 && (|data| - d < 16 || !BlockAligned(addr + d)))
      {
        var n;
        head, n := AbsorbRound(head, data[d..], addr + d);
        assert data[..d] + data[d..][..n] == data[..d + n];
        d := d + n;
      }
      assert data[..d] == data;
    }

    /** One round of the loop, over the first n bytes of rest; head0 is the head the previous round left behind. */
    method AbsorbRound(head0: seq<byte>, rest: seq<byte>, addr: nat) returns (head: seq<byte>, n: nat)
      requires Shape() && KeyOk() && HashOk() && rest != []
      requires head0 == [] || (buf_pos == 0 && (|rest| < 16 || !BlockAligned(addr)))
      modifies this`buf_pos, this`stream, hash_state, buf_hash
      ensures 0 < n <= |rest| && KeyOk() && HashOk() && stream == old(stream) + rest[..n]
      ensures n == |rest| || head == [] || (buf_pos == 0 && (|rest| - n < 16 || !BlockAligned(addr + n)))
    {
      hide *;
      HashOkBound();
      Distinct();
      head, n := head0, 0;
      if buf_pos != 0 || !BlockAligned(addr) || |rest| < 16 {
        n := if 16 - buf_pos <= |rest| then 16 - buf_pos else |rest|;
        var pos := buf_pos;
        head := Fill(rest[..n]);
        if pos + n != 16 {
          return;
        }
      } else {
        PendingNone();
      }
      var k := if BlockAligned(addr + n) then (|rest| - n) / 16 else 0;
      HashWhole(head, rest[n..n + 16 * k]);
      assert rest[..n] + rest[n..n + 16 * k] == rest[..n + 16 * k];
      n := n + 16 * k;
    }

    /** __gcm_update_aad; addr is the address of data. */
    method UpdateAad(data: seq<byte>, addr: nat) returns (status: Status)
      requires Valid()
      modifies this`aad_bytes, this`buf_pos, this`stream, hash_state, buf_hash
      ensures Valid()
      ensures status == if old(payload_bytes) != 0 then BAD_PARAMETERS else SUCCESS
      ensures status.SUCCESS? ==> stream == old(stream) + data && aad_bytes == (old(aad_bytes) + |data|) % TWO32
      ensures !status.SUCCESS? ==> stream == old(stream) && aad_bytes == old(aad_bytes)
    {
      hide KeyOk, HashOk, CrypOk;
      if payload_bytes != 0 {
        return BAD_PARAMETERS;
      }
      aad_bytes := (aad_bytes + |data|) % TWO32;
      Absorb(data, addr);
      return SUCCESS;
    }

    /** Payload bytes may follow: the key stream and the hash buffer are at the same place in a block. */
    ghost predicate PayloadOk()
      requires Shape()
      reads this`buf_pos, this`stream, this`mode, this`nonce, this`done, hash_state, buf_hash, ctr, buf_cryp
    {
      HashOk() && CrypOk() && buf_pos == done % 16
    }

    /** dst is no buffer of this state. */
    ghost predicate Apart(dst: array<byte>)
      reads {}
    {
      dst != hash_subkey && dst != ctr && dst != hash_state && dst != buf_tag && dst != buf_hash && dst != buf_cryp
    }

    /** buf_cryp becomes the encrypted counter block. */
    method EncryptCounter()
      requires Shape()
      modifies buf_cryp
      ensures buf_cryp[..] == E(ctr[..])
    {
      Memcpy(buf_cryp, 0, E(ctr[..]));
    }

    /** internal_aes_gcm_ghash_update(state, head, NULL, 0) */
    method HashHead(head: Block)
      requires Shape() && KeyOk() && HashOk() && buf_pos == 0
      modifies this`stream, hash_state
      ensures stream == old(stream) + head && HashOk()
    {
      hide KeyOk, GhashFrom;
      ghost var before := stream;
      assert before[..|before|] == before;
      stream := stream + head;
      assert stream[..|stream| - 16] == before && stream[|stream| - 16..] == head;
      assert stream + [] == stream;
      HashWhole(head, []);
    }

    /** Fill the xor buffer if decryption needs it now, and xor s into it. */
    method TakeKeyStream(m: Mode, s: seq<byte>) returns (out: seq<byte>)
      requires Shape() && CrypOk() && mode == m && 0 < |s| && done % 16 + |s| <= 16
      requires buf_pos == done % 16
      modifies buf_cryp
      ensures out == Gctr(E, Icb(), done, s)
      ensures done % 16 + |s| < 16 ==> StreamAt(E, m, Icb(), done + |s|, ctr[..], buf_cryp[..])
      ensures done % 16 + |s| == 16 ==>
        StreamAt(E, m, Icb(), done + |s|, Inc(ctr[..]), if m == ENCRYPT then E(ctr[..]) else buf_cryp[..])
      ensures (done + |s|) % 16 == (done % 16 + |s|) % 16
    {
      hide Xor, Gctr, Inc, Ctr, StreamAt, Keyed, Icb;
      StreamKeyed(E, m, Icb(), done, ctr[..], buf_cryp[..]);
      if buf_pos == 0 && m == DECRYPT {
        EncryptCounter();
      }
      ghost var k := buf_cryp[..];
      XorBuf(buf_cryp, buf_pos, s);
      out := buf_cryp[buf_pos..buf_pos + |s|];
      KeyedXor(E, m, Icb(), done, ctr[..], k, s, out);
      StreamAdvances(E, m, Icb(), done, ctr[..], k, |s|, buf_cryp[..]);
    }

    /** encrypt_block */
    method EncryptBlock(src: Block) returns (out: Block)
      requires Shape() && KeyOk() && PayloadOk() && mode == ENCRYPT && buf_pos == 0
      modifies this`stream, this`done, ctr, hash_state, buf_cryp
      ensures KeyOk() && PayloadOk() && done == old(done) + 16
      ensures out == Gctr(E, Icb(), old(done), src) && stream == old(stream) + out
    {
      hide Gctr, Inc, KeyOk, HashOk, StreamAt, Icb;
      out := TakeKeyStream(ENCRYPT, src);
      HashHead(out);
      EncryptCounter();
      IncCtr();
      done := done + 16;
    }

    /** decrypt_block */
    method DecryptBlock(src: Block) returns (out: Block)
      requires Shape() && KeyOk() && PayloadOk() && mode == DECRYPT && buf_pos == 0
      modifies this`stream, this`done, ctr, hash_state, buf_cryp
      ensures KeyOk() && PayloadOk() && done == old(done) + 16
      ensures out == Gctr(E, Icb(), old(done), src) && stream == old(stream) + src
    {
      hide Xor, Gctr, Inc, Ctr, KeyOk, HashOk, StreamAt, Keyed, Splice, Icb;
      ghost var c := ctr[..];
      StreamKeyed(E, mode, Icb(), done, ctr[..], buf_cryp[..]);
      EncryptCounter();
      ghost var k := buf_cryp[..];
      StreamAdvances(E, mode, Icb(), done, c, k, 16, Xor(k, src));
      IncCtr();
      XorBuf(buf_cryp, 0, src);
      HashHead(src);
      out := buf_cryp[..];
      assert k[0..16] == k;
      KeyedXor(E, mode, Icb(), done, c, k, src, out);
      done := done + 16;
    }

    /** internal_aes_gcm_update_payload_blocks */
    method UpdatePayloadBlocks(m: Mode, src: seq<byte>, dst: array<byte>, off: nat)
      requires Shape() && KeyOk() && PayloadOk() && buf_pos == 0 && mode == m
      requires |src| % 16 == 0 && off + |src| <= dst.Length && Apart(dst)
      modifies this`stream, this`done, ctr, hash_state, buf_cryp, dst
      ensures KeyOk() && PayloadOk() && buf_pos == 0 && done == old(done) + |src|
      ensures dst[..] == Splice(old(dst[..]), off, Gctr(E, Icb(), old(done), src))
      ensures stream == old(stream) + HashedSide(m, src, Gctr(E, Icb(), old(done), src))
    {
      hide Gctr, KeyOk, PayloadOk, Splice, Icb;
      ghost var icb, from := Icb(), done;
      GctrEmpty(E, icb, from);
      SpliceNothing(dst[..], off);
      assert src[..0] == [] && stream + [] == stream;
      for n := 0 to |src| / 16
        invariant KeyOk() && PayloadOk() && done == from + 16 * n
        invariant dst[..] == Splice(old(dst[..]), off, Gctr(E, icb, from, src[..16 * n]))
        invariant stream == old(stream) + HashedSide(m, src[..16 * n], Gctr(E, icb, from, src[..16 * n]))
      {
        var s: Block := src[16 * n..16 * n + 16];
        var out: Block;
        if m == ENCRYPT {
          out := EncryptBlock(s);
        } else {
          out := DecryptBlock(s);
        }
        Memcpy(dst, off + 16 * n, out);
        assert src[..16 * n] + s == src[..16 * (n + 1)];
        GctrConcat(E, icb, from, src[..16 * n], s);
        SpliceTwice(old(dst[..]), off, Gctr(E, icb, from, src[..16 * n]), out);
      }
      assert src[..16 * (|src| / 16)] == src;
    }

    /** The buffered branch of __gcm_update_payload. */
    method Partial(m: Mode, s: seq<byte>, dst: array<byte>, off: nat)
      requires Shape() && KeyOk() && PayloadOk() && mode == m
      requires 0 < |s| && buf_pos + |s| <= 16 && off + |s| <= dst.Length && Apart(dst)
      modifies this`stream, this`done, this`buf_pos, ctr, hash_state, buf_hash, buf_cryp, dst
      ensures KeyOk() && PayloadOk() && done == old(done) + |s|
      ensures dst[..] == Splice(old(dst[..]), off, Gctr(E, Icb(), old(done), s))
      ensures stream == old(stream) + HashedSide(m, s, Gctr(E, Icb(), old(done), s))
    {
      hide Gctr, Inc, KeyOk, HashOk, StreamAt, Icb, Pending, Splice;
      var full := buf_pos + |s| == 16;
      var out := TakeKeyStream(m, s);
      Memcpy(dst, off, out);
      var head := Fill(if m == ENCRYPT then out else s);
      if full {
        HashWhole(head, []);
        assert stream + [] == stream;
        if m == ENCRYPT {
          EncryptCounter();
        }
        IncCtr();
      }
      done := done + |s|;
    }

    /** Zero-fill buf_hash and hash it. */
    method Flush()
      requires Shape() && KeyOk() && HashOk()
      modifies this`stream, this`buf_pos, hash_state, buf_hash
      ensures KeyOk() && HashOk() && buf_pos == 0 && stream == Pad(old(stream))
    {
      hide KeyOk, HashOk, Pending;
      HashOkBound();
      if buf_pos != 0 {
        var head := Fill(Zeros(16 - buf_pos));
        HashWhole(head, []);
        assert stream + [] == stream;
      }
    }

    /** The loop of __gcm_update_payload. */
    method Process(m: Mode, src: seq<byte>, dst: array<byte>, off: nat)
      requires Shape() && KeyOk() && PayloadOk() && mode == m
      requires off + |src| <= dst.Length && Apart(dst)
      modifies this`stream, this`done, this`buf_pos, ctr, hash_state, buf_hash, buf_cryp, dst
      ensures KeyOk() && PayloadOk() && done == old(done) + |src|
      ensures dst[..] == Splice(old(dst[..]), off, Gctr(E, Icb(), old(done), src))
      ensures stream == old(stream) + HashedSide(m, src, Gctr(E, Icb(), old(done), src))
    {
      hide Gctr, KeyOk, PayloadOk, Splice, Icb, Shape;
      ghost var icb, from := Icb(), done;
      GctrEmpty(E, icb, from);
      SpliceNothing(dst[..], off);
      assert src[..0] == [] && stream + [] == stream;
      var i := 0;
      while i < |src|
        invariant 0 <= i <= |src|
        invariant KeyOk() && PayloadOk() && done == from + i
        invariant dst[..] == Splice(old(dst[..]), off, Gctr(E, icb, from, src[..i]))
        invariant stream == old(stream) + HashedSide(m, src[..i], Gctr(E, icb, from, src[..i]))
      {
        var n := Piece(m, src[i..], dst, off + i);
        ghost var s := src[i..][..n];
        assert src[..i] + s == src[..i + n];
        GctrConcat(E, icb, from, src[..i], s);
        SpliceTwice(old(dst[..]), off, Gctr(E, icb, from, src[..i]), Gctr(E, icb, from + i, s));
        i := i + n;
      }
      assert src[..i] == src;
    }

    /** One round of the loop: the rest of a block, or all the whole blocks there are. */
    method Piece(m: Mode, rest: seq<byte>, dst: array<byte>, off: nat) returns (n: nat)
      requires Shape() && KeyOk() && PayloadOk() && mode == m
      requires rest != [] && off + |rest| <= dst.Length && Apart(dst)
      modifies this`stream, this`done, this`buf_pos, ctr, hash_state, buf_hash, buf_cryp, dst
      ensures 0 < n <= |rest| && KeyOk() && PayloadOk() && done == old(done) + n
      ensures dst[..] == Splice(old(dst[..]), off, Gctr(E, Icb(), old(done), rest[..n]))
      ensures stream == old(stream) + HashedSide(m, rest[..n], Gctr(E, Icb(), old(done), rest[..n]))
    {
      hide Gctr, KeyOk, PayloadOk, Splice, Icb, Shape, HashedSide;
      PayloadPosition();
      if buf_pos != 0 || |rest| < 16 {
        n := if 16 - buf_pos <= |rest| then 16 - buf_pos else |rest|;
        Partial(m, rest[..n], dst, off);
      } else {
        n := |rest| / 16 * 16;
        UpdatePayloadBlocks(m, rest[..n], dst, off);
      }
    }

    lemma PayloadPosition()
      requires Shape() && PayloadOk()
      ensures buf_pos < 16
    {
    }

    /** __gcm_update_payload */
    method UpdatePayload(m: Mode, src: seq<byte>, dst: array<byte>, off: nat)
      requires Valid() && mode == m
      requires off + |src| <= dst.Length && Apart(dst)
      modifies this`stream, this`done, this`payload_bytes, this`buf_pos, ctr, hash_state, buf_hash, buf_cryp, dst
      ensures Valid() && PayloadOk() && done == old(done) + |src|
      ensures dst[..] == Splice(old(dst[..]), off, Gctr(E, Icb(), old(done), src))
      ensures stream == PaddedAad(old(payload_bytes), old(stream))
        + HashedSide(m, src, Gctr(E, Icb(), old(done), src))
    {
      hide Gctr, KeyOk, HashOk, CrypOk, Splice, Icb, Pad;
      if payload_bytes == 0 {
        // A flush with an empty buffer does nothing, as in the source.
        Flush();
      }
      BytesCounted(done, |src|);
      payload_bytes := (payload_bytes + |src|) % TWO32;
      Process(m, src, dst, off);
    }

    /** operation_final */
    method Finish(m: Mode, src: seq<byte>, dst: array<byte>, off: nat)
      requires Valid() && mode == m
      requires off + |src| <= dst.Length && Apart(dst)
      modifies this`stream, this`done, this`payload_bytes, this`buf_pos
      modifies ctr, hash_state, buf_hash, buf_cryp, buf_tag, dst
      ensures dst[..] == Splice(old(dst[..]), off, Gctr(E, Icb(), old(done), src))
      ensures
        var padded := PaddedAad(old(payload_bytes), old(stream));
        var hashed := padded + HashedSide(m, src, Gctr(E, Icb(), old(done), src));
        buf_tag[..tag_len] == FullTag(E, nonce, Pad(hashed), aad_bytes, old(done) + |src|)[..tag_len]
    {
      hide Gctr, KeyOk, HashOk, CrypOk, Splice, Icb, Pad, FullTag, PayloadOk, HashedSide;
      UpdatePayload(m, src, dst, off);
      FullTagOfLengths(E, nonce, Pad(stream), aad_bytes, done);
      CloseTag();
    }

    /** The second half of operation_final: padding, lengths, tag. */
    method CloseTag()
      requires Valid()
      modifies this`stream, this`buf_pos, hash_state, buf_hash, buf_tag
      ensures buf_tag[..tag_len] == FullTag(E, nonce, Pad(old(stream)), aad_bytes, payload_bytes)[..tag_len]
    {
      hide KeyOk, CrypOk, Xor8, Inc, Lengths, GhashFrom, J0;
      Flush();
      assert stream[..|stream|] == stream;
      var lengths := Lengths(aad_bytes, payload_bytes);
      GhashUpdate(lengths, []);
      assert lengths + [] == lengths;
      GhashFromConcat(H(), ZERO, stream, lengths);
      XorTag();
    }

    /** The last xor of operation_final. */
    method XorTag()
      requires Shape() && tag_len <= 16
      modifies buf_tag
      ensures buf_tag[..tag_len] == Xor(old(buf_tag[..]), hash_state[..])[..tag_len]
    {
      hide Xor8;
      ghost var t, s := buf_tag[..], hash_state[..];
      XorBuf(buf_tag, 0, hash_state[..tag_len]);
      assert buf_tag[..tag_len] == Xor(t, s)[..tag_len];
    }

    /** __gcm_enc_final; room is the length of the caller's tag buffer. */
    method EncFinal(src: seq<byte>, dst: array<byte>, off: nat, room: nat) returns (status: Status, tag: seq<byte>)
      requires Valid() && mode == ENCRYPT
      requires off + |src| <= dst.Length && Apart(dst)
      modifies this`stream, this`done, this`payload_bytes, this`buf_pos
      modifies ctr, hash_state, buf_hash, buf_cryp, buf_tag, dst
      ensures status == if room < tag_len then SHORT_BUFFER else SUCCESS
      ensures status.SHORT_BUFFER? ==>
        Valid() && dst[..] == old(dst[..]) && stream == old(stream) && done == old(done)
      ensures status.SUCCESS? ==>
        var out := Gctr(E, Icb(), old(done), src);
        && dst[..] == Splice(old(dst[..]), off, out)
        && tag == FullTag(E, nonce, Pad(PaddedAad(old(payload_bytes), old(stream)) + out),
                          aad_bytes, old(done) + |src|)[..tag_len]
    {
      hide Gctr, KeyOk, HashOk, CrypOk, Splice, Icb, Pad, FullTag;
      if room < tag_len {
        return SHORT_BUFFER, [];
      }
      Finish(ENCRYPT, src, dst, off);
      return SUCCESS, buf_tag[..tag_len];
    }

    /** __gcm_dec_final */
    method DecFinal(src: seq<byte>, dst: array<byte>, off: nat, tag: seq<byte>) returns (status: Status)
      requires Valid() && mode == DECRYPT
      requires off + |src| <= dst.Length && Apart(dst)
      modifies this`stream, this`done, this`payload_bytes, this`buf_pos
      modifies ctr, hash_state, buf_hash, buf_cryp, buf_tag, dst
      ensures |tag| != tag_len ==> status == MAC_INVALID && Valid() && dst[..] == old(dst[..])
      ensures |tag| == tag_len ==>
        && dst[..] == Splice(old(dst[..]), off, Gctr(E, Icb(), old(done), src))
        && status == (if tag == FullTag(E, nonce, Pad(PaddedAad(old(payload_bytes), old(stream)) + src),
                                        aad_bytes, old(done) + |src|)[..tag_len]
                      then SUCCESS else MAC_INVALID)
    {
      hide Gctr, KeyOk, HashOk, CrypOk, Splice, Icb, Pad, FullTag;
      if |tag| != tag_len {
        return MAC_INVALID;
      }
      Finish(DECRYPT, src, dst, off);
      return if buf_tag[..tag_len] == tag then SUCCESS else MAC_INVALID;
    }

    /** internal_aes_gcm_set_key */
    method SetKey()
      requires Shape() && ctr[..] == Zeros(16)
      modifies table.HL, table.HH, hash_subkey
      ensures KeyOk()
    {
      if tableBased {
        table.GenTbl(E(Zeros(16)));
      } else {
        Memcpy(hash_subkey, 0, E(ctr[..]));
      }
    }

    /** ghash_update_pad_zero */
    method HashPadded(data: seq<byte>, addr: nat)
      requires Shape() && KeyOk() && hash_state[..] == ZERO
      modifies hash_state
      ensures hash_state[..] == GhashFrom(H(), ZERO, Pad(data))
    {
      hide KeyOk, GhashFrom, Pad;
      HashFullBlocks(data, addr);
      var n := |data| / 16;
      PadSplits(data);
      if |data| % 16 != 0 {
        var block := data[16 * n..] + Zeros(16 - |data| % 16);
        GhashUpdate(block, []);
        assert block + [] == block;
        GhashFromConcat(H(), ZERO, data[..16 * n], block);
      }
    }

    /** Its whole blocks: one call for an aligned buffer, a copy of each block otherwise. */
    method HashFullBlocks(data: seq<byte>, addr: nat)
      requires Shape() && KeyOk() && hash_state[..] == ZERO
      modifies hash_state
      ensures KeyOk() && hash_state[..] == GhashFrom(H(), ZERO, data[..|data| / 16 * 16])
    {
      hide KeyOk, GhashFrom, BlockAligned, H, Mul, Xor;
      var n := |data| / 16;
      assert 16 * n == |data| / 16 * 16;
      if BlockAligned(addr) {
        GhashUpdate([], data[..16 * n]);
        assert [] + data[..16 * n] == data[..16 * n];
      } else {
        assert data[..0] == [];
        GhashFromNothing(H(), ZERO);
        for m := 0 to n
          invariant KeyOk() && hash_state[..] == GhashFrom(H(), ZERO, data[..16 * m])
        {
          var block := data[16 * m..16 * m + 16];
          GhashUpdate([], block);
          GhashFromConcat(H(), ZERO, data[..16 * m], [] + block);
          assert data[..16 * m] + ([] + block) == data[..16 * (m + 1)];
        }
      }
    }

    /** __gcm_init; nonceAddr is the address of the nonce. */
    method Init(mode: Mode, nonce: seq<byte>, nonceAddr: nat, tagLen: nat) returns (status: Status)
      requires Shape()
      modifies this, table.HL, table.HH, hash_subkey, ctr, hash_state, buf_tag, buf_hash, buf_cryp
      ensures status == if tagLen > 16 then BAD_PARAMETERS else SUCCESS
      ensures status.SUCCESS? ==> Valid() && stream == [] && aad_bytes == 0 && done == 0
      ensures status.SUCCESS? ==> this.mode == mode && this.nonce == nonce && tag_len == tagLen
    {
      hide *;
      if tagLen > 16 {
        return BAD_PARAMETERS;
      }
      Prepare(nonce, nonceAddr);
      tag_len := tagLen;
      this.nonce, this.mode := nonce, mode;
      AllDistinct();
      StartStream(mode);
      Started();
      return SUCCESS;
    }

    lemma AllDistinct()
      requires Shape()
      ensures hash_subkey != ctr && hash_subkey != hash_state && hash_subkey != buf_tag && hash_subkey != buf_hash
      ensures hash_subkey != buf_cryp && ctr != hash_state && ctr != buf_tag && ctr != buf_hash && ctr != buf_cryp
      ensures hash_state != buf_tag && hash_state != buf_hash && hash_state != buf_cryp
    {
    }

    lemma Started()
      requires Shape() && KeyOk() && hash_state[..] == ZERO && buf_tag[..] == E(J0(E, nonce)) && tag_len <= 16
      requires stream == [] && done == 0 && aad_bytes == 0 && payload_bytes == 0 && buf_pos == 0
      requires StreamAt(E, mode, Inc(J0(E, nonce)), 0, ctr[..], buf_cryp[..])
      ensures Valid()
    {
    }

    /** The steps of __gcm_init that do not depend on the mode. */
    method Prepare(nonce: seq<byte>, nonceAddr: nat)
      requires Shape()
      modifies this, table.HL, table.HH, hash_subkey, ctr, hash_state, buf_tag, buf_hash, buf_cryp
      ensures KeyOk() && ctr[..] == J0(E, nonce) && hash_state[..] == ZERO
      ensures stream == [] && done == 0 && aad_bytes == 0 && payload_bytes == 0 && buf_pos == 0
    {
      hide KeyOk, J0;
      Clear();
      SetKey();
      StartCounter(nonce, nonceAddr);
    }

    /** The end of __gcm_init: tag mask and, for encryption, the first key stream block. */
    method StartStream(mode: Mode)
      requires Shape()
      modifies ctr, buf_tag, buf_cryp
      ensures buf_tag[..] == E(old(ctr[..]))
      ensures StreamAt(E, mode, Inc(old(ctr[..])), 0, ctr[..], buf_cryp[..])
    {
      hide Inc, StreamAt;
      Memcpy(buf_tag, 0, E(ctr[..]));
      IncCtr();
      StreamStarts(E, ctr[..], buf_cryp[..]);
      if mode == ENCRYPT {
        EncryptCounter();
        IncCtr();
      }
    }

    /** memset(state, 0, sizeof(*state)) */
    method Clear()
      requires Shape()
      modifies this, ctr, hash_state, buf_tag, buf_hash, buf_cryp
      ensures stream == [] && done == 0 && aad_bytes == 0 && payload_bytes == 0 && buf_pos == 0
      ensures ctr[..] == hash_state[..] == Zeros(16)
    {
      Memcpy(ctr, 0, Zeros(16));
      Memcpy(hash_state, 0, Zeros(16));
      Memcpy(buf_tag, 0, Zeros(16));
      Memcpy(buf_hash, 0, Zeros(16));
      Memcpy(buf_cryp, 0, Zeros(16));
      tag_len, aad_bytes, payload_bytes, buf_pos := 0, 0, 0, 0;
      stream, done := [], 0;
    }

    /** The first counter block: the nonce itself or its hash. */
    method StartCounter(nonce: seq<byte>, nonceAddr: nat)
      requires Shape() && KeyOk() && ctr[..] == hash_state[..] == Zeros(16)
      modifies ctr, hash_state
      ensures ctr[..] == J0(E, nonce) && hash_state[..] == ZERO
    {
      hide KeyOk, GhashFrom, Inc, Pad;
      if |nonce| == 12 {
        Memcpy(ctr, 0, nonce);
        ghost var start := ctr[..];
        assert start == nonce + Zeros(4);
        IncCtr();
        FirstCounter(nonce);
      } else {
        HashPadded(nonce, nonceAddr);
        var lengths := Lengths(0, |nonce|);
        GhashUpdate(lengths, []);
        assert lengths + [] == lengths;
        GhashFromConcat(H(), ZERO, Pad(nonce), lengths);
        LengthsOfNonce(nonce);
        Memcpy(ctr, 0, hash_state[..]);
        Memcpy(hash_state, 0, Zeros(16));
      }
    }
  }

  lemma FirstCounter(nonce: seq<byte>)
    requires |nonce| == 12
    ensures Inc(nonce + Zeros(4)) == nonce + Zeros(3) + [1]
  {
    hide FromBe, ToBe, Pow256, Zeros;
    var n := FromBe(nonce);
    FromBeConcat(nonce, Zeros(4));
    ZerosAreZero(4);
    ZerosAreZero(3);
    var one: seq<byte> := Zeros(3) + [1];
    FromBeConcat(nonce, one);
    FromBeConcat(Zeros(3), [1]);
    FromBeOne();
    FromBeBound(nonce + one);
    Pow256Values();
    ToFromBe(nonce + one);
    assert nonce + one == nonce + Zeros(3) + [1];
  }

  lemma LengthsOfNonce(nonce: seq<byte>)
    ensures Pad(nonce) + Lengths(0, |nonce|) == NonceBlocks(nonce, LenField(|nonce|))
  {
    hide ToBe;
    ZerosAreZero(8);
  }

  /** What a payload call makes of the bytes fed before it: the first one pads the associated data. */
  function PaddedAad(payloadBytes: nat, stream: seq<byte>): seq<byte> {
    if payloadBytes == 0 then Pad(stream) else stream
  }

  /** What GHASH is fed: always the ciphertext. */
  function HashedSide(m: Mode, src: seq<byte>, out: seq<byte>): seq<byte> {
    if m == ENCRYPT then out else src
  }

  lemma GctrEmpty(E: Cipher, icb: Block, from: nat)
    ensures Gctr(E, icb, from, []) == []
  {
  }

  lemma GhashFromNothing(h: Block, y: Block)
    ensures GhashFrom(h, y, []) == y
  {
  }

  /** The 32-bit byte count; where it is zero, also after a wrap, a whole number of blocks has been done. */
  lemma BytesCounted(done: nat, n: nat)
    ensures (done % TWO32 + n) % TWO32 == (done + n) % TWO32
    ensures done % TWO32 == 0 ==> done % 16 == 0
  {
  }

  /** The length fields only see the byte counts modulo 2^32. */
  lemma CountedLengths(a: nat, c: nat)
    ensures Lengths(a % TWO32, c) == Lengths(a, c) == Lengths(a, c % TWO32)
  {
    hide ToBe;
    assert (a % TWO32) * 8 % TWO32 == a * 8 % TWO32 && (c % TWO32) * 8 % TWO32 == c * 8 % TWO32;
  }

  lemma FullTagOfLengths(E: Cipher, nonce: seq<byte>, hashed: seq<byte>, a: nat, c: nat)
    requires |hashed| % 16 == 0
    ensures FullTag(E, nonce, hashed, a % TWO32, c) == FullTag(E, nonce, hashed, a, c)
    ensures FullTag(E, nonce, hashed, a, c % TWO32) == FullTag(E, nonce, hashed, a, c)
  {
    hide Lengths, J0, GhashFrom, Xor;
    CountedLengths(a, c);
  }

  lemma PadSplits(s: seq<byte>)
    ensures
      var n := |s| / 16;
      Pad(s) == if |s| % 16 == 0 then s[..n * 16] else s[..n * 16] + (s[16 * n..] + Zeros(16 - |s| % 16))
  {
  }

  lemma GhashOneBlock(h: Block, y: Block, s: seq<byte>, b: Block)
    requires |s| % 16 == 0
    ensures |s + b| % 16 == 0 && GhashFrom(h, y, s + b) == Mul(Xor(GhashFrom(h, y, s), b), h)
  {
    assert (s + b)[..|s + b| - 16] == s && (s + b)[|s + b| - 16..] == b;
  }

  /** The two-word increment of the source is the 128-bit one. */
  lemma IncByWords(b: Block)
    ensures
      var c1 := (FromBe(b[8..]) + 1) % TWO64;
      Inc(b) == (if c1 == 0 then ToBe((FromBe(b[..8]) + 1) % TWO64, 8) else b[..8]) + ToBe(c1, 8)
  {
    hide FromBe, ToBe, Pow256;
    var hi, lo := FromBe(b[..8]), FromBe(b[8..]);
    var c1 := (lo + 1) % TWO64;
    var h := if c1 == 0 then ToBe((hi + 1) % TWO64, 8) else b[..8];
    var r: Block := h + ToBe(c1, 8);
    assert b == b[..8] + b[8..];
    WordsValue(b[..8], b[8..]);
    WordsValue(h, ToBe(c1, 8));
    WordToBe(c1);
    WordToBe((hi + 1) % TWO64);
    CarryBetweenWords(hi, lo);
    ToFromBe(r);
  }

  lemma WordsValue(a: seq<byte>, b: seq<byte>)
    requires |a| == |b| == 8
    ensures FromBe(a) < TWO64 && FromBe(b) < TWO64 && FromBe(a + b) == FromBe(a) * TWO64 + FromBe(b)
  {
    hide FromBe, Pow256;
    Pow256Values();
    FromBeBound(a);
    FromBeBound(b);
    FromBeConcat(a, b);
  }

  lemma WordToBe(n: nat)
    requires n < TWO64
    ensures FromBe(ToBe(n, 8)) == n
  {
    hide FromBe, ToBe, Pow256;
    Pow256Values();
    FromToBe(n, 8);
  }

  lemma GhashNextBlock(h: Block, y: Block, head: seq<byte>, data: seq<byte>, m: nat)
    requires |head| % 16 == 0 && 16 * m + 16 <= |data|
    ensures |head + data[..16 * m]| % 16 == 0 == |head + data[..16 * (m + 1)]| % 16
    ensures GhashFrom(h, y, head + data[..16 * (m + 1)])
         == Mul(Xor(GhashFrom(h, y, head + data[..16 * m]), data[16 * m..16 * m + 16]), h)
  {
    hide GhashFrom, Mul, Xor;
    var block := data[16 * m..16 * m + 16];
    assert head + data[..16 * m] + block == head + data[..16 * (m + 1)];
    GhashOneBlock(h, y, head + data[..16 * m], block);
  }

  lemma CarryBetweenWords(hi: nat, lo: nat)
    requires hi < TWO64 && lo < TWO64
    ensures
      var c1 := (lo + 1) % TWO64;
      (hi * TWO64 + lo + 1) % TWO128 == (if c1 == 0 then (hi + 1) % TWO64 else hi) * TWO64 + c1
  {
  }
}
