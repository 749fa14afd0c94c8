/** CBC with ciphertext stealing (aes-cts.c) over any block cipher. */
module AesCts {
  import opened Bytes
  import opened Buffers
  import opened CbcMode

  // CBC-CS3: the last two ciphertext blocks are always swapped.

  function ZeroPadded(p: seq<byte>): (r: seq<byte>)
    ensures |r| == 16 * Blocks(|p|)
  {
    p + Zeros(16 * Blocks(|p|) - |p|)
  }

  /** Swap the last two blocks of c and keep only len bytes. */
  function SwapLast(c: seq<byte>, len: nat): (r: seq<byte>)
    requires 16 < len <= |c| == 16 * Blocks(len)
    ensures |r| == len
  {
    var n := Blocks(len);
    c[..16 * (n - 2)] + c[16 * (n - 1)..] + c[16 * (n - 2)..len - 16]
  }

  function CtsEncrypted(e: BlockFunction, iv: Block, p: seq<byte>): (c: seq<byte>)
    requires |p| > 16
    ensures |c| == |p|
  {
    SwapLast(Encrypted(e, iv, ZeroPadded(p)), |p|)
  }

  /** The CBC ciphertext behind c: the short block is completed from the decryption of the block before it. */
  function Unswapped(d: BlockFunction, c: seq<byte>): (r: seq<byte>)
    requires |c| > 16
    ensures |r| == 16 * Blocks(|c|)
  {
    var n := Blocks(|c|);
    var last := c[16 * (n - 2)..16 * (n - 1)];
    var short := c[16 * (n - 1)..];
    c[..16 * (n - 2)] + (short + d(last)[|short|..]) + last
  }

  function CtsDecrypted(d: BlockFunction, iv: Block, c: seq<byte>): (p: seq<byte>)
    requires |c| > 16
    ensures |p| == |c|
  {
    Decrypted(d, iv, Unswapped(d, c))[..|c|]
  }

  /** The last block of a CBC ciphertext decrypts to the last plaintext block xored with the block before. */
  lemma LastBlock(d: BlockFunction, e: BlockFunction, iv: Block, p: seq<byte>)
    requires Inverse(d, e) && |p| % 16 == 0 && |p| >= 32
    ensures
      var c := Encrypted(e, iv, p);
      d(c[|c| - 16..]) == Xor(p[|p| - 16..], c[|c| - 32..|c| - 16])
  {
    hide Xor, Encrypted;
    EncryptedOne(e, iv, p[..|p| - 16], p[|p| - 16..]);
    assert p == p[..|p| - 16] + p[|p| - 16..];
  }

  /** The block count of whole blocks followed by two blocks, the second one possibly short. */
  lemma BlocksOfParts(f: nat, b: nat)
    requires f % 16 == 0 && 0 < b <= 16
    ensures Blocks(f + 16 + b) == f / 16 + 2 && 16 * Blocks(f + 16 + b) == f + 32
  {
  }

  lemma SwapParts(f: seq<byte>, x: Block, y: Block, b: nat)
    requires |f| % 16 == 0 && 0 < b <= 16
    ensures 16 * Blocks(|f| + 16 + b) == |f + x + y| && SwapLast(f + x + y, |f| + 16 + b) == f + y + x[..b]
  {
    BlocksOfParts(|f|, b);
    var c := f + x + y;
    assert c[..|f|] == f && c[|f| + 16..] == y && c[|f|..|f| + b] == x[..b];
  }

  lemma UnswapParts(d: BlockFunction, f: seq<byte>, y: Block, short: seq<byte>)
    requires |f| % 16 == 0 && 0 < |short| <= 16
    ensures Unswapped(d, f + y + short) == f + (short + d(y)[|short|..]) + y
  {
    BlocksOfParts(|f|, |short|);
    var c := f + y + short;
    assert c[..|f|] == f && c[|f|..|f| + 16] == y && c[|f| + 16..] == short;
  }

  lemma PadParts(f: seq<byte>, x: seq<byte>, short: seq<byte>)
    requires |f| % 16 == 0 && |x| == 16 && 0 < |short| <= 16
    ensures ZeroPadded(f + x + short) == f + x + (short + Zeros(16 - |short|))
  {
    BlocksOfParts(|f|, |short|);
  }

  /** A message of more than one block is whole blocks, a block and a last part of at most one block. */
  lemma Parts(p: seq<byte>) returns (f: seq<byte>, x: Block, short: seq<byte>)
    requires |p| > 16
    ensures p == f + x + short && |f| % 16 == 0 && 0 < |short| <= 16
  {
    var at := 16 * (Blocks(|p|) - 2);
    f, x, short := p[..at], p[at..at + 16], p[at + 16..];
  }

  /** Stealing loses nothing: the swapped and truncated ciphertext determines the full one. */
  lemma UnswapsSwapped(d: BlockFunction, e: BlockFunction, iv: Block, p: seq<byte>)
    requires Inverse(d, e) && |p| > 16
    ensures Unswapped(d, CtsEncrypted(e, iv, p)) == Encrypted(e, iv, ZeroPadded(p))
  {
    hide Encrypted, Inverse, SwapLast, Unswapped, ZeroPadded, Blocks;
    var f, x, short := Parts(p);
    var b := |short|;
    PadParts(f, x, short);
    var q := f + x + (short + Zeros(16 - b));
    var c := Encrypted(e, iv, q);
    var g, before, last := c[..|f|], c[|f|..|f| + 16], c[|f| + 16..];
    assert c == g + before + last;
    SwapParts(g, before, last, b);
    UnswapParts(d, g, last, before[..b]);
    LastBlock(d, e, iv, q);
    assert q[|q| - 16..] == short + Zeros(16 - b);
    XorTail(short + Zeros(16 - b), before, b);
    assert before[..b] + before[b..] == before;
  }

  lemma XorTail(a: seq<byte>, x: seq<byte>, b: nat)
    requires |a| == |x| && b <= |a| && a[b..] == Zeros(|a| - b)
    ensures Xor(a, x)[b..] == x[b..]
  {
    hide Xor8;
    XorLaws(x[b..], x[b..]);
    assert Xor(a, x)[b..] == Xor(a[b..], x[b..]);
  }

  /** Decryption undoes encryption for every message of more than 16 bytes. */
  lemma CtsRoundTrip(d: BlockFunction, e: BlockFunction, iv: Block, p: seq<byte>)
    requires Inverse(d, e) && |p| > 16
    ensures CtsDecrypted(d, iv, CtsEncrypted(e, iv, p)) == p
  {
    hide Encrypted, Decrypted, Unswapped, CtsEncrypted;
    UnswapsSwapped(d, e, iv, p);
    DecryptsEncrypted(d, e, iv, ZeroPadded(p));
  }

  /** The ciphertext in parts. */
  lemma CtsParts(e: BlockFunction, iv: Block, f: seq<byte>, x: Block, short: seq<byte>)
    requires |f| % 16 == 0 && 0 < |short| <= 16
    ensures
      var c := Encrypted(e, iv, f + x + (short + Zeros(16 - |short|)));
      CtsEncrypted(e, iv, f + x + short) == c[..|f|] + c[|f| + 16..] + c[|f|..|f| + |short|]
  {
    hide Encrypted, SwapLast, ZeroPadded, Blocks;
    PadParts(f, x, short);
    var c := Encrypted(e, iv, f + x + (short + Zeros(16 - |short|)));
    assert c == c[..|f|] + c[|f|..|f| + 16] + c[|f| + 16..];
    SwapParts(c[..|f|], c[|f|..|f| + 16], c[|f| + 16..], |short|);
    assert c[|f|..|f| + 16][..|short|] == c[|f|..|f| + |short|];
  }

  // Block by block, as in the addendum to NIST SP 800-38A (CBC-CS3).

  /**
   With its last two parts put back, x completing the short one, the ciphertext is the CBC encryption of the message
   padded with zeros.
   */
  ghost predicate EncryptedWith(e: BlockFunction, iv: Block, p: seq<byte>, c: seq<byte>, x: seq<byte>)
    requires |p| == |c| > 16
  {
    var at := (|p| - 1) / 16 * 16 - 16;
    var b := |p| - at - 16;
    && |x| == 16 && c[at + 16..] == x[..b]
    && IsCbcEncryption(e, iv, p + Zeros(16 - b), c[..at] + x + c[at..at + 16])
  }

  ghost predicate IsCtsEncryption(e: BlockFunction, iv: Block, p: seq<byte>, c: seq<byte>) {
    |p| == |c| > 16 && exists x :: EncryptedWith(e, iv, p, c, x)
  }

  /** x is the short part and the end of the decrypted block in front of it, q the decryption of the CBC ciphertext. */
  ghost predicate DecryptedWith(d: BlockFunction, iv: Block, c: seq<byte>, p: seq<byte>, x: seq<byte>, q: seq<byte>)
    requires |c| == |p| > 16
  {
    var at := (|c| - 1) / 16 * 16 - 16;
    var b := |c| - at - 16;
    && |x| == 16 && x[..b] == c[at + 16..] && x[b..] == d(c[at..at + 16])[b..]
    && |q| == at + 32 && q[..|c|] == p
    && IsCbcDecryption(d, iv, c[..at] + x + c[at..at + 16], q)
  }

  ghost predicate IsCtsDecryption(d: BlockFunction, iv: Block, c: seq<byte>, p: seq<byte>) {
    |c| == |p| > 16 && exists x, q :: DecryptedWith(d, iv, c, p, x, q)
  }

  lemma PartsAt(f: nat, b: nat)
    requires f % 16 == 0 && 0 < b <= 16
    ensures (f + 16 + b - 1) / 16 * 16 - 16 == f
  {
  }

  /** Where stealing leaves every block. */
  lemma CtsEncrypts(e: BlockFunction, iv: Block, p: seq<byte>)
    requires |p| > 16
    ensures IsCtsEncryption(e, iv, p, CtsEncrypted(e, iv, p))
  {
    hide Encrypted, IsCbcEncryption, CtsEncrypted;
    var f, x0, short := Parts(p);
    PartsAt(|f|, |short|);
    CtsParts(e, iv, f, x0, short);
    var q := f + x0 + (short + Zeros(16 - |short|));
    assert p + Zeros(16 - |short|) == q;
    EncryptedBlocks(e, iv, q);
    var cc, c := Encrypted(e, iv, q), CtsEncrypted(e, iv, p);
    PutBack(cc, c, |f|, |short|);
    assert EncryptedWith(e, iv, p, c, cc[|f|..|f| + 16]);
  }

  /** The last two blocks exchanged, the short one completed. */
  lemma PutBack(cc: seq<byte>, c: seq<byte>, at: nat, b: nat)
    requires |cc| == at + 32 && b <= 16 && c == cc[..at] + cc[at + 16..] + cc[at..at + b]
    ensures c[..at] + cc[at..at + 16] + c[at..at + 16] == cc && c[at + 16..] == cc[at..at + 16][..b]
  {
  }

  lemma CtsDecrypts(d: BlockFunction, iv: Block, c: seq<byte>)
    requires |c| > 16
    ensures IsCtsDecryption(d, iv, c, CtsDecrypted(d, iv, c))
  {
    hide Decrypted, IsCbcDecryption, Unswapped;
    var f, y, short := Parts(c);
    PartsAt(|f|, |short|);
    UnswapParts(d, f, y, short);
    DecryptedBlocks(d, iv, Unswapped(d, c));
    var at, x := |f|, short + d(y)[|short|..];
    assert c[..at] == f && c[at..at + 16] == y && c[at + 16..] == short;
    assert x[..|short|] == short && x[|short|..] == d(y)[|short|..];
    assert DecryptedWith(d, iv, c, CtsDecrypted(d, iv, c), x, Decrypted(d, iv, Unswapped(d, c)));
  }

  /** Whole blocks fed beforehand only move the chaining value. */
  lemma CtsResumes(e: BlockFunction, iv: Block, a: seq<byte>, b: seq<byte>)
    requires |a| % 16 == 0 && |b| > 16
    ensures CtsEncrypted(e, iv, a + b) == Encrypted(e, iv, a) + CtsEncrypted(e, Chain(iv, Encrypted(e, iv, a)), b)
  {
    hide Encrypted, Chain, CtsEncrypted;
    var f, x, short := Parts(b);
    assert a + b == (a + f) + x + short;
    CtsParts(e, Chain(iv, Encrypted(e, iv, a)), f, x, short);
    CtsParts(e, iv, a + f, x, short);
    var q := f + x + (short + Zeros(16 - |short|));
    EncryptedConcat(e, iv, a, q);
    assert (a + f) + x + (short + Zeros(16 - |short|)) == a + q;
    SlicesAfter(Encrypted(e, iv, a), Encrypted(e, Chain(iv, Encrypted(e, iv, a)), q), |f|, |short|);
  }

  lemma SlicesAfter(h: seq<byte>, c: seq<byte>, n: nat, k: nat)
    requires n + 16 <= |c| && k <= 16
    ensures
      var d := h + c;
      d[..|h| + n] + d[|h| + n + 16..] + d[|h| + n..|h| + n + k] == h + (c[..n] + c[n + 16..] + c[n..n + k])
  {
  }

  lemma CtsDecryptResumes(d: BlockFunction, iv: Block, a: seq<byte>, b: seq<byte>)
    requires |a| % 16 == 0 && |b| > 16
    ensures CtsDecrypted(d, iv, a + b) == Decrypted(d, iv, a) + CtsDecrypted(d, Chain(iv, a), b)
  {
    hide Decrypted, Chain, Unswapped, Blocks;
    var f, y, short := Parts(b);
    assert a + b == (a + f) + y + short;
    UnswapParts(d, f, y, short);
    UnswapParts(d, a + f, y, short);
    assert Unswapped(d, a + b) == a + Unswapped(d, b);
    DecryptedConcat(d, iv, a, Unswapped(d, b));
  }

  // The code.

  datatype Mode = ENCRYPT | DECRYPT

  /** FAILED stands for whatever error a cipher call reports. */
  datatype Status = SUCCESS | BAD_STATE | BAD_PARAMETERS | FAILED

  /** The longest last part. */
  const LAST_LIMIT: nat := 0x8000_0000

  /** The source computes block offsets as int: those of the last part are right exactly up to this length. */
  lemma OffsetsFit(len: nat)
    requires len > 0
    ensures 16 * (Blocks(len) - 1) <= 0x7fff_ffff <==> len <= LAST_LIMIT
  {
  }

  /** The offsets of cbc_cts_update: where the second to last block starts, and how long the last one is. */
  lemma LastParts(len: nat)
    requires len > 16
    ensures
      var at, len_last_block := 16 * (Blocks(len) - 2), if len % 16 == 0 then 16 else len % 16;
      Blocks(len) >= 2 && at >= 0 && at % 16 == 0 && at + 16 + len_last_block == len && 0 < len_last_block <= 16
  {
  }

  /** t is s but for the len bytes from off on. */
  predicate SameOutside(s: seq<byte>, t: seq<byte>, off: nat, len: nat)
    requires off + len <= |s|
  {
    |t| == |s| && t[..off] == s[..off] && t[off + len..] == s[off + len..]
  }

  lemma SpliceStaysInside(s: seq<byte>, off: nat, t: seq<byte>, len: nat)
    requires off + len <= |s| && |t| <= len
    ensures SameOutside(s, Splice(s, off, t), off, len)
  {
  }

  /** struct cts_ctx: the CBC context keeps its chaining value in iv, the ECB context has no state. */
  class CtsContext {
    const e: BlockFunction
    const d: BlockFunction
    const mode: Mode
    const iv: array<byte>
    /** The outcomes of the calls into the two contexts, in the order they are made: any of them may fail. */
    const outcome: nat -> bool
    var calls: nat

    constructor (e: BlockFunction, d: BlockFunction, mode: Mode, iv: Block, outcome: nat -> bool)
      ensures fresh(this.iv) && this.iv[..] == iv && this.e == e && this.d == d && this.mode == mode
      ensures this.outcome == outcome
    {
      this.e, this.d, this.mode, this.outcome, calls := e, d, mode, outcome, 0;
      this.iv := new byte[16];
      new;
      Memcpy(this.iv, 0, iv);
    }

    ghost predicate NoFailures() {
      forall n :: outcome(n)
    }

    method Outcome() returns (ok: bool)
      modifies this`calls
      ensures NoFailures() ==> ok
    {
      ok := outcome(calls);
      calls := calls + 1;
    }

    /** CBC of whole blocks in the direction of this context. */
    ghost function Cbc(start: Block, data: seq<byte>): (r: seq<byte>)
      requires |data| % 16 == 0
      ensures |r| == |data|
    {
      Crypted(mode == ENCRYPT, if mode == ENCRYPT then e else d, start, data)
    }

    ghost function Next(start: Block, data: seq<byte>): Block
      requires |data| % 16 == 0
    {
      ChainAfter(mode == ENCRYPT, if mode == ENCRYPT then e else d, start, data)
    }

    /** tee_do_cipher_update on the CBC context. */
    method CbcUpdate(data: seq<byte>, dst: array<byte>, off: nat) returns (status: Status)
      requires iv.Length == 16 && off + |data| <= dst.Length && dst != iv
      modifies this`calls, iv, dst
      ensures status.BAD_PARAMETERS? <==> |data| % 16 != 0
      ensures !status.BAD_STATE? && (status.FAILED? ==> !NoFailures())
      ensures status.SUCCESS? ==>
        dst[..] == Splice(old(dst[..]), off, Cbc(old(iv[..]), data)) && iv[..] == Next(old(iv[..]), data)
      ensures status.BAD_PARAMETERS? ==> dst[..] == old(dst[..]) && iv[..] == old(iv[..])
      ensures SameOutside(old(dst[..]), dst[..], off, |data|)
    {
      hide Encrypted, Decrypted, Chain, Splice, CtsContext.NoFailures;
      if |data| % 16 != 0 {
        return BAD_PARAMETERS;
      }
      var ok := Outcome();
      if !ok {
        return FAILED;
      }
      var start: Block := iv[..];
      SpliceStaysInside(dst[..], off, Cbc(start, data), |data|);
      if mode == ENCRYPT {
        var c := Encrypted(e, start, data);
        Memcpy(dst, off, c);
        Memcpy(iv, 0, Chain(start, c));
      } else {
        Memcpy(dst, off, Decrypted(d, start, data));
        Memcpy(iv, 0, Chain(start, data));
      }
      return SUCCESS;
    }

    /** The whole-message function of this context. */
    ghost function Cts(start: Block, data: seq<byte>): (r: seq<byte>)
      requires |data| > 16
      ensures |r| == |data|
    {
      if mode == ENCRYPT then CtsEncrypted(e, start, data) else CtsDecrypted(d, start, data)
    }

    ghost predicate IsCts(start: Block, data: seq<byte>, r: seq<byte>) {
      if mode == ENCRYPT then IsCtsEncryption(e, start, data, r) else IsCtsDecryption(d, start, data, r)
    }

    lemma CtsWritten(start: Block, data: seq<byte>, out0: seq<byte>, off: nat)
      requires |data| > 16 && off + |data| <= |out0|
      ensures IsCts(start, data, Splice(out0, off, Cts(start, data))[off..off + |data|])
    {
      hide Splice, CtsEncrypted, CtsDecrypted, IsCtsEncryption, IsCtsDecryption;
      SpliceAt(out0, off, Cts(start, data));
      if mode == ENCRYPT {
        CtsEncrypts(e, start, data);
      } else {
        CtsDecrypts(d, start, data);
      }
    }

    /** cbc_cts_update */
    method Update(last_block: bool, data: seq<byte>, dst: array<byte>, off: nat) returns (status: Status)
      requires iv.Length == 16 && off + |data| <= dst.Length && dst != iv
      requires last_block ==> |data| <= LAST_LIMIT
      modifies this`calls, iv, dst
      ensures status.BAD_PARAMETERS? <==> !last_block && |data| % 16 != 0
      ensures status.BAD_STATE? <==> last_block && |data| <= 16
      ensures status.FAILED? ==> !NoFailures()
      ensures !last_block && status.SUCCESS? ==>
        dst[..] == Splice(old(dst[..]), off, Cbc(old(iv[..]), data)) && iv[..] == Next(old(iv[..]), data)
      ensures last_block && status.SUCCESS? ==> dst[..] == Splice(old(dst[..]), off, Cts(old(iv[..]), data))
      ensures last_block && status.SUCCESS? ==> IsCts(old(iv[..]), data, dst[off..off + |data|])
      ensures status.BAD_PARAMETERS? || status.BAD_STATE? ==> dst[..] == old(dst[..]) && iv[..] == old(iv[..])
      ensures SameOutside(old(dst[..]), dst[..], off, |data|)
    {
      hide Crypted, ChainAfter, Splice, CtsEncrypted, CtsDecrypted, CtsContext.NoFailures, CtsContext.IsCts;
      ghost var start, out0 := iv[..], dst[..];
      if !last_block {
        status := CbcUpdate(data, dst, off);
        return;
      }
      var nb_blocks := Blocks(|data|);
      if nb_blocks < 2 {
        return BAD_STATE;
      }
      if mode == ENCRYPT {
        status := EncryptLast(data, dst, off);
      } else {
        status := DecryptLast(data, dst, off);
      }
      CtsWritten(start, data, out0, off);
      assert dst[off..off + |data|] == dst[..][off..off + |data|];
    }

    method EncryptLast(data: seq<byte>, dst: array<byte>, off: nat) returns (status: Status)
      requires iv.Length == 16 && off + |data| <= dst.Length && dst != iv && |data| > 16 && mode == ENCRYPT
      modifies this`calls, iv, dst
      ensures status.SUCCESS? || (status.FAILED? && !NoFailures())
      ensures status.SUCCESS? ==> dst[..] == Splice(old(dst[..]), off, CtsEncrypted(e, old(iv[..]), data))
      ensures SameOutside(old(dst[..]), dst[..], off, |data|)
    {
      hide Encrypted, Chain, Splice, CtsEncrypted, Blocks, CtsContext.NoFailures;
      LastParts(|data|);
      var nb_blocks := Blocks(|data|);
      var at := 16 * (nb_blocks - 2);
      var len_last_block := if |data| % 16 == 0 then 16 else |data| % 16;
      ghost var out0, start := dst[..], iv[..];
      var tmp_block: Block := data[at + 16..] + Zeros(16 - len_last_block);
      status := CbcUpdate(data[..at + 16], dst, off);
      if !status.SUCCESS? {
        return;
      }
      status := CbcOver(tmp_block, at, len_last_block, dst, off, out0, Encrypted(e, start, data[..at + 16]));
      EncryptsLast(e, start, data, at, data[..at + 16], tmp_block);
      if status.SUCCESS? {
        SpliceStaysInside(out0, off, CtsEncrypted(e, start, data), |data|);
      }
    }

    /**
     The second to last block moves to the end, cut to len_last_block bytes, and the last one is encrypted
     in its place.
     */
    method CbcOver(tmp_block: Block, at: nat, len_last_block: nat, dst: array<byte>, off: nat,
                   ghost out0: seq<byte>, ghost c: seq<byte>) returns (status: Status)
      requires iv.Length == 16 && dst != iv && mode == ENCRYPT && |c| == at + 16 && len_last_block <= 16
      requires off + at + 16 + len_last_block <= dst.Length == |out0| && dst[..] == Splice(out0, off, c)
      modifies this`calls, iv, dst
      ensures status.SUCCESS? || (status.FAILED? && !NoFailures())
      ensures status.SUCCESS? ==>
        dst[..] == Splice(out0, off, c[..at] + Encrypted(e, old(iv[..]), tmp_block) + c[at..at + len_last_block])
      ensures SameOutside(out0, dst[..], off, at + 16 + len_last_block)
    {
      hide Encrypted, Chain, Splice, CtsContext.NoFailures;
      ghost var short := c[at..at + len_last_block];
      SpliceSlice(out0, off, c, at, len_last_block);
      Memcpy(dst, off + at + 16, dst[off + at..off + at + len_last_block]);
      SpliceTwice(out0, off, c, short);
      SpliceStaysInside(out0, off, c + short, at + 16 + len_last_block);
      ghost var x := Encrypted(e, iv[..], tmp_block);
      SpliceInside(out0, off, c + short, at, x);
      assert (c + short)[..at] + x + (c + short)[at + 16..] == c[..at] + x + short;
      status := CbcUpdate(tmp_block, dst, off + at);
      SameOutsideTwice(out0, Splice(out0, off, c + short), dst[..], off, at, 16, at + 16 + len_last_block);
    }

    method DecryptLast(data: seq<byte>, dst: array<byte>, off: nat) returns (status: Status)
      requires iv.Length == 16 && off + |data| <= dst.Length && dst != iv && |data| > 16 && mode == DECRYPT
      modifies this`calls, iv, dst
      ensures status.SUCCESS? || (status.FAILED? && !NoFailures())
      ensures status.SUCCESS? ==> dst[..] == Splice(old(dst[..]), off, CtsDecrypted(d, old(iv[..]), data))
      ensures SameOutside(old(dst[..]), dst[..], off, |data|)
    {
      hide Decrypted, Chain, Splice, CtsDecrypted, SameOutside, Blocks, CtsContext.NoFailures;
      LastParts(|data|);
      var nb_blocks := Blocks(|data|);
      var at := 16 * (nb_blocks - 2);
      var len_last_block := if |data| % 16 == 0 then 16 else |data| % 16;
      ghost var out0, start := dst[..], iv[..];
      SameOutsideItself(out0, off, |data|);
      var before: Block := data[at..at + 16];
      // 1. Decrypt the second to last ciphertext block.
      var ok := Outcome();
      if !ok {
        return FAILED;
      }
      var tmp2_block := d(before);
      // 2. Fill up the short block.
      var tmp_block: Block := data[at + 16..] + tmp2_block[len_last_block..];
      // 3. and 4. Decrypt the last two blocks in exchanged order.
      if nb_blocks > 2 {
        status := CbcUpdate(data[..at], dst, off);
        SameOutsideTwice(out0, out0, dst[..], off, 0, at, |data|);
        if !status.SUCCESS? {
          return;
        }
      } else {
        CryptedNone(false, d, start);
        SpliceNothing(out0, off);
        assert data[..at] == [];
      }
      ghost var p, out1 := Decrypted(d, start, data[..at]), dst[..];
      SpliceStaysInside(out0, off, p, |data|);
      status := DecryptLastTwo(tmp_block, before, len_last_block, dst, off + at);
      SameOutsideTwice(out0, out1, dst[..], off, at, 16 + len_last_block, |data|);
      ghost var chain1 := Chain(start, data[..at]);
      ghost var q := Decrypted(d, chain1, tmp_block) + Decrypted(d, Chain(chain1, tmp_block), before)[..len_last_block];
      SpliceTwice(out0, off, p, q);
      DecryptsLast(d, start, data, at, tmp_block);
    }

    /** The last two CBC calls and the truncation. */
    method DecryptLastTwo(tmp_block: Block, before: Block, len_last_block: nat, dst: array<byte>, off: nat)
      returns (status: Status)
      requires iv.Length == 16 && dst != iv && mode == DECRYPT
      requires len_last_block <= 16 && off + 16 + len_last_block <= dst.Length
      modifies this`calls, iv, dst
      ensures status.SUCCESS? || (status.FAILED? && !NoFailures())
      ensures
        var start := old(iv[..]);
        status.SUCCESS? ==> dst[..] == Splice(old(dst[..]), off,
          Decrypted(d, start, tmp_block) + Decrypted(d, Chain(start, tmp_block), before)[..len_last_block])
      ensures SameOutside(old(dst[..]), dst[..], off, 16 + len_last_block)
    {
      hide Decrypted, Chain, Splice, CtsContext.NoFailures;
      ghost var out0, start := dst[..], iv[..];
      ghost var y, z := Decrypted(d, start, tmp_block), Decrypted(d, Chain(start, tmp_block), before);
      status := CbcUpdate(tmp_block, dst, off);
      SameOutsideTwice(out0, out0, dst[..], off, 0, 16, 16 + len_last_block);
      if !status.SUCCESS? {
        return;
      }
      var out := new byte[16];
      status := CbcUpdate(before, out, 0);
      if !status.SUCCESS? {
        return;
      }
      SpliceAll(z);
      Memcpy(dst, off + 16, out[..len_last_block]);
      SpliceTwice(out0, off, y, z[..len_last_block]);
      SpliceStaysInside(out0, off, y + z[..len_last_block], 16 + len_last_block);
    }
  }

  lemma SameOutsideItself(s: seq<byte>, off: nat, len: nat)
    requires off + len <= |s|
    ensures SameOutside(s, s, off, len)
  {
  }

  lemma SameOutsideTwice(s: seq<byte>, t: seq<byte>, u: seq<byte>, off: nat, at: nat, n: nat, len: nat)
    requires at + n <= len && off + len <= |s|
    requires SameOutside(s, t, off, len) && SameOutside(t, u, off + at, n)
    ensures SameOutside(s, u, off, len)
  {
    assert u[..off] == u[..off + at][..off] && t[..off] == t[..off + at][..off];
    assert u[off + len..] == u[off + at + n..][len - at - n..] && t[off + len..] == t[off + at + n..][len - at - n..];
  }

  /** The two CBC calls of encryption make up the swapped and truncated ciphertext. */
  lemma EncryptsLast(e: BlockFunction, iv: Block, data: seq<byte>, at: nat, front: seq<byte>, tmp: Block)
    requires |data| > 16 && at == 16 * (Blocks(|data|) - 2) && front == data[..at + 16]
    requires tmp == data[at + 16..] + Zeros(at + 32 - |data|)
    ensures
      var c := Encrypted(e, iv, front);
      CtsEncrypted(e, iv, data) == c[..at] + Encrypted(e, Chain(iv, c), tmp) + c[at..|data| - 16]
  {
    hide Encrypted, Chain;
    var c := Encrypted(e, iv, front);
    var x := Encrypted(e, Chain(iv, c), tmp);
    assert ZeroPadded(data) == front + tmp;
    EncryptedConcat(e, iv, front, tmp);
    assert (c + x)[..at] == c[..at] && (c + x)[at + 16..] == x && (c + x)[at..|data| - 16] == c[at..|data| - 16];
  }

  /** The three CBC calls of decryption decrypt the completed ciphertext. */
  lemma DecryptsLast(d: BlockFunction, iv: Block, data: seq<byte>, at: nat, tmp: Block)
    requires |data| > 16 && at == 16 * (Blocks(|data|) - 2)
    requires tmp == data[at + 16..] + d(data[at..at + 16])[|data| - at - 16..]
    ensures
      var chain1 := Chain(iv, data[..at]);
      CtsDecrypted(d, iv, data) == Decrypted(d, iv, data[..at])
        + (Decrypted(d, chain1, tmp) + Decrypted(d, Chain(chain1, tmp), data[at..at + 16])[..|data| - at - 16])
  {
    hide Decrypted, Chain;
    var front, before := data[..at], data[at..at + 16];
    DecryptedConcat(d, iv, front, tmp);
    DecryptedConcat(d, iv, front + tmp, before);
    ChainConcat(iv, front, tmp);
    assert Unswapped(d, data) == front + tmp + before;
    var p := Decrypted(d, iv, front + tmp);
    var z := Decrypted(d, Chain(iv, front + tmp), before);
    assert (p + z)[..|data|] == p + z[..|data| - at - 16];
    var p', y := Decrypted(d, iv, front), Decrypted(d, Chain(iv, front), tmp);
    assert (p' + y) + z[..|data| - at - 16] == p' + (y + z[..|data| - at - 16]);
  }

  lemma SpliceSlice(s: seq<byte>, off: nat, t: seq<byte>, at: nat, n: nat)
    requires off + |t| <= |s| && at + n <= |t|
    ensures Splice(s, off, t)[off + at..off + at + n] == t[at..at + n]
  {
  }

  lemma SpliceInside(s: seq<byte>, off: nat, t: seq<byte>, at: nat, x: seq<byte>)
    requires off + |t| <= |s| && at + |x| <= |t|
    ensures Splice(Splice(s, off, t), off + at, x) == Splice(s, off, t[..at] + x + t[at + |x|..])
  {
  }

  // Runs of updates.

  /**
   Updates of any lengths and a last one.  If all succeed, the output is that of one call on everything;
   they do if no cipher call fails, the lengths before the last are block multiples and the last is above 16.
   */
  method UpdateAll(ctx: CtsContext, chunks: seq<seq<byte>>, last: seq<byte>, dst: array<byte>) returns (status: Status)
    requires ctx.iv.Length == 16 && |Flatten(chunks)| + |last| == dst.Length && dst != ctx.iv && |last| <= LAST_LIMIT
    modifies ctx`calls, ctx.iv, dst
    ensures status.SUCCESS? ==> |last| > 16 && dst[..] == ctx.Cts(old(ctx.iv[..]), Flatten(chunks) + last)
    ensures ctx.NoFailures() ==> (status.SUCCESS? <==> BlockMultiples(chunks) && |last| > 16)
  {
    hide Splice, Flatten, SameOutside;
    hide CtsContext.NoFailures, CtsContext.Cbc, CtsContext.Next, CtsContext.Cts, CtsContext.IsCts;
    ghost var iv0: Block, out0 := ctx.iv[..], dst[..];
    var pos := 0;
    status := SUCCESS;
    RunStarts(ctx, iv0);
    SpliceNothing(out0, 0);
    FlattenNothing();
    assert chunks[..0] == [];
    for i := 0 to |chunks|
      invariant BlockMultiples(chunks[..i]) && status.SUCCESS?
      invariant pos == |Flatten(chunks[..i])| && pos % 16 == 0 && pos <= dst.Length
      invariant dst[..] == Splice(out0, 0, ctx.Cbc(iv0, Flatten(chunks[..i])))
      invariant ctx.iv[..] == ctx.Next(iv0, Flatten(chunks[..i]))
    {
      ghost var before := Flatten(chunks[..i]);
      FlattenSnoc(chunks, i);
      FlattenPrefix(chunks, i + 1);
      status := ctx.Update(false, chunks[i], dst, pos);
      if !status.SUCCESS? {
        return;
      }
      BlockCounts(pos, |chunks[i]|);
      RunContinues(ctx, iv0, before, chunks[i]);
      SpliceTwice(out0, 0, ctx.Cbc(iv0, before), ctx.Cbc(ctx.Next(iv0, before), chunks[i]));
      pos := pos + |chunks[i]|;
    }
    assert chunks[..|chunks|] == chunks;
    status := ctx.Update(true, last, dst, pos);
    if status.SUCCESS? {
      RunEnds(ctx, iv0, Flatten(chunks), last);
      SpliceTwice(out0, 0, ctx.Cbc(iv0, Flatten(chunks)), ctx.Cts(ctx.Next(iv0, Flatten(chunks)), last));
      SpliceAll(ctx.Cts(iv0, Flatten(chunks) + last));
    }
  }

  lemma RunStarts(ctx: CtsContext, iv: Block)
    ensures ctx.Cbc(iv, []) == [] && ctx.Next(iv, []) == iv
  {
    CryptedNone(ctx.mode == ENCRYPT, if ctx.mode == ENCRYPT then ctx.e else ctx.d, iv);
  }

  lemma RunContinues(ctx: CtsContext, iv: Block, a: seq<byte>, b: seq<byte>)
    requires |a| % 16 == 0 && |b| % 16 == 0
    ensures ctx.Cbc(iv, a + b) == ctx.Cbc(iv, a) + ctx.Cbc(ctx.Next(iv, a), b)
    ensures ctx.Next(iv, a + b) == ctx.Next(ctx.Next(iv, a), b)
  {
    CryptedConcat(ctx.mode == ENCRYPT, if ctx.mode == ENCRYPT then ctx.e else ctx.d, iv, a, b);
  }

  lemma RunEnds(ctx: CtsContext, iv: Block, a: seq<byte>, b: seq<byte>)
    requires |a| % 16 == 0 && |b| > 16
    ensures ctx.Cts(iv, a + b) == ctx.Cbc(iv, a) + ctx.Cts(ctx.Next(iv, a), b)
  {
    hide CtsEncrypted, CtsDecrypted, Encrypted, Decrypted, Chain;
    CtsResumes(ctx.e, iv, a, b);
    CtsDecryptResumes(ctx.d, iv, a, b);
  }

  /** A fresh context and a run of updates. */
  method Run(e: BlockFunction, d: BlockFunction, mode: Mode, iv: Block, chunks: seq<seq<byte>>, last: seq<byte>,
             outcome: nat -> bool) returns (status: Status, r: seq<byte>)
    requires |last| <= LAST_LIMIT
    ensures status.SUCCESS? ==> |last| > 16
    ensures status.SUCCESS? && mode == ENCRYPT ==>
      r == CtsEncrypted(e, iv, Flatten(chunks) + last) && IsCtsEncryption(e, iv, Flatten(chunks) + last, r)
    ensures status.SUCCESS? && mode == DECRYPT ==>
      r == CtsDecrypted(d, iv, Flatten(chunks) + last) && IsCtsDecryption(d, iv, Flatten(chunks) + last, r)
    ensures (forall n :: outcome(n)) ==> (status.SUCCESS? <==> BlockMultiples(chunks) && |last| > 16)
  {
    hide Flatten, CtsEncrypted, CtsDecrypted, BlockMultiples, IsCtsEncryption, IsCtsDecryption;
    var ctx := new CtsContext(e, d, mode, iv, outcome);
    var dst := new byte[|Flatten(chunks)| + |last|];
    status := UpdateAll(ctx, chunks, last, dst);
    r := dst[..];
    if status.SUCCESS? {
      CtsEncrypts(e, iv, Flatten(chunks) + last);
      CtsDecrypts(d, iv, Flatten(chunks) + last);
    }
  }

  /** Block-multiple pieces of s and a last one of more than a block. */
  ghost predicate GoodCut(pieces: (seq<seq<byte>>, seq<byte>), s: seq<byte>) {
    BlockMultiples(pieces.0) && 16 < |pieces.1| <= LAST_LIMIT && Flatten(pieces.0) + pieces.1 == s
  }

  /**
   Encrypted in one run and decrypted in any other: `cut` chooses the pieces of the ciphertext, the last of them
   longer than a block.  A run that succeeds gives the message back, and one without failing calls succeeds.
   */
  method RunsRoundTrip(e: BlockFunction, d: BlockFunction, iv: Block, chunks: seq<seq<byte>>, last: seq<byte>,
                       cut: seq<byte> -> (seq<seq<byte>>, seq<byte>),
                       outcome: nat -> bool, outcome': nat -> bool) returns (status: Status, p: seq<byte>)
    requires Inverse(d, e) && BlockMultiples(chunks) && 16 < |last| <= LAST_LIMIT
    requires forall s :: |s| > 16 ==> GoodCut(cut(s), s)
    ensures status.SUCCESS? ==> p == Flatten(chunks) + last
    ensures (forall n :: outcome(n) && outcome'(n)) ==> status.SUCCESS?
  {
    hide Flatten, CtsEncrypted, CtsDecrypted, BlockMultiples, Inverse, IsCtsEncryption, IsCtsDecryption;
    var c;
    p := [];
    status, c := Run(e, d, ENCRYPT, iv, chunks, last, outcome);
    if status.SUCCESS? {
      assert GoodCut(cut(c), c);
      status, p := Run(e, d, DECRYPT, iv, cut(c).0, cut(c).1, outcome');
      CtsRoundTrip(d, e, iv, Flatten(chunks) + last);
    }
  }
}
