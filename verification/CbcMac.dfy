/** CBC-MAC with bundled cipher calls (cbc-mac.c), for any block cipher with blocks of at most 16 bytes. */
module CbcMac {
  import opened Arith
  import opened Bytes
  import opened Buffers

  type Permutation = seq<byte> -> seq<byte>

  /** e maps blocks of n bytes to blocks of n bytes. */
  ghost predicate OnBlocks(e: Permutation, n: nat) {
    0 < n <= 16 && forall b :: |b| == n ==> |e(b)| == n
  }

  ghost predicate WholeBlocks(s: seq<byte>, n: nat) {
    n > 0 && |s| % n == 0
  }

  lemma LessOne(len: nat, n: nat)
    requires n > 0 && len > 0 && len % n == 0
    ensures len >= n && (len - n) % n == 0
  {
    assert len == n * (len / n);
    Multiple(len - n, n, len / n - 1);
  }

  lemma SumOfMultiples(a: nat, b: nat, n: nat)
    requires n > 0 && a % n == 0
    ensures (a + b) % n == b % n
  {
    assert a == n * (a / n) && b == n * (b / n) + b % n;
    MulRearranges(n, a / n, b / n);
    DivModUnique(a + b, n, a / n + b / n, b % n);
  }

  /** CBC over whole blocks: the ciphertext block of the last block of s, the initial vector if s is empty. */
  ghost function Tail(e: Permutation, n: nat, iv: seq<byte>, s: seq<byte>): (b: seq<byte>)
    requires OnBlocks(e, n) && |iv| == n && WholeBlocks(s, n)
    ensures |b| == n
    decreases |s|
  {
    if s == [] then iv
    else LessOne(|s|, n); e(Xor(s[|s| - n..], Tail(e, n, iv, s[..|s| - n])))
  }

  /** All the ciphertext blocks. */
  ghost function Cbc(e: Permutation, n: nat, iv: seq<byte>, s: seq<byte>): (c: seq<byte>)
    requires OnBlocks(e, n) && |iv| == n && WholeBlocks(s, n)
    ensures |c| == |s|
    ensures s != [] ==> |s| >= n && c[|s| - n..] == Tail(e, n, iv, s)
    decreases |s|
  {
    if s == [] then [] else LessOne(|s|, n); Cbc(e, n, iv, s[..|s| - n]) + Tail(e, n, iv, s)
  }

  /** Chaining: a run continues from the last block of the run before it. */
  lemma {:induction false} TailConcat(e: Permutation, n: nat, iv: seq<byte>, s: seq<byte>, t: seq<byte>)
    requires OnBlocks(e, n) && |iv| == n && WholeBlocks(s, n) && WholeBlocks(t, n)
    ensures WholeBlocks(s + t, n) && Tail(e, n, iv, s + t) == Tail(e, n, Tail(e, n, iv, s), t)
    decreases |t|
  {
    SumOfMultiples(|s|, |t|, n);
    if t == [] {
      assert s + t == s;
    } else {
      LessOne(|t|, n);
      LessOne(|s + t|, n);
      TailConcat(e, n, iv, s, t[..|t| - n]);
      assert (s + t)[..|s + t| - n] == s + t[..|t| - n];
      assert (s + t)[|s + t| - n..] == t[|t| - n..];
    }
  }

  /** Section 6.3 of RFC 5652: between 1 and n bytes, each holding their number. */
  function Padded(s: seq<byte>, n: nat): (p: seq<byte>)
    requires 0 < n <= 16
    ensures |p| > 0 && WholeBlocks(p, n)
  {
    PaddedLength(|s|, n);
    s + Padding(n - |s| % n)
  }

  /** k bytes that hold k */
  function Padding(k: nat): (p: seq<byte>)
    ensures |p| == k
  {
    seq(k, _ => LowByte(k))
  }

  lemma PaddingHolds(k: nat, i: nat)
    requires i < k <= 16
    ensures Value(Padding(k)[i]) == k
  {
    hide Value, LowByte;
    ByteValues(0, k);
  }

  lemma PaddedIsWhole(s: seq<byte>, n: nat)
    requires 0 < n <= 16
    ensures |Padded(s, n)| > 0 && |Padded(s, n)| % n == 0
  {
  }

  lemma PaddedLength(len: nat, n: nat)
    requires n > 0
    ensures (len + (n - len % n)) % n == 0
  {
    assert len == n * (len / n) + len % n;
    MulRearranges(n, len / n, 1);
    Multiple(len + (n - len % n), n, len / n + 1);
  }

  /** Failed stands for whatever error a cipher call reports. */
  datatype Result = Success(digest: seq<byte>) | BadState | Failed

  /** What crypto_cbc_mac_final returns for a message, when digestLen bytes are asked for. */
  ghost function Mac(e: Permutation, n: nat, pkcs5: bool, s: seq<byte>, digestLen: nat): Result
    requires OnBlocks(e, n)
  {
    var k := if digestLen < n then digestLen else n;
    if pkcs5 then Success(Tail(e, n, Zeros(n), Padded(s, n))[..k])
    else if |s| == 0 || |s| % n != 0 then BadState
    else Success(Tail(e, n, Zeros(n), s)[..k])
  }

  // The MAC without the functions above.

  /** y holds the chaining values over the blocks of s, from zero on. */
  ghost predicate IsChain(e: Permutation, n: nat, s: seq<byte>, y: seq<seq<byte>>)
    requires WholeBlocks(s, n)
  {
    && |y| == |s| / n + 1 && |y[0]| == n && (forall i :: 0 <= i < n ==> y[0][i] == 0)
    && forall k :: 0 <= k < |s| / n ==> LinkedAt(e, n, s, y, k)
  }

  /** Chaining value k + 1 is the encryption of block k xored with chaining value k. */
  ghost predicate LinkedAt(e: Permutation, n: nat, s: seq<byte>, y: seq<seq<byte>>, k: nat)
    requires WholeBlocks(s, n) && k < |s| / n && |y| == |s| / n + 1
  {
    BlockInside(|s|, n, k);
    |y[k]| == n && y[k + 1] == e(Xor(s[n * k..n * k + n], y[k]))
  }

  lemma BlockInside(len: nat, n: nat, k: nat)
    requires n > 0 && k < len / n
    ensures 0 <= n * k && n * k + n <= len
  {
    assert len == n * (len / n) + len % n;
    MulRearranges(n, k, 1);
    Monotone(k + 1, len / n, n);
  }

  /** The message, and as many bytes as lack in the last block or a whole block, each of them holding their number. */
  ghost predicate IsPadded(s: seq<byte>, n: nat, p: seq<byte>) {
    && s <= p && 0 < |p| - |s| <= n && WholeBlocks(p, n)
    && forall i :: |s| <= i < |p| ==> Value(p[i]) == |p| - |s|
  }

  /** d is the front of the last chaining value over m. */
  ghost predicate IsMacOf(e: Permutation, n: nat, m: seq<byte>, digestLen: nat, d: seq<byte>) {
    && WholeBlocks(m, n) && m != []
    && exists y :: IsChain(e, n, m, y) && |y[|m| / n]| == n
         && d == y[|m| / n][..if digestLen < n then digestLen else n]
  }

  ghost predicate IsMac(e: Permutation, n: nat, pkcs5: bool, s: seq<byte>, digestLen: nat, r: Result) {
    if pkcs5 then r.Success? && exists p :: IsPadded(s, n, p) && IsMacOf(e, n, p, digestLen, r.digest)
    else if s != [] && WholeBlocks(s, n) then r.Success? && IsMacOf(e, n, s, digestLen, r.digest)
    else r == BadState
  }

  lemma TailOfNothing(e: Permutation, n: nat, iv: seq<byte>)
    requires OnBlocks(e, n) && |iv| == n && WholeBlocks([], n)
    ensures Tail(e, n, iv, []) == iv
  {
  }

  lemma OneMore(e: Permutation, n: nat, iv: seq<byte>, s: seq<byte>, k: nat)
    requires OnBlocks(e, n) && |iv| == n && k < |s| / n
    ensures 0 <= n * k && n * k + n <= |s| && WholeBlocks(s[..n * k], n) && WholeBlocks(s[..n * (k + 1)], n)
    ensures Tail(e, n, iv, s[..n * (k + 1)]) == e(Xor(s[n * k..n * k + n], Tail(e, n, iv, s[..n * k])))
  {
    BlockInside(|s|, n, k);
    MulRearranges(n, k, 1);
    Multiple(n * k, n, k);
    Multiple(n * (k + 1), n, k + 1);
    var t := s[..n * (k + 1)];
    assert t[..|t| - n] == s[..n * k] && t[|t| - n..] == s[n * k..n * k + n];
  }

  lemma TailChain(e: Permutation, n: nat, s: seq<byte>) returns (y: seq<seq<byte>>)
    requires OnBlocks(e, n) && WholeBlocks(s, n)
    ensures IsChain(e, n, s, y) && y[|s| / n] == Tail(e, n, Zeros(n), s)
  {
    hide Tail, Xor;
    var blocks := |s| / n;
    assert |s| == n * blocks;
    forall k | 0 <= k <= blocks ensures 0 <= n * k <= |s| && WholeBlocks(s[..n * k], n) {
      Monotone(k, blocks, n);
      MulRearranges(n, k, 0);
      Multiple(n * k, n, k);
    }
    y := seq(blocks + 1, k requires 0 <= k <= blocks => Tail(e, n, Zeros(n), s[..n * k]));
    assert s[..n * 0] == [] && s[..n * blocks] == s;
    TailOfNothing(e, n, Zeros(n));
    forall k | 0 <= k < blocks ensures LinkedAt(e, n, s, y, k) {
      OneMore(e, n, Zeros(n), s, k);
    }
  }

  lemma PaddedFills(s: seq<byte>, n: nat)
    requires 0 < n <= 16
    ensures IsPadded(s, n, Padded(s, n))
  {
    hide Value, LowByte;
    var k := n - |s| % n;
    forall i | |s| <= i < |Padded(s, n)| ensures Value(Padded(s, n)[i]) == k {
      PaddingHolds(k, i - |s|);
    }
  }

  lemma TailIsMac(e: Permutation, n: nat, s: seq<byte>, digestLen: nat)
    requires OnBlocks(e, n) && WholeBlocks(s, n) && s != []
    ensures IsMacOf(e, n, s, digestLen, Tail(e, n, Zeros(n), s)[..if digestLen < n then digestLen else n])
  {
    hide IsChain;
    var y := TailChain(e, n, s);
    ChainEnds(e, n, s, y);
  }

  lemma ChainEnds(e: Permutation, n: nat, s: seq<byte>, y: seq<seq<byte>>)
    requires WholeBlocks(s, n) && IsChain(e, n, s, y)
    ensures |y| == |s| / n + 1
  {
  }

  /** What Mac says, block by block. */
  lemma MacIs(e: Permutation, n: nat, pkcs5: bool, s: seq<byte>, digestLen: nat)
    requires OnBlocks(e, n)
    ensures IsMac(e, n, pkcs5, s, digestLen, Mac(e, n, pkcs5, s, digestLen))
  {
    hide Tail, Padded, IsPadded, IsMacOf;
    if pkcs5 {
      PaddedFills(s, n);
      TailIsMac(e, n, Padded(s, n), digestLen);
    } else if s != [] && |s| % n == 0 {
      TailIsMac(e, n, s, digestLen);
    }
  }

  class Context {
    const e: Permutation
    /** block_len */
    const n: nat
    /** CFG_CRYPTO_CBC_MAC_BUNDLE_BLOCKS */
    const bundle: nat
    const pkcs5: bool
    const block: array<byte>
    const digest: array<byte>
    /** The chaining value kept by cbc_ctx. */
    var chain: seq<byte>
    var current: nat
    var computed: bool
    /** The outcomes of the calls into cbc_ctx, in the order they are made: any of them may fail. */
    const outcome: nat -> bool
    var calls: nat
    /** The whole blocks that have been through the cipher. */
    ghost var done: seq<byte>
    /** The bytes waiting in the block buffer. */
    ghost var kept: seq<byte>

    ghost predicate Shape() {
      0 < n <= 16 && OnBlocks(e, n) && block != digest && block.Length == digest.Length == 16
    }

    ghost predicate Chained()
      requires Shape()
      reads this`chain, this`done
    {
      WholeBlocks(done, n) && chain == Tail(e, n, Zeros(n), done)
    }

    ghost predicate Kept()
      requires Shape()
      reads this`current, this`kept, block
    {
      |kept| == current < n && block[..current] == kept
    }

    ghost predicate Fresh()
      requires Shape()
      reads this`computed, this`done, this`chain, digest
    {
      computed == (done != []) && (computed ==> digest[..n] == chain)
    }

    ghost predicate Valid()
      reads this, block, digest
    {
      Shape() && Chained() && Kept() && Fresh()
    }

    /** Everything fed in since Init. */
    ghost function Msg(): seq<byte>
      reads this`done, this`kept
    {
      done + kept
    }

    constructor (e: Permutation, n: nat, bundle: nat, pkcs5: bool, outcome: nat -> bool)
      requires OnBlocks(e, n)
      ensures Shape() && fresh(block) && fresh(digest)
      ensures this.e == e && this.n == n && this.bundle == bundle && this.pkcs5 == pkcs5 && this.outcome == outcome
    {
      this.e, this.n, this.bundle, this.pkcs5, this.outcome, calls := e, n, bundle, pkcs5, outcome, 0;
      block, digest := new byte[16], new byte[16];
      chain := [];
    }

    ghost predicate NoFailures() {
      forall i :: outcome(i)
    }

    method Outcome() returns (ok: bool)
      modifies this`calls
      ensures NoFailures() ==> ok
    {
      ok := outcome(calls);
      calls := calls + 1;
    }

    /** crypto_cbc_mac_init */
    method Init() returns (ok: bool)
      requires Shape()
      modifies this, block, digest
      ensures ok ==> Valid() && Msg() == []
      ensures NoFailures() ==> ok
    {
      hide Splice, Context.NoFailures;
      Memset(block, 0, 0, 16);
      Memset(digest, 0, 0, 16);
      current, computed := 0, false;
      ok := Outcome();
      if !ok {
        return;
      }
      chain := block[..n];
      done, kept := [], [];
      assert chain == Zeros(n);
    }

    /** crypto_cipher_update of the CBC encryption context. */
    method CipherUpdate(data: seq<byte>) returns (ok: bool, out: seq<byte>)
      requires Shape() && Chained() && WholeBlocks(data, n)
      modifies this`calls, this`chain, this`done
      ensures ok ==> Chained() && done == old(done) + data
      ensures ok ==> |out| == |data| && (data != [] ==> |out| >= n && out[|out| - n..] == chain)
      ensures NoFailures() ==> ok
    {
      hide Tail, WholeBlocks, Context.Chained, Context.NoFailures, OnBlocks;
      out := [];
      ok := Outcome();
      if !ok {
        return;
      }
      var rest := data;
      ghost var before := done;
      assert before + [] == before;
      while |rest| > 0
        invariant |rest| <= |data| && rest == data[|data| - |rest|..] && WholeBlocks(rest, n)
        invariant Chained() && done == before + data[..|data| - |rest|]
        invariant |out| == |data| - |rest|
        invariant out != [] ==> |out| >= n && out[|out| - n..] == chain
        decreases |rest|
      {
        var piece := OneBlock(rest);
        assert data[..|data| - |rest|] + piece == data[..|data| - |rest| + n];
        CipherBlock(piece);
        out := out + chain;
        rest := rest[n..];
      }
      assert rest == [] && data[..|data| - |rest|] == data;
    }

    /** The next block of some whole blocks. */
    function OneBlock(rest: seq<byte>): (b: seq<byte>)
      requires Shape() && rest != [] && WholeBlocks(rest, n)
      ensures |b| == n <= |rest| && b == rest[..n] && WholeBlocks(rest[n..], n)
    {
      LessOne(|rest|, n);
      rest[..n]
    }

    method CipherBlock(piece: seq<byte>)
      requires Shape() && Chained() && |piece| == n
      modifies this`chain, this`done
      ensures Chained() && done == old(done) + piece && |chain| == n
    {
      Step(piece);
      chain := e(Xor(piece, chain));
      done := done + piece;
    }

    lemma Step(piece: seq<byte>)
      requires Shape() && Chained() && |piece| == n
      ensures WholeBlocks(done + piece, n)
      ensures Tail(e, n, Zeros(n), done + piece) == e(Xor(piece, chain))
    {
      SumOfMultiples(|done|, n, n);
      assert (done + piece)[..|done + piece| - n] == done;
      assert (done + piece)[|done + piece| - n..] == piece;
    }

    /** crypto_cbc_mac_update; canAllocate says whether the temporary buffer could be allocated. */
    method Update(data: seq<byte>, canAllocate: bool) returns (ok: bool)
      requires Valid()
      modifies this, block, digest
      ensures ok ==> Valid() && Msg() == old(Msg()) + data
      ensures NoFailures() ==> ok
    {
      hide Tail, WholeBlocks, Splice, OnBlocks, Context.NoFailures;
      var rest := data;
      if current > 0 && |rest| + current >= n {
        ok, rest := FillBlock(data);
        if !ok {
          return;
        }
      }
      ok, rest := CipherWhole(rest, canAllocate);
      if ok && |rest| > 0 {
        Keep(rest);
      }
    }

    /** Completes the waiting block and encrypts it. */
    method FillBlock(data: seq<byte>) returns (ok: bool, rest: seq<byte>)
      requires Valid() && current > 0 && |data| + current >= n
      modifies this, block, digest
      ensures ok ==> Valid() && current == 0 && Msg() + rest == old(Msg()) + data
      ensures NoFailures() ==> ok
    {
      hide Tail, WholeBlocks, Splice, OnBlocks, Context.NoFailures;
      var padLen := n - current;
      rest := data[padLen..];
      CopyAfter(data[..padLen]);
      var out;
      ok, out := CipherUpdateOne(block[..n]);
      if !ok {
        return;
      }
      SetDigest(out);
      computed := true;
      current := 0;
      kept := [];
      assert data == data[..padLen] + rest;
      assert block[..0] == [];
    }

    /** memcpy to block + current_block_len. */
    method CopyAfter(data: seq<byte>)
      requires Shape() && Kept() && current + |data| <= n
      modifies block
      ensures block[..current + |data|] == kept + data
    {
      Memcpy(block, current, data);
    }

    method SetDigest(out: seq<byte>)
      requires Shape() && |out| == n
      modifies digest
      ensures digest[..n] == out
    {
      Memcpy(digest, 0, out);
    }

    method CipherUpdateOne(data: seq<byte>) returns (ok: bool, out: seq<byte>)
      requires Shape() && Chained() && |data| == n
      modifies this`calls, this`chain, this`done
      ensures ok ==> Chained() && done == old(done) + data && out == chain && |out| == n
      ensures NoFailures() ==> ok
    {
      hide Tail, OnBlocks, Context.NoFailures;
      SumOfMultiples(0, n, n);
      ok, out := CipherUpdate(data);
    }

    /** The bundle loop: whole blocks go through the cipher and only the last output block is kept. */
    method CipherWhole(data: seq<byte>, canAllocate: bool) returns (ok: bool, rest: seq<byte>)
      requires Valid() && (current > 0 ==> |data| + current < n)
      modifies this`calls, this`chain, this`done, this`computed, digest
      ensures ok ==> Valid() && Msg() + rest == old(Msg()) + data && current + |rest| < n
      ensures NoFailures() ==> ok
    {
      hide Tail, WholeBlocks, Splice, OnBlocks, Context.Bundle, Context.NoFailures;
      ok, rest := true, data;
      var temporary := Bundle(rest) > 1 && canAllocate;
      while |rest| >= n
        invariant ok && Shape() && Chained() && Kept() && (current > 0 ==> |rest| + current < n)
        invariant computed == (done != []) && (|rest| < n ==> Fresh())
        invariant Msg() + rest == old(Msg()) + data
        decreases |rest|
      {
        assert kept == [] && Msg() == done;
        ok, rest := CipherBundle(rest, temporary);
        if !ok {
          return;
        }
        assert Msg() == done;
      }
    }

    /** One round of the bundle loop. */
    method CipherBundle(data: seq<byte>, temporary: bool) returns (ok: bool, rest: seq<byte>)
      requires Shape() && Chained() && |data| >= n
      modifies this`calls, this`chain, this`done, this`computed, digest
      ensures ok ==> Chained() && computed && done != [] && (|rest| < n ==> Fresh())
      ensures ok ==> done + rest == old(done) + data && |rest| < |data|
      ensures NoFailures() ==> ok
    {
      hide Tail, WholeBlocks, Splice, OnBlocks, Context.Bundle, Context.NoFailures;
      var nblocks := Bundle(data);
      var bundled := nblocks > 1 && temporary;
      var piece := Blocks(data, if bundled then nblocks else 1);
      rest := data[|piece|..];
      var out;
      ok, out := CipherUpdate(piece);
      if !ok {
        return;
      }
      computed := true;
      assert data == piece + rest;
      if !bundled || |rest| < n {
        SetDigest(out[|out| - n..]);
      }
    }

    /** MIN(len / block_len, CFG_CRYPTO_CBC_MAC_BUNDLE_BLOCKS) */
    function Bundle(rest: seq<byte>): (k: nat)
      requires Shape()
      ensures k <= |rest| / n
    {
      if |rest| / n < bundle then |rest| / n else bundle
    }

    function Blocks(rest: seq<byte>, k: nat): (b: seq<byte>)
      requires Shape() && n <= |rest| && 0 < k && (k == 1 || k <= |rest| / n)
      ensures |b| == n * k <= |rest| && b == rest[..n * k] && |b| >= n && WholeBlocks(b, n)
    {
      assert |rest| == n * (|rest| / n) + |rest| % n;
      MulRearranges(n, k, |rest| / n - k);
      Multiple(n * k, n, k);
      MulAtLeast(n, k);
      rest[..n * k]
    }

    /** Leaves less than a block for later. */
    method Keep(data: seq<byte>)
      requires Valid() && current + |data| < n
      modifies this`current, this`kept, block
      ensures Valid() && Msg() == old(Msg()) + data
    {
      hide Tail, WholeBlocks, Splice, OnBlocks;
      CopyAfter(data);
      current := current + |data|;
      kept := kept + data;
    }

    /** crypto_cbc_mac_final */
    method Final(digestLen: nat, canAllocate: bool) returns (r: Result)
      requires Valid()
      modifies this, block, digest
      ensures r.Success? || NoFailures() ==> r == Mac(e, n, pkcs5, old(Msg()), digestLen)
    {
      hide Tail, WholeBlocks, Splice, OnBlocks, Padded, Context.NoFailures;
      hide Context.Chained, Context.Kept, Context.Fresh;
      if pkcs5 {
        Pad();
        var ok := Update(block[..n], canAllocate);
        if !ok {
          return BadState;
        }
        PaddedIsWhole(old(Msg()), n);
      }
      r := Output(digestLen);
    }

    /** The end of crypto_cbc_mac_final, for a message that already holds its padding. */
    method Output(digestLen: nat) returns (r: Result)
      requires Valid()
      ensures r == Mac(e, n, false, Msg(), digestLen)
    {
      hide Tail, Splice, OnBlocks;
      Remainder();
      if !computed || current != 0 {
        return BadState;
      }
      r := Success(digest[..if digestLen < n then digestLen else n]);
    }

    /** The memset of crypto_cbc_mac_final; the waiting bytes and their padding move into the block buffer. */
    method Pad()
      requires Valid()
      modifies this`current, this`kept, block
      ensures Valid() && Msg() + block[..n] == Padded(old(Msg()), n)
    {
      hide Value, LowByte, Tail, WholeBlocks, Splice, OnBlocks, Padded, Context.Chained;
      var padding := Padding(n - current);
      PaddedIs(padding);
      CopyAfter(padding);
      current := 0;
      kept := [];
      assert block[..0] == [];
    }

    lemma PaddedIs(padding: seq<byte>)
      requires Valid() && padding == Padding(n - current)
      ensures Padded(Msg(), n) == done + (kept + padding)
    {
      hide Value, LowByte, Tail, OnBlocks;
      Remainder();
    }

    /** The bytes waiting are those past the last whole block. */
    lemma Remainder()
      requires Valid()
      ensures |Msg()| % n == current && (current == 0 ==> Msg() == done)
      ensures !computed || current != 0 <==> |Msg()| == 0 || |Msg()| % n != 0
    {
      SumOfMultiples(|done|, current, n);
      SmallRemainder(current, n);
      if done != [] {
        LessOne(|done|, n);
      }
    }
  }

  lemma SmallRemainder(a: nat, n: nat)
    requires a < n
    ensures a % n == a
  {
    DivModUnique(a, n, 0, a);
  }

  /**
   Init, any run of updates, final: the MAC of everything fed in, however it was cut and bundled,
   unless a cipher call fails.
   */
  method MacAll(c: Context, chunks: seq<seq<byte>>, canAllocate: seq<bool>, digestLen: nat, last: bool)
    returns (r: Result)
    requires c.Shape() && |canAllocate| == |chunks|
    modifies c, c.block, c.digest
    ensures r.Success? || c.NoFailures() ==> r == Mac(c.e, c.n, c.pkcs5, Flatten(chunks), digestLen)
    ensures r.Success? || c.NoFailures() ==> IsMac(c.e, c.n, c.pkcs5, Flatten(chunks), digestLen, r)
  {
    hide IsMac, Tail, WholeBlocks, OnBlocks, Padded, Mac, Context.NoFailures;
    var ok := c.Init();
    if !ok {
      return Failed;
    }
    FlattenNothing();
    for i := 0 to |chunks|
      invariant c.Valid() && c.Msg() == Flatten(chunks[..i])
    {
      FlattenSnoc(chunks, i);
      ok := c.Update(chunks[i], canAllocate[i]);
      if !ok {
        return Failed;
      }
    }
    assert chunks[..|chunks|] == chunks;
    r := c.Final(digestLen, last);
    MacIs(c.e, c.n, c.pkcs5, Flatten(chunks), digestLen);
  }
}
