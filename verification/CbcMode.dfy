/** Cipher block chaining on whole blocks, and its stateful interface. */
module CbcMode {
  import opened Bytes

  type BlockFunction = Block -> Block

  /** The chaining value after ciphertext c. */
  function Chain(iv: Block, c: seq<byte>): Block
    requires |c| % 16 == 0
  {
    if c == [] then iv else c[|c| - 16..]
  }

  function Encrypted(e: BlockFunction, iv: Block, p: seq<byte>): (c: seq<byte>)
    requires |p| % 16 == 0
    ensures |c| == |p|
  {
    if p == [] then []
    else
      var c := Encrypted(e, iv, p[..|p| - 16]);
      c + e(Xor(p[|p| - 16..], Chain(iv, c)))
  }

  function Decrypted(d: BlockFunction, iv: Block, c: seq<byte>): (p: seq<byte>)
    requires |c| % 16 == 0
    ensures |p| == |c|
  {
    if c == [] then []
    else Decrypted(d, iv, c[..|c| - 16]) + Xor(d(c[|c| - 16..]), Chain(iv, c[..|c| - 16]))
  }

  /** One more block. */
  lemma EncryptedOne(e: BlockFunction, iv: Block, a: seq<byte>, b: Block)
    requires |a| % 16 == 0
    ensures Encrypted(e, iv, a + b) == Encrypted(e, iv, a) + e(Xor(b, Chain(iv, Encrypted(e, iv, a))))
    ensures Chain(iv, Encrypted(e, iv, a + b)) == e(Xor(b, Chain(iv, Encrypted(e, iv, a))))
  {
    assert (a + b)[..|a + b| - 16] == a && (a + b)[|a + b| - 16..] == b;
  }

  lemma DecryptedOne(d: BlockFunction, iv: Block, a: seq<byte>, b: Block)
    requires |a| % 16 == 0
    ensures Decrypted(d, iv, a + b) == Decrypted(d, iv, a) + Xor(d(b), Chain(iv, a))
    ensures Chain(iv, a + b) == b
  {
    assert (a + b)[..|a + b| - 16] == a && (a + b)[|a + b| - 16..] == b;
  }

  lemma ChainConcat(iv: Block, a: seq<byte>, b: seq<byte>)
    requires |a| % 16 == 0 && |b| % 16 == 0
    ensures Chain(iv, a + b) == Chain(Chain(iv, a), b)
  {
    if b == [] {
      assert a + b == a;
    } else {
      assert (a + b)[|a + b| - 16..] == b[|b| - 16..];
    }
  }

  lemma EncryptedNone(e: BlockFunction, iv: Block)
    ensures Encrypted(e, iv, []) == []
  {
  }

  lemma DecryptedNone(d: BlockFunction, iv: Block)
    ensures Decrypted(d, iv, []) == []
  {
  }

  /** Two calls with the chaining value kept in between give what one call gives. */
  lemma {:induction false} EncryptedConcat(e: BlockFunction, iv: Block, a: seq<byte>, b: seq<byte>)
    requires |a| % 16 == 0 && |b| % 16 == 0
    ensures Encrypted(e, iv, a + b) == Encrypted(e, iv, a) + Encrypted(e, Chain(iv, Encrypted(e, iv, a)), b)
  {
    hide Xor, Chain, Encrypted;
    var iv' := Chain(iv, Encrypted(e, iv, a));
    if b == [] {
      assert a + b == a;
      EncryptedNone(e, iv');
    } else {
      var b', last := b[..|b| - 16], b[|b| - 16..];
      EncryptedConcat(e, iv, a, b');
      assert a + b == (a + b') + last && b == b' + last;
      EncryptedOne(e, iv, a + b', last);
      EncryptedOne(e, iv', b', last);
      ChainConcat(iv, Encrypted(e, iv, a), Encrypted(e, iv', b'));
    }
  }

  lemma {:induction false} DecryptedConcat(d: BlockFunction, iv: Block, a: seq<byte>, b: seq<byte>)
    requires |a| % 16 == 0 && |b| % 16 == 0
    ensures Decrypted(d, iv, a + b) == Decrypted(d, iv, a) + Decrypted(d, Chain(iv, a), b)
  {
    hide Xor, Chain, Decrypted;
    if b == [] {
      assert a + b == a;
      DecryptedNone(d, Chain(iv, a));
    } else {
      var b', last := b[..|b| - 16], b[|b| - 16..];
      DecryptedConcat(d, iv, a, b');
      assert a + b == (a + b') + last && b == b' + last;
      DecryptedOne(d, iv, a + b', last);
      DecryptedOne(d, Chain(iv, a), b', last);
      ChainConcat(iv, a, b');
    }
  }

  // Block by block, as in section 6.2 of NIST SP 800-38A.

  /** Ciphertext block k comes from plaintext block k and the ciphertext block before it. */
  ghost predicate BlockEncrypted(e: BlockFunction, iv: Block, p: seq<byte>, c: seq<byte>, k: nat)
    requires 16 * k + 16 <= |p| == |c|
  {
    c[16 * k..16 * k + 16] == e(Xor(p[16 * k..16 * k + 16], if k == 0 then iv else c[16 * k - 16..16 * k]))
  }

  ghost predicate IsCbcEncryption(e: BlockFunction, iv: Block, p: seq<byte>, c: seq<byte>) {
    |p| == |c| && |p| % 16 == 0 && forall k :: 0 <= k < |p| / 16 ==> BlockEncrypted(e, iv, p, c, k)
  }

  /** Plaintext block k comes from ciphertext block k and the one before it. */
  ghost predicate BlockDecrypted(d: BlockFunction, iv: Block, c: seq<byte>, p: seq<byte>, k: nat)
    requires 16 * k + 16 <= |c| == |p|
  {
    p[16 * k..16 * k + 16] == Xor(d(c[16 * k..16 * k + 16]), if k == 0 then iv else c[16 * k - 16..16 * k])
  }

  ghost predicate IsCbcDecryption(d: BlockFunction, iv: Block, c: seq<byte>, p: seq<byte>) {
    |c| == |p| && |c| % 16 == 0 && forall k :: 0 <= k < |c| / 16 ==> BlockDecrypted(d, iv, c, p, k)
  }

  lemma SplitLast(a: seq<byte>, b: Block, s: seq<byte>)
    requires |a| % 16 == 0 && s == a + b
    ensures |s| / 16 - 1 == |a| / 16 && |s| % 16 == 0 && a <= s && s[..|s| - 16] == a
    ensures s[|a|..|a| + 16] == b && (|a| > 0 ==> |a| >= 16 && s[|a| - 16..|a|] == a[|a| - 16..])
  {
  }

  lemma AppendedBlock(e: BlockFunction, iv: Block, a: seq<byte>, b: Block, c: seq<byte>)
    requires |a| == |c| && |a| % 16 == 0
    ensures BlockEncrypted(e, iv, a + b, c + e(Xor(b, Chain(iv, c))), |a| / 16)
  {
    hide Xor;
    var x := e(Xor(b, Chain(iv, c)));
    SplitLast(a, b, a + b);
    SplitLast(c, x, c + x);
  }

  lemma LastEncrypted(e: BlockFunction, iv: Block, p: seq<byte>)
    requires |p| % 16 == 0 && p != []
    ensures BlockEncrypted(e, iv, p, Encrypted(e, iv, p), |p| / 16 - 1)
    ensures Encrypted(e, iv, p[..|p| - 16]) <= Encrypted(e, iv, p)
  {
    hide Xor, Encrypted, Chain, BlockEncrypted;
    var a, b := p[..|p| - 16], p[|p| - 16..];
    assert p == a + b && |a| / 16 == |p| / 16 - 1;
    EncryptedOne(e, iv, a, b);
    AppendedBlock(e, iv, a, b, Encrypted(e, iv, a));
  }

  lemma {:induction false} EncryptedBlocks(e: BlockFunction, iv: Block, p: seq<byte>)
    requires |p| % 16 == 0
    ensures IsCbcEncryption(e, iv, p, Encrypted(e, iv, p))
  {
    hide Xor, BlockEncrypted, Encrypted;
    if p != [] {
      EncryptedBlocks(e, iv, p[..|p| - 16]);
      LastEncrypted(e, iv, p);
      forall k | 0 <= k < |p| / 16 - 1 ensures BlockEncrypted(e, iv, p, Encrypted(e, iv, p), k) {
        EncryptedBefore(e, iv, p[..|p| - 16], Encrypted(e, iv, p[..|p| - 16]), p, Encrypted(e, iv, p), k);
      }
    }
  }

  lemma EncryptedBefore(e: BlockFunction, iv: Block, p: seq<byte>, c: seq<byte>, p': seq<byte>, c': seq<byte>, k: nat)
    requires 16 * k + 16 <= |p| == |c| && p <= p' && c <= c' && |p'| == |c'| && BlockEncrypted(e, iv, p, c, k)
    ensures BlockEncrypted(e, iv, p', c', k)
  {
    hide Xor;
    Prefix(p, p', k);
    Prefix(c, c', k);
  }

  lemma LastDecrypted(d: BlockFunction, iv: Block, c: seq<byte>)
    requires |c| % 16 == 0 && c != []
    ensures BlockDecrypted(d, iv, c, Decrypted(d, iv, c), |c| / 16 - 1)
    ensures Decrypted(d, iv, c[..|c| - 16]) <= Decrypted(d, iv, c)
  {
    hide Xor, Decrypted;
    var a, b := c[..|c| - 16], c[|c| - 16..];
    assert c == a + b;
    DecryptedOne(d, iv, a, b);
    SplitLast(a, b, c);
    SplitLast(Decrypted(d, iv, a), Xor(d(b), Chain(iv, a)), Decrypted(d, iv, c));
  }

  lemma {:induction false} DecryptedBlocks(d: BlockFunction, iv: Block, c: seq<byte>)
    requires |c| % 16 == 0
    ensures IsCbcDecryption(d, iv, c, Decrypted(d, iv, c))
  {
    hide Xor, BlockDecrypted, Decrypted;
    if c != [] {
      DecryptedBlocks(d, iv, c[..|c| - 16]);
      LastDecrypted(d, iv, c);
      forall k | 0 <= k < |c| / 16 - 1 ensures BlockDecrypted(d, iv, c, Decrypted(d, iv, c), k) {
        DecryptedBefore(d, iv, c[..|c| - 16], Decrypted(d, iv, c[..|c| - 16]), c, Decrypted(d, iv, c), k);
      }
    }
  }

  lemma DecryptedBefore(d: BlockFunction, iv: Block, c: seq<byte>, p: seq<byte>, c': seq<byte>, p': seq<byte>, k: nat)
    requires 16 * k + 16 <= |c| == |p| && p <= p' && c <= c' && |p'| == |c'| && BlockDecrypted(d, iv, c, p, k)
    ensures BlockDecrypted(d, iv, c', p', k)
  {
    hide Xor;
    Prefix(p, p', k);
    Prefix(c, c', k);
  }

  lemma Prefix(a: seq<byte>, s: seq<byte>, k: nat)
    requires a <= s && 16 * k + 16 <= |a|
    ensures s[16 * k..16 * k + 16] == a[16 * k..16 * k + 16]
    ensures k > 0 ==> s[16 * k - 16..16 * k] == a[16 * k - 16..16 * k]
  {
  }

  // The calls of either direction.

  /** r is what a call writes, next the chaining value it leaves: the last ciphertext block. */
  ghost predicate IsCbc(encrypt: bool, f: BlockFunction, iv: Block, s: seq<byte>, r: seq<byte>, next: Block) {
    && |r| == |s|
    && (if encrypt then IsCbcEncryption(f, iv, s, r) else IsCbcDecryption(f, iv, s, r))
    && (if s == [] then next == iv
        else |s| >= 16 && next == if encrypt then r[|s| - 16..] else s[|s| - 16..])
  }

  lemma CryptedIs(encrypt: bool, f: BlockFunction, iv: Block, s: seq<byte>)
    requires |s| % 16 == 0
    ensures IsCbc(encrypt, f, iv, s, Crypted(encrypt, f, iv, s), ChainAfter(encrypt, f, iv, s))
  {
    hide Encrypted, Decrypted, IsCbcEncryption, IsCbcDecryption;
    EncryptedBlocks(f, iv, s);
    DecryptedBlocks(f, iv, s);
  }

  /** What a call in one direction writes. */
  function Crypted(encrypt: bool, f: BlockFunction, iv: Block, s: seq<byte>): (r: seq<byte>)
    requires |s| % 16 == 0
    ensures |r| == |s|
  {
    if encrypt then Encrypted(f, iv, s) else Decrypted(f, iv, s)
  }

  /** The chaining value it leaves: the last ciphertext block. */
  function ChainAfter(encrypt: bool, f: BlockFunction, iv: Block, s: seq<byte>): Block
    requires |s| % 16 == 0
  {
    Chain(iv, if encrypt then Encrypted(f, iv, s) else s)
  }

  lemma CryptedNone(encrypt: bool, f: BlockFunction, iv: Block)
    ensures Crypted(encrypt, f, iv, []) == [] && ChainAfter(encrypt, f, iv, []) == iv
  {
  }

  lemma CryptedConcat(encrypt: bool, f: BlockFunction, iv: Block, a: seq<byte>, b: seq<byte>)
    requires |a| % 16 == 0 && |b| % 16 == 0
    ensures
      var next := ChainAfter(encrypt, f, iv, a);
      && Crypted(encrypt, f, iv, a + b) == Crypted(encrypt, f, iv, a) + Crypted(encrypt, f, next, b)
      && ChainAfter(encrypt, f, iv, a + b) == ChainAfter(encrypt, f, next, b)
  {
    hide Encrypted, Decrypted, Chain;
    if encrypt {
      EncryptedConcat(f, iv, a, b);
      ChainConcat(iv, Encrypted(f, iv, a), Encrypted(f, Chain(iv, Encrypted(f, iv, a)), b));
    } else {
      DecryptedConcat(f, iv, a, b);
      ChainConcat(iv, a, b);
    }
  }

  // Runs of calls.

  ghost predicate BlockMultiples(chunks: seq<seq<byte>>) {
    forall i :: 0 <= i < |chunks| ==> |chunks[i]| % 16 == 0
  }

  lemma {:induction false} FlattenMultiples(chunks: seq<seq<byte>>, n: nat)
    requires BlockMultiples(chunks) && n <= |chunks|
    ensures |Flatten(chunks[..n])| % 16 == 0 && (n < |chunks| ==> |chunks[n]| % 16 == 0)
  {
    if n > 0 {
      FlattenMultiples(chunks, n - 1);
      FlattenSnoc(chunks, n - 1);
      BlockCounts(|Flatten(chunks[..n - 1])|, |chunks[n - 1]|);
    }
  }

  lemma BlockCounts(a: nat, b: nat)
    requires a % 16 == 0 && b % 16 == 0
    ensures (a + b) % 16 == 0 && (a + b) / 16 == a / 16 + b / 16
  {
  }

  ghost predicate Inverse(d: BlockFunction, e: BlockFunction) {
    forall b: Block :: d(e(b)) == b
  }

  lemma {:induction false} DecryptsEncrypted(d: BlockFunction, e: BlockFunction, iv: Block, p: seq<byte>)
    requires Inverse(d, e) && |p| % 16 == 0
    ensures Decrypted(d, iv, Encrypted(e, iv, p)) == p
  {
    hide Xor, Chain;
    if p != [] {
      var p', last := p[..|p| - 16], p[|p| - 16..];
      var c := Encrypted(e, iv, p');
      DecryptsEncrypted(d, e, iv, p');
      DecryptedOne(d, iv, c, e(Xor(last, Chain(iv, c))));
      XorCancels(last, Chain(iv, c));
      assert p == p' + last;
    }
  }
}
