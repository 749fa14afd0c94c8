/** Galois/counter mode on whole messages: what aes-gcm.c computes, and section 7.1 of NIST SP 800-38D. */
module GcmSpec {
  import opened Arith
  import opened Bytes
  import opened CounterMode
  import opened GaloisField

  /** GHASH continued from y over a whole number of blocks (section 6.4). */
  function GhashFrom(h: Block, y: Block, s: seq<byte>): Block
    requires |s| % 16 == 0
  {
    if s == [] then y
    else Mul(Xor(GhashFrom(h, y, s[..|s| - 16]), s[|s| - 16..]), h)
  }

  lemma {:induction false} GhashFromConcat(h: Block, y: Block, a: seq<byte>, b: seq<byte>)
    requires |a| % 16 == 0 && |b| % 16 == 0
    ensures GhashFrom(h, y, a + b) == GhashFrom(h, GhashFrom(h, y, a), b)
  {
    hide Mul, Xor;
    if b == [] {
      assert a + b == a;
    } else {
      GhashFromConcat(h, y, a, b[..|b| - 16]);
      assert (a + b)[..|a + b| - 16] == a + b[..|b| - 16];
      assert (a + b)[|a + b| - 16..] == b[|b| - 16..];
    }
  }

  /** s followed by the fewest zeros that fill a block. */
  function Pad(s: seq<byte>): (r: seq<byte>)
    ensures |r| % 16 == 0
  {
    if |s| % 16 == 0 then s else s + Zeros(16 - |s| % 16)
  }

  // Counters.

  /** inc32 of section 6.2: only the last 32 bits count. */
  function Inc32(b: Block): Block {
    b[..12] + ToBe((FromBe(b[12..]) + 1) % TWO32, 4)
  }

  // Whole messages, as the source computes them.

  /** A length field: the bit count is a 32-bit product in a 64-bit field. */
  function LenField(bytes: nat): (f: seq<byte>)
    ensures |f| == 8
  {
    ToBe(bytes * 8 % TWO32, 8)
  }

  function Lengths(a: nat, c: nat): Block {
    LenField(a) + LenField(c)
  }

  function HashKey(E: Cipher): Block {
    E(Zeros(16))
  }

  function J0(E: Cipher, nonce: seq<byte>): Block {
    if |nonce| == 12 then nonce + Zeros(3) + [1]
    else GhashFrom(HashKey(E), ZERO, NonceBlocks(nonce, LenField(|nonce|)))
  }

  function NonceBlocks(nonce: seq<byte>, length: seq<byte>): (s: seq<byte>)
    requires |length| == 8
    ensures |s| % 16 == 0
  {
    Pad(nonce) + (Zeros(8) + length)
  }

  /** The whole tag for the bytes fed to GHASH before the length block. */
  function FullTag(E: Cipher, nonce: seq<byte>, hashed: seq<byte>, a: nat, c: nat): Block
    requires |hashed| % 16 == 0
  {
    hide LenField, J0;
    Xor(E(J0(E, nonce)), GhashFrom(HashKey(E), ZERO, hashed + Lengths(a, c)))
  }

  /** Ciphertext of payload p. */
  function Crypt(E: Cipher, nonce: seq<byte>, p: seq<byte>): seq<byte> {
    Gctr(E, Inc(J0(E, nonce)), 0, p)
  }

  function Tag(E: Cipher, nonce: seq<byte>, aad: seq<byte>, c: seq<byte>, tagLen: nat): seq<byte>
    requires tagLen <= 16
  {
    FullTag(E, nonce, Pad(aad) + Pad(c), |aad|, |c|)[..tagLen]
  }
}
