/** The SM4 block cipher (sm4.c) over an arbitrary S-box. */
module Sm4 {
  import opened Bytes

  type Sbox = byte -> byte

  // Words.  Operations on words are named so that proofs can treat them as symbols.

  function Xor32(a: bv32, b: bv32): bv32 { a ^ b }

  function Rotl(x: bv32, n: nat): bv32
    requires 0 < n < 32
  {
    (x << n) | (x >> (32 - n))
  }

  /** The four S-box substitutions of a word. */
  function Substitute(sbox: Sbox, w: bv32): bv32 {
    var a := PutBe32(w);
    GetBe32([sbox(a[0]), sbox(a[1]), sbox(a[2]), sbox(a[3])])
  }

  /** sm4Lt */
  function Lt(sbox: Sbox, ka: bv32): bv32 {
    var bb := Substitute(sbox, ka);
    Xor32(Xor32(Xor32(Xor32(bb, Rotl(bb, 2)), Rotl(bb, 10)), Rotl(bb, 18)), Rotl(bb, 24))
  }

  /** sm4CalciRK */
  function CalciRK(sbox: Sbox, ka: bv32): bv32 {
    var bb := Substitute(sbox, ka);
    Xor32(Xor32(bb, Rotl(bb, 13)), Rotl(bb, 23))
  }

  // The rounds, for any round function.

  type RoundFunction = bv32 -> bv32

  datatype Quad = Quad(x0: bv32, x1: bv32, x2: bv32, x3: bv32)

  /** The argument of the round transformation. */
  function Mix(x1: bv32, x2: bv32, x3: bv32, rk: bv32): bv32 { x1 ^ x2 ^ x3 ^ rk }

  /** sm4F with the transformation sm4Lt as a parameter. */
  function F(lt: RoundFunction, x0: bv32, x1: bv32, x2: bv32, x3: bv32, rk: bv32): bv32 {
    Xor32(x0, lt(Mix(x1, x2, x3, rk)))
  }

  function Round(lt: RoundFunction, q: Quad, rk: bv32): Quad {
    Quad(q.x1, q.x2, q.x3, F(lt, q.x0, q.x1, q.x2, q.x3, rk))
  }

  function Rounds(lt: RoundFunction, q: Quad, sk: seq<bv32>): Quad {
    if sk == [] then q else Round(lt, Rounds(lt, q, sk[..|sk| - 1]), sk[|sk| - 1])
  }

  function Backwards(q: Quad): Quad {
    Quad(q.x3, q.x2, q.x1, q.x0)
  }

  function Reversed<T>(sk: seq<T>): (r: seq<T>)
    ensures |r| == |sk|
  {
    seq(|sk|, i requires 0 <= i < |sk| => sk[|sk| - 1 - i])
  }

  function ToQuad(b: Block): Quad {
    Quad(GetBe32(b[..4]), GetBe32(b[4..8]), GetBe32(b[8..12]), GetBe32(b[12..]))
  }

  function FromQuad(q: Quad): Block {
    PutBe32(q.x0) + PutBe32(q.x1) + PutBe32(q.x2) + PutBe32(q.x3)
  }

  /** The cipher of sm4_one_round: 32 rounds, then the words in reverse order. */
  function Sm4Block(lt: RoundFunction, sk: seq<bv32>, b: Block): Block {
    FromQuad(Backwards(Rounds(lt, ToQuad(b), sk)))
  }

  lemma XorBack(a: bv32, b: bv32)
    ensures Xor32(Xor32(a, b), b) == a
  {
  }

  lemma MixBackwards(x1: bv32, x2: bv32, x3: bv32, rk: bv32)
    ensures Mix(x3, x2, x1, rk) == Mix(x1, x2, x3, rk)
  {
  }

  /** A round undoes itself when it reads the words backwards. */
  lemma RoundBack(lt: RoundFunction, q: Quad, rk: bv32)
    ensures Round(lt, Backwards(Round(lt, q, rk)), rk) == Backwards(q)
  {
    hide Xor32, Mix;
    MixBackwards(q.x1, q.x2, q.x3, rk);
    XorBack(q.x0, lt(Mix(q.x1, q.x2, q.x3, rk)));
  }

  lemma {:induction false} RoundsFromFront(lt: RoundFunction, q: Quad, sk: seq<bv32>)
    requires sk != []
    ensures Rounds(lt, q, sk) == Rounds(lt, Round(lt, q, sk[0]), sk[1..])
  {
    hide Round;
    if |sk| > 1 {
      RoundsFromFront(lt, q, sk[..|sk| - 1]);
      assert sk[..|sk| - 1][1..] == sk[1..][..|sk| - 2];
    } else {
      assert sk[..0] == [];
    }
  }

  /** Any number of rounds, with the keys in reverse order. */
  lemma {:induction false} RoundsBack(lt: RoundFunction, q: Quad, sk: seq<bv32>)
    ensures Rounds(lt, Backwards(Rounds(lt, q, sk)), Reversed(sk)) == Backwards(q)
  {
    hide Round;
    if sk != [] {
      var last, rest := sk[|sk| - 1], sk[..|sk| - 1];
      var r := Rounds(lt, q, rest);
      RoundsFromFront(lt, Backwards(Round(lt, r, last)), Reversed(sk));
      RoundBack(lt, r, last);
      assert Reversed(sk)[1..] == Reversed(rest);
      RoundsBack(lt, q, rest);
    }
  }

  lemma QuadRoundTrip(q: Quad)
    ensures ToQuad(FromQuad(q)) == q
  {
    hide GetBe32, PutBe32;
    GetPutBe32(q.x0);
    GetPutBe32(q.x1);
    GetPutBe32(q.x2);
    GetPutBe32(q.x3);
    var b := FromQuad(q);
    assert b[..4] == PutBe32(q.x0) && b[4..8] == PutBe32(q.x1);
    assert b[8..12] == PutBe32(q.x2) && b[12..] == PutBe32(q.x3);
  }

  lemma BlockRoundTrip(b: Block)
    ensures FromQuad(ToQuad(b)) == b
  {
    hide GetBe32, PutBe32;
    PutGetBe32(b[..4]);
    PutGetBe32(b[4..8]);
    PutGetBe32(b[8..12]);
    PutGetBe32(b[12..]);
  }

  /** With the key array reversed the cipher inverts itself. */
  lemma CipherInverts(lt: RoundFunction, sk: seq<bv32>, b: Block)
    ensures Sm4Block(lt, Reversed(sk), Sm4Block(lt, sk, b)) == b
    ensures Sm4Block(lt, sk, Sm4Block(lt, Reversed(sk), b)) == b
  {
    hide Rounds, FromQuad, ToQuad;
    assert Reversed(Reversed(sk)) == sk;
    QuadRoundTrip(Backwards(Rounds(lt, ToQuad(b), sk)));
    RoundsBack(lt, ToQuad(b), sk);
    QuadRoundTrip(Backwards(Rounds(lt, ToQuad(b), Reversed(sk))));
    RoundsBack(lt, ToQuad(b), Reversed(sk));
    BlockRoundTrip(b);
  }

  // Key schedule.

  const FK := Quad(0xa3b1_bac6, 0x56aa_3350, 0x677d_9197, 0xb270_22dc)

  const CK: seq<bv32> := [
    0x0007_0e15, 0x1c23_2a31, 0x383f_464d, 0x545b_6269,
    0x7077_7e85, 0x8c93_9aa1, 0xa8af_b6bd, 0xc4cb_d2d9,
    0xe0e7_eef5, 0xfc03_0a11, 0x181f_262d, 0x343b_4249,
    0x5057_5e65, 0x6c73_7a81, 0x888f_969d, 0xa4ab_b2b9,
    0xc0c7_ced5, 0xdce3_eaf1, 0xf8ff_060d, 0x141b_2229,
    0x3037_3e45, 0x4c53_5a61, 0x686f_767d, 0x848b_9299,
    0xa0a7_aeb5, 0xbcc3_cad1, 0xd8df_e6ed, 0xf4fb_0209,
    0x1017_1e25, 0x2c33_3a41, 0x484f_565d, 0x646b_7279
  ]

  function RoundConstant(i: nat): bv32
    requires i < 32
  {
    CK[i]
  }

  function NextKey(sbox: Sbox, q: Quad, ck: bv32): bv32 {
    Xor32(q.x0, CalciRK(sbox, Mix(q.x1, q.x2, q.x3, ck)))
  }

  function MasterKey(key: Block): Quad {
    var mk := ToQuad(key);
    Quad(Xor32(mk.x0, FK.x0), Xor32(mk.x1, FK.x1), Xor32(mk.x2, FK.x2), Xor32(mk.x3, FK.x3))
  }

  /** The four key words k[n..n + 4] of sm4_setkey. */
  function KeyQuad(sbox: Sbox, key: Block, n: nat): Quad
    requires n <= 32
  {
    if n == 0 then MasterKey(key)
    else
      var q := KeyQuad(sbox, key, n - 1);
      Quad(q.x1, q.x2, q.x3, NextKey(sbox, q, RoundConstant(n - 1)))
  }

  function KeySchedule(sbox: Sbox, key: Block): (sk: seq<bv32>)
    ensures |sk| == 32
  {
    seq(32, i requires 0 <= i < 32 => KeyQuad(sbox, key, i + 1).x3)
  }

  /** The swapping loop of sm4_setkey_dec. */
  method SwapEnds<T>(a: array<T>)
    requires a.Length == 32
    modifies a
    ensures a[..] == Reversed(old(a[..]))
  {
    for i := 0 to 16
      invariant forall j :: 0 <= j < i ==> a[j] == old(a[31 - j]) && a[31 - j] == old(a[j])
      invariant forall j :: i <= j < 32 - i ==> a[j] == old(a[j])
    {
      a[i], a[31 - i] := a[31 - i], a[i];
    }
  }

  datatype Mode = ENCRYPT | DECRYPT

  /** The block permutation of a key array. */
  function CryptWith(sbox: Sbox, keys: seq<bv32>): (e: Block -> Block) {
    b => Sm4Block(w => Lt(sbox, w), keys, b)
  }

  /** The block permutation of a key in one direction. */
  function KeyedCrypt(sbox: Sbox, mode: Mode, key: Block): (e: Block -> Block) {
    CryptWith(sbox, if mode == ENCRYPT then KeySchedule(sbox, key) else Reversed(KeySchedule(sbox, key)))
  }

  /** The key arrays of sm4_setkey_enc and sm4_setkey_dec give inverse permutations. */
  lemma SchedulesInvert(sbox: Sbox, key: Block, b: Block)
    ensures CryptWith(sbox, Reversed(KeySchedule(sbox, key)))(CryptWith(sbox, KeySchedule(sbox, key))(b)) == b
    ensures CryptWith(sbox, KeySchedule(sbox, key))(CryptWith(sbox, Reversed(KeySchedule(sbox, key)))(b)) == b
  {
    hide Sm4Block, KeySchedule, Reversed, Lt;
    CipherInverts(w => Lt(sbox, w), KeySchedule(sbox, key), b);
  }

  // The cipher and its key schedule spelled out in words, as in sections 6 and 7 of GB/T 32907-2016.

  /** b is w with the S-box applied to each of its bytes. */
  predicate Substituted(sbox: Sbox, w: bv32, b: bv32) {
    && (b >> 24) as byte == sbox((w >> 24) as byte) && ((b >> 16) & 0xff) as byte == sbox(((w >> 16) & 0xff) as byte)
    && ((b >> 8) & 0xff) as byte == sbox(((w >> 8) & 0xff) as byte) && (b & 0xff) as byte == sbox((w & 0xff) as byte)
  }

  /** The fifth word of a round, b being the substituted one. */
  predicate RoundWord(sbox: Sbox, x0: bv32, x1: bv32, x2: bv32, x3: bv32, rk: bv32, b: bv32, x4: bv32) {
    && Substituted(sbox, x1 ^ x2 ^ x3 ^ rk, b)
    && x4 == Xor32(x0, Xor32(Xor32(Xor32(Xor32(b, Rotl(b, 2)), Rotl(b, 10)), Rotl(b, 18)), Rotl(b, 24)))
  }

  ghost predicate RoundAt(sbox: Sbox, sk: seq<bv32>, x: seq<bv32>, b: seq<bv32>, i: nat)
    requires i < |sk| == |b| && |x| == |sk| + 4
  {
    RoundWord(sbox, x[i], x[i + 1], x[i + 2], x[i + 3], sk[i], b[i], x[i + 4])
  }

  /** The words x with their substituted words b take input to output in one round for each key. */
  ghost predicate Enciphers(sbox: Sbox, sk: seq<bv32>, input: Block, x: seq<bv32>, b: seq<bv32>, output: Block) {
    && |x| == |sk| + 4 && |b| == |sk|
    && IsWord(x[0], input[..4]) && IsWord(x[1], input[4..8]) && IsWord(x[2], input[8..12]) && IsWord(x[3], input[12..])
    && (forall i :: 0 <= i < |sk| ==> RoundAt(sbox, sk, x, b, i))
    && var n := |sk|;
    && IsWord(x[n + 3], output[..4]) && IsWord(x[n + 2], output[4..8])
    && IsWord(x[n + 1], output[8..12]) && IsWord(x[n], output[12..])
  }

  /** There are such words. */
  ghost predicate IsCipherOf(sbox: Sbox, sk: seq<bv32>, input: Block, output: Block) {
    exists x, b :: Enciphers(sbox, sk, input, x, b, output)
  }

  /** The next word of the key schedule. */
  predicate KeyWord(sbox: Sbox, k0: bv32, k1: bv32, k2: bv32, k3: bv32, ck: bv32, b: bv32, k4: bv32) {
    && Substituted(sbox, k1 ^ k2 ^ k3 ^ ck, b)
    && k4 == Xor32(k0, Xor32(Xor32(b, Rotl(b, 13)), Rotl(b, 23)))
  }

  /** The bytes of the system parameter CK count up in sevens: 7 * (4 * i + j) modulo 256 is byte j of word i. */
  predicate Parameters(c: seq<bv32>) {
    && |c| == 32 && c[0] == 0x0007_0e15
    && forall i :: 0 <= i < 31 ==> CountsOn(c[i], c[i + 1])
  }

  /** Each byte of d is 28 more than that of c. */
  predicate CountsOn(c: bv32, d: bv32) {
    && (d >> 24) as byte == (c >> 24) as byte + 28
    && ((d >> 16) & 0xff) as byte == ((c >> 16) & 0xff) as byte + 28
    && ((d >> 8) & 0xff) as byte == ((c >> 8) & 0xff) as byte + 28 && (d & 0xff) as byte == (c & 0xff) as byte + 28
  }

  ghost predicate KeyWordAt(sbox: Sbox, k: seq<bv32>, b: seq<bv32>, c: seq<bv32>, i: nat)
    requires i < 32 == |b| == |c| && |k| == 36
  {
    KeyWord(sbox, k[i], k[i + 1], k[i + 2], k[i + 3], c[i], b[i], k[i + 4])
  }

  /** The words k with their substituted words b make the round keys sk of a key, under the parameters c. */
  ghost predicate Schedules(sbox: Sbox, key: Block, k: seq<bv32>, b: seq<bv32>, c: seq<bv32>, sk: seq<bv32>) {
    && |k| == 36 && |b| == |c| == |sk| == 32
    && IsWord(k[0] ^ 0xa3b1_bac6, key[..4]) && IsWord(k[1] ^ 0x56aa_3350, key[4..8])
    && IsWord(k[2] ^ 0x677d_9197, key[8..12]) && IsWord(k[3] ^ 0xb270_22dc, key[12..])
    && Parameters(c)
    && (forall i :: 0 <= i < 32 ==> KeyWordAt(sbox, k, b, c, i)) && sk == k[4..]
  }

  ghost predicate IsScheduleOf(sbox: Sbox, key: Block, sk: seq<bv32>) {
    exists k, b, c :: Schedules(sbox, key, k, b, c, sk)
  }

  lemma WordsIn(b: Block)
    ensures
      var q := ToQuad(b);
      IsWord(q.x0, b[..4]) && IsWord(q.x1, b[4..8]) && IsWord(q.x2, b[8..12]) && IsWord(q.x3, b[12..])
  {
    hide GetBe32, IsWord;
    GetIsWord(b[..4]);
    GetIsWord(b[4..8]);
    GetIsWord(b[8..12]);
    GetIsWord(b[12..]);
  }

  lemma WordsOut(q: Quad)
    ensures
      var b := FromQuad(q);
      IsWord(q.x0, b[..4]) && IsWord(q.x1, b[4..8]) && IsWord(q.x2, b[8..12]) && IsWord(q.x3, b[12..])
  {
    hide PutBe32, IsWord;
    PutIsWord(q.x0);
    PutIsWord(q.x1);
    PutIsWord(q.x2);
    PutIsWord(q.x3);
    var b := FromQuad(q);
    assert b[..4] == PutBe32(q.x0) && b[4..8] == PutBe32(q.x1);
    assert b[8..12] == PutBe32(q.x2) && b[12..] == PutBe32(q.x3);
  }

  lemma SubstituteIs(sbox: Sbox, w: bv32)
    ensures Substituted(sbox, w, Substitute(sbox, w))
  {
    hide GetBe32;
    GetIsWord([sbox((w >> 24) as byte), sbox(((w >> 16) & 0xff) as byte), sbox(((w >> 8) & 0xff) as byte),
               sbox((w & 0xff) as byte)]);
  }

  lemma Rotations(b: bv32)
    ensures Rotl(b, 2) == (b << 2) | (b >> 30) && Rotl(b, 10) == (b << 10) | (b >> 22)
    ensures Rotl(b, 18) == (b << 18) | (b >> 14) && Rotl(b, 24) == (b << 24) | (b >> 8)
    ensures Rotl(b, 13) == (b << 13) | (b >> 19) && Rotl(b, 23) == (b << 23) | (b >> 9)
    ensures forall x: bv32, y: bv32 :: Xor32(x, y) == x ^ y
  {
  }

  lemma RoundIs(sbox: Sbox, x0: bv32, x1: bv32, x2: bv32, x3: bv32, rk: bv32)
    ensures RoundWord(sbox, x0, x1, x2, x3, rk, Substitute(sbox, Mix(x1, x2, x3, rk)),
                      Xor32(x0, Lt(sbox, Mix(x1, x2, x3, rk))))
  {
    hide Substitute, Substituted, Xor32, Rotl;
    SubstituteIs(sbox, Mix(x1, x2, x3, rk));
  }

  ghost predicate RoundFrom(lt: RoundFunction, x: seq<bv32>, sk: seq<bv32>, i: nat)
    requires i < |sk| && |x| == |sk| + 4
  {
    x[i + 4] == F(lt, x[i], x[i + 1], x[i + 2], x[i + 3], sk[i])
  }

  /** The words of any number of rounds. */
  lemma {:induction false} RoundWords(lt: RoundFunction, q: Quad, sk: seq<bv32>) returns (x: seq<bv32>)
    ensures |x| == |sk| + 4 && x[0] == q.x0 && x[1] == q.x1 && x[2] == q.x2 && x[3] == q.x3
    ensures forall i :: 0 <= i < |sk| ==> RoundFrom(lt, x, sk, i)
    ensures Rounds(lt, q, sk) == Quad(x[|sk|], x[|sk| + 1], x[|sk| + 2], x[|sk| + 3])
  {
    hide F;
    if sk == [] {
      x := [q.x0, q.x1, q.x2, q.x3];
    } else {
      var n := |sk| - 1;
      var before := RoundWords(lt, q, sk[..n]);
      x := before + [F(lt, before[n], before[n + 1], before[n + 2], before[n + 3], sk[n])];
      forall i | 0 <= i < |sk| ensures RoundFrom(lt, x, sk, i) {
        assert i < n ==> RoundFrom(lt, before, sk[..n], i);
      }
    }
  }

  /** The cipher is the one with these words, for every S-box, key array and block. */
  lemma CipherWords(sbox: Sbox, sk: seq<bv32>, input: Block)
    ensures IsCipherOf(sbox, sk, input, CryptWith(sbox, sk)(input))
  {
    hide RoundWord, ToQuad, FromQuad, IsWord, Rounds, Mix, Substitute, Lt, Xor32;
    var x := RoundWords(w => Lt(sbox, w), ToQuad(input), sk);
    var n, output := |sk|, CryptWith(sbox, sk)(input);
    var b := seq(n, i requires 0 <= i < n => Substitute(sbox, Mix(x[i + 1], x[i + 2], x[i + 3], sk[i])));
    forall i | 0 <= i < n ensures RoundAt(sbox, sk, x, b, i) {
      assert RoundFrom(w => Lt(sbox, w), x, sk, i);
      RoundIs(sbox, x[i], x[i + 1], x[i + 2], x[i + 3], sk[i]);
    }
    WordsIn(input);
    WordsOut(Quad(x[n + 3], x[n + 2], x[n + 1], x[n]));
    assert Enciphers(sbox, sk, input, x, b, output);
  }

  lemma KeyIs(sbox: Sbox, q: Quad, ck: bv32)
    ensures KeyWord(sbox, q.x0, q.x1, q.x2, q.x3, ck, Substitute(sbox, Mix(q.x1, q.x2, q.x3, ck)), NextKey(sbox, q, ck))
  {
    hide Substitute, Substituted, Xor32, Rotl;
    SubstituteIs(sbox, Mix(q.x1, q.x2, q.x3, ck));
  }

  lemma ParametersAre()
    ensures Parameters(CK)
  {
    hide CountsOn;
    forall i | 0 <= i < 31 ensures CountsOn(CK[i], CK[i + 1]) {
      ParameterCounts(i);
    }
  }

  lemma ParameterCounts(i: nat)
    requires i < 31
    ensures CountsOn(CK[i], CK[i + 1])
  {
    hide CountsOn;
    if i < 8 {
      CountsInFirst(i);
    } else if i < 16 {
      CountsInSecond(i);
    } else if i < 24 {
      CountsInThird(i);
    } else {
      CountsInLast(i);
    }
  }

  lemma CountsInFirst(i: nat)
    requires i < 8
    ensures CountsOn(CK[i], CK[i + 1])
  {
    if i == 0 {} else if i == 1 {} else if i == 2 {} else if i == 3 {}
    else if i == 4 {} else if i == 5 {} else if i == 6 {} else {}
  }

  lemma CountsInSecond(i: nat)
    requires 8 <= i < 16
    ensures CountsOn(CK[i], CK[i + 1])
  {
    if i == 8 {} else if i == 9 {} else if i == 10 {} else if i == 11 {}
    else if i == 12 {} else if i == 13 {} else if i == 14 {} else {}
  }

  lemma CountsInThird(i: nat)
    requires 16 <= i < 24
    ensures CountsOn(CK[i], CK[i + 1])
  {
    if i == 16 {} else if i == 17 {} else if i == 18 {} else if i == 19 {}
    else if i == 20 {} else if i == 21 {} else if i == 22 {} else {}
  }

  lemma CountsInLast(i: nat)
    requires 24 <= i < 31
    ensures CountsOn(CK[i], CK[i + 1])
  {
    if i == 24 {} else if i == 25 {} else if i == 26 {} else if i == 27 {}
    else if i == 28 {} else if i == 29 {} else {}
  }

  /** The round keys are those with these words, for every S-box and key. */
  lemma ScheduleWords(sbox: Sbox, key: Block)
    ensures IsScheduleOf(sbox, key, KeySchedule(sbox, key))
  {
    hide KeyWord, IsWord, GetBe32, Substitute, Mix, NextKey, MasterKey, KeyAt, Parameters, KeyFirst, RoundConstant;
    var k := seq(36, i requires 0 <= i < 36 => KeyAt(sbox, key, i));
    var b := seq(32, i requires 0 <= i < 32 => KeySubstitute(sbox, key, i));
    KeyFirsts(key);
    ParametersAre();
    forall i | 0 <= i < 32 ensures KeyWordAt(sbox, k, b, CK, i) && KeySchedule(sbox, key)[i] == k[i + 4] {
      KeyWordIs(sbox, key, i);
    }
    forall i | 0 <= i < 4 ensures k[i] == KeyFirst(key, i) {
      KeyAtStart(sbox, key, i);
    }
    assert Schedules(sbox, key, k, b, CK, KeySchedule(sbox, key));
  }

  function KeySubstitute(sbox: Sbox, key: Block, i: nat): bv32
    requires i < 32
  {
    var q := KeyQuad(sbox, key, i);
    Substitute(sbox, Mix(q.x1, q.x2, q.x3, RoundConstant(i)))
  }

  lemma KeyAtStart(sbox: Sbox, key: Block, i: nat)
    requires i < 4
    ensures KeyAt(sbox, key, i) == KeyFirst(key, i)
  {
  }

  lemma KeyWordIs(sbox: Sbox, key: Block, i: nat)
    requires i < 32
    ensures KeyWord(sbox, KeyAt(sbox, key, i), KeyAt(sbox, key, i + 1), KeyAt(sbox, key, i + 2),
                    KeyAt(sbox, key, i + 3), CK[i], KeySubstitute(sbox, key, i), KeyAt(sbox, key, i + 4))
    ensures KeySchedule(sbox, key)[i] == KeyAt(sbox, key, i + 4)
  {
    hide KeyWord, Substitute, Mix, NextKey, MasterKey, KeyFirst, KeyQuad;
    KeyQuadIs(sbox, key, i);
    KeyIs(sbox, KeyQuad(sbox, key, i), RoundConstant(i));
  }

  function KeyFirst(key: Block, i: nat): bv32
    requires i < 4
  {
    var q := MasterKey(key);
    if i == 0 then q.x0 else if i == 1 then q.x1 else if i == 2 then q.x2 else q.x3
  }

  lemma KeyFirsts(key: Block)
    ensures IsWord(KeyFirst(key, 0) ^ 0xa3b1_bac6, key[..4]) && IsWord(KeyFirst(key, 1) ^ 0x56aa_3350, key[4..8])
    ensures IsWord(KeyFirst(key, 2) ^ 0x677d_9197, key[8..12]) && IsWord(KeyFirst(key, 3) ^ 0xb270_22dc, key[12..])
  {
    hide IsWord, GetBe32;
    GetIsWord(key[..4]);
    GetIsWord(key[4..8]);
    GetIsWord(key[8..12]);
    GetIsWord(key[12..]);
    XorBack(GetBe32(key[..4]), 0xa3b1_bac6);
    XorBack(GetBe32(key[4..8]), 0x56aa_3350);
    XorBack(GetBe32(key[8..12]), 0x677d_9197);
    XorBack(GetBe32(key[12..]), 0xb270_22dc);
  }

  /** The four words of a step are the last four, the first ones those of the key. */
  lemma {:induction false} KeyQuadIs(sbox: Sbox, key: Block, n: nat)
    requires n < 32
    ensures
      var q := KeyQuad(sbox, key, n);
      && q.x0 == KeyAt(sbox, key, n) && q.x1 == KeyAt(sbox, key, n + 1) && q.x2 == KeyAt(sbox, key, n + 2)
      && q.x3 == KeyAt(sbox, key, n + 3) && KeyAt(sbox, key, n + 4) == NextKey(sbox, q, RoundConstant(n))
  {
    hide NextKey, RoundConstant, MasterKey;
    if n > 0 {
      KeyQuadIs(sbox, key, n - 1);
    }
  }

  function KeyAt(sbox: Sbox, key: Block, i: nat): bv32
    requires i < 36
  {
    if i < 4 then KeyFirst(key, i) else KeyQuad(sbox, key, i - 3).x3
  }

  /** struct sm4_context */
  class Context {
    const sbox: Sbox
    var mode: Mode
    const sk: array<bv32>

    constructor (sbox: Sbox)
      ensures fresh(sk) && sk.Length == 32 && this.sbox == sbox
    {
      this.sbox := sbox;
      mode := ENCRYPT;
      sk := new bv32[32];
    }

    /** The permutation sm4_one_round computes with this context. */
    function Crypt(): (e: Block -> Block)
      reads sk
    {
      CryptWith(sbox, sk[..])
    }

    /** sm4_setkey */
    method SetKey(key: Block)
      requires sk.Length == 32
      modifies sk
      ensures sk[..] == KeySchedule(sbox, key)
      ensures IsScheduleOf(sbox, key, sk[..])
    {
      hide MasterKey, NextKey, RoundConstant, IsScheduleOf;
      var k := new bv32[36];
      var mk := MasterKey(key);
      k[0], k[1], k[2], k[3] := mk.x0, mk.x1, mk.x2, mk.x3;
      for i := 0 to 32
        invariant Quad(k[i], k[i + 1], k[i + 2], k[i + 3]) == KeyQuad(sbox, key, i)
        invariant forall j :: 0 <= j < i ==> sk[j] == KeyQuad(sbox, key, j + 1).x3
      {
        k[i + 4] := NextKey(sbox, Quad(k[i], k[i + 1], k[i + 2], k[i + 3]), RoundConstant(i));
        sk[i] := k[i + 4];
      }
      ScheduleWords(sbox, key);
    }

    /** sm4_setkey_enc */
    method SetKeyEnc(key: Block)
      requires sk.Length == 32
      modifies this, sk
      ensures mode == ENCRYPT && sk[..] == KeySchedule(sbox, key)
    {
      mode := ENCRYPT;
      SetKey(key);
    }

    /** sm4_setkey_dec: the same keys, swapped end for end in place. */
    method SetKeyDec(key: Block)
      requires sk.Length == 32
      modifies this, sk
      ensures mode == DECRYPT && sk[..] == Reversed(KeySchedule(sbox, key))
    {
      mode := DECRYPT;
      SetKey(key);
      SwapEnds(sk);
    }

    /** sm4_one_round */
    method OneRound(input: Block) returns (output: Block)
      requires sk.Length == 32
      ensures output == Crypt()(input)
      ensures IsCipherOf(sbox, sk[..], input, output)
    {
      hide ToQuad, FromQuad, Xor32, Mix, Lt, IsCipherOf;
      ghost var lt: RoundFunction := w => Lt(sbox, w);
      var ulbuf := new bv32[36];
      var start := ToQuad(input);
      ulbuf[0], ulbuf[1], ulbuf[2], ulbuf[3] := start.x0, start.x1, start.x2, start.x3;
      for i := 0 to 32
        invariant Quad(ulbuf[i], ulbuf[i + 1], ulbuf[i + 2], ulbuf[i + 3]) == Rounds(lt, start, sk[..i])
      {
        ulbuf[i + 4] := Xor32(ulbuf[i], Lt(sbox, Mix(ulbuf[i + 1], ulbuf[i + 2], ulbuf[i + 3], sk[i])));
        assert sk[..i + 1][..i] == sk[..i];
      }
      assert sk[..32] == sk[..];
      output := FromQuad(Quad(ulbuf[35], ulbuf[34], ulbuf[33], ulbuf[32]));
      CipherWords(sbox, sk[..], input);
    }
  }
}
