/** The XTS context that carries the tweak between calls (sm4-xts.c). */
module Sm4XtsContext {
  import opened Bytes
  import opened Buffers
  import opened CbcMode
  import opened Sm4
  import opened Sm4Xts

  datatype Status = SUCCESS | BAD_STATE

  /** struct sm4_xts_ctx */
  class XtsContext {
    const sbox: Sbox
    const state: Context
    const state_ek: Context
    const state_dk: Context
    const iv: array<byte>

    ghost predicate Shape()
      reads {}
    {
      && state.sk.Length == state_ek.sk.Length == state_dk.sk.Length == 32 && iv.Length == 16
      && state.sk != state_ek.sk && state.sk != state_dk.sk && state_ek.sk != state_dk.sk
      && state != state_ek && state != state_dk && state_ek != state_dk
      && state.sbox == state_ek.sbox == state_dk.sbox == sbox
    }

    constructor (sbox: Sbox)
      ensures Shape() && this.sbox == sbox
      ensures fresh(state) && fresh(state_ek) && fresh(state_dk) && fresh(iv)
      ensures fresh(state.sk) && fresh(state_ek.sk) && fresh(state_dk.sk)
    {
      this.sbox := sbox;
      state := new Context(sbox);
      state_ek := new Context(sbox);
      state_dk := new Context(sbox);
      iv := new byte[16];
    }

    static function TweakCrypt(sbox: Sbox, key2: Block): BlockFunction {
      CryptWith(sbox, KeySchedule(sbox, key2))
    }

    ghost predicate Valid(mode: Mode, key1: Block, key2: Block)
      reads state, state.sk, state_ek.sk, state_dk.sk
    {
      && Shape() && state.mode == mode
      && state.Crypt() == KeyedCrypt(sbox, mode, key1)
      && state_ek.Crypt() == TweakCrypt(sbox, key2)
      && state_dk.Crypt() == CryptWith(sbox, Reversed(KeySchedule(sbox, key2)))
    }

    /** The tweak the next update starts with. */
    ghost function Next(key2: Block): Block
      requires iv.Length == 16
      reads iv
    {
      TweakCrypt(sbox, key2)(iv[..])
    }

    /** sm4_xts_init; an absent iv leaves the stored one alone. */
    method Init(mode: Mode, key1: seq<byte>, key2: seq<byte>, iv: seq<byte>, ivGiven: bool) returns (status: Status)
      requires Shape()
      modifies state, state_ek, state_dk, state.sk, state_ek.sk, state_dk.sk, this.iv
      ensures status == if |key1| != 16 || |key2| != 16 || |iv| != 16 then BAD_STATE else SUCCESS
      ensures status.SUCCESS? ==> Valid(mode, key1, key2) && this.iv[..] == if ivGiven then iv else old(this.iv[..])
    {
      hide KeySchedule, CryptWith, Reversed;
      if |key1| != 16 || |key2| != 16 || |iv| != 16 {
        return BAD_STATE;
      }
      if ivGiven {
        Memcpy(this.iv, 0, iv);
      }
      if mode == ENCRYPT {
        state.SetKeyEnc(key1);
      } else {
        state.SetKeyDec(key1);
      }
      state_ek.SetKeyEnc(key2);
      state_dk.SetKeyDec(key2);
      return SUCCESS;
    }

    /** sm4_xts_update */
    method Update(data: seq<byte>, dst: array<byte>, off: nat, ghost mode: Mode, ghost key1: Block, ghost key2: Block)
      requires Valid(mode, key1, key2) && |data| >= 16 && off + |data| <= dst.Length && dst != iv
      modifies iv, dst
      ensures dst[..] == Splice(old(dst[..]), off, Xts(KeyedCrypt(sbox, mode, key1), mode, old(Next(key2)), data))
      ensures |data| % 16 == 0 ==> Next(key2) == Tweak(old(Next(key2)), |data| / 16)
      ensures |data| % 16 != 0 ==> iv[..] == old(iv[..])
    {
      hide Splice, Xts, Tweak, CryptWith, KeySchedule, Reversed, Context.Crypt;
      CryptXts(state, state_ek, state_dk, iv, data, dst, off);
      SchedulesInvert(sbox, key2, Tweak(old(Next(key2)), |data| / 16));
    }
  }

  ghost predicate WholeBlocks(chunks: seq<seq<byte>>) {
    forall i :: 0 <= i < |chunks| ==> |chunks[i]| >= 16 && |chunks[i]| % 16 == 0
  }

  /** An update of whole blocks, at the tweak of its position. */
  method UpdateWhole(ctx: XtsContext, data: seq<byte>, dst: array<byte>, pos: nat,
                     ghost mode: Mode, ghost key1: Block, ghost key2: Block, ghost t: Block)
    requires ctx.Valid(mode, key1, key2) && |data| >= 16 && |data| % 16 == 0
    requires pos + |data| <= dst.Length && dst != ctx.iv && pos % 16 == 0 && ctx.Next(key2) == Tweak(t, pos / 16)
    modifies ctx.iv, dst
    ensures (pos + |data|) % 16 == 0 && ctx.Next(key2) == Tweak(t, (pos + |data|) / 16)
    ensures dst[..] == Splice(old(dst[..]), pos, XtsBlocks(KeyedCrypt(ctx.sbox, mode, key1), Tweak(t, pos / 16), data))
  {
    hide Splice, Xts, XtsBlocks, Tweak, KeyedCrypt, Context.Crypt, CryptWith, KeySchedule, Reversed;
    hide XtsContext.Next, XtsContext.TweakCrypt;
    ctx.Update(data, dst, pos, mode, key1, key2);
    XtsWhole(KeyedCrypt(ctx.sbox, mode, key1), mode, Tweak(t, pos / 16), data);
    TweakAdds(t, pos / 16, |data| / 16);
    BlockCounts(pos, |data|);
  }

  /** Any number of block-multiple updates and a last one of any length give the output of a single call. */
  method UpdateAll(ctx: XtsContext, chunks: seq<seq<byte>>, last: seq<byte>, dst: array<byte>,
                   ghost mode: Mode, ghost key1: Block, ghost key2: Block)
    requires ctx.Valid(mode, key1, key2) && WholeBlocks(chunks) && |last| >= 16
    requires |Flatten(chunks)| + |last| == dst.Length && dst != ctx.iv
    modifies ctx.iv, dst
    ensures dst[..] == Xts(KeyedCrypt(ctx.sbox, mode, key1), mode, old(ctx.Next(key2)), Flatten(chunks) + last)
  {
    hide Splice, Xts, XtsBlocks, Tweak, KeyedCrypt, Context.Crypt, CryptWith, KeySchedule, Reversed;
    hide XtsContext.Next, XtsContext.TweakCrypt, Flatten, WholeBlocks;
    ghost var c, t, out0 := KeyedCrypt(ctx.sbox, mode, key1), ctx.Next(key2), dst[..];
    var pos := 0;
    FlattenNothing();
    TweakStart(c, t);
    SpliceNothing(out0, 0);
    assert chunks[..0] == [];
    for i := 0 to |chunks|
      invariant ctx.Valid(mode, key1, key2)
      invariant pos == |Flatten(chunks[..i])| && pos % 16 == 0 && pos <= |out0|
      invariant ctx.Next(key2) == Tweak(t, pos / 16)
      invariant dst[..] == Splice(out0, 0, XtsBlocks(c, t, Flatten(chunks[..i])))
    {
      ghost var before := Flatten(chunks[..i]);
      FlattenSnoc(chunks, i);
      FlattenPrefix(chunks, i + 1);
      ChunkWhole(chunks, i);
      UpdateWhole(ctx, chunks[i], dst, pos, mode, key1, key2, t);
      XtsBlocksConcat(c, t, before, chunks[i]);
      SpliceTwice(out0, 0, XtsBlocks(c, t, before), XtsBlocks(c, Tweak(t, pos / 16), chunks[i]));
      pos := pos + |chunks[i]|;
    }
    assert chunks[..|chunks|] == chunks;
    ctx.Update(last, dst, pos, mode, key1, key2);
    XtsResumes(c, mode, t, Flatten(chunks), last);
    SpliceTwice(out0, 0, XtsBlocks(c, t, Flatten(chunks)), Xts(c, mode, Tweak(t, pos / 16), last));
    SpliceAll(Xts(c, mode, t, Flatten(chunks) + last));
  }

  lemma ChunkWhole(chunks: seq<seq<byte>>, i: nat)
    requires WholeBlocks(chunks) && i < |chunks|
    ensures |chunks[i]| >= 16 && |chunks[i]| % 16 == 0
  {
  }

  /** Decrypting with the contexts of the same keys and iv undoes encryption, for every length from 16 bytes on. */
  lemma ContextsInvert(sbox: Sbox, key1: Block, t: Block, p: seq<byte>)
    requires |p| >= 16
    ensures
      var c := Xts(KeyedCrypt(sbox, ENCRYPT, key1), ENCRYPT, t, p);
      Xts(KeyedCrypt(sbox, DECRYPT, key1), DECRYPT, t, c) == p
  {
    hide Xts, CryptWith, KeySchedule, Reversed;
    var e, d := KeyedCrypt(sbox, ENCRYPT, key1), KeyedCrypt(sbox, DECRYPT, key1);
    forall b: Block ensures d(e(b)) == b {
      SchedulesInvert(sbox, key1, b);
    }
    XtsRoundTrip(d, e, t, p);
  }

  /** sm4_xts_init, block-multiple updates and a last one. */
  method Run(sbox: Sbox, mode: Mode, key1: Block, key2: Block, iv: Block, chunks: seq<seq<byte>>, last: seq<byte>)
    returns (r: seq<byte>)
    requires WholeBlocks(chunks) && |last| >= 16
    ensures r == Xts(KeyedCrypt(sbox, mode, key1), mode, XtsContext.TweakCrypt(sbox, key2)(iv), Flatten(chunks) + last)
  {
    hide Xts, Flatten, WholeBlocks, KeyedCrypt, CryptWith, KeySchedule, XtsContext.TweakCrypt;
    var ctx := new XtsContext(sbox);
    var status := ctx.Init(mode, key1, key2, iv, true);
    var dst := new byte[|Flatten(chunks)| + |last|];
    UpdateAll(ctx, chunks, last, dst, mode, key1, key2);
    r := dst[..];
  }

  /** Encrypted in one run of updates and decrypted in any other: `cut` chooses the pieces of the ciphertext. */
  method RunsRoundTrip(sbox: Sbox, key1: Block, key2: Block, iv: Block, chunks: seq<seq<byte>>, last: seq<byte>,
                       cut: seq<byte> -> (seq<seq<byte>>, seq<byte>)) returns (p: seq<byte>)
    requires WholeBlocks(chunks) && |last| >= 16
    requires forall s :: |s| >= 16 ==> GoodCut(cut(s), s)
    ensures p == Flatten(chunks) + last
  {
    hide Xts, Flatten, WholeBlocks, KeyedCrypt, XtsContext.TweakCrypt;
    var c := Run(sbox, ENCRYPT, key1, key2, iv, chunks, last);
    assert GoodCut(cut(c), c);
    p := Run(sbox, DECRYPT, key1, key2, iv, cut(c).0, cut(c).1);
    ContextsInvert(sbox, key1, XtsContext.TweakCrypt(sbox, key2)(iv), Flatten(chunks) + last);
  }

  ghost predicate GoodCut(pieces: (seq<seq<byte>>, seq<byte>), s: seq<byte>) {
    WholeBlocks(pieces.0) && |pieces.1| >= 16 && Flatten(pieces.0) + pieces.1 == s
  }
}
