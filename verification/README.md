# Verified models of OP-TEE's software crypto, memory firewall and ELF loader

A Dafny model of the parts of the vendored OP-TEE tree whose correctness is an argument rather than a lookup: the
software modes of operation around block ciphers and hash compressions, the Fortuna random generator with its ring
buffer, the region allocator of the TZC-380, and the symbol lookup, segment merging and module queue of the user-space
ELF loader. One module follows one source file or one concern of it. Code that changes objects in place is a class whose
methods are proved against pure functions; the promises of the source are lemmas about those functions or
postconditions over whole runs.

| files | what they model |
|---|---|
| `Arith`, `Bytes`, `Buffers` | arithmetic facts; bytes, blocks, big-endian numbers; memcpy, memset and xor on buffers |
| `GaloisField`, `Ghash` | the field GF(2^128) of GHASH, Shoup's 4-bit table multiply and the bit-by-bit multiply |
| `CounterMode`, `GcmSpec`, `Gcm`, `GcmRuns`, `GcmStandard` | AES-GCM: key stream, one-shot specification, the streaming state, whole runs, NIST SP 800-38D |
| `RegisterWords`, `RegionPlan`, `Tzc380` | register words as numbers; how `tzc_auto_configure` cuts a range into pieces; region registers and the code itself |
| `Sm4`, `CbcMode`, `Sm4Modes`, `Sm4Xts`, `Sm4XtsContext` | the SM4 Feistel network, CBC, CTR, XTS and the XTS context that carries an iv |
| `AesCts`, `Sm3`, `CbcMac` | ciphertext stealing, SM3 with HMAC, CBC-MAC |
| `FortunaRing`, `Fortuna` | the lock-free ring buffer as interleaved steps; generator, pools, reseeding and counters |
| `ElfHash`, `ElfResolve`, `ElfSegments`, `ElfQueue` | symbol lookup in a module and over the queue, `adjust_segments`, the growing module queue and dlopen |
| `Distinct` | sequences without duplicates over a finite range |

`dafny verify dfyconfig.toml` checks everything.

How to read the models:

- Block ciphers, the SM4 S-box, compression functions and hashes are parameters: every result holds for
  all of them, and where decryption is involved, for every pair of inverse functions.
- Input data are values (`seq`), output buffers are arrays: source and destination are disjoint. Addresses appear where the
  source tests their alignment.
- Calls that can fail for outside reasons (allocation, hash and cipher calls, the clock) take their outcome from an
  arbitrary function, so a theorem about a run covers every pattern of failures.
- An `assert` of the source is a result value of the method (`ok`, `RegionAssertFails`), so the conditions under which it
  fails are stated.
- What an operation writes is stated twice: by a function that the laws and round trips are about, and by a predicate in
  bits, bytes, blocks or indices that names none of its helpers (`Encodes`, `IsCipherOf`, `IsXts`, `IsCbc`, `IsDigest`,
  `Marked`, `MadeOf` and the like), which lemmas derive from the function and the methods promise as well.
- The ring buffer's atomics are sequentially consistent steps.

Where the code does something else than its comments or the standard it follows, the model follows the code:

- AES-GCM counts AAD and payload bytes in 32 bits and multiplies by eight in 32 bits, so the length block is right exactly
  below 2^29 bytes (`LengthFieldExact`, `LengthFieldWraps`, `LongDataDiffers`).
- Its counter increment carries through all 128 bits, so it is inc32 exactly while the low word does not wrap
  (`CountersAgree`, `CountersPart`); for whole messages see `CryptMatchesWhen` and `LongNonceDiffers`.
- AAD given after a payload update of zero bytes is accepted by `__gcm_update_aad` but padded as a piece of its own;
  `SplitAadWhen` says when that makes no difference and `SplitAadDiffers` gives two bytes for which it does.
- `sm3_update` multiplies the block count in 32 bits: `FitsExactly` says for which lengths its last copy stays inside the
  buffer, and `UpdateOverruns` gives one for which it does not. `CounterExact` says when its counter, which adds one carry
  per update, is right; every update within the buffer limit is (`SafeCountsRight`).
- `cbc_cts_update` computes offsets as int; `OffsetsFit` says for which lengths they are right.
- `ta_elf_resolve_sym` is documented to search all global symbols first, then weak ones, and to resolve undefined weak
  symbols to zero as the last option; the code asks module by module. `ModuleOrderDecides` says when the two orders
  agree, `WeakBeforeGlobal` and `UndefinedBeforeWeak` give queues for which they do not. What a module has is what its
  lookup answers.
- It is documented to search a given module alone; the code goes on to the queue: `GivenModuleWhen`, `FoundElsewhere`.
- The bounds check of the DT_GNU_HASH chain lets one word behind the section be read; that word is a parameter (`past`).
  `ReadsPastWhen` says when it is read, `NeverReadsPast` that it is not in a well-formed section, and `PastDecides` gives a
  section whose answer depends on it.
- The DT_HASH loop of `resolve_sym_helper` does not end on some circular chains: `NeverEndsWhen` says on which, and
  `CircleNeverEnds` gives a table.
- A DT_GNU_HASH or DT_HASH table may have no filter words or buckets, which the lookup divides by (`LookupGnu`,
  `LookupHash`).
- The merge asserts of `adjust_segments` compare low address bits only; `FileKeptWhen` says when the merged mapping still
  shows the right part of the file and `FileNotKept` gives two segments for which it does not.
- The first pop from the ring returns the zeroed slot 0, whose length is zero, so `drain_ring_buffer` takes the ring for
  empty: `DrainsAllWhen` says when a drain empties the ring, and by `FirstDrainStops` the first one does not with two or
  more events accepted.
- A slow source that reports after a shutdown of the generator runs into an assertion: `CryptoRngAddEvent` says when.
- The size assert of `tzc_auto_configure` fails for some ranges of whole 8 KiB subregions: never for whole 32 KiB steps
  (`StepsFinish`), always for 16 KiB and less (`OnlySubregions`), and in between by `ClosedWhen` and the plan.

## Model

| member | source | states |
|---|---|---|
| GaloisField.FieldPolynomial | 范新东/projects/optee_os-master/core/crypto/aes-gcm.c:541-543 | P^128 = P^7 + P^2 + P + 1 for the reduction the shifts use: the polynomial of section 6.3 of NIST SP 800-38D |
| GaloisField.MulIsFieldProduct | 范新东/projects/optee_os-master/core/crypto/aes-gcm.c:523-548 | the shift-and-add product is commutative, associative and distributive with unit 1, and P can be moved out: it is a field product, so either operand may be scanned |
| GaloisField.MulCommutes | 范新东/projects/optee_os-master/core/crypto/aes-gcm-sw.c:24-35 | scanning the bits of x and shifting y gives what scanning y and shifting x gives |
| Ghash.JoinTimesP | 范新东/projects/optee_os-master/core/crypto/aes-gcm-ghash-tbl.c:70-78 | one right shift of a word pair with the 0xe1 reduction multiplies by P |
| Ghash.JoinTimesP4 | 范新东/projects/optee_os-master/core/crypto/aes-gcm-ghash-tbl.c:93-103 | four shifts with the last4 entry for the bits shifted out multiply by P^4: the table is the right one |
| Ghash.NibbleStep | 范新东/projects/optee_os-master/core/crypto/aes-gcm-ghash-tbl.c:109-145 | Horner step: a product from bit n on is P^4 times the product from bit n + 4 on plus the small multiple of nibble n |
| Ghash.Table.GenTbl | 范新东/projects/optee_os-master/core/crypto/aes-gcm-ghash-tbl.c:49-91 | after building, HH/HL hold the sixteen multiples k*H for nibbles k in reflected bit order |
| Ghash.Table.FillRow | 范新东/projects/optee_os-master/core/crypto/aes-gcm-ghash-tbl.c:80-90 | row k of the table is completed from the powers of two below it without touching others |
| Ghash.Table.ShiftIn | 范新东/projects/optee_os-master/core/crypto/aes-gcm-ghash-tbl.c:127-140 | one nibble step: the word pair becomes P^4 times itself plus the table entry of the nibble |
| Ghash.Table.MultTbl | 范新东/projects/optee_os-master/core/crypto/aes-gcm-ghash-tbl.c:109-145 | for every H and X the 4-bit table multiply returns the field product X*H, all 16 bytes |
| Ghash.Gfmul | 范新东/projects/optee_os-master/core/crypto/aes-gcm.c:523-548 | the 128-step bit loop returns the same field product, shifting the other operand |
| Gcm.State.IncCtr | 范新东/projects/optee_os-master/core/crypto/aes-gcm.c:346-356 | the counter pair becomes the 128-bit big-endian increment of the block |
| Gcm.IncByWords | 范新东/projects/optee_os-master/core/crypto/aes-gcm.c:346-356 | two 64-bit words with a carry between them are one 128-bit increment |
| Gcm.State.GhashUpdateBlock | 范新东/projects/optee_os-master/core/crypto/aes-gcm-sw.c:24-35 | with either multiplier the state becomes (state + block) * H: both builds hash alike |
| Gcm.State.GhashUpdate | 范新东/projects/optee_os-master/core/crypto/aes-gcm-sw.c:37-51 | the state advances by GHASH over an optional head block and the data blocks |
| Gcm.StreamAdvances | 范新东/projects/optee_os-master/core/crypto/aes-gcm-sw.c:53-105 | the pairing of counter and key stream block survives each step, although encryption is one block ahead of decryption |
| Gcm.State.Fill | 范新东/projects/optee_os-master/core/crypto/aes-gcm.c:154-168 | the buffered branch appends to buf_hash and hands a full block out exactly once |
| Gcm.State.HashWhole | 范新东/projects/optee_os-master/core/crypto/aes-gcm.c:170-177 | head and whole blocks enter GHASH once each and nothing stays pending |
| Gcm.State.AbsorbRound | 范新东/projects/optee_os-master/core/crypto/aes-gcm.c:153-178 | one round of the AAD loop for any alignment; a stale head is never hashed again because the next round replaces it |
| Gcm.State.Absorb | 范新东/projects/optee_os-master/core/crypto/aes-gcm.c:153-180 | the whole AAD loop extends the hashed stream by exactly its input, for any length and alignment |
| Gcm.State.UpdateAad | 范新东/projects/optee_os-master/core/crypto/aes-gcm.c:140-181 | AAD is refused once payload bytes were counted, and otherwise appended to the stream with its length |
| Gcm.State.TakeKeyStream | 范新东/projects/optee_os-master/core/crypto/aes-gcm.c:211-220 | a partial block is xored with the next unused key stream bytes, precomputed when encrypting and made on demand when decrypting |
| Gcm.State.Partial | 范新东/projects/optee_os-master/core/crypto/aes-gcm.c:211-243 | bytes below a block are en/decrypted and hashed once, when their block is full |
| Gcm.State.EncryptBlock | 范新东/projects/optee_os-master/core/crypto/aes-gcm-sw.c:53-66 | one block is encrypted with the waiting key stream block, the next one is prepared, the ciphertext is hashed |
| Gcm.State.DecryptBlock | 范新东/projects/optee_os-master/core/crypto/aes-gcm-sw.c:92-105 | one block is hashed and decrypted with a key stream block made now |
| Gcm.State.UpdatePayloadBlocks | 范新东/projects/optee_os-master/core/crypto/aes-gcm-sw.c:132-143 | a run of whole blocks continues key stream and hash from the bytes done before |
| Gcm.State.Piece | 范新东/projects/optee_os-master/core/crypto/aes-gcm.c:210-252 | one round of the payload loop does the rest of a block or all whole blocks |
| Gcm.State.Process | 范新东/projects/optee_os-master/core/crypto/aes-gcm.c:189-255 | the payload loop outputs the key stream xor from the current position and extends the hashed ciphertext |
| Gcm.State.UpdatePayload | 范新东/projects/optee_os-master/core/crypto/aes-gcm.c:189-255 | an update from any state and of any length: AAD is padded once, output and hash continue where the last update stopped, the byte counter wraps at 2^32 |
| Gcm.CountedLengths | 范新东/projects/optee_os-master/core/crypto/aes-gcm.c:57-67 | the length block of the wrapped 32-bit counters is that of the totals |
| Gcm.State.Flush | 范新东/projects/optee_os-master/core/crypto/aes-gcm.c:277-281 | the buffered bytes are zero-padded to a block and hashed |
| Gcm.State.CloseTag | 范新东/projects/optee_os-master/core/crypto/aes-gcm.c:266-288 | flush, length block and xor leave the full tag of what was hashed in buf_tag |
| Gcm.State.EncFinal | 范新东/projects/optee_os-master/core/crypto/aes-gcm.c:290-308 | short tag buffers are refused without change; otherwise last bytes and tag of the whole message |
| Gcm.State.DecFinal | 范新东/projects/optee_os-master/core/crypto/aes-gcm.c:318-336 | a tag of another length is refused; otherwise accepted exactly when it equals the tag of the whole message |
| Gcm.State.HashPadded | 范新东/projects/optee_os-master/core/crypto/aes-gcm.c:27-55 | nonces of other lengths are hashed in zero-padded blocks |
| Gcm.State.StartCounter | 范新东/projects/optee_os-master/core/crypto/aes-gcm.c:84-93 | the first counter block is the pre-counter block J0 for every nonce length |
| Gcm.State.Init | 范新东/projects/optee_os-master/core/crypto/aes-gcm.c:69-122 | tags over 16 bytes are refused; otherwise an empty stream with key, counter and key stream in place |
| GcmRuns.FeedAad | 范新东/projects/optee_os-master/core/crypto/aes-gcm.c:140-181 | any cutting of the AAD into calls at any addresses hashes the concatenation |
| GcmRuns.FeedPayload | 范新东/projects/optee_os-master/core/crypto/aes-gcm.c:189-255 | any cutting of a payload of any length into calls outputs and hashes what one call would |
| GcmRuns.Seal | 范新东/projects/optee_os-master/core/crypto/aes-gcm.c:370-391 | init, any AAD and payload calls and final produce the one-shot ciphertext and tag |
| GcmRuns.Open | 范新东/projects/optee_os-master/core/crypto/aes-gcm.c:393-414 | init, any calls and final return the one-shot plaintext and accept exactly the right tag |
| GcmRuns.RoundTrip | 范新东/projects/optee_os-master/core/crypto/aes-gcm.c:69-336 | decrypting an encryption with an independently chosen chunking, alignment and multiplier returns the plaintext and accepts the tag |
| GcmRuns.SealSplitAad | 范新东/projects/optee_os-master/core/crypto/aes-gcm.c:140-208 | AAD a1, an empty payload update, AAD a2, payload: accepted, with a1 and a2 padded as two pieces |
| GcmRuns.SplitAadWhen | 范新东/projects/optee_os-master/core/crypto/aes-gcm.c:200-208 | for all a1 and a2, what is hashed then is what one piece of AAD would hash exactly when a1 is whole blocks, or a2 is empty, or a2 is zeros whose blocks end where those of the padding do |
| GcmRuns.SplitAadDiffers | 范新东/projects/optee_os-master/core/crypto/aes-gcm.c:200-208 | one byte on either side of the empty update is hashed differently from two bytes at once |
| GcmStandard.LengthFieldExact | 范新东/projects/optee_os-master/core/crypto/aes-gcm.c:57-67 | the 32-bit bit count in the length block is right exactly below 2^29 bytes |
| GcmStandard.LengthFieldWraps | 范新东/projects/optee_os-master/core/crypto/aes-gcm.c:57-67 | 2^29 bytes are recorded as zero bits, unlike section 7.1 of NIST SP 800-38D |
| GcmStandard.IncAgrees | 范新东/projects/optee_os-master/core/crypto/aes-gcm.c:346-356 | the 128-bit increment equals inc32 exactly when the low word does not wrap |
| GcmStandard.CountersAgree | 范新东/projects/optee_os-master/core/crypto/aes-gcm.c:346-356 | the first k counter blocks equal those of inc32 exactly when the low word of the first plus k stays below 2^32 |
| GcmStandard.CountersPart | 范新东/projects/optee_os-master/core/crypto/aes-gcm.c:346-356 | a counter block from which the source and inc32 part at the first increment |
| GcmStandard.GctrAgrees | 范新东/projects/optee_os-master/core/crypto/aes-gcm-sw.c:53-105 | below that bound the key stream xor is GCTR of section 6.5 |
| GcmStandard.TagMatches | 范新东/projects/optee_os-master/core/crypto/aes-gcm.c:27-67 | for every nonce and ciphertext, with nonce, AAD and ciphertext each below 2^29 bytes, the tag is that of section 7.1 of NIST SP 800-38D |
| GcmStandard.MatchesStandard | 范新东/projects/optee_os-master/core/crypto/aes-gcm.c:69-308 | for every nonce, all totals below 2^29 bytes and no wrap of the low counter word within the payload, ciphertext and tag are those of GCM-AE (section 7.1 of NIST SP 800-38D) |
| GcmStandard.ShortNonceMatches | 范新东/projects/optee_os-master/core/crypto/aes-gcm.c:84-93 | with a 96-bit nonce the low word cannot wrap below 2^29 bytes, so the lengths are the only condition |
| GcmStandard.CryptMatchesWhen | 范新东/projects/optee_os-master/core/crypto/aes-gcm.c:346-356 | under any block cipher a payload of whole blocks is encrypted as in the standard exactly when the low word of J0 plus the number of blocks stays below 2^32 |
| GcmStandard.LongNonceDiffers | 范新东/projects/optee_os-master/core/crypto/aes-gcm.c:27-55 | a block cipher and a 16-byte nonce for which the very first ciphertext block differs from the standard |
| GcmStandard.LongDataDiffers | 范新东/projects/optee_os-master/core/crypto/aes-gcm.c:57-67 | under that cipher the full tag is the standard one exactly while AAD and ciphertext stay below 2^29 bytes |
| CounterMode.GctrConcat | 范新东/projects/optee_os-master/core/crypto/aes-gcm-sw.c:53-105 | key stream xor over a concatenation continues at the byte position reached |
| CounterMode.GctrCancels | 范新东/projects/optee_os-master/core/crypto/aes-gcm-sw.c:53-105 | key stream xor undoes itself |
| GcmSpec.GhashFromConcat | 范新东/projects/optee_os-master/core/crypto/aes-gcm-sw.c:37-51 | GHASH over a concatenation continues from the state reached |
| Tzc380.Controller.ConfigureRegion | 范新东/projects/optee_os-master/core/drivers/tzc380.c:180-200 | base and attributes of one region are written, region 0 keeps only its permission bits, other regions are untouched, region numbers out of range fail the assertion |
| Tzc380.CoversSubregions | 范新东/projects/optee_os-master/core/drivers/tzc380.c:262-281 | a region with all subregions but from..to disabled covers exactly the bytes of those subregions, each in one subregion |
| Tzc380.OtherSubregion | 范新东/projects/optee_os-master/core/include/drivers/tzc380.h:194-198 | TZC_ATTR_SUBREGION_DIS(i) has, of bits 8 to 15, just bit 8 + i |
| Tzc380.AttributesNumber | 范新东/projects/optee_os-master/core/drivers/tzc380.c:251-281 | the attribute word as a number n: n is odd, n / 2 % 64 is the size field, bits 8 to 15 are those of the mask, bits 28 to 31 those of attr, the middle two if attr has no bits in the computed fields |
| Tzc380.Written | 范新东/projects/optee_os-master/core/drivers/tzc380.c:251-281 | the three registers as numbers: the base, the enable bit, log2(size) - 1 in bits 1 to 6, and bit 8 + i set exactly for the subregions outside from..to |
| Tzc380.Controller.Program | 范新东/projects/optee_os-master/core/drivers/tzc380.c:251-281 | the registers written hold these numbers, if attr has no bits in the computed fields, and decode to a region with the permissions of attr; region 0 takes the permissions only |
| Tzc380.FieldsKept | 范新东/projects/optee_os-master/core/drivers/tzc380.c:251-281 | the size and subregion fields of the attribute word come out as computed exactly when attr sets no bit in them that is clear |
| Tzc380.SubregionTest | 范新东/projects/optee_os-master/core/drivers/tzc380.c:269-276 | the two comparisons, made while address and lsize move, enable subregion i exactly when it lies in the range |
| Tzc380.Controller.MaskSubregions | 范新东/projects/optee_os-master/core/drivers/tzc380.c:267-277 | the mask word ends up with bit 8 + i set exactly for the subregions i outside the range, address and lsize at the end of the covered part |
| Tzc380.Controller.CoverWhole | 范新东/projects/optee_os-master/core/drivers/tzc380.c:248-260 | the first case covers one whole aligned region inside the range, with the permissions of attr |
| Tzc380.Controller.CoverPart | 范新东/projects/optee_os-master/core/drivers/tzc380.c:262-285 | the second case covers from address up to the last subregion boundary in the range and the region; in a range up to the top of the 64-bit space it takes no subregion and does not move on |
| Tzc380.FitsWhen | 范新东/projects/optee_os-master/core/drivers/tzc380.c:248-265 | the conditions of the two cases in numbers, with the 64-bit sum of the source for the end of the range |
| Tzc380.Controller.Round | 范新东/projects/optee_os-master/core/drivers/tzc380.c:245-287 | a round programs a piece exactly when one of the two cases holds at this region size, and ends where the plan says |
| Tzc380.Controller.Tile | 范新东/projects/optee_os-master/core/drivers/tzc380.c:245-287 | for every range the loop ends by (regions left, pow), with the programmed regions tiling it between cut points up to address, in as many pieces and with as much left over as the plan says |
| Tzc380.TilesCover | 范新东/projects/optee_os-master/core/drivers/tzc380.c:221-291 | regions tiling consecutive cuts have aligned bases, are pairwise disjoint and together cover exactly first to last cut |
| RegionPlan.PartEnds | 范新东/projects/optee_os-master/core/drivers/tzc380.c:262-277 | the second case ends on a subregion boundary past address, either at the end of the region or with less than a subregion left |
| RegionPlan.StepsFinish | 范新东/projects/optee_os-master/core/drivers/tzc380.c:245-289 | for every address width, a range of whole 32 KiB steps is covered to its end unless the regions run out |
| RegionPlan.RegionsSuffice | 范新东/projects/optee_os-master/core/drivers/tzc380.c:221-291 | every such range on a bus of 16 to 63 address bits takes at most (width - 13) / 3 + (width - 13) / 2 regions, 15 for 32 bits |
| RegionPlan.OnlySubregions | 范新东/projects/optee_os-master/core/drivers/tzc380.c:262-289 | a range that is covered to its end consists of whole subregions of 8 KiB, more than two of them |
| RegionPlan.ClosedWhen | 范新东/projects/optee_os-master/core/drivers/tzc380.c:245-289 | from an address aligned to the length of the range, the range is covered to its end exactly when taking the length modulo an eighth of the chosen region, again and again, ends in zero |
| Tzc380.Controller.AutoConfigure | 范新东/projects/optee_os-master/core/drivers/tzc380.c:221-291 | for every range, attr and first region, the plan decides beforehand which assert fails or how many regions are used; on success there are cut points from addr to addr + size between which the programmed registers hold, as numbers, the base, size and subregion bits of the piece (attr without bits in the computed fields), so the enabled subregions are pairwise disjoint with union exactly [addr, addr + size), all with the permissions of attr, bases aligned, lower regions untouched; the last assert always holds, and on a failure a proper front part is covered |
| Sm4.RoundsBack | 范新东/projects/optee_os-master/core/crypto/sm4.c:163-184 | for any round function, the rounds with reversed keys undo the rounds |
| Sm4.CipherInverts | 范新东/projects/optee_os-master/core/crypto/sm4.c:163-201 | with reversed key array the block cipher inverts, both ways |
| Sm4.ScheduleWords | 范新东/projects/optee_os-master/core/crypto/sm4.c:77-161 | words k[0..36) make the schedule: the key xored with FK, then k[i + 4] is k[i] xored with b, b rotated by 13 and by 23, b the S-box bytes of k[i + 1] ^ k[i + 2] ^ k[i + 3] ^ CK[i], and the bytes of CK count up in sevens (section 7.3 of GB/T 32907-2016) |
| Sm4.Context.SetKey | 范新东/projects/optee_os-master/core/crypto/sm4.c:140-161 | the key loop fills the array with the schedule, in these words too |
| Sm4.Context.SetKeyEnc | 范新东/projects/optee_os-master/core/crypto/sm4.c:186-190 | encryption mode and schedule in order |
| Sm4.Context.SetKeyDec | 范新东/projects/optee_os-master/core/crypto/sm4.c:192-201 | decryption mode and the in-place swap loop reverses the schedule |
| Sm4.Rotations | 范新东/projects/optee_os-master/core/crypto/sm4.c:102-138 | the rotations and the xor in these words, as shifts and bit operations |
| Sm4.CipherWords | 范新东/projects/optee_os-master/core/crypto/sm4.c:102-184 | words x[0..36) make the cipher: the input, then x[i + 4] is x[i] xored with b and b rotated by 2, 10, 18 and 24, b the S-box bytes of x[i + 1] ^ x[i + 2] ^ x[i + 3] ^ sk[i], and the output is the last four in reverse order |
| Sm4.Context.OneRound | 范新东/projects/optee_os-master/core/crypto/sm4.c:163-184 | the 32-round loop over ulbuf computes the block cipher of the key array, in these words too |
| Sm4.SchedulesInvert | 范新东/projects/optee_os-master/core/crypto/sm4.c:186-201 | for every key and S-box, blocks ciphered under one set key are restored under the other |
| CbcMode.EncryptedBlocks | 范新东/projects/optee_os-master/core/crypto/sm4.c:224-233 | ciphertext block k is the encryption of plaintext block k xored with ciphertext block k - 1 or the iv (section 6.2 of NIST SP 800-38A) |
| CbcMode.DecryptedBlocks | 范新东/projects/optee_os-master/core/crypto/sm4.c:234-246 | plaintext block k is the decryption of ciphertext block k xored with ciphertext block k - 1 or the iv |
| CbcMode.CryptedIs | 范新东/projects/optee_os-master/core/crypto/sm4.c:216-247 | encryption in one direction, decryption in the other, block by block, and the last ciphertext block is the next chaining value |
| CbcMode.DecryptsEncrypted | 范新东/projects/optee_os-master/core/crypto/sm4.c:216-247 | CBC decryption undoes CBC encryption for any inverse pair of block functions |
| CbcMode.EncryptedConcat | 范新东/projects/optee_os-master/core/crypto/sm4.c:216-247 | CBC encryption of a concatenation chains through the last ciphertext block |
| CbcMode.DecryptedConcat | 范新东/projects/optee_os-master/core/crypto/sm4.c:216-247 | CBC decryption of a concatenation likewise |
| Sm4Modes.CryptCbc | 范新东/projects/optee_os-master/core/crypto/sm4.c:216-247 | the loop of either direction writes CBC in that direction, block by block, and leaves the last ciphertext block in iv |
| Sm4Modes.CryptCbcAll | 范新东/projects/optee_os-master/core/crypto/sm4.c:216-247 | any sequence of block-multiple calls outputs the CBC of everything they were given and leaves the iv of that one call, in both directions |
| Sm4Modes.CbcRoundTrip | 范新东/projects/optee_os-master/core/crypto/sm4.c:186-247 | under the two schedules of one key, CBC decryption of a whole message undoes CBC encryption |
| Sm4Modes.CbcRunsRoundTrip | 范新东/projects/optee_os-master/core/crypto/sm4.c:186-247 | a message encrypted in any sequence of calls and decrypted in any other comes back |
| Sm4Modes.IncBytesIsInc | 范新东/projects/optee_os-master/core/crypto/sm4.c:263-265 | the byte-by-byte carry loop is a 128-bit increment |
| Sm4Modes.Increment | 范新东/projects/optee_os-master/core/crypto/sm4.c:263-265 | the loop leaves the incremented counter in the array |
| Sm4Modes.GctrIs | 范新东/projects/optee_os-master/core/crypto/sm4.c:249-270 | output byte i is input byte i xored with byte i % 16 of the encrypted counter number i / 16, start value plus i / 16 modulo 2^128 |
| Sm4Modes.CryptCtr | 范新东/projects/optee_os-master/core/crypto/sm4.c:249-270 | the loop writes those bytes and leaves the counter advanced by the number of blocks |
| Sm4Modes.CounterValue | 范新东/projects/optee_os-master/core/crypto/sm4.c:249-270 | after k blocks the counter is its start value plus k modulo 2^128 |
| Sm4Modes.CtrContinues | 范新东/projects/optee_os-master/core/crypto/sm4.c:249-270 | a call at the advanced counter continues the key stream of the call before it, and the stream undoes itself |
| Sm4Modes.CryptCtrAll | 范新东/projects/optee_os-master/core/crypto/sm4.c:249-270 | any sequence of block-multiple calls outputs the CTR of everything they were given and leaves the counter of that one call |
| Sm4Modes.CtrRunsRoundTrip | 范新东/projects/optee_os-master/core/crypto/sm4.c:186-270 | a message encrypted in any sequence of calls and decrypted in any other comes back |
| Sm4Xts.DoubledIsTimesAlpha | 范新东/projects/optee_os-master/core/crypto/sm4.c:272-285 | bit k of the next tweak: shift by one with feedback at 0, 1, 2, 7, multiplication by alpha in section 5.2 of IEEE Std 1619-2007 |
| Sm4Xts.XtsMulti | 范新东/projects/optee_os-master/core/crypto/sm4.c:272-285 | the carry loop computes the next tweak, also in place |
| Sm4Xts.StealInverts | 范新东/projects/optee_os-master/core/crypto/sm4.c:326-350 | ciphertext stealing is undone by the same step with the two tweaks exchanged |
| Sm4Xts.XtsRoundTrip | 范新东/projects/optee_os-master/core/crypto/sm4.c:295-351 | for every length from 16 on, decryption undoes encryption, stealing included (sections 5.3 and 5.4 of IEEE Std 1619-2007) |
| Sm4Xts.XtsResumes | 范新东/projects/optee_os-master/core/crypto/sm4.c:306-351 | whole blocks followed by any final part equal one call when the tweak is carried on |
| Sm4Xts.TweakAdds | 范新东/projects/optee_os-master/core/crypto/sm4.c:316-316 | tweaks advance additively in the block number |
| Sm4Xts.XtsOutput | 范新东/projects/optee_os-master/core/crypto/sm4.c:306-351 | output block k is the cipher of input block k xored with tweak k before and after; with a short last part the last two blocks are stolen under tweaks m - 1 and m, in the other order when decrypting (sections 5.3.2 and 5.4.2 of IEEE Std 1619-2007) |
| Sm4Xts.OneBlock | 范新东/projects/optee_os-master/core/crypto/sm4.c:311-324 | one round ciphers the next block and advances the tweak |
| Sm4Xts.FinishSteal | 范新东/projects/optee_os-master/core/crypto/sm4.c:326-350 | the byte exchange loop and last cipher call place the stolen block before the short one |
| Sm4Xts.StealLast | 范新东/projects/optee_os-master/core/crypto/sm4.c:326-350 | both stealing branches complete the XTS output |
| Sm4Xts.CryptXts | 范新东/projects/optee_os-master/core/crypto/sm4.c:295-351 | the buffer ends up with XTS of the input, block by block; the stored iv is the decrypted next tweak after whole blocks and unchanged after stealing |
| Sm4XtsContext.XtsContext.Init | 范新东/projects/optee_os-master/core/crypto/sm4-xts.c:33-56 | key and iv lengths are checked, three key schedules are set, an absent iv keeps the stored one |
| Sm4XtsContext.XtsContext.Update | 范新东/projects/optee_os-master/core/crypto/sm4-xts.c:58-68 | an update starts from the tweak the stored iv encrypts to and leaves it advanced by the blocks done |
| Sm4XtsContext.UpdateAll | 范新东/projects/optee_os-master/core/crypto/sm4-xts.c:58-68 | any run of block-multiple updates and one last update of at least 16 bytes gives the single-call result |
| Sm4XtsContext.ContextsInvert | 范新东/projects/optee_os-master/core/crypto/sm4-xts.c:33-68 | for every key, XTS decryption undoes XTS encryption from the same tweak |
| Sm4XtsContext.RunsRoundTrip | 范新东/projects/optee_os-master/core/crypto/sm4-xts.c:33-68 | a message of at least 16 bytes encrypted in any run of updates and decrypted in any other comes back, stealing included |
| AesCts.CtsEncrypts | 范新东/projects/optee_os-master/core/crypto/aes-cts.c:93-138 | with the last two parts exchanged back, and the short one completed, the ciphertext is block by block the CBC encryption of the zero-padded message (CBC-CS3 in the addendum to NIST SP 800-38A) |
| AesCts.CtsDecrypts | 范新东/projects/optee_os-master/core/crypto/aes-cts.c:139-185 | the plaintext is the front of the CBC decryption of the ciphertext put back, its short part completed from the decrypted block in front of it |
| AesCts.CtsRoundTrip | 范新东/projects/optee_os-master/core/crypto/aes-cts.c:93-187 | for every message over 16 bytes decryption undoes encryption (swap-always form, section 5 of RFC 3962) |
| AesCts.UnswapsSwapped | 范新东/projects/optee_os-master/core/crypto/aes-cts.c:140-155 | the block rebuilt from the decrypted tail is the zero-padded CBC ciphertext |
| AesCts.CtsResumes | 范新东/projects/optee_os-master/core/crypto/aes-cts.c:104-187 | a whole-block prefix through CBC, then CTS of the rest, equals one CTS encryption |
| AesCts.CtsDecryptResumes | 范新东/projects/optee_os-master/core/crypto/aes-cts.c:104-187 | the same for decryption |
| AesCts.CtsContext.CbcUpdate | 范新东/projects/optee_os-master/core/crypto/aes-cts.c:104-106 | a non-last update is CBC over whole blocks that carries the chaining value on; ragged lengths are refused unchanged, a failing cipher call is reported |
| AesCts.CtsContext.EncryptLast | 范新东/projects/optee_os-master/core/crypto/aes-cts.c:116-138 | unless a cipher call fails, the buffer juggling of the encrypt branch writes the ciphertext-stealing output, of the length of its input and nothing outside it |
| AesCts.CtsContext.DecryptLast | 范新东/projects/optee_os-master/core/crypto/aes-cts.c:139-185 | unless one of its cipher calls fails, the decrypt branch writes the plaintext, and nothing outside it |
| AesCts.OffsetsFit | 范新东/projects/optee_os-master/core/crypto/aes-cts.c:100-185 | the block offsets, computed as int, are right exactly for last updates of at most 2^31 bytes |
| AesCts.CtsContext.Update | 范新东/projects/optee_os-master/core/crypto/aes-cts.c:93-187 | non-last updates, the length check of the last one and both last branches, with any cipher call failing: which error is returned when, and that nothing outside the output is written |
| AesCts.UpdateAll | 范新东/projects/optee_os-master/core/crypto/aes-cts.c:93-187 | any sequence of updates with a last one that succeeds is the one-shot function on everything given; without failing calls it succeeds exactly for block-multiple pieces and a last one above 16 bytes |
| AesCts.RunsRoundTrip | 范新东/projects/optee_os-master/core/crypto/aes-cts.c:93-187 | a message encrypted in any run of updates and decrypted in any other comes back |
| Sm3.CounterExact | 范新东/projects/optee_os-master/core/crypto/sm3.c:188-191 | the two-word byte counter is exact modulo 2^64 exactly when one update adds at most one carry (low word plus length below 2^33) |
| Sm3.CounterMissesCarry | 范新东/projects/optee_os-master/core/crypto/sm3.c:188-191 | an update that adds two carries at once is counted wrongly; the buffer limit is passed before that |
| Sm3.FitsExactly | 范新东/projects/optee_os-master/core/crypto/sm3.c:193-207 | with block_count and its product in 32 bits, the last copy stays inside the 64-byte buffer exactly when fewer than 2^32 bytes remain behind the filled block |
| Sm3.UpdateOverruns | 范新东/projects/optee_os-master/core/crypto/sm3.c:201-207 | 2^32 bytes at a block boundary: the product wraps to zero and the last copy takes all of them |
| Sm3.SafeCountsRight | 范新东/projects/optee_os-master/core/crypto/sm3.c:188-207 | every update within the buffer limit is also counted right |
| Sm3.BitLength | 范新东/projects/optee_os-master/core/crypto/sm3.c:223-227 | the high and low words of final are the 64-bit bit length |
| Sm3.Context.ProcessBlocks | 范新东/projects/optee_os-master/core/crypto/sm3.c:162-174 | whole blocks fold through the compression function in order |
| Sm3.Context.Absorb | 范新东/projects/optee_os-master/core/crypto/sm3.c:185-207 | buffering within that limit: every byte is compressed once, the rest waits in order |
| Sm3.Context.Update | 范新东/projects/optee_os-master/core/crypto/sm3.c:176-208 | within that limit the context holds the message extended by the input |
| Sm3.DigestIs | 范新东/projects/optee_os-master/core/crypto/sm3.c:162-243 | the digest without the functions: message, one bit, zeros to 56 modulo 64, bit length in eight bytes; chaining values from the initial value on, each the compression of the one before and a block; the bytes of the last one |
| Sm3.Context.Init | 范新东/projects/optee_os-master/core/crypto/sm3.c:38-53 | the eight words of the initial value of GM/T 0004-2012, and nothing hashed |
| Sm3.Context.Final | 范新东/projects/optee_os-master/core/crypto/sm3.c:217-243 | the digest of the message padded as in section 5.2 of GM/T 0004-2012, the output bytes of the chaining value included |
| Sm3.Context.HmacInit | 范新东/projects/optee_os-master/core/crypto/sm3.c:256-279 | the pads are key block xor 0x36 and 0x5c, keys over 64 bytes hashed first, for keys within that limit |
| Sm3.Context.HmacFinal | 范新东/projects/optee_os-master/core/crypto/sm3.c:286-297 | the outer hash runs over the opad and the inner digest |
| Sm3.HashAll | 范新东/projects/optee_os-master/core/crypto/sm3.c:176-243 | any cutting of a message into updates gives its digest |
| Sm3.HmacIs | 范新东/projects/optee_os-master/core/crypto/sm3.c:256-297 | HMAC as two digests: the zero-padded key, or the digest of a longer one, xored bytewise with 0x36 and with 0x5c |
| Sm3.HmacAll | 范新东/projects/optee_os-master/core/crypto/sm3.c:256-297 | for every key length and cutting the result is HMAC of section 2 of RFC 2104 |
| CbcMac.TailConcat | 范新东/projects/optee_os-master/core/crypto/cbc-mac.c:57-125 | the chaining value of a concatenation continues from that of its first part |
| CbcMac.PaddingHolds | 范新东/projects/optee_os-master/core/crypto/cbc-mac.c:132-141 | each padding byte holds the number of padding bytes (section 6.3 of RFC 5652) |
| CbcMac.MacIs | 范新东/projects/optee_os-master/core/crypto/cbc-mac.c:57-153 | there are chaining values from zero on, each the encryption of a block xored with the one before; the MAC is the front of the last one, over the padded message if padding is asked for, and an error otherwise for an empty or ragged one |
| CbcMac.Context.Init | 范新东/projects/optee_os-master/core/crypto/cbc-mac.c:42-55 | unless the cipher call fails, buffers, flags and initial vector are zero |
| CbcMac.Context.FillBlock | 范新东/projects/optee_os-master/core/crypto/cbc-mac.c:67-81 | a waiting partial block is completed and encrypted, or the failure passed on |
| CbcMac.Context.CipherBundle | 范新东/projects/optee_os-master/core/crypto/cbc-mac.c:88-114 | one round, bundled or block by block, with or without the temporary buffer; the digest is current whenever less than a block is left |
| CbcMac.Context.CipherWhole | 范新东/projects/optee_os-master/core/crypto/cbc-mac.c:83-114 | unless a cipher call fails, the loop leaves less than a block for every bundle size |
| CbcMac.Context.Update | 范新东/projects/optee_os-master/core/crypto/cbc-mac.c:57-125 | for every bundle size, allocation outcome and pattern of failing cipher calls: a call that succeeds extends the data held by the input, and it succeeds unless a cipher call fails |
| CbcMac.Context.Pad | 范新东/projects/optee_os-master/core/crypto/cbc-mac.c:132-141 | the final padding fills the waiting block |
| CbcMac.Context.Final | 范新东/projects/optee_os-master/core/crypto/cbc-mac.c:127-153 | the last CBC block of the padded message; without padding it fails exactly for an empty or ragged message; with it only if a cipher call fails |
| CbcMac.MacAll | 范新东/projects/optee_os-master/core/crypto/cbc-mac.c:42-153 | for every split, bundle size and allocation outcome the MAC depends on the whole data only; with failing cipher calls a MAC that is returned is still the right one |
| FortunaRing.OtherSlot | 范新东/projects/optee_os-master/core/crypto/rng_fortuna.c:185-186 | stream positions less than a turn apart lie in different slots |
| FortunaRing.WriterKeepsInv | 范新东/projects/optee_os-master/core/crypto/rng_fortuna.c:175-198 | every load and store of push_ring_buffer keeps the invariant |
| FortunaRing.ReaderKeepsInv | 范新东/projects/optee_os-master/core/crypto/rng_fortuna.c:200-220 | every load and store of pop_ring_buffer keeps the invariant |
| FortunaRing.RunInv | 范新东/projects/optee_os-master/core/crypto/rng_fortuna.c:175-220 | the invariant holds after every interleaving of one writer and one reader |
| FortunaRing.PopsFollowPushes | 范新东/projects/optee_os-master/core/crypto/rng_fortuna.c:175-220 | pop m returns accepted push m - 1 whole and in order, pop 1 the zeroed slot 0; at most seven positions wait |
| FortunaRing.UnreadKept | 范新东/projects/optee_os-master/core/crypto/rng_fortuna.c:189-194 | no step changes a slot that is still to be read |
| FortunaRing.TurnedAway | 范新东/projects/optee_os-master/core/crypto/rng_fortuna.c:185-192 | a push is refused exactly when seven positions wait, and otherwise keeps its first four bytes |
| FortunaRing.Drains | 范新东/projects/optee_os-master/core/crypto/rng_fortuna.c:200-220 | from any reachable state the reader alone fetches all accepted events but the newest |
| FortunaRing.RingBuffer.Push | 范新东/projects/optee_os-master/core/crypto/rng_fortuna.c:175-198 | an uninterrupted push appends the event or finds the buffer full |
| FortunaRing.RingBuffer.Pop | 范新东/projects/optee_os-master/core/crypto/rng_fortuna.c:200-220 | an uninterrupted pop returns the next position of the stream or finds it empty |
| Fortuna.IncrementedAt | 范新东/projects/optee_os-master/core/crypto/rng_fortuna.c:74-79 | two 64-bit words with carry count increments |
| Fortuna.ValueAt | 范新东/projects/optee_os-master/core/crypto/rng_fortuna.c:74-79 | read as one number the words are the increments modulo 2^128 |
| Fortuna.BlocksIncrease | 范新东/projects/optee_os-master/core/crypto/rng_fortuna.c:315-338 | in a recorded run two counter blocks given to the cipher before the 128-bit wrap are in strictly increasing order, whatever the keys |
| Fortuna.RecordSnoc | 范新东/projects/optee_os-master/core/crypto/rng_fortuna.c:321-336 | one more cipher call keeps order, limit and the one key of each installation |
| Fortuna.OneBitDecides | 范新东/projects/optee_os-master/core/crypto/rng_fortuna.c:420-430 | after the pools below it, the one bit tested says whether 2^n divides the count |
| Fortuna.NoneAfter | 范新东/projects/optee_os-master/core/crypto/rng_fortuna.c:450-451 | pools past the first one not due are not due |
| Fortuna.RestDoesNothing | 范新东/projects/optee_os-master/core/crypto/rng_fortuna.c:450-461 | leaving the loop at the first pool not due drains exactly the due ones |
| Fortuna.Generator.GenerateBlock | 范新东/projects/optee_os-master/core/crypto/rng_fortuna.c:320-335 | the cipher gets the current counter and the counter moves on even when the call fails |
| Fortuna.Generator.GenerateBlocks | 范新东/projects/optee_os-master/core/crypto/rng_fortuna.c:315-338 | n blocks under the current key, in order |
| Fortuna.Generator.GenerateRandomData | 范新东/projects/optee_os-master/core/crypto/rng_fortuna.c:341-359 | the requested bytes are a prefix of the encrypted counters |
| Fortuna.ReseedAt | 范新东/projects/optee_os-master/core/crypto/rng_fortuna.c:420-461 | with m pools due, digest i of the reseed is the hash of pool i for i < m, just these pools restart from it, and the others stay |
| Fortuna.Generator.DrainPools | 范新东/projects/optee_os-master/core/crypto/rng_fortuna.c:450-461 | without hash error exactly the pools n < 32 with 2^n dividing the count, zero included, restart from their digest and feed the reseed hash |
| Fortuna.Generator.Reseed | 范新东/projects/optee_os-master/core/crypto/rng_fortuna.c:444-473 | the count goes up, the due pools restart, the hash of their digests becomes the key and a counter value is skipped |
| Fortuna.Generator.MaybeReseed | 范新东/projects/optee_os-master/core/crypto/rng_fortuna.c:432-474 | reseeds exactly when pool 0 got 64 bytes and it is not too soon; otherwise key, pools and count stay |
| Fortuna.FedGains | 范新东/projects/optee_os-master/core/crypto/rng_fortuna.c:222-246 | an event adds to its pool the source number, a byte that holds the number of data bytes, at most 32, and these bytes; no other pool changes |
| Fortuna.Generator.AddEvent | 范新东/projects/optee_os-master/core/crypto/rng_fortuna.c:222-246 | a call that succeeds adds just that, the length of pool 0 counts up unless it overflows; pool numbers past 31 are refused |
| Fortuna.Generator.GetNextPnum | 范新东/projects/optee_os-master/core/crypto/rng_fortuna.c:267-296 | an uninterrupted caller gets its counter modulo 32 and leaves the next pool, also where the counter wraps at 2^32 |
| Fortuna.Generator.DrainRingBuffer | 范新东/projects/optee_os-master/core/crypto/rng_fortuna.c:248-265 | events popped are fed in order, up to the first one without data or the newest accepted one |
| Fortuna.DrainsAllWhen | 范新东/projects/optee_os-master/core/crypto/rng_fortuna.c:248-265 | for every stream of events a drain empties the ring exactly when no position but the last it pops is without data |
| Fortuna.FirstDrainStops | 范新东/projects/optee_os-master/core/crypto/rng_fortuna.c:248-265 | the very first drain stops at the zeroed slot, however many events wait behind it |
| Fortuna.Generator.CryptoRngAddEvent | 范新东/projects/optee_os-master/core/crypto/rng_fortuna.c:298-312 | quick sources go to the ring only; a slow one enters its pool, after which the popped events are fed; the assertion on the pool context fails exactly for a slow source while there are no pool contexts, as after a shutdown |
| Fortuna.Generator.ReadOnce | 范新东/projects/optee_os-master/core/crypto/rng_fortuna.c:489-503 | data blocks, two blocks for the next key, and rekeying |
| Fortuna.Generator.FortunaRead | 范新东/projects/optee_os-master/core/crypto/rng_fortuna.c:476-512 | any failure shuts the generator down; a success has reseeded exactly when due, returns counters encrypted under one key, has taken the next key from the last two blocks, and has fed the popped events |
| Fortuna.DeliveredAt | 范新东/projects/optee_os-master/core/crypto/rng_fortuna.c:489-531 | byte j of a read is byte j % 16 of the block that call j / 2^20 * 65538 + j % 2^20 / 16 of the cipher got back: two blocks for the next key behind each MiB |
| Fortuna.DeliveredConcat | 范新东/projects/optee_os-master/core/crypto/rng_fortuna.c:514-531 | reads in pieces of one MiB deliver what one read of their sum delivers |
| Fortuna.Generator.CryptoRngRead | 范新东/projects/optee_os-master/core/crypto/rng_fortuna.c:514-531 | a read of any length delivers its bytes, at most one MiB from each key |
| Fortuna.Generator.CryptoRngInit | 范新东/projects/optee_os-master/core/crypto/rng_fortuna.c:130-173 | a running generator refuses; otherwise a new run with counter one and the hash of the seed as key; a failure frees the pool contexts or, from the seed hash on, leaves them |
| Fortuna.RunAll | 范新东/projects/optee_os-master/core/crypto/rng_fortuna.c:298-531 | over any run from one init, with failing calls anywhere, recorded counter blocks are in order, an installation is one key, begins only with a successful cipher init, and encrypts no more than 65536 + 2 blocks; a run stops at the assertion on the pool contexts only without them, never if no call fails |
| ElfHash.GnuHashSum | 范新东/projects/optee_os-master/ldelf/ta_elf_rel.c:35-44 | the hash of a name of n bytes is 5381 * 33^n plus the sum of byte i times 33^(n - 1 - i), modulo 2^32 |
| ElfHash.ComputeGnuHash | 范新东/projects/optee_os-master/ldelf/ta_elf_rel.c:35-44 | the shift loop computes that hash |
| ElfHash.ElfHashSteps | 范新东/projects/optee_os-master/ldelf/ta_elf_rel.c:19-33 | from zero, a byte shifts the word by four and is added, and set top bits are folded down by 24 and cleared |
| ElfHash.KnownElfHash | 范新东/projects/optee_os-master/ldelf/ta_elf_rel.c:19-33 | the System V hash of init_array is 0x0a5f9d89 |
| ElfHash.ComputeElfHash | 范新东/projects/optee_os-master/ldelf/ta_elf_rel.c:19-33 | the loop computes the System V hash and its top four bits are clear |
| ElfHash.CStringIs | 范新东/projects/optee_os-master/ldelf/ta_elf_rel.c:57-58 | the name compared is the string table from the offset up to the next zero byte or its end |
| ElfHash.CompareWhen | 范新东/projects/optee_os-master/ldelf/ta_elf_rel.c:46-90 | for every symbol, when sym_compare matches and with which value, and when it ends the loader |
| ElfHash.ScanFinds | 范新东/projects/optee_os-master/ldelf/ta_elf_rel.c:134-189 | the scan answers with the first symbol that is not passed over, and with nothing exactly when all are |
| ElfHash.RejectedMeans | 范新东/projects/optee_os-master/ldelf/ta_elf_rel.c:150-167 | the mask test rejects exactly when one of the two bits is clear |
| ElfHash.FilteredWhen | 范新东/projects/optee_os-master/ldelf/ta_elf_rel.c:150-167 | for every section and hash h, with w bits in a filter word, the filter rejects exactly when bit h % w or bit h / 2^shift % w of the number in word h / w % size is clear |
| ElfHash.FilterLosesNothing | 范新东/projects/optee_os-master/ldelf/ta_elf_rel.c:150-168 | on a section whose filter has those two bits for every symbol, a name the filter rejects is that of no symbol |
| ElfHash.BucketStarts | 范新东/projects/optee_os-master/ldelf/ta_elf_rel.c:171-173 | the bucket word names the first candidate, or no symbol has the hash |
| ElfHash.ChainTestLosesNothing | 范新东/projects/optee_os-master/ldelf/ta_elf_rel.c:184-186 | a symbol whose chain word has another hash does not match |
| ElfHash.ChainMovesOn | 范新东/projects/optee_os-master/ldelf/ta_elf_rel.c:176-189 | at the end mark no symbol is left to match |
| ElfHash.GnuIsScan | 范新东/projects/optee_os-master/ldelf/ta_elf_rel.c:134-189 | on a well-formed section the answer by filter, bucket and chain is that of the linear scan from symoffset |
| ElfHash.LookupGnu | 范新东/projects/optee_os-master/ldelf/ta_elf_rel.c:134-189 | lookup ends on every section and finds only accepted symbols, and divides by zero exactly without filter words or, past the filter, without buckets; on a well-formed section (32- or 64-bit filter words) it returns what sym_compare says of the first symbol from symoffset on that it does not pass over, errors included |
| ElfHash.ReadsPastWhen | 范新东/projects/optee_os-master/ldelf/ta_elf_rel.c:176-182 | on every section, the word behind it is read exactly when filter and bucket lead into a chain without match or end mark up to the last word |
| ElfHash.NeverReadsPast | 范新东/projects/optee_os-master/ldelf/ta_elf_rel.c:176-182 | on a well-formed section that word is never read |
| ElfHash.PastUnused | 范新东/projects/optee_os-master/ldelf/ta_elf_rel.c:176-189 | where it is not read the answer does not depend on it |
| ElfHash.PastDecides | 范新东/projects/optee_os-master/ldelf/ta_elf_rel.c:176-182 | a section without chain words whose answer depends on the word behind it |
| ElfHash.ChainSaysAll | 范新东/projects/optee_os-master/ldelf/ta_elf_rel.c:190-209 | in a table that files every symbol, nothing on the chain of the bucket matches only if nothing in the table does |
| ElfHash.NeverEndsWhen | 范新东/projects/optee_os-master/ldelf/ta_elf_rel.c:203-209 | on every table, the chain loop never ends exactly when the chain comes back to a symbol and sym_compare passes over every symbol up to there |
| ElfHash.EndsSoonOrNever | 范新东/projects/optee_os-master/ldelf/ta_elf_rel.c:203-209 | the chain loop ends within as many steps as there are chain words, or never |
| ElfHash.WithoutCircleEnds | 范新东/projects/optee_os-master/ldelf/ta_elf_rel.c:203-209 | on a table whose chains run in no circle it ends for every name |
| ElfHash.CircleNeverEnds | 范新东/projects/optee_os-master/ldelf/ta_elf_rel.c:203-209 | a table with a chain word that is its own index: for every name the loop goes on for ever |
| ElfHash.LookupHash | 范新东/projects/optee_os-master/ldelf/ta_elf_rel.c:190-211 | on every table whose chain does not run in such a circle for the name, what it finds is an accepted symbol; in a DT_HASH table (System V gABI chapter 5) that files every symbol, circular or not, lookup passes over the name exactly when sym_compare passes over every symbol |
| ElfResolve.ResolveSymHelper | 范新东/projects/optee_os-master/ldelf/ta_elf_rel.c:134-212 | DT_GNU_HASH decides if it is there, else DT_HASH, else nothing is found |
| ElfResolve.ResolveSym | 范新东/projects/optee_os-master/ldelf/ta_elf_rel.c:222-248 | with those lookups, the answer is that of the given module, else of the first module in the queue that has one, in each module among the global symbols first and then with weak ones |
| ElfResolve.WeakOkFindsMore | 范新东/projects/optee_os-master/ldelf/ta_elf_rel.c:134-212 | through either table, a name found among global symbols is found when weak ones are allowed too |
| ElfResolve.ModuleOrderDecides | 范新东/projects/optee_os-master/ldelf/ta_elf_rel.c:214-240 | for every queue, the module chosen is the documented one (global symbols, then weak ones, then undefined weak ones) exactly when it has an acceptable global symbol, or no module has one and its weak symbol is defined or no module has a defined one |
| ElfResolve.GivenModuleWhen | 范新东/projects/optee_os-master/ldelf/ta_elf_rel.c:214-240 | with a module given, the answer is not that of the module, as documented, exactly when it has no match and some module of the queue has one |
| ElfResolve.WeakBeforeGlobal | 范新东/projects/optee_os-master/ldelf/ta_elf_rel.c:214-240 | a queue of a weak and a global symbol of one name, where the code takes the first module and the documented order the second |
| ElfResolve.UndefinedBeforeWeak | 范新东/projects/optee_os-master/ldelf/ta_elf_rel.c:214-240 | a queue of an undefined and a defined weak symbol of one name, where the code resolves to zero and the documented order to the definition |
| ElfResolve.FoundElsewhere | 范新东/projects/optee_os-master/ldelf/ta_elf_rel.c:226-240 | a given module without the symbol, and the answer of another one |
| ElfSegments.ResultsMade | 范新东/projects/optee_os-master/ldelf/ta_elf.c:653-711 | each result made of segments f to n starts where f does, rounded down to a page in memory and file if f is not the first, ends where n does, in memory and in file bytes, and is remapped exactly when f was or cuts into a page of the file that the result before it maps |
| ElfSegments.GroupsWhen | 范新东/projects/optee_os-master/ldelf/ta_elf.c:673-673 | a segment joins the result of the one before exactly when its page begins before that one ends |
| ElfSegments.PassesWhen | 范新东/projects/optee_os-master/ldelf/ta_elf.c:672-699 | the asserts, which look at merged segments, in terms of the segments as they were |
| ElfSegments.AndOfMask | 范新东/projects/optee_os-master/ldelf/ta_elf.c:653-653 | with an alignment that is a power of two the masked value is the rest modulo the alignment |
| ElfSegments.TaElf.AdjustSegments | 范新东/projects/optee_os-master/ldelf/ta_elf.c:620-714 | succeeds exactly when all sanity and merge asserts hold, and then leaves those results |
| ElfSegments.TaElf.SanityCheck | 范新东/projects/optee_os-master/ldelf/ta_elf.c:629-651 | the first loop passes exactly the sane lists |
| ElfSegments.TaElf.Merge | 范新东/projects/optee_os-master/ldelf/ta_elf.c:653-711 | the second loop ends, with removal from the list it walks, in the adjusted list or at the first failing assert |
| ElfSegments.ResultsAscend | 范新东/projects/optee_os-master/ldelf/ta_elf.c:653-711 | results are in ascending order and start on page boundaries, in memory and file, from the second on |
| ElfSegments.NoSharedPage | 范新东/projects/optee_os-master/ldelf/ta_elf.c:673-688 | no two results have bytes in the same page |
| ElfSegments.EachInside | 范新东/projects/optee_os-master/ldelf/ta_elf.c:673-688 | every original segment, memory and file part, lies inside the result it goes into |
| ElfSegments.OneHome | 范新东/projects/optee_os-master/ldelf/ta_elf.c:620-714 | a non-empty original lies in exactly one result |
| ElfSegments.FlagsFromMembers | 范新东/projects/optee_os-master/ldelf/ta_elf.c:684-684 | a result has a flag exactly when one of the segments merged into it has |
| ElfSegments.FileKeptWhen | 范新东/projects/optee_os-master/ldelf/ta_elf.c:673-692 | for every list that passes the sanity checks, a segment keeps its file bytes exactly when it has none or agrees in address minus offset with the first segment it is merged with |
| ElfSegments.ZeroFillKept | 范新东/projects/optee_os-master/ldelf/ta_elf.c:673-692 | two merged segments that differ in that distance and lose nothing, since the second has no file bytes |
| ElfSegments.FileNotKept | 范新东/projects/optee_os-master/ldelf/ta_elf.c:673-692 | two segments that pass every assert although the merge maps the wrong file bytes for the second |
| ElfQueue.QueueIsReachable | 范新东/projects/optee_os-master/ldelf/main.c:152-153 | a duplicate-free closed queue of modules reached from its first is exactly what that module reaches |
| ElfQueue.Loader.FindElf | 范新东/projects/optee_os-master/ldelf/ta_elf.c:90-99 | finds a module exactly when it is queued |
| ElfQueue.Loader.QueueElf | 范新东/projects/optee_os-master/ldelf/ta_elf.c:76-88 | appends a module unless it is queued already |
| ElfQueue.AppendedOrder | 范新东/projects/optee_os-master/ldelf/ta_elf.c:1063-1072 | appending a list to a queue keeps the queue as prefix and adds just the modules it lacks, in the order in which the list first names them |
| ElfQueue.Loader.AddDependencies | 范新东/projects/optee_os-master/ldelf/ta_elf.c:1029-1073 | the DT_NEEDED modules are appended in the order of their entries, each unless it is there; every one is in the queue afterwards |
| ElfQueue.Loader.LoadDependency | 范新东/projects/optee_os-master/ldelf/ta_elf.c:1300-1321 | the main module is skipped, any other has its dependencies queued |
| ElfQueue.Loader.LoadFrom | 范新东/projects/optee_os-master/ldelf/main.c:152-153 | the loop over the growing queue ends with a closed, duplicate-free queue in breadth-first order: what its modules need, one module after the other, each where it is first named |
| ElfQueue.Loader.RelocateFrom | 范新东/projects/optee_os-master/ldelf/main.c:155-158 | each module from a position on is relocated once, in queue order |
| ElfQueue.Loader.Ldelf | 范新东/projects/optee_os-master/ldelf/main.c:130-160 | for every finite dependency graph the queue ends as the set reachable from main, in that order, each module relocated once; it ends early only if some step fails |
| ElfQueue.Loader.AddLibrary | 范新东/projects/optee_os-master/ldelf/ta_elf.c:1583-1614 | a dlopen keeps the old queue as prefix, adds exactly what the library reaches, and relocates only the new modules; the same holds when setting the init/fini or phdr tables fails afterwards, and without memory nothing changes |
| ElfQueue.DlopenAll | 范新东/projects/optee_os-master/ldelf/ta_elf.c:1583-1614 | over any sequence of dlopen calls the queue stays closed and duplicate-free and its prefix unchanged |

## Left out

- AES, SHA-256 and RSA internals, the SM4 S-box table and the SM3 message expansion: parameters of the model.
- Device drivers other than the TZC-380 allocator, device tree, power management and clocks: register polling and platform plumbing.
- `crypto.c`, `sm3-hash.c`, `sm3-hmac.c`, `sm4-ecb.c`, `sm4-cbc.c`, `sm4-ctr.c`, and the alloc, free and copy functions of the modelled files: dispatch and allocation.
- ELF relocation arithmetic, `populate_segments`, ASLR padding, stack traces, init/fini arrays and phdr tables: system calls and raw memory that are not part of this model.
- Constant-time comparison, wiping of secrets, fault mitigation and index confinement: no effect on results.
- Signed headers and the Python scripts: framing around library calls.
- Gcm.State.UpdatePayloadBlocks: the aligned and unaligned branches of `encrypt_pl` and `decrypt_pl` read the same bytes and are one branch here.
- GcmStandard.TagMatches: for more data than 2^29 bytes the length block differs (`LengthFieldExact`); that the tag then differs too is proved for the cipher of `LongDataDiffers`, not for every cipher.
- Tzc380.Controller.AutoConfigure: takes an address width of 16 to 63 and a range that does not wrap around the 64-bit address space; with bits of attr in the size and subregion fields, which the code computes itself, it promises the plan and the permissions but not the bytes covered. The wrap-around of an 8-bit region number is not modelled.
- RegionPlan.ClosedWhen: is about addresses aligned to the length of the range; for others below 32 KiB alignment the plan itself is the condition.
- AesCts.CtsContext.Update: takes a last part of at most 2^31 bytes, beyond which the int offsets of the source overflow; the bytes a failing cipher call has written are left open.
- CbcMac.Context.Update: the state left by a failing cipher call is left open.
- CbcMac.Context.CipherUpdate: the cipher context is the chaining value and the block function, the way `crypto_cipher_update` uses them is not part of this model.
- FortunaRing.RunInv: writers are serialized by the spin lock of the source; the lock itself is not modelled.
- Fortuna.Generator.GetNextPnum: the compare-and-swap of `get_next_pnum` succeeds at the first try.
- Fortuna.RunAll: the same key value drawn twice counts as two installations.
- ElfHash.LookupGnu: takes a section of less than 16 GiB; a string that runs past the string table ends there; what a division by zero does, which C leaves open, is an error result.
- ElfHash.LookupHash: takes a name for which the loop of the source ends, by the condition of `NeverEndsWhen`.
- ElfSegments.TaElf.AdjustSegments: permission flags are the set of their bit numbers, the linked list is a sequence field.
- ElfQueue.Loader.Ldelf: a dynamic section is the list of the UUIDs its DT_NEEDED entries name; mapping and symbol tables of a module are one step that may fail.
