# COLM authenticated encryption, modelled in Dafny

This project models the mode-of-operation core of an ARM NEON implementation of
COLM, a nonce-misuse-resistant AEAD mode built on a 128-bit block cipher. Both
tag granularities are covered. COLM0 has one trailing tag. COLM127 also emits
an intermediate tag into a side stream every 127 blocks. Each comes in two
shapes:

- the single-block code of `src/colm.c`;
- the 3-wide batched code of `src/colm_parallel.c`, which pushes three blocks
  through the cipher at once but keeps the offsets, the rho state and the
  checksum strictly sequential.

The model is layered the way the C is:

- `Blocks` (blocks.dfy): 16-byte blocks, XOR, the `vrev64q_u8` byte reversal
  behind `LOAD_BLOCK`/`STORE_BLOCK`, `EQUALS`, padding, and the 128-bit mac
  parameter built from the nonce and the mode constant.
- `GaloisField` (galois.dfy): `gf_mul2`, `gf_mul3`, `gf_mul7`. Both the lane
  formula and the NEON intrinsic sequence are modelled, and they are proved
  equal.
- `Cipher` (cipher.dfy): the block cipher as a pair of functions. `Inverse(c)`
  says that decryption undoes encryption.
- `Mixing` (rho.dfy): `RHO_INPLACE` and `RHO_INVERSE_INPLACE`.
- `AdMac` (mac.dfy): the associated-data `mac`, both the sequential one and
  the 3-wide one as written, plus a corrected 3-wide one.
- `ColmSpec` (colm_spec.dfy): one pass of the block loop. This covers the
  offsets, the checksum, the two cipher passes around rho, and the
  intermediate tag at tag points. It also covers runs of that loop over a
  message, proved generically for any encryptor/decryptor pair that undo each
  other.
- `ColmMessage` (message.dfy): the final block, the checksum block and its
  truncated fragment, the status codes, and whole-message encryption and
  decryption.
- `ColmModes` (modes.dfy): the four entry points `colm0_encrypt`,
  `colm0_decrypt`, `colm127_encrypt` and `colm127_decrypt`. This includes the
  64-bit `*c_len`, `*m_len` and `*tag_len` outputs.
- `ColmGroups`, `ParallelMessage` and `ParallelModes` (groups.dfy,
  parallel.dfy, parallel_modes.dfy): the 3-wide bodies, the `itag` switch and
  the tail loop. They are proved equal to three sequential steps, and the
  batched entry points are proved equal to the sequential ones.
- `ColmImpl` and `ParallelImpl` (colm_impl.dfy, parallel_impl.dfy): the C
  loops as methods over arrays. Each is proved to write exactly the bytes the
  functions above compute, and nothing beyond them.

`src/colm_parallel.c:34-53` repeats `gf_mul2`, `gf_mul3` and `gf_mul7`. The
same `GaloisField` functions model both copies.

Where the code and the algorithm's description disagree, the model follows
the code:

- For a non-empty message the final 16-byte block is always written. The
  checksum block then contributes only as many bytes as the final fragment
  has, so the ciphertext is always `|m| + 16` bytes (`src/colm.c:173-196`). A
  full 16-byte trailing tag exists only in the sense that the final block
  carries it.
- The decrypted final block is read from the running checksum, not from the
  freshly decrypted block (`src/colm.c:286-290`). `ColmMessage.FinalRoundTrip`
  shows that this gives back the padded plaintext.
- The 3-wide COLM127 counter starts at 3, not 1 (`src/colm_parallel.c:511`).
  Its effect on the tail loop is listed under "Findings".

## Model

| member | source | states |
|---|---|---|
| Blocks.EqualsIff | src/colm.c:11 | `EQUALS` (lane sum of the XOR is zero) holds exactly when the two blocks are equal; the 16-lane sum cannot overflow the 16-bit result |
| Blocks.Rev64Lanes | src/colm.c:26 | `vrev64q_u8` maps lane i to byte 7−i of the low half and byte 23−i of the high half |
| Blocks.LoadStore | src/colm.c:26-27 | `LOAD_BLOCK` reverses each 8-byte half, and `STORE_BLOCK` and `LOAD_BLOCK` undo each other in both directions |
| Blocks.Pad | src/colm.c:146-153 | the padded final block starts with the fragment, has 0x80 right after a short fragment and zeros after that |
| Blocks.PadUnique | src/colm.c:311-320 | a block with 0x80 at position r and zeros after it is exactly the padding of its first r bytes, so the decryptor's padding checks accept only real padding |
| Blocks.SeedIsBigEndian | src/colm.c:110 | the mac parameter built from `vcreate_u64(npub)` and the mode constant, in the byte order `mac` works in, is npub then the constant, both big-endian |
| GaloisField.Mul2Lanes | src/colm.c:29-35 | doubling shifts every lane left by one bit, carries the top bit of lane i+1 into lane i, and XORs 0x87 into lane 15 exactly when lane 0's top bit was set |
| GaloisField.Mul2NeonIsMul2 | src/colm.c:29-35 | the NEON sequence (sign mask by arithmetic shift, byte shift left, carries moved down one lane by `vextq` and masked, 0x87 selected by lane 0's sign) computes the doubling |
| GaloisField.HalfMul2 | src/colm.c:29-35 | doubling is a bijection: halving undoes it in both directions |
| GaloisField.Mul2Xor | src/colm.c:29-35 | doubling is linear over XOR |
| GaloisField.Mul2FixedIsZero | src/colm.c:29-35 | the only block that doubling leaves unchanged is zero |
| GaloisField.Mul7IsDoubledTriple | src/colm.c:42-46 | `gf_mul7` (2·2x ⊕ 2x ⊕ x) equals 2·(3x) ⊕ x, with `gf_mul3` being 2x ⊕ x |
| GaloisField.Mul3Injective | src/colm.c:37-40 | tripling never maps two different blocks to the same block |
| GaloisField.DoublingsMore | src/colm.c:57-70 | k + 1 doublings of an offset are one more `gf_mul2` of k doublings, as the offset evolves block by block |
| Mixing.Rho | src/colm.c:14-18 | the emitted block is 3W ⊕ x, the input masked by three times the prior state, and the new state is 2W ⊕ x |
| Mixing.RhoInverse | src/colm.c:20-24 | the recovered block is 3W ⊕ y, the same mask rho applies, and the new state is W ⊕ y |
| Mixing.RhoInverseUndoesRho | src/colm.c:14-24 | the inverse transform gives back the input block and the same new state |
| Mixing.RhoUndoesRhoInverse | src/colm.c:14-24 | the forward transform gives back the ciphertext-side block and the same new state |
| Mixing.RhoSeparatesStates | src/colm.c:14-18 | for the same input block, different states give different output blocks |
| AdMac.MacEmpty | src/colm.c:48-84 | with no associated data, `mac` is the encryption of the parameter ⊕ 3L, and no partial block is added |
| AdMac.MacSeparatesNonces | src/colm.c:48-84 | under an invertible cipher, different mac parameters give different results for the same associated data |
| AdMac.ModeSeedsDiffer | src/colm.c:357 | the COLM127 parameter (constant 0x007F800000000000) never equals a COLM0 parameter (constant 0x0000800000000000, line 110), whatever the two nonces |
| AdMac.Fold3IsFold | src/colm_parallel.c:73-95 | folding three terms per iteration equals folding the same terms one at a time |
| AdMac.MacGroupsAreBlocks | src/colm_parallel.c:73-95 | the 3-wide associated-data loop adds exactly the terms of the first 3g single-block iterations |
| AdMac.MacParallelAgrees | src/colm_parallel.c:57-125 | when the associated data is a multiple of 48 bytes, the 3-wide `mac` equals the sequential one |
| AdMac.MacParallelIgnoresNonce | src/colm_parallel.c:100-122 | as written, whenever the associated data is not a multiple of 48 bytes, the 3-wide `mac` gives the same value for any two parameters, so any two nonces |
| AdMac.MacParallelIntendedAgrees | src/colm_parallel.c:57-125 | the 3-wide `mac` that accumulates into v in its last two steps equals the sequential `mac` for every length |
| ColmSpec.MultipleOf127Mod | src/colm.c:375 | the tag-point test is `iteration_counter % 127 == 0` |
| ColmSpec.StepTag | src/colm.c:375-384 | an intermediate tag is 16 bytes at a tag point and absent elsewhere |
| ColmSpec.EncryptStep | src/colm.c:359-396 | one pass of the COLM127 block loop (the COLM0 loop, lines 118-143, when never at a tag point) emits a 16-byte tag exactly at a tag point |
| ColmSpec.StepRoundTrip | src/colm.c:233-257 | decrypting an encrypted block with its own tag gives back the plaintext block and the same next state, and the tag check passes |
| ColmSpec.StepInverse | src/colm.c:502-546 | re-encrypting a decrypted block gives back the ciphertext and the same state, and the tag too whenever the tag check passed |
| ColmSpec.EncryptRun | src/colm.c:118-143 | n loop passes write 16n ciphertext bytes |
| ColmSpec.EncryptRunTags | src/colm.c:359-396 | the loop emits 16 tag bytes per tag point it passes |
| ColmSpec.DecryptRun | src/colm.c:502-546 | the decrypt loop either returns -5 or recovers 16 bytes per block and consumes one tag per tag point |
| ColmSpec.DecryptRunStaysFailed | src/colm.c:521-532 | once an intermediate tag fails, running the loop further still fails |
| ColmSpec.RunRoundTrip | src/colm.c:233-257 | for any step pair that undo each other, decrypting the loop's output gives back the message prefix, the same state and the tag count |
| ColmSpec.RunInverse | src/colm.c:502-546 | for any step pair that redo each other, a successful decrypt loop's plaintext re-encrypts to the given ciphertext and tags |
| ColmSpec.LoopStepsInvert | src/colm.c:359-396 | under an invertible cipher the decrypt and encrypt loop bodies undo and redo each other at every block index |
| ColmMessage.EncryptFinal | src/colm.c:146-173 | the final block emits a 16-byte tag exactly at a tag point |
| ColmMessage.FinalRoundTrip | src/colm.c:261-290 | decrypting the final block gives back the padded fragment and the state, and its tag check passes for the tag-encrypting style |
| ColmMessage.FinalTagAsWritten | src/colm.c:431-440 | with the final tag taken from W' itself and W' then encrypted, the decryptor's check passes only if the cipher's inverse fixes the emitted state |
| ColmMessage.FinalInverse | src/colm.c:548-591 | a final block that decrypts with a passing tag and valid padding re-encrypts to the same ciphertext, state and tag |
| ColmMessage.Unpad | src/colm.c:311-320 | when the padding checks pass, the fragment has length r and pads back to the decrypted block |
| ColmMessage.LoopBlocks | src/colm.c:117 | the `remaining > BLOCKSIZE` loop runs n times with 16n ≤ len ≤ 16n + 16, and runs short of len exactly when len > 0 |
| ColmMessage.EncryptEnd | src/colm.c:146-196 | the final block plus the truncated checksum block are 16 + r ciphertext bytes |
| ColmMessage.EncryptMessage | src/colm.c:90-199 | the ciphertext is `|m| + 16` bytes, with 16 tag bytes per tag point, laid out as the decryptor reads them |
| ColmMessage.Code | src/colm.c:307-320 | the status codes are 0, -1, -2, -3, -4 and -5, one per outcome, with 0 exactly for success |
| ColmMessage.EndStatus | src/colm.c:293-321 | success exactly when the final tag passes, the checksum block matches the fragment and the padding is valid; never -1 |
| ColmMessage.DecryptEnd | src/colm.c:261-321 | the end of decryption never reports -1, and on success adds exactly the fragment's bytes |
| ColmMessage.DecryptMessage | src/colm.c:201-324 | -1 exactly when the ciphertext is shorter than 16 bytes; on success the message is 16 bytes shorter than the ciphertext |
| ColmMessage.DecryptEndOk | src/colm.c:293-321 | when the final tag passes, the padding matches the fragment and the checksum bytes match, the end succeeds with exactly that fragment |
| ColmMessage.EndRoundTrip | src/colm.c:261-321 | the end of decryption accepts what the end of encryption wrote and gives back the fragment |
| ColmMessage.MessageRoundTrip | src/colm.c:90-324 | decrypting an encrypted message succeeds with the original message for every schedule whose final tag point, if any, uses the tag-encrypting (`TagEncrypted`) style |
| ColmMessage.StyleMattersOnlyAtTagPoint | src/colm.c:431-440 | the two final-tag styles give identical output unless the final block is a tag point |
| ColmMessage.LaidEndAsWritten | src/colm.c:580-591 | when the final block is a tag point and the as-written tag was emitted, decryption returns -5 for a cipher whose inverse has no fixed point |
| ColmMessage.MessageAsWrittenRejects | src/colm.c:431-440 | the as-written final tag makes decryption of a genuine message fail with -5 |
| ColmMessage.MaskedSeparates | src/colm.c:131-136 | for the same masked block and offset, two different rho states give different stored ciphertext blocks |
| ColmMessage.FinalSeparates | src/colm.c:146-173 | for a message of at most 16 bytes, two different rho states give different final blocks |
| ColmMessage.FirstBlockSeparates | src/colm.c:118-173 | with the same offsets and checksum but different rho states, the first 16 ciphertext bytes differ |
| ColmModes.Setup | src/colm.c:106-114 | the checksum starts at zero, Δm is L = E(0), Δc is 3(3L), and W is the `mac` of the associated data under the nonce parameter with that same L |
| ColmModes.SetupSeparatesNonces | src/colm.c:110 | under an invertible cipher, two different nonce parameters give two different starting rho states for the same associated data |
| ColmModes.Wrap64 | src/colm.c:104 | a `uint64_t` result is the value itself when it fits and wraps by 2^64 when it is negative |
| ColmModes.Wrap64Add | src/colm.c:383 | adding to a wrapped `*tag_len` wraps the same as adding to the unwrapped value |
| ColmModes.MessageLength | src/colm.c:213 | `*m_len` is `len − 16`, wrapping below 16 bytes, and is written before the length check |
| ColmModes.TagLength | src/colm.c:375-384 | `*tag_len` is the caller's value plus the number of tag bytes written, reduced modulo 2^64 |
| ColmModes.TagLengthAfterSum | src/colm.c:383 | k wrapping `*tag_len += 16` steps from a 64-bit start add 16k modulo 2^64 |
| ColmModes.TagLengthCountsTags | src/colm.c:375-384 | for a whole number of tags, the tag length is what one `*tag_len += 16` per emitted tag produces |
| ColmModes.Colm0Encrypt | src/colm.c:90-199 | `*c_len` is `|m| + 16` modulo 2^64, the ciphertext is that long, and there are no side tags |
| ColmModes.Colm0Decrypt | src/colm.c:201-324 | `*m_len` is written as `len − 16`; -1 exactly for short ciphertext; on 0 the message is `len − 16` bytes |
| ColmModes.Colm127EncryptIntended | src/colm.c:332-463 | the ciphertext is `|m| + 16` bytes and there are 16 tag bytes per tag point; `*tag_len` adds them |
| ColmModes.Colm127EncryptAsWritten | src/colm.c:332-463 | as written (final tag W' ⊕ Δc, then E(W')), with the same lengths and layout as the intended version |
| ColmModes.Colm127Decrypt | src/colm.c:465-625 | `*m_len` is `len − 16`; -1 exactly for short ciphertext; on 0 the message is `len − 16` bytes |
| ColmModes.Colm0RoundTrip | src/colm.c:90-324 | `colm0_decrypt` of `colm0_encrypt`'s output returns 0, `*m_len` equal to `|m|` and the original message |
| ColmModes.Colm127RoundTrip | src/colm.c:332-625 | `colm127_decrypt` of the intended encryption's ciphertext and tags returns 0 and the original message |
| ColmModes.Colm127AsWrittenAgrees | src/colm.c:431-440 | the as-written and intended encryptions are identical unless the final block is a tag point |
| ColmModes.FinalTagPointLengths | src/colm.c:431 | messages of 2017 to 2032 bytes put the final block on a tag point |
| ColmModes.Colm127AsWrittenRejects | src/colm.c:434-436 | when the final block is a tag point, `colm127_decrypt` rejects `colm127_encrypt`'s own output with -5 |
| ColmModes.MaskingOneHasNoFixedPoint | src/colm.c:434-436 | there is an invertible cipher whose inverse has no fixed point, so the hypothesis of the rejection lemma can be met |
| ColmModes.ModesSeparate | src/colm.c:357 | for the same key, message and associated data, COLM0 and COLM127 (both versions) differ in their first 16 ciphertext bytes, whatever the two nonces |
| ColmModes.Every127Count | src/colm.c:375 | among the first k blocks, k / 127 are tag points |
| ColmModes.Colm127TagCadence | src/colm.c:375-440 | COLM127 emits (blocks / 127) intermediate tags, counting the final block: 2 tags for 254 blocks and none for 126 |
| ColmGroups.OffsetsAreSteps | src/colm_parallel.c:558-577 | the `itag` switch gives the three offsets of three sequential steps, with the extra doubling at block 1, 2 or 3 for `itag` 2, 1 or 0 |
| ColmGroups.GroupEncrypt | src/colm_parallel.c:527-603 | a 3-wide group writes 48 ciphertext bytes and one tag exactly when `itag` ≤ 2 |
| ColmGroups.GroupTags | src/colm_parallel.c:579-587 | the group's single tag is the tag the tagged one of the three sequential steps would emit |
| ColmGroups.GroupIsThreeSteps | src/colm_parallel.c:527-603 | a 3-wide encrypt group is three sequential loop passes |
| ColmGroups.GroupDecrypt | src/colm_parallel.c:754-833 | a 3-wide decrypt group recovers 48 bytes and checks a tag exactly when `itag` ≤ 2 |
| ColmGroups.GroupDecryptIsThreeSteps | src/colm_parallel.c:754-833 | a 3-wide decrypt group is three sequential decrypt passes |
| ColmGroups.Mod127Is | src/colm_parallel.c:529 | the counter remainder `iteration_counter % 127` |
| ColmGroups.CounterRemainder | src/colm_parallel.c:529-555 | `itag` is 2, 1 or 0 exactly when block 1, 2 or 3 of the group is a tag point |
| ColmGroups.GroupTagPoints | src/colm_parallel.c:529-555 | group j's `itag` selects block 3j, 3j + 1 or 3j + 2 exactly when that block is a tag point |
| ColmGroups.GroupRunIsRun | src/colm_parallel.c:167-208 | g groups of any group encryptor that matches three steps equal 3g loop passes |
| ColmGroups.GroupDecryptRunIsRun | src/colm_parallel.c:338-379 | g decrypt groups equal 3g decrypt passes, including where they fail |
| ColmGroups.ParallelGroups | src/colm_parallel.c:527-603 | every 3-wide encrypt group matches the sequential loop at its block index |
| ColmGroups.ParallelDecryptGroups | src/colm_parallel.c:754-833 | every 3-wide decrypt group matches the sequential decrypt loop at its block index |
| ParallelMessage.Groups | src/colm_parallel.c:167 | the `remaining > 3 * BLOCKSIZE` loop runs g times with 48g ≤ len ≤ 48g + 48 |
| ParallelMessage.GroupsThenBlocks | src/colm_parallel.c:167-237 | the single-block tail runs at most two blocks after the groups |
| ParallelMessage.EncryptParallelIsSequential | src/colm_parallel.c:131-292 | the 3-wide encryption writes the same ciphertext and tags as the sequential one |
| ParallelMessage.DecryptParallel | src/colm_parallel.c:299-478 | -1 exactly for ciphertext shorter than 16 bytes |
| ParallelMessage.DecryptParallelIsSequential | src/colm_parallel.c:299-478 | 3-wide decryption with a loop-style tail gives the same status and message as the sequential one |
| ParallelMessage.TailStepAgrees | src/colm_parallel.c:840-878 | off tag points, the as-written tail step is the sequential decrypt step |
| ParallelMessage.TailAsWrittenAgrees | src/colm_parallel.c:840-878 | when no tail block is a tag point, the as-written tail decrypts like the sequential loop |
| ParallelMessage.TailTagAsWritten | src/colm_parallel.c:851-862 | at a tail tag point, the as-written check passes on a genuine block only if rho left W unchanged |
| ParallelMessage.ParallelRoundTrip | src/colm_parallel.c:131-478 | 3-wide decryption of the 3-wide encryption gives back the message |
| ParallelMessage.ParallelAsWrittenRoundTrip | src/colm_parallel.c:713-962 | with the as-written tail, the round trip holds when no tail block is a tag point |
| ParallelMessage.NoTagsRoundTrip | src/colm_parallel.c:131-478 | the 3-wide COLM0 writes no side tags and decrypts back to the message |
| ParallelModes.ParallelSetupAgrees | src/colm_parallel.c:152-158 | the 3-wide set-up gives the same state as the sequential one, for both `mac` builds |
| ParallelModes.Colm0EncryptParallel | src/colm_parallel.c:131-292 | `*c_len` is `|m| + 16` modulo 2^64, with that much ciphertext and no side tags |
| ParallelModes.Colm0DecryptParallel | src/colm_parallel.c:299-478 | `*m_len` is `len − 16` with wrap-around, and -1 exactly for short ciphertext |
| ParallelModes.Colm0ParallelRoundTrip | src/colm_parallel.c:131-478 | the 3-wide COLM0 round trip returns 0, `|m|` and the message, in both builds |
| ParallelModes.Colm0ParallelEncryptAgrees | src/colm_parallel.c:131-292 | the 3-wide COLM0 encryption equals the sequential one with the corrected `mac`, or as written when the associated data is a multiple of 48 bytes |
| ParallelModes.Colm0ParallelDecryptAgrees | src/colm_parallel.c:299-478 | the 3-wide COLM0 decryption equals the sequential one under the same condition |
| ParallelModes.Colm127Schedule | src/colm_parallel.c:511 | the as-written counter starts at 3, which keeps the group `itag` switch right and puts the tail 2 blocks ahead |
| ParallelModes.Colm127EncryptParallel | src/colm_parallel.c:493-711 | `|m| + 16` bytes of ciphertext, 16 tag bytes per tag point of the build's schedule, and `*tag_len` adds them |
| ParallelModes.Colm127DecryptParallel | src/colm_parallel.c:713-962 | `*m_len` is `len − 16` with wrap-around, and -1 exactly for short ciphertext |
| ParallelModes.Colm127ParallelEncryptAgrees | src/colm_parallel.c:493-711 | the corrected 3-wide COLM127 encryption equals the sequential intended one |
| ParallelModes.Colm127ParallelDecryptAgrees | src/colm_parallel.c:713-962 | the corrected 3-wide COLM127 decryption equals the sequential one |
| ParallelModes.Colm127ParallelRoundTrip | src/colm_parallel.c:493-962 | the 3-wide COLM127 round trip returns 0 and the message: always when corrected, and as written when no tail block is a tag point |
| ParallelModes.ScheduleAsWrittenDiffers | src/colm_parallel.c:602-690 | for 2017 to 2032 bytes, the sequential schedule has one tag point but the as-written 3-wide counter has none |
| ParallelModes.TagsAsWrittenDiffer | src/colm_parallel.c:681-690 | for 2017 to 2032 bytes, the as-written 3-wide COLM127 emits no side tag where `colm127_encrypt` emits one |
| ParallelModes.TailTagPointLengths | src/colm_parallel.c:840-878 | for 2001 to 2016 bytes, a tail block of the as-written 3-wide COLM127 is a tag point |
| ParallelMessage.TailTagRejects | src/colm_parallel.c:840-878 | when the only tail tag point is the last loop block and rho changes W there, the as-written 3-wide decryption of the as-written 3-wide encryption stops with an intermediate tag mismatch |
| ParallelModes.Colm127TailAsWrittenRejects | src/colm_parallel.c:840-878 | for 2001 to 2016 bytes, the as-written `colm127_decrypt` of the as-written `colm127_encrypt` output returns -5 unless rho leaves W unchanged at block 124 |
| ColmImpl.ComputeMac | src/colm.c:48-84 | the array loop of `mac` returns the `mac` function's value |
| ColmImpl.MacLoop | src/colm.c:57-70 | after the full-block loop, the offset is 3L doubled k times and v is the seed plus k block terms |
| ColmImpl.AddFragment | src/colm.c:72-81 | the partial block is padded, masked with 7× the offset and its encryption XORed into v |
| ColmImpl.EncryptBlocks | src/colm.c:118-143 | the block loop writes the run's ciphertext and tags after what was already written, and returns the run's state and tag count |
| ColmImpl.Seal | src/colm.c:118-196 | the ciphertext and tag buffers start with the message's encryption and are otherwise unchanged |
| ColmImpl.DecryptBlocks | src/colm.c:233-257 | the decrypt loop succeeds exactly when the run does, and writes the run's plaintext and no byte beyond block n |
| ColmImpl.CheckPadding | src/colm.c:311-320 | -3 exactly when the marker is not 0x80, -4 for a non-zero byte after it, 0 exactly for valid padding |
| ColmImpl.DecryptTail | src/colm.c:261-321 | the end status equals the function's, the message bytes are written on success, and nothing beyond `len − 16` is touched |
| ColmImpl.Open | src/colm.c:213-321 | the status equals whole-message decryption's, and on success the buffer starts with the message |
| ColmImpl.SetUp | src/colm.c:106-114 | the array set-up computes the set-up state |
| ColmImpl.Colm0Encrypt | src/colm.c:90-199 | returns 0 and the function's `*c_len`, and writes the function's ciphertext |
| ColmImpl.Colm0Decrypt | src/colm.c:201-324 | the returned code and `*m_len` equal the function's, with the message in the buffer on 0 |
| ColmImpl.Colm127EncryptIntended | src/colm.c:332-463 | writes the intended ciphertext and tags, with `*c_len` and `*tag_len` |
| ColmImpl.Colm127EncryptAsWritten | src/colm.c:332-463 | writes the as-written ciphertext and tags, with `*c_len` and `*tag_len` |
| ColmImpl.Colm127Decrypt | src/colm.c:465-625 | the returned code and `*m_len` equal the function's, with the message in the buffer on 0 |
| ParallelImpl.ComputeMacParallel | src/colm_parallel.c:57-125 | the 3-wide `mac` loops return the as-written or the corrected 3-wide `mac`, depending on the build |
| ParallelImpl.EncryptGroups | src/colm_parallel.c:167-208 | the group loop writes the g groups' 48g ciphertext bytes and tags, and returns their state |
| ParallelImpl.DecryptGroups | src/colm_parallel.c:338-379 | the group decrypt loop succeeds exactly when the group run does, writes its 48g bytes and nothing beyond |
| ParallelImpl.SealParallel | src/colm_parallel.c:167-292 | the buffers start with the 3-wide encryption and are otherwise unchanged |
| ParallelImpl.OpenParallel | src/colm_parallel.c:318-478 | the status equals the 3-wide decryption's, with the message in the buffer on success |
| ParallelImpl.Colm0EncryptParallel | src/colm_parallel.c:131-292 | returns 0, `*c_len` and the ciphertext of the 3-wide COLM0 function |
| ParallelImpl.Colm0DecryptParallel | src/colm_parallel.c:299-478 | the code and `*m_len` equal the 3-wide COLM0 function's, with the message in the buffer on 0 |
| ParallelImpl.Colm127EncryptParallel | src/colm_parallel.c:493-711 | returns 0, `*c_len`, `*tag_len`, the ciphertext and the tags of the 3-wide COLM127 function |
| ParallelImpl.Colm127DecryptParallel | src/colm_parallel.c:713-962 | the code and `*m_len` equal the 3-wide COLM127 function's, with the message in the buffer on 0 |

## Left out

- AES (`AES_ENCRYPT`, `AES_DECRYPT`, `AES_ENCRYPT3` and the key schedules of `src/aes_crypto.h`) is the abstract `Cipher.BlockCipher`; the key schedule is not modelled, and every round trip takes `Inverse(c)`, that decryption undoes encryption, as a hypothesis.
- The three-block `AES_ENCRYPT3`/`AES_DECRYPT3` calls are three single-block calls; their instruction interleaving has no effect on values.
- Tamper detection, that a modified ciphertext or tag is rejected, is a property of the real cipher and cannot be proved for an abstract one; the model proves the checks themselves and their error codes.
- ColmImpl.Open: gives the content of the plaintext buffer only for status 0; the C writes unverified plaintext blocks before a later check fails (`src/colm.c:252`, `290`, `540`, `578`), and the model only states that no byte beyond `len − 16` changes.
- ParallelImpl.OpenParallel: the same, for the 3-wide loops.
- ColmImpl.Colm0Decrypt, ColmImpl.Colm127Decrypt, ParallelImpl.Colm0DecryptParallel, ParallelImpl.Colm127DecryptParallel: the same, for the four decrypt entry points.
- ColmModes.Colm127Decrypt: requires `TagsCover`, that the tag stream holds the tags the ciphertext length calls for, because `colm127_decrypt` never checks `tag_len` (`src/colm.c:485`) and reads past a short tag buffer; the same holds for the 3-wide decryption.
- ColmImpl.Seal: requires that the ciphertext and tag buffers do not alias (`ct != tags`); the C passes separate buffers and does not define the overlapping case. Message and associated data are values, so they cannot alias an output either.
- Lengths are unbounded naturals. The 64-bit outputs `*c_len`, `*m_len` and `*tag_len` wrap modulo 2^64, but `iteration_counter` and the loop counters are not bounded, because they could wrap only after 2^64 blocks.
- Timing and side channels (`EQUALS` summing all lanes, branch-free doubling) are out of scope.

## Findings

| source | as written | input that shows it | evidently intended | confidence | as-written member | corrected member |
|---|---|---|---|---|---|---|
| src/colm.c:434-436 | at a final-block tag point, `colm127_encrypt` emits W' ⊕ Δc as the tag and then encrypts W' in place, while `colm127_decrypt` (580-591) checks E(W') ⊕ Δc | any message of 2017 to 2032 bytes: its final block is block 127, and decryption of the genuine output returns -5 whenever the cipher's inverse has no fixed point there | the tag is E(W') ⊕ Δc, as in the block loop (375-384) | high, not executed | ColmModes.Colm127EncryptAsWritten, with ColmModes.Colm127AsWrittenRejects and ColmMessage.FinalTagAsWritten | ColmModes.Colm127EncryptIntended, with ColmModes.Colm127RoundTrip |
| src/colm_parallel.c:104-106 | the single-block and partial steps after the 3-wide associated-data loop (also 119-121) set v to E(x) ⊕ x instead of XORing E(x) into v, discarding everything accumulated so far, including the nonce-seeded term | any associated data whose length is not a multiple of 48 bytes, e.g. 1 byte: the 3-wide COLM0 gives the same `mac`, so the same ciphertext, for every nonce | v accumulates E(x), as in `src/colm.c:57-81` | high, not executed | AdMac.MacParallel, with AdMac.MacParallelIgnoresNonce | AdMac.MacParallelIntended, with AdMac.MacParallelIntendedAgrees and ParallelModes.Colm0ParallelRoundTrip |
| src/colm_parallel.c:840-878 | the 3-wide COLM127 tail counter is 2 ahead of the block index (counter starts at 3, line 511), so tags fall on other blocks than in `colm127_encrypt`; and the tail decrypt checks its tag against W before rho⁻¹ with the un-doubled Δc (851-862) | a 2017 to 2032-byte message gets no side tag where `colm127_encrypt` emits one; a 2001 to 2016-byte message puts a tag point in the decrypt tail, where a genuine tag passes only if rho left W unchanged | block i is tagged when i + 1 is a multiple of 127, and the tail checks E(W') ⊕ 2Δc after rho⁻¹, as the group body does (798-813) | high, not executed | ParallelModes.Colm127Schedule in the `AsWritten` build with ParallelModes.ScheduleAsWrittenDiffers, ParallelMessage.TailDecryptStep with ParallelMessage.TailTagAsWritten, ParallelModes.TailTagPointLengths and ParallelModes.Colm127TailAsWrittenRejects | ParallelModes.Colm127EncryptParallel and ParallelModes.Colm127DecryptParallel in the `Corrected` build, with ParallelModes.Colm127ParallelRoundTrip and ParallelModes.Colm127ParallelEncryptAgrees |
