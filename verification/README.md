# eBoot: a verified model

This Dafny project models the platform-independent core of the eBoot secure bootloader and
proves what it is built to guarantee. Every module follows one source file or one protocol.

* **Ed25519** (`Limbs`, `Field25519`, `FieldEncoding`, `FieldPower`, `Edwards`, `Ladder`,
  `ScalarOrder`, `PointDecoding`, `Ed25519`, `Ed25519Signer`): the limb arithmetic in arrays of 64-bit integers
  with every overflow excluded, the exponent chains, the ladder, reduction modulo L, decoding,
  the verification method on top of them, and a conforming signer against it.
* **Streams** (`Sha2`, `Sha256`, `Sha512`, `Ghash`, `FwDecrypt`, `Crc32`, `FwUpdate`, `Serial`,
  `FwTransport`): contexts that consume their input in pieces, each proved equal to a one-shot
  meaning in which no piece boundary occurs.
* **Persistent boot state** (`Flash`, `Words`, `DualCopy`, `BootCtl`, `BootPolicy`, `Rollback`,
  `Keystore`, `Recovery`): protocols over resets, with flash operations, counters, fuses and
  serial lines that may fail at any step.
* **Whole operations** (`ImageCheck`, `BootFlow`, `BoardLife`, `FwInstall`): the checks of an
  image, a boot cycle, the life of a board over many cycles with every jump it makes, and an
  update from begin to finalize, put together from the methods of the other modules over one
  flash.
* **Parsers** (`DeviceTree`, `FdtLoader`, `FdtLookup`, `ImageHeader`, `ImageVerify`, `ImageTlv`,
  `ImageCounter`): byte formats against tree- or list-shaped specifications and against the
  writer.

Code that updates state is a class or a method over an array, proved against a function of the
input; the properties are lemmas about that function. Machine integers are subset types, so an
assignment proves that nothing wraps; where the C wraps on purpose, the wrap is written out.

Devices may fail at any operation. Ghost counters (`faults`, `readFaults`, `timeouts`) record
each failure, so that a contract can say both what success means and that success comes when
nothing fails.

Assumptions, stated once: slots and boot control copies are disjoint and inside the device, and
the device ends below 2^32; a failing flash operation may change its own range and nothing else;
SHA and AES block functions are parameters; `Ed25519.CurveGroup` says what is assumed of the
group law, and `PointDecoding.PrimeField` what is assumed of the primality of 2^255 - 19. It
shows that decoding misses no point and finds no second one, and that opposite points cancel;
every contract by which something *must* be accepted that is signed names it (jump, scan,
finalize), and none by which something must be refused does.

## Where the code does not do all that is said of it

* `include/eos_bootctl.h` (line 61) calls the double write of the control block atomic. One
  interruption is survived exactly when the backup is current (`DualCopy.CrashSafeExactly`); a
  save cut short in its backup phase and a second interruption lose both copies
  (`DualCopy.SecondCrashLosesBoth`; `BootCtl.TwoCutsLoseTheBlock` at stored blocks).
* The comment in `core/fw_update.c` (lines 23-28) has begin refuse an update when the active slot
  is unknown. A copy that cannot be read counts as absent, so the load falls back to the backup
  or to slot A; begin protects the stored active slot whatever reads fail exactly when that is
  slot A, and a backup that validates says so too (`FwInstall.ActiveIsKnownExactly`). A board
  stored as running from slot B, neither of whose copies can be read, has slot B erased
  (`FwInstall.UnreadableCopiesHideSlotB`).
* A rollback that selects a slot and then fails to jump resets the attempts of the slot it came
  from, so that one may be booted more often in a row than `max_attempts`
  (`BootPolicy.RowBoundExactly`). Counted since the other slot was last selected, the bound
  always holds (`BootPolicy.AttemptsAreBounded`).
* The scan does not look at the rollback floor and the jump does. A slot that is selected but
  does not jump is selected again at every reset: a board jumps at the first of its resets or at
  none (`BootPolicy.JumpsNowOrNever`), for example never when the used-up slot's alternate is
  below the floor (`BootPolicy.OldAlternateIsStuck`).
* The TLV parser bounds the declared total by 512 only, not by the length the signed header
  vouches for. The counter is authenticated exactly when the interpreted part of the declared
  total is covered (`ImageCounter.PrefixFixesCounterExactly`).
* A keystore whose initialisation fails at the second key, after the first was read, is left with
  slot 0 looking usable, revoked or not, for a caller that ignores the return code; this happens
  exactly then (`Keystore.KeyStore.Init`), and `Keystore.FailedInitYieldsRevokedKey` shows it
  with a revoked key.
* A recovery response that does not arrive uses up its challenge but is not counted as a failure.
  Five consumed challenges lock the session exactly when none of them timed out
  (`Recovery.FiveChallengesLockExactly`); a session may consume any number of them unlocked
  (`Recovery.UnansweredNeverLocks`).
* The update stream has the payload behind the 156 bytes of the header, and finalize checks it
  there; the boot checks look for it behind the declared header size, which may be anything up
  to 4096. Of the headers that both take, exactly those that declare 156 bytes make both look at
  the same bytes, whatever else is in the slot (`FwInstall.SamePayloadExactly`).
* The comments of `core/recovery.c` (lines 14 and 171) call the response an HMAC; the code compares
  it with the digest of the challenge followed by the secret (`Recovery.RecoverySession.JudgeResponse`).
* The comment before `eos_crypto_verify_signature` (`core/crypto_boot.c`, line 210) describes the
  equation multiplied by the cofactor; the code checks the equation itself, for keys of order L
  (`Ed25519.Verify`).

## Model

| member | source | states |
|---|---|---|
| Field25519.Car25519 | core/ed25519_verify.c:90-98 | A carry pass keeps the value modulo 2^255-19, and says which limbs end up as 16-bit digits |
| Field25519.FeMul | core/ed25519_verify.c:174-186 | For all operands below 2^18 in magnitude: the product modulo p, limb 0 in [-38, 65573], the others 16-bit, no 64-bit overflow |
| FieldEncoding.SubtractOnce | core/ed25519_verify.c:120-132 | One conditional subtraction with borrows takes p off exactly when the value is at least p |
| FieldEncoding.CarryThrice | core/ed25519_verify.c:116-118 | Three carry passes always reach 16-bit digits and keep the residue |
| FieldEncoding.Pack25519 | core/ed25519_verify.c:112-137 | The 32 bytes are the residue in [0, p), little-endian |
| FieldEncoding.Neq25519 | core/ed25519_verify.c:139-147 | True exactly when the operands differ modulo p |
| FieldEncoding.Par25519 | core/ed25519_verify.c:149-154 | The parity of the residue |
| FieldEncoding.Unpack25519 | core/ed25519_verify.c:156-162 | The 255 low bits as 16-bit digits |
| FieldEncoding.PackUnpack | core/ed25519_verify.c:112-162 | Unpacking a packed element gives its residue back |
| FieldPower.PrefixBit | core/ed25519_verify.c:194-203 | The next high-bit prefix of an exponent is twice the last plus its bit: the loop invariant of the chains |
| FieldPower.InvBits | core/ed25519_verify.c:198-201 | The bits the inversion loop multiplies at are those of p-2 |
| FieldPower.SqrtBits | core/ed25519_verify.c:210-213 | The bits the square-root loop multiplies at are those of (p-5)/8 |
| FieldPower.Inv25519 | core/ed25519_verify.c:194-203 | a^(p-2) modulo p for every a |
| FieldPower.Pow2523 | core/ed25519_verify.c:206-215 | a^((p-5)/8) modulo p for every a |
| Edwards.DIsTheCurveConstant | tools/check_production_key.py:30-31 | The constant d is -121665/121666 modulo p |
| Edwards.D2IsTwiceD | core/ed25519_verify.c:49-53 | The limb table D2 holds 2d modulo p |
| Edwards.PointAdd | core/ed25519_verify.c:223-246 | On residues it is the key tool's addition formula; operands and results stay in range, so the bound is closed under whole runs |
| Ladder.TimesAdd | core/ed25519_verify.c:263-278 | Multiples in a commutative monoid add: [a+b]Q = [a]Q + [b]Q |
| Ladder.RunInvariant | core/ed25519_verify.c:264-278 | After every ladder step r = [s >> i]Q and q - r = Q, in any commutative monoid the coordinates represent |
| Ladder.MulFromInvariant | tools/check_production_key.py:81-88 | Double-and-add from the low bit: result plus [n]addend is constant |
| Ladder.ToolMul | tools/check_production_key.py:81-88 | The tool's loop computes its recursive specification |
| Ladder.LadderAgreesWithTool | core/ed25519_verify.c:264-278 | The high-to-low ladder and the low-to-high tool agree on every 256-bit scalar |
| Ladder.BitIsPrefix | core/ed25519_verify.c:272-272 | Reading bit i of the bytes is reading bit i of the little-endian integer |
| Ladder.ScalarMult | core/ed25519_verify.c:264-278 | No operand leaves its range for any scalar; on residues the limb loop is the ladder run |
| Ladder.ScalarMultIsMultiple | core/ed25519_verify.c:263-278 | scalarmult returns [s]Q for every 256-bit s |
| ScalarOrder.OrderValue | core/ed25519_verify.c:72-77 | The byte table is the group order L |
| ScalarOrder.ReduceRow | core/ed25519_verify.c:381-392 | One row takes a multiple of L off, keeps the limbs in range and clears the top limb |
| ScalarOrder.FinalCarry | core/ed25519_verify.c:394-399 | The last carry is 0 or -1, and -1 leaves a value that L brings back into 256 bits |
| ScalarOrder.ModL | core/ed25519_verify.c:377-404 | 32 bytes congruent modulo L to any 64-byte input, with no int64 overflow |
| ScalarOrder.SIsCanonical | core/ed25519_verify.c:418-427 | Accepts exactly the little-endian integers below L |
| PointDecoding.SqrtM1Squares | core/ed25519_verify.c:65-69 | The table's root of -1 squares to -1 |
| PointDecoding.CandidateWorks | core/ed25519_verify.c:346-359 | If the curve has a point with this y, the candidate's square is the wanted value or its negative |
| PointDecoding.SolveX | core/ed25519_verify.c:340-365 | Finds an x on the curve exactly when there is one |
| PointDecoding.UnpackNeg | core/ed25519_verify.c:336-371 | A decoded point is on the curve with the encoded y, its x negated against the sign bit; refused encodings have no point |
| PointDecoding.DecodingIsUnique | core/ed25519_verify.c:336-371 | No encoding stands for two points: the decoding relation is a function |
| Ed25519.PointPack | core/ed25519_verify.c:253-261 | The encoding is affine y with the parity of affine x in the top bit |
| Ed25519.PointIsIdentity | core/ed25519_verify.c:292-301 | True exactly when the encoding is that of y = 1, x even |
| Ed25519.IdentityCode | core/ed25519_verify.c:290-301 | That encoding belongs to the neutral element only |
| Ed25519.BaseOnCurve | core/ed25519_verify.c:56-63 | The base point tables hold y = 4/5 and a point of the curve |
| Ed25519.BasePoint | core/ed25519_verify.c:280-287 | scalarbase starts from the base point in extended coordinates |
| Ed25519.PublicKeyIsValidSubgroup | core/ed25519_verify.c:321-333 | Accepts exactly the points other than the neutral element that L annihilates |
| Ed25519.TimesModulo | core/ed25519_verify.c:407-413 | On a point annihilated by n, scalars that agree modulo n have the same multiple |
| Ed25519.ReduceHash | core/ed25519_verify.c:407-413 | The challenge scalar is the 512-bit hash modulo L |
| Ed25519.SignerIsAccepted | core/ed25519_verify.c:17-19 | With A = [a]B, R = [r]B and S = r + h*a modulo L, the point opposite to A satisfies the equation that is checked, for every a, r and h |
| Ed25519.Judge | core/ed25519_verify.c:450-495 | The steps accept exactly when S < L, the key decodes to -A of order L, and [h](-A) + [S]B encodes to R, with h the whole hash of R, A and the message |
| Ed25519.Verify | core/ed25519_verify.c:450-495 | Accepts exactly when some point the key decodes to satisfies that equation |
| Ed25519Signer.NotASquare | core/ed25519_verify.c:42-53 | d is no square modulo p, so the denominators of the addition formula do not vanish there |
| Ed25519Signer.OppositesCancel | core/ed25519_verify.c:223-246 | The addition formula takes an affine point of the curve and its opposite to the neutral element, so the decoded point is the inverse of A |
| Ed25519Signer.SignedMessageVerifies | core/ed25519_verify.c:16-19 | The verification method on bytes returns OK for every signature of a conforming signer: any secret whose public key is not the neutral element, any nonce, any message |
| Sha2.ChainConcat | core/crypto_boot.c:90-99 | Chaining over a concatenation is chaining twice |
| Sha2.OneBlock | core/crypto_boot.c:101-127 | The padded message ends in one block when the length fits behind the data |
| Sha2.TwoBlocks | core/crypto_boot.c:108-113 | And in two blocks when it does not (section 5.1 of FIPS 180-4) |
| Sha256.Sha256Ctx.Update | core/crypto_boot.c:90-99 | After any updates the context depends on the concatenation only |
| Sha256.Sha256Ctx.Final | core/crypto_boot.c:101-127 | Hashes exactly the padded message, extra block included |
| Sha256.HashRegion | core/crypto_boot.c:174-202 | The chunked flash loop is the one-shot hash of the region, for every chunk size |
| Sha256.VerifyImage | core/crypto_boot.c:174-202 | When no read fails, accepts exactly if the region's digest is the expected one; never accepts another |
| Sha512.AddWithCarry | core/sha512.c:202-208 | The two length words count the bits modulo 2^128 across the carry |
| Sha512.Sha512Ctx.Update | core/sha512.c:186-218 | After any updates the context depends on the concatenation only |
| Sha512.Sha512Ctx.Final | core/sha512.c:220-247 | Hashes exactly the message padded with its 128-bit length |
| Ghash.MultLinearLeft | core/fw_decrypt.c:40-67 | The field product is XOR-linear in its first argument |
| Ghash.MultLinearRight | core/fw_decrypt.c:40-67 | And in its second |
| Ghash.GhashMult | core/fw_decrypt.c:40-67 | The shift-and-mask loop in place computes the product of section 6.3 of NIST SP 800-38D |
| FwDecrypt.CounterIsIteratedInc32 | core/fw_decrypt.c:281-292 | The counter of data block i is inc32 applied i+1 times to that of J0 |
| FwDecrypt.GctrTwice | core/fw_decrypt.c:281-360 | Decrypting what was encrypted at the same stream position gives it back |
| FwDecrypt.GctrConcat | core/fw_decrypt.c:281-360 | The key stream does not depend on where the data is split |
| FwDecrypt.AbsorbConcat | core/fw_decrypt.c:72-77 | The byte-wise accumulator does not depend on where the data is split |
| FwDecrypt.AbsorbIsGhash | core/fw_decrypt.c:334-351 | Partial blocks with the multiplication pending are GHASH of the zero-padded ciphertext |
| FwDecrypt.DecryptCtx.Update | core/fw_decrypt.c:193-367 | Plaintext is GCTR at the stream position; the state depends only on the ciphertext consumed, in any split below 2^32 bytes |
| FwDecrypt.DecryptCtx.Final | core/fw_decrypt.c:369-489 | Accepts exactly the GCM tag of the whole ciphertext (section 7.2 of NIST SP 800-38D) |
| Crc32.Run | core/fw_update.c:61-72 | The byte loop is the fold of the CRC step |
| Crc32.FoldConcat | core/image_verify.c:34-61 | A CRC over chunks is the CRC over their concatenation |
| Crc32.FoldInjective | core/bootctl.c:17-32 | Different registers stay different over any bytes |
| Crc32.OneByteChanges | core/bootctl.c:17-32 | Changing one byte always changes the CRC, at any length |
| FwUpdate.HeaderVerdict | core/fw_update.c:97-127 | A header is accepted exactly when magic and sizes are right and the whole container fits the slot |
| FwUpdate.MeaningPayload | core/fw_update.c:149-177 | Payload bytes extend written count, digest input and CRC by exactly themselves |
| FwUpdate.MeaningStable | core/fw_update.c:200-215 | Bytes behind a finished container or a refused header change nothing |
| FwUpdate.UpdateCtx.Write | core/fw_update.c:74-216 | With flash that works, the context after any write is the one-shot meaning of the stream so far, the slot holds its prefix, and OK means no byte was left over; all writes stay in the slot |
| FwUpdate.FeedAll | core/fw_update.c:74-216 | Any chunks end in the state and slot contents of their concatenation |
| FwUpdate.UpdateCtx.WantedCompletes | core/fw_update.c:336-357 | Bytes received plus bytes wanted are the container length once the header is in |
| FwUpdate.UpdateCtx.ProgressIs | core/fw_update.c:315-334 | While streaming, the reported progress is that function of the stream |
| FwUpdate.ProgressMonotone | core/fw_update.c:315-334 | Progress never falls while a stream grows and is 100 exactly at its end |
| FwInstall.Begin | core/fw_update.c:18-58 | Refuses the slot that load names, from the copies as they were read; otherwise erases the target and nothing else, and starts with the empty stream; if flash works it is refused for no other reason than an unmapped slot |
| FwInstall.ActiveIsKnownExactly | core/fw_update.c:23-32 | Whatever reads fail, the slot refused is the stored active one exactly when that is slot A and a backup that validates says so too |
| FwInstall.UnreadableCopiesHideSlotB | core/fw_update.c:29-32 | A board stored as running from slot B loads as running from slot A if neither copy can be read |
| FwInstall.Finalize | core/fw_update.c:218-306 | OK only for an intact payload, a signature under a trusted key, a declared counter at or above the floor and a stored upgrade request; what has all of that is accepted if nothing fails |
| FwInstall.Update | core/fw_update.c:18-306 | Over a whole session, with any chunks, the slot that load said would be booted keeps every byte; OK means the target still holds what passed the checks, at or above the floor, with the upgrade requested and stored, and that the boot scan accepts it if its header size is 156; a stream that should be installed is, if nothing fails |
| FwInstall.InstallableArrives | core/fw_update.c:149-258 | Such a stream, once fed, lies in the slot with its payload, signature and TLV tail as finalize wants them |
| FwInstall.InstalledBoots | core/image_verify.c:113-155 | What finalize accepted with a header size of 156 passes the checks of the boot scan |
| FwInstall.SamePayloadExactly | core/fw_update.c:149-177 | For every header that update stream and boot checks take, in any slot: the boot checks look at the payload that finalize checked, whatever else is in the slot, exactly when the header size is 156; where the header carries a digest rather than a CRC, it is taken to tell one-byte changes apart |
| FwUpdate.UpdateCtx.CheckIntegrity | core/fw_update.c:218-258 | OK exactly when the payload now in the slot is the one the header stands for; otherwise the context is in error |
| FwTransport.RawReceive | core/fw_transport_uart.c:75-136 | OK means the length prefix equals the container length and the container is in the slot; and OK exactly then if nothing fails |
| FwTransport.WriteContainerBytes | core/fw_transport_uart.c:212-231 | Terminates, hands over no byte behind the container, and if flash works fails only for a refused header |
| FwTransport.XmodemReceive | core/fw_transport_uart.c:233-316 | Over every trace, OK means the container is the prefix of the accepted blocks in sequence, with less than a block of padding; and OK exactly then if nothing fails |
| FwTransport.ParseSize | core/fw_transport_uart.c:435-453 | The declared decimal size is exact, or refused when it does not fit 32 bits |
| FwTransport.RetransmissionIsDropped | core/fw_transport_uart.c:475-482 | Repeating the block just accepted changes nothing of the file |
| FwTransport.YmodemReceive | core/fw_transport_uart.c:352-538 | Over every trace, OK means the container is the prefix of the declared file, each block written once, and ends in its last block; and OK exactly then if nothing fails |
| Words.RegOfBytes | core/bootctl.c:34-37 | A stored 32-bit register reads back as itself |
| BootCtl.DecodeEncode | include/eos_bootctl.h:26-44 | The 92 bytes of a block decode to that block |
| BootCtl.EncodeDecode | include/eos_bootctl.h:26-44 | Any 92 bytes are the encoding of what they decode to |
| BootCtl.SealedValidates | core/bootctl.c:34-49 | An updated CRC validates exactly when the magic is right |
| BootCtl.OneByteNeverValidates | core/bootctl.c:39-49 | A valid copy with one byte changed, CRC field included, never validates |
| BootCtl.FinishedSaveRoundTrips | core/bootctl.c:67-115 | A finished save loads back and leaves both copies current |
| BootCtl.TwoCutsLoseTheBlock | core/bootctl.c:88-115 | Two saves, the first cut in its backup phase and the second in its primary phase, leave load the defaults, whichever three blocks were stored |
| DualCopy.CrashKeepsOldOrNew | core/bootctl.c:88-115 | From a current backup, a save stopped anywhere makes load return the old or the new block, never the defaults |
| DualCopy.CrashSafeExactly | core/bootctl.c:88-115 | Every stop is safe exactly when the backup is current, already new, or nothing was valid |
| DualCopy.SecondCrashLosesBoth | core/bootctl.c:96-112 | After a stop in the backup phase the next stop can lose both copies |
| DualCopy.RunKeepsABlock | core/bootctl.c:67-115 | Over runs of saves cut anywhere, each begun with a current backup, load returns a block that was stored |
| BootCtl.BootControl.Load | core/bootctl.c:67-86 | Primary, then backup, then defaults; an unreadable copy counts as absent, and without a failing read the result is what is on flash |
| BootCtl.BootControl.CrashKeepsABlock | core/bootctl.c:88-115 | Whatever a save returns, and wherever it stopped, load finds the old or the new block, if the backup was current before |
| BootCtl.BootControl.Save | core/bootctl.c:88-115 | OK if no flash operation fails, and then both copies are the sealed block; any failure leaves the backup untouched or the primary new, and nothing else changed |
| BootCtl.BootControl.Confirm | core/bootctl.c:144-162 | The rollback floor is raised only after the confirmation is stored, and then, unless the counter fails, to the staged counter or, if that is more than 16 steps away, not at all |
| BootPolicy.SelectionIsSound | core/boot_policy.c:21-81 | A selected slot is valid and active; selection fails exactly when attempts are exhausted without a valid alternate, or no slot is valid |
| BootPolicy.PolicySelect | core/boot_policy.c:21-81 | The method on the block in RAM follows that selection; it writes flash only for a rollback or a refused request, and both copies then hold that step |
| BootPolicy.RequestUpgrade | core/fw_services.c:60-87 | Test and permanent requests, refused slots included |
| BootPolicy.EveryRunKeepsInv | core/boot_policy.c:21-81 | Over every run of boots, cuts, confirmations, requests and recovery: attempts within their maximum, pending implies requested, active is a slot |
| BootPolicy.AttemptsAreBounded | core/boot_policy.c:26-40 | From the factory state, jumps to a slot nobody vouches for stay within max_attempts while the other is not selected |
| BootPolicy.JumpsAreBounded | core/boot_policy.c:26-40 | From any state with the invariant: resets that all jump to one slot, while nobody vouches for it, are at most max_attempts |
| BootPolicy.RowsFrom | stage1/jump_app.c:80-86 | From any state with the invariant, while every rollback ends in its jump, jumps in a row stay within max_attempts |
| BootPolicy.RowsAreBounded | stage1/jump_app.c:80-86 | From the factory state, if every rollback ends in its jump, no slot is jumped to more than max_attempts times in a row |
| BootPolicy.RowBoundExactly | core/boot_policy.c:26-40 | From any used-up slot with jumps behind it, the bound survives all later runs whose rollbacks jump exactly when this rollback is jumped to |
| BootPolicy.JumpsNowOrNever | core/boot_policy.c:21-81 | With the slots as they are, a board jumps within n resets exactly when the slot selected now passes the checks of the jump |
| BootPolicy.OldAlternateIsStuck | core/boot_policy.c:26-40 | A used-up slot whose alternate is valid but below the floor never jumps again |
| BootPolicy.ConfirmedSlotStays | core/boot_policy.c:60-66 | A valid slot that confirms every boot is never left without an upgrade request |
| BootPolicy.TestImageIsAbandoned | core/boot_policy.c:42-54 | An unconfirmed test image is booted for the attempts left, then the old slot is back |
| ImageCheck.Checker.ActiveKey | core/image_verify.c:182-190 | A key exactly when the reads of OTP leave one: the first that is not revoked, or the compiled-in one without OTP |
| ImageCheck.Checker.VerifySignature | core/image_verify.c:157-220 | Accepts exactly the headers whose signed prefix is signed under the key in use by a 64-byte Ed25519 signature |
| ImageCheck.Checker.CheckImage | core/slot_manager.c:26-76 | When no read fails, accepts exactly the slots with a well-formed header within bounds, an intact payload and that signature |
| BootFlow.JumpToApp | stage1/jump_app.c:23-112 | The jump is reached only by a slot that passes every check on flash, signature included, with a declared counter at or above the floor, at the entry point of its header, and then with the attempt stored; it is reached by every such slot if nothing fails; otherwise nothing changed |
| BootFlow.BootableStays | core/slot_manager.c:26-76 | What a slot must pass does not depend on the boot control copies, so a selection that stores does not change it |
| BootFlow.Scan | core/slot_manager.c:78-84 | A slot is found valid only if it passes every check, and exactly then if nothing fails |
| BootFlow.RecordImages | stage1/boot_scan.c:27-65 | The scan records image versions and CRCs and touches no boot decision |
| BootFlow.ScanAndSelect | stage1/main.c:64-70 | Scan and selection: slots found valid passed every check, a selected slot is one of them and active, and flash changes only if the selection stores |
| BootFlow.SelectAndJump | stage1/main.c:64-82 | A jump is made only to the selected slot, runnable in the flash it looked at, which differs from the first in the boot control copies only; if nothing fails it is made to every selected slot that is bootable; the block follows the policy either way |
| BootFlow.BootOnce | stage1/main.c:39-91 | A whole boot cycle: the block is the one the copies in flash yield, goes exactly through one step of the policy runs, and is back in both copies unless flash fails; a jump is made only to the slot the policy selects, with every check passed, its declared counter staged and at or above the floor, at its entry point; a selected slot that is bootable is jumped to if nothing fails, after a rollback too |
| BoardLife.HistoryFree | core/boot_policy.c:21-81 | What an event does to the stored block depends on the block alone |
| BoardLife.Perform | core/fw_services.c:60-87 | A reset, a request of the application or a recovery command takes the stored block through that event of the policy runs; for a reset the event is the slots the scan found and the jump that was seen, and every check was passed for both |
| BoardLife.JumpsOfALife | stage1/main.c:39-91 | In any history that follows the policy, no stretch of acts in which every reset jumps to one slot nobody vouches for has more than three resets |
| BoardLife.Lifetime | stage1/main.c:39-91 | Over any resets, requests and commands: every jump seen passed the checks, at or above the floor of that moment, and floors only rise; without flash failure every reset starts from the block the policy run ends in, jumps where that run jumps, and from the factory state no slot nobody vouches for is jumped to more than three times in a row; if nothing fails every bootable selected slot is jumped to |
| Rollback.FloorNeverFalls | core/rollback.c:200-236 | The floor never falls over any run |
| Rollback.FloorIsBounded | core/rollback.c:200-236 | Nor rises above its start and the highest counter staged |
| Rollback.CommittedFloorHolds | core/rollback.c:175-236 | After a commit of s returned OK, every later jump carries a counter of at least s |
| Rollback.Downgrades | core/rollback.c:175-236 | Over any resets, boots and confirmations, failing ones included: the floor never falls, no boot is let through below it, and after an image was confirmed none with a smaller counter is ever let through |
| Rollback.Staging.Verify | core/rollback.c:175-186 | With a readable counter, refuses exactly the images below the floor |
| Rollback.Staging.Commit | core/rollback.c:200-236 | At most 16 steps, never above the staged value; with working fuses OK exactly when at most 16 steps are needed |
| Recovery.AlwaysSane | core/recovery.c:127-239 | At most five failures, and five leave no authentication open |
| Recovery.FiveFailuresAbsorb | core/recovery.c:140-142 | After five failures nothing changes for the session |
| Recovery.ChallengeIsConsumed | core/recovery.c:170-236 | Every response is judged against the challenge issued immediately before it |
| Recovery.AuthenticatedByResponse | core/recovery.c:222-229 | An authenticated session accepted the digest of its latest challenge and a provisioned secret |
| Recovery.FailuresAreCounted | core/recovery.c:127-239 | Without an acceptance the failures are the challenges not drawn and those consumed, except by a time-out |
| Recovery.FiveChallengesLockExactly | core/recovery.c:170-181 | Five consumed challenges lock the session exactly when none of them timed out |
| Recovery.UnansweredNeverLocks | core/recovery.c:170-181 | Any number of challenges that time out leave the session open |
| Recovery.WriteInRange | core/recovery.c:315-328 | Accepts exactly the non-empty ranges all of whose bytes are mapped in the slot |
| Recovery.RecoverySession.IssueChallenge | core/recovery.c:145-168 | The challenge is the next draw of the entropy source and is what goes out on the line; a failing draw counts |
| Recovery.RecoverySession.Compare | core/recovery.c:190-236 | The response is accepted exactly as the transition system has it, against the digest of challenge and secret, and answered accordingly |
| Recovery.RecoverySession.JudgeResponse | core/recovery.c:170-236 | The response judged is the next 32 bytes from the line, accepted exactly as the transition system has it; without a failing receive or read it is judged as soon as it is there |
| Recovery.RecoverySession.HandleErase | core/recovery.c:301-313 | Acknowledged only with the slot reading as erased, and always then if flash works |
| Recovery.RecoverySession.HandleWrite | core/recovery.c:330-359 | Changes flash only inside the named range of slot A or B, and not at all out of range, which is refused; acknowledged twice, that range holds the bytes received, and it always is for bytes that arrive if flash works |
| Recovery.RecoverySession.HandleBoot | core/recovery.c:392-410 | Makes the slot active, clears requests and attempts, and is acknowledged and stops only after storing that |
| Recovery.RecoverySession.HandleFactory | core/recovery.c:412-425 | Acknowledged only with both slots erased and the defaults stored |
| Recovery.RecoverySession.HandlePacket | core/recovery.c:540-597 | A packet that arrives is answered as its command wants: guarded ones are refused without authentication and otherwise do what their handlers promise, the rest answer or stop; without authentication no command changes a byte of flash or the control block; with it, only slots and control copies; authentication comes only from a response on the line behind an AUTH command |
| Recovery.RecoverySession.Serve | core/recovery.c:537-598 | Over any packets, flash and control block are untouched until a response has been accepted; every response judged came in on the line, every challenge was drawn and sent |
| Recovery.RecoverySession.Enter | core/recovery.c:506-535 | Clears and stores the force flag; carries out a factory reset exactly when requested and then both slots are erased; touches no slot otherwise, and starts authentication over |
| Keystore.KeyStore.Init | core/keystore.c:76-172 | In terms of the results of its three OTP reads: when it fails, what is active, that revocation is as read or total, and exactly when a failing initialisation leaves slot 0 usable |
| Keystore.FailedInitYieldsRevokedKey | core/keystore.c:100-121 | A revoked first key and a second read that fails: the key is still handed out |
| Keystore.KeyStore.GetActiveKey | core/keystore.c:174-188 | Yields a key exactly when the active slot is usable |
| Keystore.KeyStore.RevokeSlot | core/keystore.c:236-274 | Revocation bits only grow; the return code is that of the read or write that decided it, and OK on a board with OTP means stored |
| Keystore.AfterRevocation | core/keystore.c:76-274 | After a revocation returned OK, no later initialised store yields that slot's key, over any boots and revocations |
| ImageHeader.FitsSlot | core/image_slot_bounds.c:7-26 | Exactly header + payload + TLV within the slot, without wrap-around |
| ImageVerify.ParseHeader | core/image_verify.c:73-111 | When the read works, OK exactly for well-formed headers, the entry point inside the loaded image |
| ImageVerify.Crc32Checked | core/image_verify.c:34-61 | The CRC of exactly the region, or a flash error |
| ImageVerify.VerifyIntegrity | core/image_verify.c:113-155 | When no read fails, accepts exactly if the payload in flash is the one the header vouches for |
| ImageTlv.EntriesAreOrdered | core/image_tlv.c:41-65 | Parsed entries are in order, disjoint and inside the declared area |
| ImageTlv.TlvCtx.Parse | core/image_tlv.c:17-68 | Yields exactly the entries of the area, or says what is wrong with it |
| ImageTlv.TlvCtx.Find | core/image_tlv.c:70-83 | The first entry of the kind, and not-found exactly when there is none |
| ImageTlv.WrittenParses | core/image_tlv.c:17-68 | Parsing inverts writing for up to 16 items that are no sentinels, whatever follows in flash |
| ImageTlv.BuildTlvIsWritten | tools/eos_sign.py:147-172 | The signing tool's output is such an area |
| ImageCounter.PrefixFixesCounterExactly | core/rollback.c:133-157 | An authenticated prefix fixes the counter exactly when it covers the interpreted part of the declared total |
| ImageCounter.VouchedAreasAgree | core/rollback.c:27-57 | Two flashes with one header that both pass the digest declare the same counter or show a collision |
| ImageCounter.SlotRemain | core/rollback.c:65-91 | What is left of the first slot that contains the address |
| ImageCounter.AreaMatches | core/rollback.c:27-57 | When no read fails, the 64-byte loop accepts exactly the area whose truncated digest the header carries |
| ImageCounter.ReadImageCounter | core/rollback.c:93-167 | A counter returned is one the image declares: 0 without an area, otherwise from an area inside its slot that the header vouches for; without a failing read every declared counter is returned |
| DeviceTree.FirstIsEarliest | core/fdt_loader.c:163-187 | The specification's answer is an entry on the path with no earlier one |
| FdtLoader.Validate | core/fdt_loader.c:80-114 | Both blocks of an accepted blob are readable, whatever its header claims |
| FdtLoader.SplitPath | core/fdt_loader.c:170-185 | The components of the path, refused exactly above 16 |
| FdtLoader.NameMatches | core/fdt_loader.c:65-78 | A component without a unit address ignores the node's |
| FdtLoader.GetProp | core/fdt_loader.c:138-295 | On arbitrary bytes: every read inside the blob, the loop terminates, and the answer is that of the token walk |
| FdtLookup.TargetIsOnPath | core/fdt_loader.c:206-230 | The in-target state at a property means the chain of open nodes matches the path, component by component |
| FdtLookup.WalkItems | core/fdt_loader.c:192-294 | Walking the serialised items of a node finds the first entry on the path, or carries on as it began |
| FdtLookup.WalkFindsFirst | core/fdt_loader.c:138-295 | On any tree's serialisation, NOPs allowed, the first property in document order on the path, not-found exactly when there is none |
| FdtLookup.LookUp | core/fdt_loader.c:138-295 | eos_fdt_get_prop on a blob that is a tree returns that property, with its error codes |

## Left out

- Ed25519.CurveGroup: the addition law of edwards25519 is an assumption (a commutative group, completeness of the formula, an encoding that determines the element).
- PointDecoding.PrimeField: that 2^255 - 19 is prime is assumed where decoding is shown to miss no point and to find no second one, and where opposite points are shown to cancel; nothing else uses it.
- Ed25519Signer.SignedMessageVerifies: that L annihilates the base point is a hypothesis.
- FieldEncoding.SubtractOnce: the exchange by xor and mask is a conditional exchange here and in `Ladder.ScalarMult`; that it takes no branch is not modelled.
- ScalarOrder.ModL: strict reduction below L is not stated, because the code only needs congruence.
- FwDecrypt.DecryptCtx.Update: key and IV retrieval of eos_fw_decrypt_init, key wiping and the AES rounds are not modelled.
- BoardLife.Perform: the application's calls work on the loaded block; the moment of their one load per boot is not modelled.
- Recovery.RecoverySession.HandlePacket: the contents of INFO, VERIFY and LOG answers and the back-off delay are not modelled.
- Flash.FlashDevice.Write: a write replaces bytes; that NOR flash can only clear bits without an erase is not modelled.
- Serial.Uart.Send: results of sending are not modelled, as the callers ignore them.
- Limb arrays are passed as sequences between operations; inside an operation they are arrays updated in place.
- The slot manager's cached states, its confirm and attempt counters: short tables.
- NULL argument checks: arguments are values.
- Timing and side channels, watchdog, interrupts, MPU setup and the boot log.
- Boards, stage 0, assembly, clocks, DRAM, PCI, BMC, menus and the serial upload tools.
