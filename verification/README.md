# Verified model of the CardanoWall Python SDK core

The SDK seals payloads for several recipients or a passphrase, anchors records under Cardano metadata
label 309, uploads and publishes them through a gateway, and reads and checks them again. This project
models the code where that can go wrong, and proves what the code promises about it.

| area | modules |
|---|---|
| RFC 9162 Merkle tree, inclusion certificates | Merkle, TreeHash, Certificate, Hex |
| NFKC pinned to Unicode 16 | NfkcTables, CanonicalOrder, Nfkc |
| Bech32 without a length limit, seeds, recipients | BitOps, BitGroups, ChecksumLaws, Polymod, Bech32, Bip173, SeedEncoding |
| Segmented content encryption, buffered and streaming | Stream, StreamBody, SealedStream, PassphrasePath |
| Sealed slots: wrap, masked scan, gate, unwrap, shuffle | SignedBits, SealedEnvelope, SealedSlots, SealedPoe, SealedRoundTrip, Shuffle, DeterministicSeal |
| CBOR at byte level, from transaction to record body | Cbor, CborWalker, TxSlicing, AuxData, AuxLayouts, Carriage, OnChain, CanonicalScan, KeyOrder |
| Record size estimate, validator against unwrap gate | RecordSize, Estimate, EstimateBound, RecordEncoding, ValidatorAgreement |
| Resumable upload and paid submission | ChunkGrid, UploadLanes, UploadSession, UploadReceipts, Decimal, SubmitSealed, SubmitSafety |
| Timestamps and event stream | Calendar, SseParser, SseFrames |

Wrappers and ByteStrings hold shared definitions. A loop or an object that the code updates in place is a
method or a class here, proved against a function; the theorems are lemmas about that function.

## Hypotheses

Cryptographic primitives are function parameters. What is assumed about one is a named predicate in the
`requires` of each lemma that needs it, and nothing more is assumed:

- `Merkle.DigestLengths`: digests have 32 bytes. `Merkle.CollisionFree`: the hash does not collide on the
  finitely many inputs that the two compared computations hash. `Merkle.HypothesesConsistent` shows an instance.
- `Stream.Exact`: decryption under a key, nonce and associated data yields p exactly on the encryption of p,
  which is 16 bytes longer. `Stream.NoncesDisjoint`: different nonces give disjoint ciphertexts; used for
  truncation alone. `Stream.HypothesesConsistent` shows that both can hold together.
- `SealedRoundTrip.CommitsTo`: the slots MAC of this envelope verifies under one content key only.
  `SealedRoundTrip.Agrees`: both sides of the key agreement compute the same secret.
  `WellSized`: keys and KEM outputs have the lengths of their algorithms.
  `SealedRoundTrip.HypothesesConsistent` shows that they can hold together, for every envelope.
  Used for key and header binding alone: `SealedRoundTrip.CollisionFree` (key derivation and its salt) and
  `SealedRoundTrip.MacBinds` (the MAC of one envelope belongs to one transcript hash).
- `NfkcTables.SoundTables`: decomposition values are themselves fully decomposed, a composition is undone by
  decomposition, composites are assigned starters. `NfkcTables.OrderedTables`, for the full-composition theorem
  alone: every decomposition is non-empty and canonically ordered. `NfkcTables.SoundTablesExist` shows an instance.

## Where the code differs from its documentation

The code is followed; each point has a lemma with the failing input and an exact condition.

- Skipping a two-byte CBOR simple value (0xF8) advances once too often: `CborWalker.LongSimpleOverrun`. Items
  without one are skipped exactly (`CborWalker.StandardItemSkipped`); items with one are if and only if their
  bytes are also one item when it takes a byte more (`CborWalker.StandardItemSkippedIff`), which can happen
  (`CborWalker.LongSimpleInStep`).
- The wrap sets no upper bound on recipients, the unwrap gate does: `SealedRoundTrip.UnwrapRecoversIff`.
- The validator tests for the presence of `slots_mac` and skips a null one, which unwrap cannot use:
  `ValidatorAgreement.NullMacAccepted`, `ValidatorAgreement.AgreeIff`. A null `slots`, or a null `kem` beside
  slots, raises instead of giving an issue: `ValidatorAgreement.CheckScheme1`.
- The size estimate is called an upper bound, but a long passphrase salt exceeds its margin:
  `RecordEncoding.LongSaltExceeds`, `RecordEncoding.LongSaltRecord`, `RecordEncoding.UpperBoundIff`.
- Comment lines of the event stream are said to be ignored, but their bytes count towards the event limit and
  a blank line without data does not clear the count: `SseParser.CommentsExhaust`,
  `SseParser.CommentsAroundDispatch`.
- A timestamp with second 60 has the epoch seconds of the next minute's second 0, in every minute:
  `Calendar.LeapSecondCollides`, `Calendar.EpochMonotone`.
- The streaming unwrap reports a tampered header as a wrong recipient key, the buffered one does not:
  `SealedStream.UnwrapStream`.
- Receipts that a failed submission gives back are not always accepted again when two items share an id:
  `UploadReceipts.SharedIdRefused`, `UploadReceipts.KeptRefusedIff`, `UploadReceipts.KeptRevalidateIff`.
- The failure behind the completion loop (`resumable_upload.py:723-730`) is unreachable, since the third
  incomplete answer is raised in the loop; `UploadSession.RunBounds` counts the attempts.

## Model

| member | source | states |
|---|---|---|
| `Merkle.LargestPow2Lt` | src/cardanowall/_crypto/merkle_sha2_256.py:55-59 | the split point k lies strictly between 0 and n and at least half of n is left of it |
| `Merkle.ClimbSidesAreSides` | src/cardanowall/_crypto/merkle_sha2_256.py:161-187 | the sides that the bottom-up shift loop meets, right-edge nodes included, are exactly the sides that the top-down splits of the tree define, for every tree size and index |
| `Merkle.InclusionProof` | src/cardanowall/_crypto/merkle_sha2_256.py:119-127 | a proof exists exactly for valid leaves, at most 2^32-1 of them, and an index in range; it is the recursive audit path |
| `Merkle.VerifyInclusion` | src/cardanowall/_crypto/merkle_sha2_256.py:130-189 | the shift loop with its inner right-edge loop accepts exactly when the proof has one node per side and folds to the root along the top-down sides; the range errors come first |
| `Merkle.AuditPathFoldsToRoot` | src/cardanowall/_crypto/merkle_sha2_256.py:95-189 | completeness: every audit path has one node per side and folds from its leaf to the recursive root |
| `Merkle.AuditPathShapes` | src/cardanowall/_crypto/merkle_sha2_256.py:95-105 | every node of an audit path is a 32-byte digest |
| `Merkle.FoldInjective` | src/cardanowall/_crypto/merkle_sha2_256.py:161-187 | two folds with the same sides and the same result start from the same hash and use the same nodes, when the hash does not collide on the inputs of the two folds |
| `Merkle.AcceptsExactlyTheAuditPath` | src/cardanowall/_crypto/merkle_sha2_256.py:84-189 | soundness and completeness as one equivalence: against the root of the leaves, (leaf, i, proof) is accepted if and only if leaf is leaves[i] and proof is its audit path, when the hash does not collide among the inputs compared |
| `Merkle.HypothesesConsistent` | src/cardanowall/_crypto/merkle_sha2_256.py:130-189 | the hypotheses of soundness hold together for some hash, tree, foreign leaf and foreign proof |
| `TreeHash.RootIsTreeHash` | src/cardanowall/_crypto/merkle_sha2_256.py:84-118 | the recursive root equals a tree hash defined without it, for every list of leaves: hash the leaves behind a byte 0, then pair neighbours behind a byte 1, level by level from the bottom, promoting an unpaired last node |
| `TreeHash.DomainsSeparate` | src/cardanowall/_crypto/merkle_sha2_256.py:18-70 | no leaf input is ever a node input |
| `Certificate.FindLeafIndex` | src/cardanowall/certificate/build.py:186-199 | returns the first occurrence of the target, or -1 when it does not occur |
| `Certificate.BuildItem` | src/cardanowall/certificate/build.py:145-183 | fails only where the proof builder raises; otherwise gives the item with index, hex path and outcome for that target |
| `Certificate.BuildItems` | src/cardanowall/certificate/build.py:91-142 | one item per target in target order; fails exactly when some present target lies in a tree beyond the size limit |
| `Certificate.BuildCertificate` | src/cardanowall/certificate/build.py:63-142 | succeeds exactly when algorithm, root, size, leaves and block time are consistent with the commitment, and then holds exactly the requested items |
| `Certificate.VerifyItem` | src/cardanowall/certificate/verify.py:109-153 | an item is verified exactly when it carries no error, decodes, is in range, and its path is accepted under the root; a recorded build error is passed on |
| `Certificate.VerifyCertificate` | src/cardanowall/certificate/verify.py:48-100 | ok exactly when the header is accepted, there is at least one item and every item verifies; per-item verdicts are those of the items |
| `Certificate.AuditPathAccepted` | src/cardanowall/certificate/verify.py:109-153 | the path of a committed leaf is accepted under the recomputed root, for every leaf |
| `Certificate.BuiltItemVerifiesIff` | src/cardanowall/certificate/build.py:145-183 | a built item verifies if and only if its target occurs among the leaves, duplicates included |
| `Certificate.BuiltItemHonest` | src/cardanowall/certificate/build.py:145-183 | a built item names its target and carries a true flag, no error and an index if and only if the target occurs among the leaves |
| `Certificate.BuiltVerifiesIff` | src/cardanowall/certificate/build.py:63-199 | a built certificate verifies if and only if the chain is cardano, the tree has at most 2^32-1 leaves, targets is not empty and every target occurs among the leaves |
| `Certificate.VerifiedHeader` | src/cardanowall/certificate/verify.py:48-100 | whatever verifies has that format, tree algorithm, label and chain, a tree size from 1 to 2^32-1 and a hex root |
| `Certificate.ChangedHeaderRefused` | src/cardanowall/certificate/verify.py:48-100 | a certificate that verifies is refused once its format, tree algorithm, label, anchor, chain, tree size or root is changed to a value outside those |
| `Hex.DecodesExactly` | src/cardanowall/certificate/verify.py:163-168 | hex decoding yields b exactly on the two-digits-per-byte spellings of b, in either case |
| `Hex.DigitValues` | src/cardanowall/certificate/verify.py:163-168 | the 22 digits and their values, and that no other character has one |
| `Hex.RoundTrip` | src/cardanowall/certificate/verify.py:163-168 | decoding takes back what encoding wrote |
| `NfkcTables.InRangesIsMembership` | src/cardanowall/_crypto/unicode_nfkc16.py:109-111 | the bisection agrees with membership in one of the sorted ranges |
| `NfkcTables.ComposePairDecomposes` | src/cardanowall/_crypto/unicode_nfkc16.py:187-202 | whatever two characters compose to, from the table or by Hangul arithmetic, decomposes to the decomposition of the first followed by the second, is a starter and is assigned |
| `NfkcTables.HangulComposesExactly` | src/cardanowall/_crypto/unicode_nfkc16.py:187-202 | a decomposed character or syllable and another, when the table does not hold the pair, compose to the one Hangul syllable whose decomposition is theirs put together, and to nothing if there is none |
| `NfkcTables.SyllableParts` | src/cardanowall/_crypto/unicode_nfkc16.py:154-170 | a Hangul syllable has two or three jamo, and its number follows from theirs |
| `NfkcTables.HangulExamples` | src/cardanowall/_crypto/unicode_nfkc16.py:154-202 | the Unicode Standard's example syllable D4DB and the first and last ones, taken apart and composed |
| `NfkcTables.DecomposeOneIsDecomposed` | src/cardanowall/_crypto/unicode_nfkc16.py:154-170 | the decomposition of a valid character, from the table or by Hangul arithmetic, is fully decomposed and valid |
| `NfkcTables.SoundTablesExist` | src/cardanowall/_crypto/unicode_nfkc16.py:61-106 | the hypotheses made about the tables, order included, can hold together |
| `CanonicalOrder.InsertInPlace` | src/cardanowall/_crypto/unicode_nfkc16.py:173-184 | the inner loop leaves the prefix with the new entry behind the last entry of class zero or of no greater class, and touches nothing after it |
| `CanonicalOrder.CanonicalReorder` | src/cardanowall/_crypto/unicode_nfkc16.py:173-184 | the in-place sort leaves the canonical reordering of the old contents |
| `CanonicalOrder.FixedPointIffOrdered` | src/cardanowall/_crypto/unicode_nfkc16.py:173-184 | a sequence is unchanged by the sort if and only if it is canonically ordered |
| `CanonicalOrder.ReorderBySwaps` | src/cardanowall/_crypto/unicode_nfkc16.py:173-184 | the sort is a series of exchanges of neighbours with distinct nonzero classes, the only exchanges the Unicode algorithm allows |
| `CanonicalOrder.ReorderIsTheNormalForm` | src/cardanowall/_crypto/unicode_nfkc16.py:173-184 | the result is the one ordered sequence that allowed exchanges can reach, so sequences related by allowed exchanges have the same result |
| `CanonicalOrder.ReorderIsStable` | src/cardanowall/_crypto/unicode_nfkc16.py:173-184 | starters keep their positions, the characters of each class keep their order, and nothing is lost or added |
| `Nfkc.Validate` | src/cardanowall/_crypto/unicode_nfkc16.py:128-151 | accepts exactly texts of assigned scalar values and otherwise reports the first bad code point with its kind of error |
| `Nfkc.DecomposeText` | src/cardanowall/_crypto/unicode_nfkc16.py:154-170 | the loop yields the concatenated full decompositions of the characters |
| `Nfkc.BlockedTestAgrees` | src/cardanowall/_crypto/unicode_nfkc16.py:205-229 | the constant-time test on the last class equals the quantified definition of "not blocked" in every state the loop reaches |
| `Nfkc.ComposeText` | src/cardanowall/_crypto/unicode_nfkc16.py:205-229 | the loop, with its running starter index and classes, computes composition defined with the quantified blocking rule |
| `Nfkc.ComposeUndone` | src/cardanowall/_crypto/unicode_nfkc16.py:154-229 | decomposing and reordering a composed text gives back the text that was composed, for every sequence of decomposed characters |
| `Nfkc.Nfkc16` | src/cardanowall/_crypto/unicode_nfkc16.py:232-243 | normalisation succeeds exactly on valid text and yields its normal form |
| `Nfkc.NormalFormKeepsCanonicalText` | src/cardanowall/_crypto/unicode_nfkc16.py:232-243 | a text and its normal form have the same ordered decomposition |
| `Nfkc.NormalFormIdempotent` | src/cardanowall/_crypto/unicode_nfkc16.py:232-243 | normalising twice changes nothing |
| `Nfkc.NormalFormIsComposed` | src/cardanowall/_crypto/unicode_nfkc16.py:205-243 | in a normal form no starter composes with any later character that is not blocked from it, blocking stated by quantifying over the characters in between |
| `Nfkc.NormalFormDecidesEquivalence` | src/cardanowall/_crypto/unicode_nfkc16.py:232-243 | two texts have the same normal form if and only if their decompositions are related by allowed exchanges |
| `BitGroups.RegroupsUnique` | src/cardanowall/recipient.py:47-61 | the relation "same bits, zero padding shorter than a word" is one-to-one between byte strings and word sequences |
| `BitGroups.BytesToWords` | src/cardanowall/recipient.py:47-61 | the accumulator loop yields the word sequence in that relation to the bytes |
| `BitGroups.WordsToBytes` | src/cardanowall/recipient.py:157-172 | yields data exactly on the words that regroup it; overlong or nonzero padding is refused |
| `ChecksumLaws.BurstDetected` | src/cardanowall/recipient.py:38-44 | for any step with the listed linear laws, two messages that differ only within six consecutive symbols never reach the same state |
| `ChecksumLaws.SixSymbolsReachOnce` | src/cardanowall/recipient.py:64-79 | exactly one choice of six final symbols reaches a given state |
| `Polymod.PolymodStepLoop` | src/cardanowall/recipient.py:38-44 | the loop over the five generators computes the shift-and-feedback step |
| `Polymod.StepIsInjective` | src/cardanowall/recipient.py:38-44 | the step maps distinct 30-bit states to distinct states |
| `Polymod.Bech32Laws` | src/cardanowall/recipient.py:38-44 | the actual generators satisfy every law that the detection results need |
| `Polymod.ChecksumIsUnique` | src/cardanowall/recipient.py:64-79 | of all choices of six symbols, only the computed checksum makes the message valid, at every length |
| `Polymod.TyposDetected` | src/cardanowall/recipient.py:145-154 | a substitution confined to at most six consecutive symbols makes a valid message invalid, at every length |
| `Bip173.StepDividesByGenerator` | src/cardanowall/recipient.py:28-44 | one step is multiplication by x modulo x^6+29x^5+22x^4+20x^3+21x^2+29x+18 over the field of 32 elements, coefficient by coefficient |
| `Bip173.StateIsRemainder` | src/cardanowall/recipient.py:38-79 | the 30-bit state after a message is the remainder of the message polynomial by the generator polynomial |
| `Bech32.Checksum` | src/cardanowall/recipient.py:64-79 | fails exactly on a prefix character outside 33..126; otherwise spells the unique valid checksum |
| `Bech32.EncodeNoLimit` | src/cardanowall/recipient.py:82-93 | succeeds exactly on a non-empty printable prefix and yields the one encoding under its lower case |
| `Bech32.ChecksumValid` | src/cardanowall/recipient.py:145-154 | agrees with the message state being 1 |
| `Bech32.SpellsIff` | src/cardanowall/recipient.py:175-205 | a text is a spelling of an encoding exactly when it has no mixed case and its lower case is the encoding |
| `Bech32.WordsOfEncoding` | src/cardanowall/recipient.py:82-205 | words with a valid checksum whose payload regroups data are exactly the words that encoding writes |
| `Bip173.ValidIffCodeWords` | src/cardanowall/recipient.py:64-154 | a checksum is valid if and only if the prefix, expanded into high bits, a zero and low bits, followed by the words has remainder 1 |
| `Bip173.EncodesExactly` | src/cardanowall/recipient.py:82-93 | a text is what encoding writes if and only if it is the prefix, a 1 and the symbols of a code word whose payload regroups the data |
| `Bech32.DecodeLower` | src/cardanowall/recipient.py:175-205 | splitting at the last separator, looking up, checking and regrouping accepts exactly the encodings |
| `Bech32.DecodeNoLimit` | src/cardanowall/recipient.py:175-205 | decoding yields (prefix, data) exactly on the lower-case and upper-case spellings of their encoding: the exact inverse of encoding at every length |
| `SeedEncoding.EncodeIdentitySeed` | src/cardanowall/seed_encoding.py:65-77 | refuses every length but 32 and otherwise yields the upper-case encoding |
| `SeedEncoding.ParseIdentitySeed` | src/cardanowall/seed_encoding.py:80-131 | yields a seed exactly on its hex and Bech32 spellings, and gives each error exactly under its own condition |
| `SeedEncoding.DisplayedSeedAccepted` | src/cardanowall/seed_encoding.py:65-131 | the displayed seed and its lower case are accepted as that seed |
| `SeedEncoding.SeedFormIff` | src/cardanowall/seed_encoding.py:80-131 | the Bech32 form of a seed is one of its two spellings with any white space around it |
| `SeedEncoding.HexFormIff` | src/cardanowall/seed_encoding.py:80-131 | the hex form is 64 digits of either case behind an optional 0x or 0X, once white space is dropped |
| `SeedEncoding.SpacesDropped` | src/cardanowall/seed_encoding.py:80-131 | white space is dropped wherever it stands, and every other character kept |
| `SeedEncoding.SeedFormNotHex` | src/cardanowall/seed_encoding.py:80-131 | no Bech32 spelling of a seed is taken for hex |
| `SeedEncoding.EncodeRecipient` | src/cardanowall/recipient.py:96-107 | succeeds exactly on keys of the right size |
| `SeedEncoding.ParseAgeRecipient` | src/cardanowall/recipient.py:121-142 | yields a recipient exactly on the spellings of that recipient, with the key length its kind requires |
| `SeedEncoding.EncodedRecipientAccepted` | src/cardanowall/recipient.py:96-142 | parsing takes back every encoded recipient, in either case |
| `Stream.ChunkNonceDistinct` | src/cardanowall/_crypto/stream.py:71-74 | different (counter, final) pairs up to counter 2^88-1 give different nonces |
| `Stream.ChunkNonceBytes` | src/cardanowall/_crypto/stream.py:71-74 | twelve bytes: each of the first eleven is that base-256 digit of the counter, the most significant first, and the last is 1 for the final chunk alone |
| `Stream.HypothesesConsistent` | src/cardanowall/_crypto/stream.py:177-219 | a cipher exists that meets the two hypotheses used about it |
| `Stream.StreamSealer.constructor` | src/cardanowall/_crypto/stream.py:94-98 | a new sealer has sealed nothing |
| `Stream.StreamSealer.SealChunk` | src/cardanowall/_crypto/stream.py:100-126 | succeeds exactly for a well-sized chunk in a live stream below the counter limit, then encrypts under the nonce of the old counter and advances; every failure leaves the state as it was |
| `Stream.SealerNoncesDistinct` | src/cardanowall/_crypto/stream.py:84-129 | no run of one sealer, however it is driven, uses a nonce twice |
| `Stream.StreamOpener.OpenChunk` | src/cardanowall/_crypto/stream.py:147-171 | opens exactly the sealed form of the chunk at this place of the stream; any failure leaves the state as it was |
| `Stream.StreamSeal` | src/cardanowall/_crypto/stream.py:177-192 | the chunking loop yields the stream defined by recursion on the plaintext; fails on a bad key or more chunks than counters |
| `Stream.StreamOpen` | src/cardanowall/_crypto/stream.py:195-219 | the chunking loop opens exactly what the recursion opens |
| `Stream.OpenExactlySealed` | src/cardanowall/_crypto/stream.py:177-219 | opening yields p if and only if the stream is the sealed form of p, when the cipher decrypts exactly its own encryptions |
| `Stream.SealedLength` | src/cardanowall/_crypto/stream.py:222-235 | sealing succeeds exactly while counters last, and the length is the predicted one |
| `Stream.SealedChunkFrom` | src/cardanowall/_crypto/stream.py:177-192 | by position: chunk k of a sealed stream begins at byte 65552 k and is the encryption of plaintext bytes from 65536 k under its nonce, final for the last chunk only |
| `Stream.TruncatedOpens` | src/cardanowall/_crypto/stream.py:195-219 | a stream cut at a chunk border opens if and only if its last remaining chunk also opens under the final flag |
| `Stream.TruncationRejected` | src/cardanowall/_crypto/stream.py:195-219 | every proper chunk truncation is rejected when distinct nonces give disjoint ciphertexts |
| `StreamBody.SealBody.Feed` | src/cardanowall/_crypto/sealed_poe.py:844-886 | a piece of any size is consumed whole; what has been yielded stays the sealed form of the settled chunks, with one chunk held back |
| `StreamBody.SealBody.Close` | src/cardanowall/_crypto/sealed_poe.py:844-886 | all chunks together are the sealed form of all the input, or sealing that input fails |
| `StreamBody.SealStreamBody` | src/cardanowall/_crypto/sealed_poe.py:844-886 | for every partition of the plaintext, empty pieces included, the yielded chunks concatenate to the buffered seal |
| `StreamBody.OpenBody.Feed` | src/cardanowall/_crypto/sealed_poe.py:1416-1472 | what has been yielded at any point is the sequence of verified chunks so far, whether or not the piece verifies |
| `StreamBody.OpenBody.Close` | src/cardanowall/_crypto/sealed_poe.py:1416-1472 | the chunks yielded and the verdict are those of the whole input |
| `StreamBody.UnwrapStreamBody` | src/cardanowall/_crypto/sealed_poe.py:1416-1472 | for every partition, the verified chunks and the verdict are those of the buffered opening |
| `StreamBody.UnwrapInvertsSeal` | src/cardanowall/_crypto/sealed_poe.py:844-1472 | unwrapping in pieces recovers what was sealed in pieces, however each side cuts |
| `SignedBits.MaskSelects` | src/cardanowall/_crypto/sealed_poe.py:1002-1017 | the byte masking expression selects one of its operands by the bit |
| `SignedBits.WordSelects` | src/cardanowall/_crypto/sealed_poe.py:1002-1017 | the masking expression on whole signed integers, with two's-complement negation, selects one of its operands by the bit |
| `SealedEnvelope.CheckHeader` | src/cardanowall/_crypto/sealed_poe.py:1033-1075 | passes exactly envelopes whose scheme, cipher, KEM, slot count, nonce and MAC lengths are right |
| `SealedEnvelope.CheckSlotLengths` | src/cardanowall/_crypto/sealed_poe.py:1076-1110 | reports the first malformed slot, KEM material before wrap, or nothing |
| `SealedEnvelope.HasDuplicateMaterial` | src/cardanowall/_crypto/sealed_poe.py:538-552 | the set walk finds a repeated KEM material exactly when two slots share one |
| `SealedEnvelope.AssertEnvelopeStructure` | src/cardanowall/_crypto/sealed_poe.py:1033-1145 | passes exactly well-shaped envelopes with at most 1024 slots and 65536 bytes, distinct materials and 32-byte keys, and gives the later errors exactly under their own conditions |
| `SealedSlots.ConflictSeenFromFirst` | src/cardanowall/_crypto/sealed_poe.py:925-1026 | two accepted slots hold different keys if and only if some later one differs from the first |
| `SealedSlots.ScanSnoc` | src/cardanowall/_crypto/sealed_poe.py:925-1026 | how first match, any-opened and conflict change with one more slot |
| `SealedSlots.SelectBytes` | src/cardanowall/_crypto/sealed_poe.py:1002-1017 | the byte loop with masks selects the whole candidate or keeps the whole selection |
| `SealedSlots.FoldAttempt` | src/cardanowall/_crypto/sealed_poe.py:925-1026 | one branchless turn of masks keeps the fold equal to the first-match specification |
| `SealedSlots.FoldSlots` | src/cardanowall/_crypto/sealed_poe.py:925-1026 | the fold over all slots equals the first-match search, with conflict exactly when two accepted slots differ |
| `SealedSlots.ScanSlots` | src/cardanowall/_crypto/sealed_poe.py:925-1026 | under one private key the scan finds the first slot whose KEM, wrap and MAC all succeed, for any mix of other slots |
| `Shuffle.ShuffleKeepsContents` | src/cardanowall/_crypto/sealed_poe.py:415-421 | a shuffle only reorders |
| `Shuffle.ShuffleIsInjective` | src/cardanowall/_crypto/sealed_poe.py:415-421 | different index picks give different orders of distinct entries |
| `Shuffle.ShuffleIsSurjective` | src/cardanowall/_crypto/sealed_poe.py:415-421 | every order is reached by some picks; with injectivity, uniform picks give a uniform order |
| `SealedPoe.CsprngShuffle` | src/cardanowall/_crypto/sealed_poe.py:415-421 | the downward swap loop yields the shuffle that the picks define and keeps KEM materials distinct |
| `SealedPoe.WrapSlots` | src/cardanowall/_crypto/sealed_poe.py:630-740 | wraps every recipient in order or gives the first failure |
| `SealedPoe.CheckWrapInputs` | src/cardanowall/_crypto/sealed_poe.py:630-700 | lets through exactly the inputs that the wrap demands |
| `SealedPoe.BuildEnvelope` | src/cardanowall/_crypto/sealed_poe.py:630-762 | succeeds exactly when every slot wraps and no KEM material repeats; the slots are the shuffled wraps and the MAC commits the key to them |
| `SealedPoe.Wrap` | src/cardanowall/_crypto/sealed_poe.py:765-797 | succeeds exactly when the inputs are valid, the slots wrap and the content has counters; then the envelope is honest and the body is the sealed plaintext |
| `SealedPoe.FindKey` | src/cardanowall/_crypto/sealed_poe.py:1214-1298 | the keys are tried in order; a header anomaly stops the search, a match ends it |
| `SealedPoe.OpenContent` | src/cardanowall/_crypto/sealed_poe.py:1214-1298 | a found key opens the content or reports tampered ciphertext |
| `SealedPoe.Unwrap` | src/cardanowall/_crypto/sealed_poe.py:1214-1298 | an empty bundle is a mismatch, an empty key list an error, and otherwise the result is that of the gate, the search and the content |
| `SealedRoundTrip.HypothesesConsistent` | src/cardanowall/_crypto/sealed_poe.py:925-1298 | primitives exist that meet all hypotheses of the round trip at once |
| `SealedRoundTrip.ScanUnderCommitment` | src/cardanowall/_crypto/sealed_poe.py:925-1026 | under a MAC that commits to one key, whatever other slots are mixed in, the scan finds that key or nothing and never reports a conflict |
| `SealedRoundTrip.SearchFinds` | src/cardanowall/_crypto/sealed_poe.py:1214-1298 | several keys whose scans can find only one content key find it exactly when one of them does |
| `SealedRoundTrip.MatchesIff` | src/cardanowall/_crypto/sealed_poe.py:1214-1298 | under a committing MAC, opening yields the plaintext if and only if some private key has an accepted slot and the ciphertext is its sealed form |
| `SealedRoundTrip.WrongKeyIff` | src/cardanowall/_crypto/sealed_poe.py:1214-1298 | a wrong recipient key is reported if and only if no slot opens under any key given, for every envelope, tampered or not |
| `SealedRoundTrip.TamperedIff` | src/cardanowall/_crypto/sealed_poe.py:1214-1298 | under a committing MAC a tampered header is reported if and only if some slot opens but none is accepted, tampered ciphertext if and only if one is accepted but no plaintext seals to the content |
| `SealedRoundTrip.ChangedHeaderRefused` | src/cardanowall/_crypto/sealed_poe.py:925-1026 | once nonce, slots, KEM or content hashes of an envelope are changed under its old MAC, no key has an accepted slot |
| `SealedRoundTrip.KeysBound` | src/cardanowall/_crypto/sealed_poe.py:498-618 | slot keys agree if and only if KEM, nonce, shared secret, KEM material and recipient do, content keys if and only if content key and nonce do, and the two kinds never coincide |
| `SealedRoundTrip.HonestSlotAccepted` | src/cardanowall/_crypto/sealed_poe.py:555-618 | a recipient's own slot is accepted |
| `SealedRoundTrip.HonestPassesGateIff` | src/cardanowall/_crypto/sealed_poe.py:1033-1145 | the envelope of a successful wrap passes the gate if and only if it has at most 818 x25519 or 56 hybrid recipients, the numbers that the 65536-byte bound leaves |
| `SealedRoundTrip.UnwrapRecoversIff` | src/cardanowall/_crypto/sealed_poe.py:630-1298 | for every recipient of a successful wrap, any position in the key list and any other keys beside it, unwrap recovers the plaintext if and only if the recipients fit those bounds; otherwise it is refused |
| `SealedStream.WrapStream` | src/cardanowall/_crypto/sealed_poe.py:800-841 | streaming wrap succeeds exactly when the buffered one does, with an honest envelope and the same body for every partition |
| `SealedStream.UnwrapStream` | src/cardanowall/_crypto/sealed_poe.py:1309-1414 | for every way of giving keys and every partition, streaming unwrap matches exactly when the buffered one does, with equal plaintext; it gives the buffered reason except that a tampered header reads as a wrong key, and releases nothing unless a key matched |
| `DeterministicSeal.UniformIndexBelow` | src/cardanowall/client/sealed.py:957-969 | the index comes from the first draw below the ceiling, and every earlier draw was at or above it |
| `DeterministicSeal.DrawsUnbiased` | src/cardanowall/client/sealed.py:957-969 | every index below the modulus is given by exactly 2^32 / modulus (rounded down) accepted draws |
| `DeterministicSeal.ShuffledOrder` | src/cardanowall/client/sealed.py:972-980 | the in-place loop yields an order of 0..count-1, the shuffle of the picks that the draws give |
| `DeterministicSeal.PermuteThenWrap` | src/cardanowall/client/sealed.py:895-944 | wrapping permuted recipients under equally permuted secrets gives the permuted slots |
| `DeterministicSeal.PermutedWrapIsShuffledWrap` | src/cardanowall/client/sealed.py:895-980 | permuting before the wrap gives the same slot array as shuffling with the same picks after it |
| `DeterministicSeal.PermutedDistinct` | src/cardanowall/client/sealed.py:895-944 | permuting keeps KEM materials distinct |
| `PassphrasePath.CheckParams` | src/cardanowall/_crypto/sealed_poe.py:1485-1502 | passes exactly parameters in wire range and at or above the floors; range errors come before floor errors |
| `PassphrasePath.CheckSalt` | src/cardanowall/_crypto/sealed_poe.py:1505-1520 | passes exactly 16 to 64 bytes |
| `PassphrasePath.CheckEnvelope` | src/cardanowall/_crypto/sealed_poe.py:1636-1659 | passes exactly the supported envelopes |
| `PassphrasePath.OpensExactlySealed` | src/cardanowall/_crypto/sealed_poe.py:1662-1703 | a blob opens to p if and only if it is the commitment followed by the sealed form of p under the same key |
| `PassphrasePath.Seal` | src/cardanowall/_crypto/sealed_poe.py:1589-1633 | succeeds exactly on valid inputs with a sealable plaintext and yields that blob |
| `PassphrasePath.CheckOpenInputs` | src/cardanowall/_crypto/sealed_poe.py:1662-1703 | content hash, then passphrase, then envelope; the normalized password when all pass |
| `PassphrasePath.Open` | src/cardanowall/_crypto/sealed_poe.py:1662-1703 | the outcome of the specification, or an error on invalid caller input |
| `PassphrasePath.OpenInvertsSeal` | src/cardanowall/_crypto/sealed_poe.py:1589-1703 | what a passphrase sealed, the same passphrase opens |
| `PassphrasePath.ForeignBlobRefused` | src/cardanowall/_crypto/sealed_poe.py:1662-1703 | under another envelope, hash claim or content key a blob is refused, if the commitment tells the two apart |
| `PassphrasePath.FillLookahead` | src/cardanowall/_crypto/sealed_poe.py:1801-1876 | reads whole pieces until 48 bytes are in hand or the input ends, losing nothing |
| `PassphrasePath.OpenStreamWith` | src/cardanowall/_crypto/sealed_poe.py:1801-1890 | for every partition, the streaming open succeeds exactly when the buffered one does, with equal plaintext, and releases nothing on a short blob or wrong commitment |
| `PassphrasePath.SealStreamWith` | src/cardanowall/_crypto/sealed_poe.py:1773-1794 | for every partition, commitment and chunks concatenate to the buffered blob |
| `Cbor.ReadHeadSound` | src/cardanowall/verifier/cbor_walker.py:40-76 | what is read is a valid head and its bytes are exactly those passed over |
| `Cbor.ReadHeadComplete` | src/cardanowall/verifier/cbor_walker.py:40-76 | every valid definite-length head, minimal or not, is read back from its bytes |
| `Cbor.MinimalIffShortest` | src/cardanowall/verifier/carriage.py:156-194 | a head is minimal if and only if it is the one that deterministic encoding writes |
| `Cbor.HeadExamples` | src/cardanowall/verifier/cbor_walker.py:40-76 | the bytes of shortest heads on examples of RFC 8949, Appendix A |
| `Cbor.NoLongSimpleAgrees` | src/cardanowall/verifier/cbor_walker.py:50-105 | items without two-byte simple values have the same bytes under the walker's and the standard's reading |
| `CborWalker.ReadCborHead` | src/cardanowall/verifier/cbor_walker.py:40-76 | the branch-by-branch reader computes the head specification |
| `CborWalker.SkipCborItem` | src/cardanowall/verifier/cbor_walker.py:79-109 | the loop and recursion compute the skipping specification, counts and nesting of any size |
| `CborWalker.EncodedIsSkipped` | src/cardanowall/verifier/cbor_walker.py:79-109 | wherever an item of the walker's grammar stands, skipping passes over exactly it |
| `CborWalker.SkipsExactlyOneItem` | src/cardanowall/verifier/cbor_walker.py:79-109 | skipping ends at q if and only if one item of the walker's grammar spans the bytes up to q |
| `CborWalker.StandardItemSkipped` | src/cardanowall/verifier/cbor_walker.py:79-109 | every RFC 8949 definite-length item without two-byte simple values is passed over exactly |
| `CborWalker.LongSimpleOverrun` | src/cardanowall/verifier/cbor_walker.py:50-54 | counterexample: a two-byte simple value is passed over only together with the byte after it, and fails at the end of the data |
| `CborWalker.StandardItemSkippedIff` | src/cardanowall/verifier/cbor_walker.py:79-109 | a standard item is passed over exactly if and only if its bytes are also one item when every two-byte simple value takes one byte more |
| `CborWalker.LongSimpleInStep` | src/cardanowall/verifier/cbor_walker.py:79-109 | such an item with a two-byte simple value exists: 82 F8 20 41 00 is passed over exactly |
| `TxSlicing.LayoutSliced` | src/cardanowall/verifier/cbor_walker.py:136-172 | every 3- or 4-element transaction, with null, undefined or present auxiliary data, is cut into its own items |
| `TxSlicing.SlicesExactlyLayouts` | src/cardanowall/verifier/cbor_walker.py:136-172 | slicing yields these components if and only if the transaction is laid out from them |
| `AuxData.WalkMetadataMap` | src/cardanowall/verifier/cbor_walker.py:285-306 | the loop yields the last label-309 value and the sorted labels of the map |
| `AuxData.FindTag259MetadataMap` | src/cardanowall/verifier/cbor_walker.py:273-282 | the loop finds the first key equal to unsigned zero |
| `AuxData.UnwrapAuxiliaryData` | src/cardanowall/verifier/cbor_walker.py:211-270 | the dispatch on the three envelope forms computes the unwrapping specification |
| `AuxData.SortLabelsKeeps` | src/cardanowall/verifier/cbor_walker.py:305-306 | sorting the labels loses and adds none |
| `AuxLayouts.MapRead` | src/cardanowall/verifier/cbor_walker.py:285-306 | from a metadata map that stands there, its last label-309 value and its sorted labels are read |
| `AuxLayouts.ReadsExactlyMaps` | src/cardanowall/verifier/cbor_walker.py:285-306 | a reading is returned if and only if a map with that reading stands there |
| `AuxLayouts.PlainUnwrapped` | src/cardanowall/verifier/cbor_walker.py:211-270 | a bare metadata map is unwrapped to its reading |
| `AuxLayouts.ScriptsUnwrapped` | src/cardanowall/verifier/cbor_walker.py:211-270 | a metadata map in the array form is unwrapped to its reading |
| `AuxLayouts.KeyedUnwrapped` | src/cardanowall/verifier/cbor_walker.py:211-282 | a metadata map under key zero of the tagged form is unwrapped to its reading, whatever keys come before it |
| `AuxLayouts.CarriedIsUnwrapped` | src/cardanowall/verifier/cbor_walker.py:211-306 | whichever of the three forms carries the entries, unwrapping reads them |
| `AuxLayouts.LastOfUnique` | src/cardanowall/verifier/cbor_walker.py:285-306 | when no later entry has the label, that entry's value is the one read |
| `Carriage.ChunksMakeUpBody` | src/cardanowall/verifier/carriage.py:40-57 | the chunks concatenate to the body, none is empty and all but the last hold 64 bytes |
| `Carriage.ReadStrictHead` | src/cardanowall/verifier/carriage.py:156-194 | the branch-by-branch strict reader computes its specification |
| `Carriage.StrictHeadExact` | src/cardanowall/verifier/carriage.py:156-194 | a strict head is read if and only if the shortest head of that argument stands there |
| `Carriage.ReassembleLabel309Value` | src/cardanowall/verifier/carriage.py:82-131 | the reader loop computes the reassembly specification, error kinds included |
| `Carriage.ReassemblesExactly` | src/cardanowall/verifier/carriage.py:82-131 | reassembly yields the body if and only if the value is a shortest-form array of at most 64-byte strings that concatenate to it |
| `Carriage.RefusesOversizeExactly` | src/cardanowall/verifier/carriage.py:82-131 | the oversize error is given if and only if a string above 64 bytes stands behind well-formed chunks |
| `Carriage.CarriageRoundTrip` | src/cardanowall/verifier/carriage.py:40-131 | reassembling the encoded value gives back every non-empty body of up to 2^64-1 chunks |
| `OnChain.Label309ValueIsItem` | src/cardanowall/verifier/carriage.py:60-64 | an encoded value is one CBOR item, so it can stand in any metadata map |
| `OnChain.RecordBodyRecovered` | src/cardanowall/verifier/cbor_walker.py:136-306 | a body encoded under the last label 309 of any of the three forms, in a 3- or 4-element transaction with any other entries, is recovered exactly by slicing, unwrapping and reassembling |
| `OnChain.NoRecordWithoutLabel` | src/cardanowall/verifier/cbor_walker.py:211-306 | metadata without label 309 yields no record |
| `OnChain.EmbeddedBodyRecovered` | src/cardanowall/verifier/cbor_walker.py:136-306 | every non-empty body has such an embedding and is recovered from it |
| `CanonicalScan.WalkItem` | src/cardanowall/_crypto/cbor.py:68-128 | the recursive scan with its running position and previous key computes the scanning specification |
| `CanonicalScan.WalkElements` | src/cardanowall/_crypto/cbor.py:68-128 | the element loop scans the items one after another and stops at the first problem |
| `CanonicalScan.WalkEntries` | src/cardanowall/_crypto/cbor.py:68-128 | the entry loop compares each encoded key with the one before it, in the order of CanonicalScan.LexLessIff, and stops at the first that is not behind it |
| `CanonicalScan.LexLessIff` | src/cardanowall/_crypto/cbor.py:107-123 | the key comparison holds if and only if the keys agree up to some place where the first ends or has the smaller byte |
| `CanonicalScan.CanonicalIffInOrder` | src/cardanowall/_crypto/cbor.py:107-123 | all keys ascend if and only if they do so by first difference, in every map at every depth |
| `CanonicalScan.ScansItem` | src/cardanowall/_crypto/cbor.py:68-128 | on a complete item the scan ends behind it if all its maps have strictly ascending encoded keys, and rejects it otherwise |
| `CanonicalScan.ScansExactlyCanonical` | src/cardanowall/_crypto/cbor.py:68-151 | the scan ends at a position if and only if one item spans up to there in which, between neighbouring encoded keys of every map at every depth, the later one is greater where they first differ, or is the longer one |
| `CanonicalScan.CanonicalKeysDistinct` | src/cardanowall/_crypto/cbor.py:68-128 | no map that passes has two entries with one encoded key |
| `ChunkGrid.MissingIndices` | src/cardanowall/client/resumable_upload.py:171-178 | exactly the indices below the count that were not received, ascending |
| `ChunkGrid.AllChunksAreSource` | src/cardanowall/client/resumable_upload.py:171-173 | chunks stored at all their indices concatenate to the first total bytes of the source |
| `ChunkGrid.SizeOfAll` | src/cardanowall/client/resumable_upload.py:171-178 | with nothing received, the outstanding chunks have total bytes |
| `UploadLanes.PutChunkWithRetry` | src/cardanowall/client/resumable_upload.py:341-373 | the first answer that is not transient decides; at most max_retries + 1 attempts are made |
| `UploadLanes.RetryLoopIsSteps` | src/cardanowall/client/resumable_upload.py:341-373 | the lane that the retry loop leaves is the one that the step relation reaches under the same answers |
| `UploadLanes.LanesAre` | src/cardanowall/client/resumable_upload.py:376-418 | there is at least one lane, never more than the wanted parallelism or the outstanding chunks otherwise, and as many as both allow |
| `UploadLanes.StepKeepsInv` | src/cardanowall/client/resumable_upload.py:376-418 | whatever lane moves and whatever the gateway answers, every claimed chunk is in hand or stored, byte counts agree and nothing stored is lost |
| `UploadLanes.Pass` | src/cardanowall/client/resumable_upload.py:376-418 | the same for every interleaving of any length; the reported bytes never decrease |
| `UploadLanes.FinishedPass` | src/cardanowall/client/resumable_upload.py:376-418 | when all lanes have returned, the missing indices were claimed exactly once each in order, all are stored, and the reported bytes grew by exactly their size |
| `UploadLanes.StepUsesBudget` | src/cardanowall/client/resumable_upload.py:341-418 | every enabled step uses up some of a finite budget, so no interleaving goes on for ever |
| `UploadLanes.StuckMeansOver` | src/cardanowall/client/resumable_upload.py:376-418 | when no step is enabled every lane has returned or failed |
| `UploadSession.StepKeepsInv` | src/cardanowall/client/resumable_upload.py:489-730 | every step of a session keeps its invariant and never lowers the reported bytes, across resends of whatever list the status gives |
| `UploadSession.RunBounds` | src/cardanowall/client/resumable_upload.py:583-730 | in every run, whatever lists the gateway gives, at most three completions and two resends occur and the reported bytes never decrease |
| `UploadSession.CompletesOnlyWhenWhole` | src/cardanowall/client/resumable_upload.py:660-730 | whenever completion is asked for after lists that left nothing out, the stored chunks concatenate to the first total bytes of the source |
| `UploadSession.HonestRunIsWhole` | src/cardanowall/client/resumable_upload.py:181-191 | in every run whose statuses are honest, explicit lists that repeat, disorder or over-report and received sets alike, the chunks make up the source whenever completion is asked for |
| `UploadSession.FreshUploadReportsTotal` | src/cardanowall/client/resumable_upload.py:583-628 | a fresh upload that finishes without a resend has reported exactly total bytes |
| `UploadSession.AcceptedUploadFinishes` | src/cardanowall/client/resumable_upload.py:583-730 | against a gateway that accepts chunks and confirms completion, at the latest the third time, every run so far, in any interleaving, can go on to finish |
| `UploadSession.FinishesIff` | src/cardanowall/client/resumable_upload.py:660-730 | a step finishes a session if and only if it answers a completion with completed or with accepted and then committed |
| `UploadReceipts.ValidateReceipts` | src/cardanowall/client/sealed.py:1247-1297 | keys the receipts by their earliest item, or refuses them all when one is unknown, mismatched or repeated |
| `UploadReceipts.KeptRevalidateIff` | src/cardanowall/client/sealed.py:1247-1297 | receipts given back are accepted again, as they were, if and only if each stands at the earliest item of its id with an Arweave URI and the recomputed digest and length |
| `UploadReceipts.RefusedIff` | src/cardanowall/client/sealed.py:1247-1297 | any list of receipts is refused if and only if one does not fit its earliest item or two belong to one earliest item |
| `UploadReceipts.KeptRefusedIff` | src/cardanowall/client/sealed.py:1247-1297 | kept receipts are refused if and only if one no longer fits or two kept items share an earliest index |
| `UploadReceipts.SharedIdRefused` | src/cardanowall/client/sealed.py:1247-1297 | counterexample: the receipts that in-order uploading of two items of one id leaves are all refused on resumption |
| `UploadReceipts.LaterReceiptMoves` | src/cardanowall/client/sealed.py:1247-1297 | the receipt of the later of two equal items, given alone, is accepted under the earlier one |
| `SubmitSealed.UploadItems` | src/cardanowall/client/sealed.py:1201-1223 | the loop that pops resumed receipts and uploads the rest keeps the receipts in item order, and on a failure gives back all of them, the unused ones too |
| `Decimal.ReadsExactlySpelled` | src/cardanowall/client/publish.py:506-517 | an amount is read as n if and only if it is a non-empty digit string and n the sum of its digits times ten to the power of their distance from the end |
| `SubmitSealed.EnforceCap` | src/cardanowall/client/publish.py:506-517 | passes exactly without a cap or with a decimal amount not above it |
| `SubmitSealed.SubmitSealed` | src/cardanowall/client/sealed.py:1145-1244 | the step-by-step flow has the outcome and the sequence of gateway calls of the specification |
| `SubmitSealed.FinishSubmission` | src/cardanowall/client/sealed.py:1224-1244 | requote when stale, cap again, encode, publish |
| `SubmitSafety.CapRespected` | src/cardanowall/client/sealed.py:1145-1244 | with a cap, nothing is uploaded or published under a quote unless its amount spells, digit by digit, a number that is not above the cap |
| `SubmitSafety.WithinCapIff` | src/cardanowall/client/publish.py:506-517 | a quote is let through if and only if there is no cap or its amount spells a number not above it |
| `SubmitSafety.SubmitsIff` | src/cardanowall/client/sealed.py:1145-1244 | a submission succeeds if and only if arguments and receipts are valid, both price locks are let through, every item without a receipt uploads, and the record encodes and is published |
| `SubmitSafety.PublishedIs` | src/cardanowall/client/sealed.py:1224-1244 | on success the last request, and no other, publishes: one URI an item, under the caller's, the first or the renewed quote as freshness decides, encoded as the record returned |
| `SubmitSafety.ReceiptsCarried` | src/cardanowall/client/sealed.py:1180-1244 | once arguments and receipts are valid, success and every error carry all receipts, in item order |
| `SubmitSafety.AttemptsOnlyMissing` | src/cardanowall/client/sealed.py:1145-1244 | an item is attempted only without a receipt, and afterwards has one exactly when its upload succeeded |
| `SubmitSafety.UploadedOnce` | src/cardanowall/client/sealed.py:1145-1297 | along any chain of retries that passes the receipts back, an item whose upload succeeded is never uploaded again |
| `SubmitSafety.UrisInItemOrder` | src/cardanowall/client/sealed.py:1145-1244 | a published record lists one URI per item, in item order, the receipt's or the fresh upload's |
| `SubmitSafety.KeptGrows` | src/cardanowall/client/sealed.py:1145-1297 | along a chain of retries no receipt is lost |
| `SseParser.RunAppend` | src/cardanowall/client/poe_events.py:101-119 | parsing a + b is parsing a and then b from the state reached |
| `SseParser.RunLine` | src/cardanowall/client/poe_events.py:101-139 | what one complete line does: the line limit, the stripped return, then the field rules |
| `SseParser.Parser.HandleRaw` | src/cardanowall/client/poe_events.py:121-139 | handles one line as specified, or reports the event limit |
| `SseParser.Parser.Feed` | src/cardanowall/client/poe_events.py:101-119 | the newline-splitting loop leaves the state and events of the byte-by-byte run; afterwards the buffer holds no newline and at most 65536 bytes and the event count is at most 262144 |
| `SseParser.ChunkingIrrelevant` | src/cardanowall/client/poe_events.py:101-155 | any two partitions of the same bytes give the same events and state, or both the protocol error |
| `SseParser.FeedPieces` | src/cardanowall/client/poe_events.py:101-155 | one parser fed any partition gives the result of the whole |
| `SseFrames.FrameParsed` | src/cardanowall/client/poe_events.py:101-155 | round trip: data, event and id lines in any order and number, with or without the space and with either line end, then a blank line, give one event with the last name, "message" if empty, the data lines joined by newlines, and the last id; none if all three are empty |
| `SseFrames.LineTaken` | src/cardanowall/client/poe_events.py:121-139 | what one written field line does to the fields gathered so far |
| `SseFrames.AsciiWritable` | src/cardanowall/client/poe_events.py:121-139 | under a decoder that reads ASCII, every ASCII text can be written in such a line |
| `SseParser.CommentsExhaust` | src/cardanowall/client/poe_events.py:101-155 | any sequence of comment and blank lines is accepted, changing only the count, if and only if every line fits and their bytes without line ends stay within the event limit; with an event pending, the same for comments without a blank line |
| `SseParser.CommentsAroundDispatch` | src/cardanowall/client/poe_events.py:101-155 | with an event pending, the first blank line starts the count again: the comments before and behind it are held to the limit apart |
| `Calendar.NextDayIsNext` | src/cardanowall/client/publish.py:618-637 | from every valid date to its successor the day number rises by exactly one, in every year |
| `Calendar.CountsDays` | src/cardanowall/client/publish.py:618-637 | the closed form equals counting days one at a time from 1970-01-01, forwards and backwards |
| `Calendar.EveryDateReached` | src/cardanowall/client/publish.py:618-637 | every valid date is reached by that counting, at its day number |
| `Calendar.DaysMonotone` | src/cardanowall/client/publish.py:618-628 | later dates have larger day numbers |
| `Calendar.DaysInjective` | src/cardanowall/client/publish.py:618-628 | two valid dates with one day number are the same |
| `Calendar.EpochMonotone` | src/cardanowall/client/publish.py:537-615 | from a valid UTC time to every later one, ordered by date, hour, minute and second, epoch seconds increase strictly if and only if the pair is not a second 60 and second 0 of the next minute |
| `Calendar.MinuteBoundary` | src/cardanowall/client/publish.py:537-615 | the next minute, in the next hour or on the next day if need be, begins 60 seconds after the current one, and no time lies between a second 60 and it |
| `Calendar.LeapSecondCollides` | src/cardanowall/client/publish.py:537-615 | counterexample at second 60 of every minute, 10:30:60 on any date for one: it falls on the number of the later second 0 of the next minute |
| `Calendar.DigitRunEnd` | src/cardanowall/client/publish.py:590-597 | the index loop ends at the first byte that is not a digit |
| `Calendar.Rfc3339ToEpochSeconds` | src/cardanowall/client/publish.py:537-615 | the index-advancing parser computes its specification |
| `Calendar.ZoneReadExactly` | src/cardanowall/client/publish.py:599-612 | a zone is read if and only if it is written as Z, z or a signed hh:mm in range |
| `Calendar.OffsetMeaning` | src/cardanowall/client/publish.py:537-615 | a reading at +hh:mm is that many seconds before the same reading in UTC, at -hh:mm that many behind it |
| `Calendar.UnixEpochIsZero` | src/cardanowall/client/publish.py:537-615 | 1970-01-01T00:00:00Z is 0 |
| `Calendar.ParsesExactly` | src/cardanowall/client/publish.py:537-615 | parsing yields t if and only if the text is a timestamp of the grammar of RFC 3339 section 5.6, with the code's separators, that denotes t |
| `RecordSize.SizeIsLength` | src/cardanowall/estimate.py:119-155 | the size function is the length of the encoding of every item |
| `RecordSize.MapSize` | src/cardanowall/estimate.py:253-385 | a map whose entries are sorted by encoded key takes its head and its entries, in whatever order they were given |
| `KeyOrder.SortKeeps` | src/cardanowall/_crypto/cbor.py:34-35 | sorting by key loses and adds no entry |
| `KeyOrder.SortAscends` | src/cardanowall/_crypto/cbor.py:34-35 | entries with distinct encoded keys are sorted so that each key is behind its predecessor by first difference |
| `KeyOrder.MapDeterministic` | src/cardanowall/_crypto/cbor.py:34-35 | the sorted map of deterministic entries with distinct keys is deterministic: shortest heads, ascending keys in every map |
| `KeyOrder.DeterministicScans` | src/cardanowall/_crypto/cbor.py:68-128 | the canonical pre-scan passes a deterministic item exactly, and its keys are in order by first difference |
| `Estimate.UrisBytesLoop` | src/cardanowall/estimate.py:242-250 | the accumulating loop computes the sum over the URIs |
| `Estimate.ItemBytesLoop` | src/cardanowall/estimate.py:309-326 | the accumulating loop computes the item sum |
| `Estimate.EstimateRecordBytesLoop` | src/cardanowall/estimate.py:349-385 | the accumulating flow computes the record sum with its margin |
| `EstimateBound.EncSize` | src/cardanowall/estimate.py:253-306 | the envelope estimate is the encoded size plus a stated slack |
| `EstimateBound.EstimateIsSizePlusSlack` | src/cardanowall/estimate.py:349-385 | the estimate is the size of the record's value plus a stated slack |
| `RecordEncoding.RecordDeterministic` | src/cardanowall/estimate.py:349-385 | the value of every record whose counts and lengths are below 2^64 is well-formed and deterministic |
| `RecordEncoding.EncodedRecordScans` | src/cardanowall/_crypto/cbor.py:34-128 | the canonical pre-scan passes the encoded record exactly; its value is deterministic, with keys in order by first difference |
| `RecordEncoding.EstimateIsLengthPlusSlack` | src/cardanowall/estimate.py:349-385 | the estimate is the length of the deterministic encoding plus a stated slack, for every record of the format's widths |
| `RecordEncoding.CanonicalOvershoot` | src/cardanowall/estimate.py:242-385 | with canonical passphrase blocks the estimate exceeds the encoded length by exactly 16, plus 8 per x25519 item, plus 9 minus the width of leaf_count for a Merkle commitment |
| `RecordEncoding.UpperBoundIff` | src/cardanowall/estimate.py:349-385 | the estimate is at least the encoded length if and only if that slack, which salts and work factors decide, is not negative |
| `RecordEncoding.LongSaltExceeds` | src/cardanowall/estimate.py:253-306 | counterexample: the encoding of every record of one passphrase item with a 64-byte salt and m of at least 65536 is longer than its estimate |
| `RecordEncoding.LongSaltRecord` | src/cardanowall/estimate.py:253-306 | such a record exists, under the default work factors |
| `ValidatorAgreement.CheckSlotShape` | src/cardanowall/poe_standard/validator.py:1380-1447 | no issue exactly on slots with the fields and lengths of their KEM and nothing else |
| `ValidatorAgreement.CheckSlots` | src/cardanowall/poe_standard/validator.py:1267-1377 | the walk with its issue list and seen-set finds nothing exactly when all slots are clean and their materials distinct |
| `ValidatorAgreement.CheckScheme1` | src/cardanowall/poe_standard/validator.py:1267-1377 | no issue exactly on complete blocks of the right lengths; a null slot list or algorithm id raises |
| `ValidatorAgreement.CheckEnvelope` | src/cardanowall/poe_standard/validator.py:931-1056 | the size bound, the identifier dispatch, the shape gate and the rules together pass exactly the accepted blocks |
| `ValidatorAgreement.EncodingCoversRawSum` | src/cardanowall/poe_standard/validator.py:966-975 | the encoded size that the validator bounds is at least the raw field sum that the unwrap gate bounds |
| `ValidatorAgreement.ProjectedSlotsPass` | src/cardanowall/verifier/decrypt.py:109-137 | clean slots with distinct materials are projected, each to a slot of the right shape with its own material, and stay distinct |
| `ValidatorAgreement.AgreeIff` | src/cardanowall/poe_standard/validator.py:931-1447 | a block without issues is projected (verifier/decrypt.py:109-137) and passes the unwrap gate with 32-byte keys if and only if its slots_mac is not a CBOR null |
| `ValidatorAgreement.NullMacAccepted` | src/cardanowall/poe_standard/validator.py:1293-1296 | counterexample: nulling the MAC of any clean block leaves no issue, and the projection (verifier/decrypt.py:109-137) forms no envelope from it |

## Left out

Narrower than the code:

- Merkle.AcceptsExactlyTheAuditPath: assumes no collision among the inputs compared instead of an injective hash, because no injective hash into 32 bytes exists.
- Nfkc.ComposeText: takes ordered input under sound tables, the only input that the code gives it.
- Bech32.DecodeNoLimit: ASCII text only; Python's case mapping of other characters is not modelled. The same holds for Bech32.EncodeNoLimit, SeedEncoding.ParseIdentitySeed and SeedEncoding.ParseAgeRecipient.
- SealedPoe.Wrap: takes content key, nonce, slot secrets and shuffle picks as parameters. Both ways of supplying the secrets are one; skipping the shuffle is the picks that keep every position. Which argument error is reported first is not stated.
- SealedPoe.Unwrap: errors of the gate are told apart only as SealedEnvelope.AssertEnvelopeStructure tells them apart; the timing of the scan is not modelled.
- SealedEnvelope.CheckHeader: the order among scheme, cipher, KEM, count, nonce and MAC errors is stated for the empty slot list only.
- DeterministicSeal.ShuffledOrder: the draws are a finite list; running out of it stands for a failing random source.
- PassphrasePath.Seal: which input error comes first is not stated; passphrase normalization and key derivation are parameters, and so is the transcript that the commitment covers.
- PassphrasePath.OpenStreamWith: begins with the derived key; the caller-input checks before it are those of PassphrasePath.CheckOpenInputs.
- Carriage.CarriageRoundTrip: bodies of up to 2^64 - 1 chunks, the largest array that a CBOR head can announce.
- CanonicalScan.ScansExactlyCanonical: canonical means strictly ascending map keys only; minimal integers are left to the decoder, as in the code.
- UploadLanes.StepKeepsInv: lanes that go on after another lane has failed are not followed further; the session is over at that point.
- UploadSession.StepKeepsInv: the session keeps one grid and the source does not change; a status that names indices outside the grid is not followed further.
- UploadSession.HonestRunIsWhole: assumes that an explicit list names every chunk the gateway lacks, and that without a list only stored chunks count as received.
- UploadReceipts.KeptRevalidateIff: a receipt is accepted by value; a mutable digest object held by the caller is not modelled.
- SubmitSafety.UploadedOnce: distinct item ids, valid Arweave URIs from the gateway, and valid arguments in every round of the chain; without the first, see UploadReceipts.SharedIdRefused.
- SubmitSealed.SubmitSealed: freshness of a quote is an input for each test, and a request's answer is fixed per call.
- SseParser.Parser.Feed: UTF-8 decoding of a line is a parameter.
- Decimal.ReadsExactlySpelled: Python's own limit of 4300 digits for an integer is not modelled.
- SseFrames.FrameParsed: frames within the event limit, of lines that fit and that the decoder reads back; SseFrames.AsciiWritable has the ASCII ones.
- Calendar.Rfc3339ToEpochSeconds: begins with the stripped and encoded bytes.
- Certificate.BuildCertificate: the block time is its posix value; labels, ISO texts and other fields that verification does not read are left out.
- ValidatorAgreement.CheckEnvelope: scheme-1 blocks with the supported cipher and without a passphrase part; fields hold their wire types, a null or nothing.
- RecordEncoding.EstimateIsLengthPlusSlack: records of 32-byte digests and at most one signature of the format's size, those that a shape describes.

Not modelled:

- The insides of SHA-256, HMAC, ChaCha20-Poly1305, X25519, ML-KEM, HKDF and Argon2id.
- The contents of the Unicode tables.
- The byte encodings of the slots and passphrase transcripts.
- Constant-time behaviour, quality of randomness, the wall clock.
- The `cancel` callbacks of streams and uploads, and task cancellation.
- Python's recursion limit in the CBOR walkers.
- The cbor2 library.
- HTTP, headers, polling of attempts, deduplication at session creation, single-shot uploads.
- Preparation and submission of passphrase seals, prepared-seal JSON.
- Validator checks outside the sealed-slots envelope, issue paths, ordering and severities.
- Reason codes of trial decryption, and the counter of attempted slots.
- Extraction of the auxiliary data hash from the transaction body.
- COSE signatures, off-host signing, seed derivation.
