# ZWA protocol: verified model

A Dafny 4.11 model of the parts of the ZWA protocol that its safety rests on, with proofs of what
those parts guarantee. `dafny verify dfyconfig.toml` checks the whole project.

1. **The replay store** (`Replay`, `ReplayRuns`, `ReplayEvents`, `ReplayProgress`): the per-commitment settlement
   lifecycle. `ReplayStore` is a class whose methods follow the control flow of the code; each is
   proved to implement one step of a transition table, and the store's records are always those of
   the run of calls so far. The theorems are about whole runs: any calls, any interleaving of
   commitments, any clock readings (time is an argument of each call and may move backwards). The
   theorems that promise some calls (`ReplayProgress`) promise them for a clock that has reached an
   arbitrary time and only moves forward.
2. **Field elements** (`Positional`, `FieldElement`, `DecimalText`): 256-bit arithmetic on four
   64-bit limbs in place, conversion between bytes, limbs and decimal text, and the byte-wise
   comparison with the BN254 modulus. Machine widths and narrowing casts are written out.
3. **Commitments, Merkle trees and circuits** (`Hashing`, `Merkle`, `Gadgets`, `Hex`, `Encoding`,
   `CanonicalBytes`, `Commitments`, `Credentials`, `FrozenSchema`, `Circuits`, `Compliance`,
   `HonestProver`): the staged hashes, the limb codecs, the JavaScript tree builder, the Circom
   templates as relations between public values and a witness, and the compliance statement two
   proofs give together.
4. **Root payloads** (`RootPayload`): the data-to-be-signed of root envelopes.

## Conventions

- **The hash is arbitrary.** Every theorem takes `H: Hash<Field>` and assumes nothing about it. On a
  finite field collisions always exist somewhere, so "or a collision exists" would say nothing.
  Each binding theorem therefore speaks of a *transcript*: the finite list of inputs that the
  parties hash in the situation at hand. `CollisionFree(H, transcript)` is the same as
  `FindCollision(H, transcript).None?`, and `FindCollision` returns two different listed inputs with
  one hash whenever the hypothesis fails. A theorem of the form "no collision in the transcript
  implies X" is thus "X, or here is the colliding pair".
- **Primality of the modulus is not proved.** Where soundness of a template needs it,
  `NoZeroDivisors()` is an explicit hypothesis. Completeness does not need it. `Gadgets.MulIsProduct`
  shows that the field product `Mul`, defined by repeated addition, is `(a * b) % MODULUS`.
- **Field elements as numbers.** In the hashing modules a field element is its value (`Field`). The
  32-byte representation of the Rust type is `FieldElement.FieldElement`, and
  `FieldElement.ValueIsBijective` shows that the two carry the same information.
- **circomlib by contract.** `Num2Bits(n)` means that some n bits spell the input, which
  `Gadgets.Num2BitsRange` shows to be `x < 2^n`; `LessThan(n)` compares inputs that fit in n bits and
  promises nothing about others. Merkle depths are parameters, as in the templates.
- **JavaScript integers.** Arrays hold fewer than 2^32 elements (`Merkle.JsArray`). The operators `&`,
  `^` and `>>` reduce their operands to signed 32-bit integers first (`Merkle.ToInt32`), so a cursor
  of 2^31 or more would become negative. A length that `buildMerkleTree` accepts is a power of two
  below 2^32, hence at most 2^31, and every cursor into its levels is smaller
  (`Merkle.ProofOfBuiltTree`); the length test only asks whether `&` gives zero, which the sign does
  not affect (`Merkle.PowerOfTwoTrick`).

## Where the code and its description differ

- `from_decimal_str` is described as parsing the canonical unpadded form; it accepts leading zeros
  (`DecimalText.PaddingIsAccepted`). `DecimalText.PrintParsed` says exactly when text survives.
- The canonical-byte commitment is described as leaving no two byte strings in collision. Apart from
  hash collisions there is one exception, stated as an if-and-only-if in
  `CanonicalBytes.CanonicalBytesBinding`: the empty string against a single chunk of zero bytes,
  when the opening hash of the latter is the domain tag of the former. Receivers are never empty, so
  the fee recipient commitment is unaffected (`Commitments.FeeRecipientBinding`).
- A failed record with no retries left whose committed expiry is the largest 64-bit second can never
  be expired, because no time is strictly after it. `ReplayProgress.ProgressExactly` shows that,
  whatever time it is, this is the only record that cannot be brought to a terminal state any more.

## Model

| member | source | states |
|---|---|---|
| Replay.ReplayStore.constructor | crates/protocol/src/replay.rs:119-121 | a new store is empty and allows three retries |
| Replay.ReplayStore.WithMaxRetries | crates/protocol/src/replay.rs:125-130 | a new store is empty and keeps the given retry bound |
| Replay.ReplayStore.ExpireIfElapsed | crates/protocol/src/replay.rs:435-444 | the single expiry gate: strictly after the committed second the record becomes `Expired` in place and the error carries both times; otherwise nothing changes |
| Replay.ReplayStore.Create | crates/protocol/src/replay.rs:157-175 | inserts a fresh record exactly when the key is unused; result, new records and history are those of the table |
| Replay.ReplayStore.Verify | crates/protocol/src/replay.rs:191-200 | the gated step out of `Created`, error precedence included; the expiry error mutates the record |
| Replay.ReplayStore.AcquireConstruction | crates/protocol/src/replay.rs:218-231 | the gated compare-and-set step out of `Verified` |
| Replay.ReplayStore.Submit | crates/protocol/src/replay.rs:246-261 | the gated step out of `SettlementConstructed`; records the txid only when accepted |
| Replay.ReplayStore.Confirm | crates/protocol/src/replay.rs:270-278 | the ungated step out of `Submitted` |
| Replay.ReplayStore.Consume | crates/protocol/src/replay.rs:290-298 | the ungated step out of `Confirmed` |
| Replay.ReplayStore.Fail | crates/protocol/src/replay.rs:311-335 | failure from the four pre-confirmation states; keeps the txid of a submission and clears it otherwise |
| Replay.ReplayStore.Expire | crates/protocol/src/replay.rs:348-367 | explicit expiry from the four states that hold no submission in flight, only strictly after the committed second |
| Replay.ReplayStore.RetryAfterFailure | crates/protocol/src/replay.rs:382-409 | retry in the code's order of checks: consumed, state, expiry (mutating), budget, exact txid; the counter cannot overflow 32 bits |
| ReplayEvents.AcceptedExactly | crates/protocol/src/replay.rs:191-409 | event by event, a call on an existing record is accepted exactly in these states, on this side of the committed expiry, within the budget and with exactly the txid on record |
| ReplayEvents.AcceptedRecord | crates/protocol/src/replay.rs:191-409 | field by field, the record an accepted call stores and returns: state, reason, txid and counter; commitment and intent stay |
| ReplayEvents.CreatedExactly | crates/protocol/src/replay.rs:157-175 | on an unused commitment only creation is accepted, and the record is fresh with the given intent |
| ReplayEvents.ErrorsExactly | crates/protocol/src/replay.rs:191-452 | which error a refused call reports and with which arguments: consumed, too late, out of retries, unreconciled, otherwise the state and the event attempted |
| ReplayEvents.UnknownExactly | crates/protocol/src/replay.rs:411-415 | `UnknownTrade` exactly for calls other than creation on an unused commitment, which then stays unused |
| ReplayEvents.GateHeldThroughout | docs/architecture.md:115-115 | in every run all accepted verifications, acquisitions, submissions and retries are no later than the committed expiry, and all accepted explicit expiries later |
| ReplayEvents.LateWorkExpires | crates/protocol/src/replay.rs:435-444 | after every run, new work attempted strictly after expiry from its source state returns `ExpiredTrade` with both times and leaves the record expired |
| ReplayEvents.ExpiredOnlyLate | crates/protocol/src/replay.rs:348-367 | no live trade is expired: behind every expired record there is a call that read the clock strictly after the committed expiry |
| ReplayEvents.CanAlwaysFail | crates/protocol/src/replay.rs:311-335 | after every run, failure with any reason is accepted from all four states before confirmation, records exactly that reason and keeps the txid of a submission only |
| ReplayEvents.CanRetry | crates/protocol/src/replay.rs:382-409 | after every run, a failed record on time with a retry left is retried by naming its txid, and becomes a fresh one with the counter raised |
| ReplayRuns.ReachableRecordsAreWellFormed | crates/protocol/src/replay.rs:157-409 | in every run: before submission no txid and no reason, from submission to consumption a txid and no reason, failed has a reason, expired with a txid has a reason, retries within budget, the key unchanged |
| ReplayRuns.ErrorFrame | crates/protocol/src/replay.rs:157-452 | a call changes the store exactly when it returns a record or `ExpiredTrade`; the latter changes one record's state and only past expiry |
| ReplayRuns.RecordsPersist | crates/protocol/src/replay.rs:157-409 | records never disappear, keys and intents never change, consumed and expired records never change again, whatever the clock says |
| ReplayRuns.Projection | crates/protocol/src/replay.rs:100-415 | in every interleaved run each commitment's record and results are those of its own calls alone on an empty store |
| ReplayRuns.InterleavingIsIrrelevant | crates/protocol/src/replay.rs:100-415 | two schedules with the same calls per commitment end in the same store |
| ReplayRuns.TxidLedger | crates/protocol/src/replay.rs:327-331 | in every run the submitted txids are the acknowledged ones, in order, followed by the one on record: no txid is dropped, not even by the clearing in `fail` |
| ReplayRuns.NoSubmissionWhileUnreconciled | crates/protocol/src/replay.rs:382-409 | between two accepted submissions of a commitment the first was failed and then retried with exactly its txid |
| ReplayRuns.AcceptedTallies | crates/protocol/src/replay.rs:157-409 | the record determines how often each event was accepted: one creation, confirmations and consumptions by state, retries by counter, submissions at most one per attempt |
| ReplayRuns.CurrentAttempt | crates/protocol/src/replay.rs:191-409 | the state determines the accepted operations since the last creation or retry, each gated one, the opening retry included, on time |
| ReplayRuns.ExactlyOnceSettlement | crates/protocol/src/replay.rs:191-298 | a confirmed or consumed commitment was confirmed once and consumed at most once, with the txid its current attempt verified, acquired and submitted no later than the committed expiry; all earlier txids were acknowledged |
| ReplayRuns.AtMostOnce | crates/protocol/src/replay.rs:270-298 | no run accepts two confirmations or two consumptions of a commitment, nor a consumption without a confirmation |
| ReplayRuns.PotentialFalls | crates/protocol/src/replay.rs:191-444 | every call that changes a record, including one that returns `ExpiredTrade`, lowers a non-negative potential |
| ReplayRuns.WorkBound | crates/protocol/src/replay.rs:191-409 | after creation at most 5 * (max + 1) calls change a record and at most max + 1 submissions are accepted |
| ReplayRuns.WorkBoundIsAttained | crates/protocol/src/replay.rs:191-409 | for every retry bound some settled run reaches both bounds exactly |
| ReplayProgress.ProgressExactly | crates/protocol/src/replay.rs:191-409 | from any time on and with a clock that only moves forward, a record can be brought to a terminal state if and only if it is not failed, out of retries and committed to the last representable second |
| ReplayProgress.SettlesExactly | crates/protocol/src/replay.rs:191-409 | from any time on, a record can still be consumed if and only if it is submitted or beyond, or its expiry has not passed and it is in an attempt or failed with a retry left |
| ReplayProgress.ExpiresExactly | crates/protocol/src/replay.rs:311-367 | from any time on, a record can still expire if and only if it is unconfirmed and its expiry is not the last representable second |
| ReplayProgress.StuckIsReachable | crates/protocol/src/replay.rs:348-409 | the record that can do neither is reachable for every retry bound |
| ReplayProgress.PlayContinuesRun | crates/protocol/src/replay.rs:157-409 | operations played on a reachable record continue the run that reached it |
| ReplayProgress.ConstructionIsExclusive | crates/protocol/src/replay.rs:98-103 | the compare-and-set promise: between two accepted acquisitions of a commitment there is an accepted retry |
| Positional.LexIsNumeric | crates/protocol/src/field.rs:41-48 | for equally long digit strings in any base, lexicographic order is numeric order |
| FieldElement.ModulusBytes | crates/protocol/src/field.rs:20-23 | the 32 modulus bytes denote the decimal modulus of the JavaScript schema |
| FieldElement.ReducedIffBelowModulus | crates/protocol/src/field.rs:41-48 | the byte comparison accepts exactly the values below the modulus |
| FieldElement.ValueIsBijective | crates/protocol/src/field.rs:25-30 | canonical byte strings and reduced numbers correspond one to one |
| FieldElement.FromBeSliceExact | crates/protocol/src/field.rs:56-64 | a slice is accepted exactly when it is 32 bytes of a reduced value, and decodes to that value; the error is `WrongLength` exactly for other lengths and `NotReduced` exactly for 32 bytes of a larger value |
| FieldElement.FromU64 | crates/protocol/src/field.rs:68-72 | the padded bytes are canonical and denote the integer |
| FieldElement.FromU128 | crates/protocol/src/field.rs:80-84 | the padded bytes are canonical and denote the integer: no 128-bit value reaches the modulus |
| FieldElement.MulAddSmall | crates/protocol/src/field.rs:147-159 | in place x * m + a modulo 2^256 for all 64-bit m and a, reporting exactly whether it fits; the 128-bit intermediate never overflows |
| FieldElement.DivRemSmall | crates/protocol/src/field.rs:163-171 | in place exact quotient, exact remainder, for every nonzero 64-bit divisor; no cast loses bits |
| FieldElement.MulAddThenDivRem | crates/protocol/src/field.rs:147-171 | dividing the product by m restores the limbs and returns a, whenever a < m and the product fits |
| FieldElement.BeBytesToLimbs | crates/protocol/src/field.rs:173-182 | the limbs denote the number the bytes denote |
| FieldElement.LimbsToBeBytes | crates/protocol/src/field.rs:184-191 | the bytes denote the number the limbs denote |
| FieldElement.FromDecimalStr | crates/protocol/src/field.rs:94-107 | for every string: not decimal, overflow at 2^256, not reduced from the modulus on, otherwise the element with the denoted value; the loop's prefix checks decide about the whole |
| FieldElement.ToDecimalString | crates/protocol/src/field.rs:117-129 | prints the decimal digits of the value without leading zeros, "0" for zero; the loop ends because the limb value falls |
| DecimalText.ParseExactly | crates/protocol/src/field.rs:94-107 | the four outcomes by the number the characters denote in base ten: a non-digit or nothing, at least 2^256, at least the modulus, otherwise the element with that value |
| DecimalText.PrintExactly | crates/protocol/src/field.rs:117-129 | the printed text is decimal, unpadded, and denotes the value in base ten |
| DecimalText.ParseKeepsOrder | crates/protocol/src/field.rs:94-107 | equally long texts that parse are in character order exactly when their values are in numeric order |
| DecimalText.ParsePrinted | crates/protocol/src/field.rs:94-129 | parsing the printed form of any element gives it back |
| DecimalText.PrintParsed | crates/protocol/src/field.rs:94-129 | printing what was parsed gives the text without leading zeros, and the text itself exactly when it had none |
| DecimalText.PaddingIsAccepted | crates/protocol/src/field.rs:94-107 | a leading zero never changes the result, so padded text is accepted |
| DecimalText.PrintedLength | crates/protocol/src/field.rs:122-128 | a printed element has at most 77 digits |
| Merkle.PowerOfTwoTrick | circuits/shared/trade-commitment-v1.js:170-172 | for array lengths, `n & (n - 1)` on signed 32-bit integers is zero exactly for powers of two |
| Merkle.ToInt32Exactly | circuits/shared/trade-commitment-v1.js:170-191 | the operand reduction of the bitwise operators is the signed 32-bit integer congruent to the operand |
| Merkle.BitAndAt | circuits/shared/trade-commitment-v1.js:170-170 | `&` works bit by bit |
| Merkle.BuildMerkleTree | circuits/shared/trade-commitment-v1.js:169-181 | throws exactly when the leaf count is not a power of two, otherwise returns all levels, leaves first, each half as long as the one below |
| Merkle.LevelNodes | circuits/shared/trade-commitment-v1.js:174-179 | each level is half as long as the one below, and its value i hashes the values 2i and 2i + 1 below, in this order |
| Merkle.TopLevel | circuits/shared/trade-commitment-v1.js:173-180 | the last of the d + 1 levels holds just the root |
| Merkle.MerkleProof | circuits/shared/trade-commitment-v1.js:183-194 | for any levels: throws exactly for an index outside the first level, otherwise reads off one sibling (or undefined) and one bit per level |
| Merkle.ProofOfBuiltTree | circuits/shared/trade-commitment-v1.js:169-194 | on the levels of a built tree every sibling is defined, the signed 32-bit cursor never wraps, and the result is the siblings and bits of that leaf |
| Merkle.PathComplete | circuits/shared/trade-commitment-v1.js:169-194 | the proof of every leaf folds back to the root |
| Merkle.PathSound | circuits/shared/trade-commitment-v1.js:169-194 | at any depth, whatever folds to the root is the leaf at the index its bits spell with that leaf's own siblings, or two inputs of the transcript collide |
| Gadgets.EqualityOutput | circuits/shared/zk-origin/comparators.circom:9-30 | `ZKIsEqual` outputs 1 exactly on equal inputs, whatever the unconstrained `inv` signal is |
| Gadgets.VerifierSound | circuits/shared/zk-origin/merkle.circom:7-49 | in every satisfying assignment the indices are bits and `valid` is 1 exactly when the fold equals the root |
| Gadgets.VerifierComplete | circuits/shared/zk-origin/merkle.circom:28-48 | every path that folds to the root satisfies the template, for any value of `inv` |
| Gadgets.VerifierIsPathCheck | circuits/shared/zk-origin/merkle.circom:7-49 | with `valid` fixed to 1 the template is satisfiable if and only if the host-side path check passes |
| Gadgets.Num2BitsWidths | circuits/eligibility/rwa_investor_eligibility_v1.circom:74-110 | each range check the circuits make admits exactly the values of its width: one or two bytes, u64, 11 bytes, u128 |
| Gadgets.GreaterEqMeaning | circuits/shared/zk-origin/comparators.circom:77-86 | the comparator means "at least" on n-bit inputs; adding one cannot wrap |
| Hex.ReadWritten | circuits/shared/trade-commitment-v1.js:52-62 | the text written for bytes is hexadecimal and reads back as those bytes |
| Hex.WriteRead | circuits/shared/trade-commitment-v1.js:24-50 | hexadecimal text in either case, read and written again, is its lower-case form |
| Hex.DigitValues | circuits/shared/trade-commitment-v1.js:24-50 | each digit has the value its ASCII code gives it, in either case |
| Hex.ByteAt | circuits/shared/trade-commitment-v1.js:43-50 | byte i is read from digits 2i and 2i + 1, high half first |
| Hex.WrittenAt | circuits/shared/trade-commitment-v1.js:52-62 | byte i is written to digits 2i and 2i + 1, high half first, without capital letters |
| Encoding.LittleEndianU128 | crates/commitments/src/asset_base.rs:57-62 | the padded copy denotes the number of the chunk; bytes beyond sixteen are ignored |
| Encoding.DecodeAssetBase | crates/commitments/src/asset_base.rs:49-54 | low limb first, then high limb, each as sixteen little-endian bytes |
| Encoding.AssetRoundTrip | crates/commitments/src/asset_base.rs:36-54 | encodings and limb pairs correspond one to one |
| Encoding.DecodeReceiver | crates/commitments/src/receiver.rs:106-113 | cutting the third limb to eleven bytes yields its exact encoding |
| Encoding.ReceiverRoundTrip | crates/commitments/src/receiver.rs:92-113 | receivers and in-range limb triples correspond one to one |
| Encoding.ReceiverLimbBoundIsNeeded | crates/commitments/src/receiver.rs:55-67 | the constructor accepts a third limb exactly when eleven bytes can hold it, and otherwise reports 88 bits |
| Encoding.JsAssetCodecs | circuits/shared/trade-commitment-v1.js:43-62 | `assetIdToLimbs` throws exactly on text that is not 32 bytes of hexadecimal, `limbsToAssetId` exactly on limbs outside 128 bits, and they invert each other up to the case of the digits |
| Encoding.JsReceiverCodecs | circuits/shared/eligibility-v1.js:28-50 | `receiverToLimbs` throws exactly on text that is not 43 bytes of hexadecimal, `limbsToReceiver` exactly outside the 128/128/88-bit bounds, and they invert each other up to the case of the digits |
| CanonicalBytes.CanonicalBytesCommitment | crates/commitments/src/trade.rs:140-158 | below 2^64 bytes the Rust loop computes the chunked commitment, its 64-bit narrowings losing nothing |
| CanonicalBytes.SplitBytesIntoLittleEndianLimbs | circuits/shared/trade-commitment-v1.js:82-92 | throws exactly on text that is not whole bytes of hexadecimal, otherwise returns the byte count and the sixteen-byte chunks, the last one cut at the end |
| CanonicalBytes.CommitCanonicalBytes | circuits/shared/trade-commitment-v1.js:94-101 | throws exactly on such text, and otherwise the JavaScript loop computes the same commitment as the Rust loop |
| CanonicalBytes.CommitmentIsLastState | crates/commitments/src/trade.rs:130-158 | the commitment is the last of the documented states: domain, length and chunk count first, then each state with the next sixteen bytes as a little-endian number and their position |
| CanonicalBytes.StagingIsUnique | crates/commitments/src/trade.rs:130-158 | that staging is determined, so no other value is its last state |
| CanonicalBytes.CanonicalBytesBinding | crates/commitments/src/trade.rs:130-158 | commitments agree if and only if domain and bytes agree or a tag preimage is exhibited, unless two inputs of the transcript collide |
| Commitments.MismatchNamesBoth | crates/commitments/src/trade.rs:257-266 | a refused commitment is reported with two different decimal texts, which parse to the presented and to the recomputed commitment |
| Commitments.TradeBinding | crates/commitments/src/trade.rs:201-246 | two intents have one commitment if and only if they agree in every field and every asset byte, unless two inputs of the transcript collide |
| Commitments.RecipientBinding | crates/commitments/src/trade.rs:84-116 | two bindings agree if and only if subject secret and all 43 receiver bytes agree, up to a collision |
| Commitments.FeeRecipientBinding | crates/commitments/src/trade.rs:165-170 | two fee recipient commitments agree if and only if the receivers do, up to a collision |
| Commitments.FeeRecipientStages | crates/commitments/src/trade.rs:160-170 | a fee receiver commits by four nested hashes over its length 43, its chunk count 3 and its three limbs |
| FrozenSchema.AssetLimbsValue | crates/commitments/src/asset_base.rs:36-45 | the two limbs are the low and high half of the little-endian number the 32 bytes denote |
| FrozenSchema.ReceiverLimbsValue | crates/commitments/src/receiver.rs:92-99 | the three limbs are the low 128, middle 128 and high 88 bits of the little-endian number the 43 bytes denote |
| FrozenSchema.TradeStages | crates/commitments/src/trade.rs:10-20 | all seven stages with their inputs in order, for the limbs of the two assets |
| FrozenSchema.RecipientStages | crates/commitments/src/trade.rs:22-28 | subject, receiver and binding hashes with their inputs in order, for the limbs of the receiver |
| FrozenSchema.FeeRecipientLimbs | crates/commitments/src/trade.rs:160-170 | the fee recipient commitment for the limbs of the receiver |
| FrozenSchema.CredentialStages | crates/credentials/src/credential.rs:102-133 | the credential leaf with its six inputs in order, nested hashes included |
| FrozenSchema.RegistryStages | circuits/shared/trade-commitment-v1.js:108-123 | the issuance leaf and the policy leaf with their inputs in order |
| FrozenSchema.AssetAndFeeTags | crates/commitments/src/domain.rs:15-36 | the tags are the labels ASSETV1, FEEV1 and ZEC read big-endian |
| FrozenSchema.TradePartTags | crates/commitments/src/domain.rs:21-25 | likewise TRDA_V1 and TRDB_V1 |
| FrozenSchema.TradeTags | crates/commitments/src/domain.rs:27-31 | likewise TRDM_V1 and TRADE_V1 |
| FrozenSchema.RecipientTags | crates/commitments/src/domain.rs:38-42 | likewise SUBJECT1 and RECEIVR1 |
| FrozenSchema.BindingTags | crates/commitments/src/domain.rs:44-48 | likewise RCPBIND1 and FRCPTV1 |
| FrozenSchema.CredentialTags | docs/trade-commitment-v1.md:52-78 | likewise CRED_V1 and CRED_V2 |
| FrozenSchema.CredentialMetaTags | crates/commitments/src/domain.rs:57-58 | likewise CREDMETA |
| FrozenSchema.PolicyTags | docs/trade-commitment-v1.md:77-77 | likewise ELIGPOL1 |
| FrozenSchema.IssuanceTags | docs/trade-commitment-v1.md:75-76 | likewise ISSMETA1 and ISSUEV1 |
| FrozenSchema.TagsAreDistinct | crates/commitments/src/domain.rs:10-14 | the seventeen tags are pairwise different |
| Commitments.JsAgreesWithRust | circuits/shared/trade-commitment-v1.js:125-167 | `computeTrade` throws exactly on fields outside their ranges and otherwise returns all seven stages of the Rust commitment |
| Commitments.RawRoundTrip | circuits/shared/trade-commitment-v1.js:125-167 | every intent has a form the JavaScript schema accepts, and it denotes that intent |
| Credentials.AuthorizesExactlyOne | crates/credentials/src/credential.rs:143-145 | a credential authorizes its approved receiver and no other, up to a collision |
| Credentials.CredentialBinding | crates/credentials/src/credential.rs:102-133 | two credentials have one leaf if and only if they agree in every field, approved receiver included, up to a collision |
| Credentials.LeafVersionsAreDisjoint | docs/decisions/0004-credential-approved-receiver-binding.md:27-27 | a V1 leaf is never a V2 leaf, up to a collision of the two inputs |
| Credentials.PolicyBinding | circuits/shared/eligibility-v1.js:119-125 | two policy tuples have one leaf if and only if they are equal, up to a collision |
| Credentials.IssuanceBinding | circuits/shared/trade-commitment-v1.js:108-123 | two issuances have one leaf if and only if they are equal, so asset and policy root cannot be recombined, up to a collision |
| Circuits.ProvenanceDenotesIntent | circuits/provenance/rwa_trade_provenance_v1.circom:46-130 | without assumptions on the hash, a satisfying witness decodes to an intent whose commitment is the public value |
| Circuits.EligibilityDenotesIntent | circuits/eligibility/rwa_investor_eligibility_v1.circom:74-219 | the same, with the recipient bound to subject and receiver, the tuple equal to the credential's, and credential expiry at least trade expiry |
| Circuits.EligibilityHashers | circuits/eligibility/rwa_investor_eligibility_v1.circom:116-163 | the circuit's leaf, binding and policy hashes are those of the decoded credential, receiver and tuple |
| Circuits.ProvenanceHashers | circuits/provenance/rwa_trade_provenance_v1.circom:69-84 | the circuit's issuance leaf is that of the decoded issuance |
| Compliance.IssuanceIsAuthorized | circuits/provenance/rwa_trade_provenance_v1.circom:69-93 | a satisfying provenance witness presents exactly the issuance the issuer put at the proved index, up to a collision |
| Compliance.ReceiverIsApproved | circuits/eligibility/rwa_investor_eligibility_v1.circom:116-158 | a satisfying eligibility witness presents exactly the credential at the proved index and settles to exactly its 43 approved receiver bytes, up to a collision |
| Compliance.TupleIsAllowed | circuits/eligibility/rwa_investor_eligibility_v1.circom:160-172 | the witness's tuple is the one at the proved index of the policy tree, up to a collision |
| Compliance.MatcherAgreesWithProvenance | crates/commitments/src/trade.rs:248-266 | the matcher accepts an intent for the public commitment of a provenance proof if and only if it is the intent the witness decodes to, up to a collision |
| Compliance.MatcherAgreesWithEligibility | crates/commitments/src/trade.rs:248-266 | the same for an eligibility proof |
| Compliance.SameIntent | docs/threat-model.md:101-105 | two proofs with one public trade commitment denote one intent, whatever the roots, up to a collision |
| Compliance.PolicyIsTheIssuers | docs/threat-model.md:65-69 | policy substitution fails: the tuple of an eligibility proof is among those that the issuance behind the provenance proof of the same trade allows, when that issuance's policy root is the root of those tuples, up to a collision |
| Compliance.JointCompliance | docs/architecture.md:19-87 | two proofs with one trade commitment denote one intent, whose offered asset and policy root are those of one authorized issuance; if that issuance's policy root is the root of the tuples it allows, the intent is compliant: approved receiver of an active credential, the credential's tuple among those, credential outliving the trade; or the joint transcript collides |
| Compliance.SettledReceiverIsApproved | docs/decisions/0004-credential-approved-receiver-binding.md:29-38 | a provable trade to a receiver is backed by an active credential that approves just that receiver for that subject, up to a collision |
| Compliance.SubstitutedReceiverHasNoWitness | docs/decisions/0004-credential-approved-receiver-binding.md:29-38 | credential for A with a trade to B has no eligibility witness, up to a collision |
| HonestProver.ProvenanceIsComplete | circuits/provenance/rwa_trade_provenance_v1.circom:19-131 | for any hash, a trade in an authorized asset under its issued policy has a provenance witness |
| HonestProver.EligibilityIsComplete | circuits/eligibility/rwa_investor_eligibility_v1.circom:34-220 | for any hash, a trade to the approved receiver of an active, allowed and lasting credential has an eligibility witness |
| HonestProver.CompliantTradeIsProvable | docs/architecture.md:54-64 | compliance suffices: under the same premise on the issuance, every compliant intent has both witnesses |
| RootPayload.EncodePayload | crates/credentials/src/envelope.rs:276-297 | for all arguments the appended fields are the documented layout, with the length taken modulo 256 |
| RootPayload.CanonicalBytes | crates/credentials/src/envelope.rs:92-101 | both payload kinds serialize to that layout under their own kind byte, the one-byte length loses nothing, and the bytes decode to the payload |
| RootPayload.Wire | crates/credentials/src/envelope.rs:33-40 | the signed bytes by position: ZWA1ROOT, kind 1 for an issuer and 2 for a credential authority, version and window big-endian, length, identifier, root |
| RootPayload.IdentifierExactly | crates/protocol/src/envelope.rs:40-55 | an identifier is accepted exactly with 1 to 64 bytes, and each failure has its error |
| RootPayload.MetadataExactly | crates/protocol/src/envelope.rs:143-155 | metadata is accepted exactly with a version from 1 on and a window that is not inverted, and each failure has its error |
| RootPayload.DecodeEncode | crates/credentials/src/envelope.rs:276-297 | decoding an encoding gives back the payload and whatever followed it |
| RootPayload.EncodeDecode | crates/credentials/src/envelope.rs:276-297 | whatever decodes is an encoding: a payload has one byte form |
| RootPayload.UniquelyDecodable | crates/credentials/src/envelope.rs:276-297 | equal bytes mean equal kind, version, window, identifier and root, and no payload is a proper prefix of another |

## Definitions the theorems are about

- `Replay.Step`, `Replay.Run`: the lifecycle table of docs/architecture.md section 17 and its runs.
- `Circuits.Provenance`: circuits/provenance/rwa_trade_provenance_v1.circom, whole template.
- `Circuits.Eligibility`: circuits/eligibility/rwa_investor_eligibility_v1.circom, whole template.
- `Gadgets.MerkleProofVerifier`, `ZKIsZero`, `ZKIsEqual`, `ZKMux1`, `ZKGreaterEqThan`, `IsBinary`:
  circuits/shared/zk-origin.
- `Commitments.TradeCommitmentV1`, `BindRecipient`: crates/commitments/src/trade.rs.
- `Credentials.CredentialLeaf`: crates/credentials/src/credential.rs; `IssuanceLeaf` and `PolicyLeaf`:
  circuits/shared.
- `Compliance.Registries`, `Compliance.PolicyIsPublished`: the three published registries, and that an
  issuance's policy root is the root of the tuples it allows.
- `Compliance.Compliant`: what a trade that passed both proofs is claimed to satisfy.

## Left out

- Poseidon and the arkworks conversions: the hash is an arbitrary function.
- Groth16 and the proof traits in crates/protocol/src/proof.rs: interfaces without an implementation.
- The internals of circomlib's `Num2Bits` and `LessThan`: not part of this model, used by contract.
- Primality of the BN254 scalar modulus: a hypothesis where needed.
- Signatures, root authentication, recipient control, RFQ, settlement: not implemented in the repository.
- Freshness checks of root envelopes: two comparisons with the clock.
- Opaque signatures, the Rust hex codecs, `Display` and `Debug` formatting, secret redaction: they carry bytes or text and decide nothing.
- Accessors (`get`, `state`, `max_retries` and the like): they return a field.
- Concurrency of the replay store: the code documents it as sequential, and so is the model.
- The range assertions of the JavaScript `computeCredential`, `computePolicyLeaf` and `computeIssuance`: expressed as types.
- Trees of superseded Phase 0G leaves (`computeCredentialV1`): kept in the repository for old evidence only.
- The ordering and equality derived on protocol values, beyond what `Positional.LexIsNumeric` says.
- Unused ZK-ORIGIN templates and constants.
