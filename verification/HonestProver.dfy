/**
 Completeness: an honest prover can always satisfy the circuits, for any hash.
 Sources: circuits/provenance/rwa_trade_provenance_v1.circom,
 circuits/eligibility/rwa_investor_eligibility_v1.circom, scripts/generate-phase1b-fixture.js.
 */
module HonestProver {
  import opened Positional
  import opened Protocol
  import opened Hashing
  import opened Merkle
  import opened Gadgets
  import opened Encoding
  import opened Commitments
  import opened Credentials
  import opened Circuits
  import opened Compliance

  function SignalsOf(i: TradeIntent): TradeSignals
  {
    var offered, requested := EncodeAssetBase(i.offeredAsset), EncodeAssetBase(i.requestedAsset);
    TradeSignals(offered.hi, offered.lo, i.offeredAmount, requested.hi, requested.lo, i.requestedAmount,
                 i.policyRoot, i.matcherFee.amount, i.matcherFee.recipientCommitment, i.nonce, i.expiry)
  }

  lemma SignalsInRange(i: TradeIntent)
    ensures TradeRanges(SignalsOf(i))
  {
    var t := SignalsOf(i);
    Num2BitsWidths(t.offeredAssetHi);
    Num2BitsWidths(t.offeredAssetLo);
    Num2BitsWidths(t.requestedAssetHi);
    Num2BitsWidths(t.requestedAssetLo);
    Num2BitsWidths(t.offeredAmount);
    Num2BitsWidths(t.requestedAmount);
    Num2BitsWidths(t.matcherFeeAmount);
    Num2BitsWidths(t.nonce);
    Num2BitsWidths(t.expiry);
  }

  /** Encoding an intent as signals loses nothing. */
  lemma SignalsRoundTrip(i: TradeIntent)
    ensures TradeRanges(SignalsOf(i))
    ensures DecodeIntent(SignalsOf(i), i.recipientCommitment) == i
  {
    SignalsInRange(i);
    AssetRoundTrip(i.offeredAsset, EncodeAssetBase(i.offeredAsset));
    AssetRoundTrip(i.requestedAsset, EncodeAssetBase(i.requestedAsset));
  }

  /** Path bits as signals. */
  function PathBits(i: nat, d: nat): (bits: seq<Field>)
    requires i < Pow2(d)
    ensures |bits| == d && bits == BitsOf(i, d) && Binary(bits)
  {
    BitsOfIndex(i, d);
    BitsOf(i, d)
  }

  /** The path extracted for a leaf satisfies the membership template. */
  lemma MembershipHolds(H: Hash<Field>, leaves: seq<Field>, d: nat, i: nat)
    requires |leaves| == Pow2(d) && i < |leaves|
    ensures var siblings, bits := Siblings(H, leaves, d, i), PathBits(i, d);
      MerkleProofVerifier(H, d, leaves[i], Root(H, leaves, d), siblings, bits, 1,
                          Honest(H, leaves[i], siblings, bits, 0))
  {
    PathComplete(H, leaves, d, i);
    VerifierComplete(H, leaves[i], Siblings(H, leaves, d, i), PathBits(i, d), 0);
  }

  function HonestProvenance(H: Hash<Field>, list: seq<Issuance>, d: nat, i: nat, intent: TradeIntent): ProvenanceWitness
    requires |list| == Pow2(d) && i < |list|
  {
    var s, leaves := list[i], Leaves(IssuanceSchema(H), list);
    var siblings, bits := Siblings(H, leaves, d, i), PathBits(i, d);
    ProvenanceWitness(s.issuerCommitment, s.seriesCommitment, s.issuanceNonce, siblings, bits, SignalsOf(intent),
                      intent.recipientCommitment, Honest(H, leaves[i], siblings, bits, 0))
  }

  /** Every trade in an authorized asset under its issued policy has a provenance witness. */
  lemma ProvenanceIsComplete(H: Hash<Field>, list: seq<Issuance>, d: nat, i: nat, intent: TradeIntent)
    requires |list| == Pow2(d) && i < |list|
    requires list[i].offeredAsset == intent.offeredAsset && list[i].policyRoot == intent.policyRoot
    ensures Provenance(H, d, IssuanceRoot(H, list, d), TradeCommitmentV1(H, intent),
                       HonestProvenance(H, list, d, i, intent))
  {
    var w := HonestProvenance(H, list, d, i, intent);
    Num2BitsWidths(w.issuanceNonce);
    SignalsRoundTrip(intent);
    TradeHasherIsCommitment(H, w.trade, w.recipientCommitment);
    ProvenanceHashers(H, w);
    EntryAt(IssuanceSchema(H), list, i);
    MembershipHolds(H, Leaves(IssuanceSchema(H), list), d, i);
  }

  function HonestEligibility(H: Hash<Field>, credentials: seq<ActiveCredential>, d: nat, i: nat,
                             policy: seq<PolicyTuple>, e: nat, j: nat, intent: TradeIntent): EligibilityWitness
    requires |credentials| == Pow2(d) && i < |credentials| && |policy| == Pow2(e) && j < |policy|
  {
    var c, limbs := credentials[i], EncodeReceiver(credentials[i].approvedReceiver);
    var leaves, tuples := Leaves(CredentialSchema(H), credentials), Leaves(PolicySchema(H), policy);
    var siblings, bits := Siblings(H, leaves, d, i), PathBits(i, d);
    var policySiblings, policyBits := Siblings(H, tuples, e, j), PathBits(j, e);
    EligibilityWitness(c.subjectSecret, c.authorityCommitment, c.investorClass, c.jurisdiction, c.credentialExpiry,
                       c.nonce, siblings, bits, c.investorClass, c.jurisdiction, policySiblings, policyBits,
                       limbs.limb0, limbs.limb1, limbs.limb2, SignalsOf(intent),
                       Honest(H, leaves[i], siblings, bits, 0), Honest(H, tuples[j], policySiblings, policyBits, 0), 1)
  }

  lemma HonestEligibilityDecodes(H: Hash<Field>, credentials: seq<ActiveCredential>, d: nat, i: nat,
                                 policy: seq<PolicyTuple>, e: nat, j: nat, intent: TradeIntent)
    requires |credentials| == Pow2(d) && i < |credentials| && |policy| == Pow2(e) && j < |policy|
    requires policy[j] == PolicyTuple(credentials[i].investorClass, credentials[i].jurisdiction)
    ensures var w := HonestEligibility(H, credentials, d, i, policy, e, j, intent);
      EligibilityRanges(w) && DecodeCredential(w) == credentials[i] && DecodePolicy(w) == policy[j]
  {
    var w := HonestEligibility(H, credentials, d, i, policy, e, j, intent);
    Num2BitsWidths(w.receiverLimb0);
    Num2BitsWidths(w.receiverLimb1);
    Num2BitsWidths(w.receiverLimb2);
    Num2BitsWidths(w.investorClass);
    Num2BitsWidths(w.jurisdiction);
    Num2BitsWidths(w.credentialExpiry);
    Num2BitsWidths(w.credentialNonce);
    SignalsRoundTrip(intent);
    ReceiverEncodeDecode(credentials[i].approvedReceiver);
  }

  /** Every trade to the approved receiver of an active, allowed and lasting credential has an eligibility witness. */
  lemma EligibilityIsComplete(H: Hash<Field>, credentials: seq<ActiveCredential>, d: nat, i: nat,
                              policy: seq<PolicyTuple>, e: nat, j: nat, intent: TradeIntent)
    requires |credentials| == Pow2(d) && i < |credentials| && |policy| == Pow2(e) && j < |policy|
    requires policy[j] == PolicyTuple(credentials[i].investorClass, credentials[i].jurisdiction)
    requires intent.policyRoot == PolicyRoot(H, policy, e)
    requires intent.recipientCommitment == BindRecipient(H, credentials[i].subjectSecret,
                                                         credentials[i].approvedReceiver)
    requires credentials[i].credentialExpiry >= intent.expiry
    ensures Eligibility(H, d, e, CredentialRoot(H, credentials, d), TradeCommitmentV1(H, intent),
                        HonestEligibility(H, credentials, d, i, policy, e, j, intent))
  {
    var w := HonestEligibility(H, credentials, d, i, policy, e, j, intent);
    HonestEligibilityDecodes(H, credentials, d, i, policy, e, j, intent);
    EligibilityHashers(H, w);
    SignalsRoundTrip(intent);
    TradeHasherIsCommitment(H, w.trade, intent.recipientCommitment);
    EntryAt(CredentialSchema(H), credentials, i);
    EntryAt(PolicySchema(H), policy, j);
    MembershipHolds(H, Leaves(CredentialSchema(H), credentials), d, i);
    MembershipHolds(H, Leaves(PolicySchema(H), policy), e, j);
    GreaterEqMeaning(64, w.credentialExpiry, w.trade.expiry, 1);
  }

  /** Compliance suffices: a compliant intent has both proofs, whatever the hash. */
  lemma CompliantTradeIsProvable(H: Hash<Field>, r: Registries, k: nat, intent: TradeIntent)
    requires r.Full() && k < |r.issuances| && PolicyIsPublished(H, r, k) && Compliant(H, r, k, intent)
    ensures exists p :: Provenance(H, r.issuanceDepth, IssuanceRoot(H, r.issuances, r.issuanceDepth),
                                   TradeCommitmentV1(H, intent), p)
    ensures exists e :: Eligibility(H, r.credentialDepth, r.policyDepth,
                                    CredentialRoot(H, r.credentials, r.credentialDepth),
                                    TradeCommitmentV1(H, intent), e)
  {
    var c :| c in r.credentials && Backs(H, c, r.policies[k], intent);
    var i :| 0 <= i < |r.credentials| && r.credentials[i] == c;
    var j :| 0 <= j < |r.policies[k]| && r.policies[k][j] == PolicyTuple(c.investorClass, c.jurisdiction);
    ProvenanceIsComplete(H, r.issuances, r.issuanceDepth, k, intent);
    EligibilityIsComplete(H, r.credentials, r.credentialDepth, i, r.policies[k], r.policyDepth, j, intent);
  }
}
