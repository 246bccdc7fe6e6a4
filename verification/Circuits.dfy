/**
 The provenance and eligibility circuits as relations between public values and a witness.
 Sources: circuits/provenance/rwa_trade_provenance_v1.circom,
 circuits/eligibility/rwa_investor_eligibility_v1.circom.

 The Merkle depth is a parameter, as in the templates.
 */
module Circuits {
  import opened Machine
  import opened Protocol
  import opened Hashing
  import opened Gadgets
  import opened Encoding
  import opened Commitments
  import opened Credentials

  /** The signals both circuits use to rebuild `TradeCommitmentV1`. */
  datatype TradeSignals = TradeSignals(
    offeredAssetHi: Field, offeredAssetLo: Field, offeredAmount: Field,
    requestedAssetHi: Field, requestedAssetLo: Field, requestedAmount: Field,
    policyRoot: Field, matcherFeeAmount: Field, matcherFeeRecipientCommitment: Field,
    nonce: Field, expiry: Field)

  ghost predicate TradeRanges(t: TradeSignals)
  {
    && Num2Bits(128, t.offeredAssetHi) && Num2Bits(128, t.offeredAssetLo)
    && Num2Bits(128, t.requestedAssetHi) && Num2Bits(128, t.requestedAssetLo)
    && Num2Bits(64, t.offeredAmount) && Num2Bits(64, t.requestedAmount)
    && Num2Bits(64, t.matcherFeeAmount) && Num2Bits(64, t.nonce) && Num2Bits(64, t.expiry)
  }

  /** `tradeHasher.out` */
  function TradeHasher(H: Hash<Field>, t: TradeSignals, recipientCommitment: Field): Field
  {
    var offeredAsset := H([ASSET_V1, t.offeredAssetHi, t.offeredAssetLo]);
    var requestedAsset := H([ASSET_V1, t.requestedAssetHi, t.requestedAssetLo]);
    var fee := H([FEE_V1, ZEC_ASSET_TAG, t.matcherFeeAmount, t.matcherFeeRecipientCommitment]);
    var partA := H([TRADE_A_V1, offeredAsset, t.offeredAmount, requestedAsset]);
    var partB := H([TRADE_B_V1, t.requestedAmount, recipientCommitment, t.policyRoot]);
    var meta := H([TRADE_META_V1, fee, t.nonce, t.expiry]);
    H([TRADE_V1, partA, partB, meta])
  }

  // ---------- provenance ----------

  datatype ProvenanceWitness = ProvenanceWitness(
    issuerCommitment: Field, seriesCommitment: Field, issuanceNonce: Field,
    siblings: seq<Field>, pathIndices: seq<Field>,
    trade: TradeSignals, recipientCommitment: Field,
    membership: MerkleSignals)

  /** `issuanceLeafHasher.out` */
  function IssuanceLeafHasher(H: Hash<Field>, w: ProvenanceWitness): Field
  {
    var offeredAsset := H([ASSET_V1, w.trade.offeredAssetHi, w.trade.offeredAssetLo]);
    var issuanceMeta := H([ISSUANCE_META_V1, w.seriesCommitment, w.trade.policyRoot, w.issuanceNonce]);
    H([ISSUANCE_V1, w.issuerCommitment, offeredAsset, issuanceMeta])
  }

  ghost predicate Provenance(H: Hash<Field>, depth: nat, authorizedIssuanceRoot: Field, tradeCommitment: Field,
                             w: ProvenanceWitness)
  {
    && TradeRanges(w.trade) && Num2Bits(64, w.issuanceNonce)
    && MerkleProofVerifier(H, depth, IssuanceLeafHasher(H, w), authorizedIssuanceRoot, w.siblings, w.pathIndices, 1,
                           w.membership)
    && TradeHasher(H, w.trade, w.recipientCommitment) == tradeCommitment
  }

  // ---------- eligibility ----------

  datatype EligibilityWitness = EligibilityWitness(
    subjectSecret: Field, credentialAuthorityCommitment: Field,
    investorClass: Field, jurisdiction: Field, credentialExpiry: Field, credentialNonce: Field,
    credentialSiblings: seq<Field>, credentialPathIndices: seq<Field>,
    allowedInvestorClass: Field, allowedJurisdiction: Field,
    policySiblings: seq<Field>, policyPathIndices: seq<Field>,
    receiverLimb0: Field, receiverLimb1: Field, receiverLimb2: Field,
    trade: TradeSignals,
    credentialMembership: MerkleSignals, policyMembership: MerkleSignals,
    validThroughTrade: Field)

  ghost predicate EligibilityRanges(w: EligibilityWitness)
  {
    && TradeRanges(w.trade)
    && Num2Bits(128, w.receiverLimb0) && Num2Bits(128, w.receiverLimb1) && Num2Bits(88, w.receiverLimb2)
    && Num2Bits(8, w.investorClass) && Num2Bits(8, w.allowedInvestorClass)
    && Num2Bits(16, w.jurisdiction) && Num2Bits(16, w.allowedJurisdiction)
    && Num2Bits(64, w.credentialExpiry) && Num2Bits(64, w.credentialNonce)
  }

  function SubjectHasher(H: Hash<Field>, w: EligibilityWitness): Field
  {
    H([SUBJECT_V1, w.subjectSecret])
  }

  /** One signal, consumed by the credential leaf and by the recipient binding. */
  function ReceiverHasher(H: Hash<Field>, w: EligibilityWitness): Field
  {
    H([RECEIVER_V1, w.receiverLimb0, w.receiverLimb1, w.receiverLimb2])
  }

  function CredentialLeafHasher(H: Hash<Field>, w: EligibilityWitness): Field
  {
    var credentialMeta := H([CREDENTIAL_META_V1, w.investorClass, w.jurisdiction, w.credentialExpiry]);
    H([CREDENTIAL_V2, w.credentialAuthorityCommitment, SubjectHasher(H, w), credentialMeta, w.credentialNonce,
       ReceiverHasher(H, w)])
  }

  function RecipientHasher(H: Hash<Field>, w: EligibilityWitness): Field
  {
    H([RECIPIENT_BINDING_V1, SubjectHasher(H, w), ReceiverHasher(H, w)])
  }

  function PolicyLeafHasher(H: Hash<Field>, w: EligibilityWitness): Field
  {
    H([ELIGIBILITY_POLICY_V1, w.allowedInvestorClass, w.allowedJurisdiction])
  }

  ghost predicate Eligibility(H: Hash<Field>, credentialDepth: nat, policyDepth: nat,
                              activeCredentialRoot: Field, tradeCommitment: Field, w: EligibilityWitness)
  {
    && EligibilityRanges(w)
    && w.investorClass == w.allowedInvestorClass && w.jurisdiction == w.allowedJurisdiction
    && MerkleProofVerifier(H, credentialDepth, CredentialLeafHasher(H, w), activeCredentialRoot,
                           w.credentialSiblings, w.credentialPathIndices, 1, w.credentialMembership)
    && MerkleProofVerifier(H, policyDepth, PolicyLeafHasher(H, w), w.trade.policyRoot,
                           w.policySiblings, w.policyPathIndices, 1, w.policyMembership)
    && ZKGreaterEqThan(64, w.credentialExpiry, w.trade.expiry, w.validThroughTrade) && w.validThroughTrade == 1
    && TradeHasher(H, w.trade, RecipientHasher(H, w)) == tradeCommitment
  }

  // ---------- what a witness denotes ----------

  lemma TradeWidths(t: TradeSignals)
    requires TradeRanges(t)
    ensures t.offeredAssetHi < TWO_128 && t.offeredAssetLo < TWO_128
    ensures t.requestedAssetHi < TWO_128 && t.requestedAssetLo < TWO_128
    ensures t.offeredAmount < TWO_64 && t.requestedAmount < TWO_64 && t.matcherFeeAmount < TWO_64
    ensures t.nonce < TWO_64 && t.expiry < TWO_64
  {
    Num2BitsWidths(t.offeredAssetHi);
    Num2BitsWidths(t.offeredAssetLo);
    Num2BitsWidths(t.requestedAssetHi);
    Num2BitsWidths(t.requestedAssetLo);
    Num2BitsWidths(t.offeredAmount);
    Num2BitsWidths(t.requestedAmount);
    Num2BitsWidths(t.matcherFeeAmount);
    Num2BitsWidths(t.nonce);
    Num2BitsWidths(t.expiry);
  }

  /** The intent a range-checked trade witness denotes, assets decoded back to bytes. */
  function DecodeIntent(t: TradeSignals, recipientCommitment: Field): TradeIntent
    requires TradeRanges(t)
  {
    TradeWidths(t);
    TradeIntent(
      AssetBaseOf(AssetLimbs(t.offeredAssetHi, t.offeredAssetLo)), t.offeredAmount,
      AssetBaseOf(AssetLimbs(t.requestedAssetHi, t.requestedAssetLo)), t.requestedAmount,
      recipientCommitment, t.policyRoot, MatcherFee(t.matcherFeeAmount, t.matcherFeeRecipientCommitment),
      t.nonce, t.expiry)
  }

  lemma TradeHasherIsCommitment(H: Hash<Field>, t: TradeSignals, recipientCommitment: Field)
    requires TradeRanges(t)
    ensures TradeCommitmentV1(H, DecodeIntent(t, recipientCommitment)) == TradeHasher(H, t, recipientCommitment)
    ensures AssetQuery(DecodeIntent(t, recipientCommitment).offeredAsset) ==
      [ASSET_V1, t.offeredAssetHi, t.offeredAssetLo]
  {
    TradeWidths(t);
    var offered := AssetLimbs(t.offeredAssetHi, t.offeredAssetLo);
    var requested := AssetLimbs(t.requestedAssetHi, t.requestedAssetLo);
    AssetRoundTrip(AssetBaseOf(offered), offered);
    AssetRoundTrip(AssetBaseOf(requested), requested);
  }

  lemma EligibilityWidths(w: EligibilityWitness)
    requires EligibilityRanges(w)
    ensures w.receiverLimb0 < TWO_128 && w.receiverLimb1 < TWO_128 && w.receiverLimb2 <= RECEIVER_LIMB2_MAX
    ensures w.investorClass < 256 && w.jurisdiction < 0x1_0000
    ensures w.allowedInvestorClass < 256 && w.allowedJurisdiction < 0x1_0000
    ensures w.credentialExpiry < TWO_64 && w.credentialNonce < TWO_64
  {
    Num2BitsWidths(w.receiverLimb0);
    Num2BitsWidths(w.receiverLimb1);
    Num2BitsWidths(w.receiverLimb2);
    Num2BitsWidths(w.investorClass);
    Num2BitsWidths(w.jurisdiction);
    Num2BitsWidths(w.credentialExpiry);
    Num2BitsWidths(w.credentialNonce);
    Num2BitsWidths(w.allowedInvestorClass);
    Num2BitsWidths(w.allowedJurisdiction);
  }

  /** The receiver an eligibility witness settles to. */
  function DecodeReceiverOf(w: EligibilityWitness): Receiver
    requires EligibilityRanges(w)
  {
    EligibilityWidths(w);
    ReceiverOf(ReceiverLimbs(w.receiverLimb0, w.receiverLimb1, w.receiverLimb2))
  }

  /** The credential an eligibility witness presents, with the receiver it settles to. */
  function DecodeCredential(w: EligibilityWitness): ActiveCredential
    requires EligibilityRanges(w)
  {
    EligibilityWidths(w);
    ActiveCredential(w.credentialAuthorityCommitment, w.subjectSecret, w.investorClass, w.jurisdiction,
                     w.credentialExpiry, w.credentialNonce, DecodeReceiverOf(w))
  }

  function DecodePolicy(w: EligibilityWitness): PolicyTuple
    requires EligibilityRanges(w)
  {
    EligibilityWidths(w);
    PolicyTuple(w.allowedInvestorClass, w.allowedJurisdiction)
  }

  function DecodeIssuance(w: ProvenanceWitness): Issuance
    requires TradeRanges(w.trade) && Num2Bits(64, w.issuanceNonce)
  {
    Num2BitsWidths(w.issuanceNonce);
    Issuance(w.issuerCommitment, DecodeIntent(w.trade, w.recipientCommitment).offeredAsset, w.seriesCommitment,
             w.trade.policyRoot, w.issuanceNonce)
  }

  /** The circuit's leaves and bindings are those of the decoded credential, policy tuple and issuance. */
  lemma EligibilityHashers(H: Hash<Field>, w: EligibilityWitness)
    requires EligibilityRanges(w)
    ensures ReceiverQuery(DecodeReceiverOf(w)) == [RECEIVER_V1, w.receiverLimb0, w.receiverLimb1, w.receiverLimb2]
    ensures CredentialLeafHasher(H, w) == CredentialLeaf(H, DecodeCredential(w))
    ensures RecipientHasher(H, w) == BindRecipient(H, w.subjectSecret, DecodeReceiverOf(w))
    ensures PolicyLeafHasher(H, w) == PolicyLeaf(H, DecodePolicy(w))
  {
    EligibilityWidths(w);
    ReceiverDecodeEncode(ReceiverLimbs(w.receiverLimb0, w.receiverLimb1, w.receiverLimb2));
  }

  lemma ProvenanceHashers(H: Hash<Field>, w: ProvenanceWitness)
    requires TradeRanges(w.trade) && Num2Bits(64, w.issuanceNonce)
    ensures IssuanceLeafHasher(H, w) == IssuanceLeaf(H, DecodeIssuance(w))
  {
    TradeHasherIsCommitment(H, w.trade, w.recipientCommitment);
  }

  /** Without any assumption on the hash: a provenance witness denotes an intent with the public commitment. */
  lemma ProvenanceDenotesIntent(H: Hash<Field>, depth: nat, root: Field, tradeCommitment: Field, w: ProvenanceWitness)
    requires Provenance(H, depth, root, tradeCommitment, w)
    ensures TradeCommitmentV1(H, DecodeIntent(w.trade, w.recipientCommitment)) == tradeCommitment
  {
    TradeHasherIsCommitment(H, w.trade, w.recipientCommitment);
  }

  /** The intent of an eligibility witness: its recipient is the binding of subject and receiver. */
  function EligibilityIntent(H: Hash<Field>, w: EligibilityWitness): TradeIntent
    requires EligibilityRanges(w)
  {
    DecodeIntent(w.trade, BindRecipient(H, w.subjectSecret, DecodeReceiverOf(w)))
  }

  lemma EligibilityDenotesIntent(H: Hash<Field>, credentialDepth: nat, policyDepth: nat, root: Field,
                                 tradeCommitment: Field, w: EligibilityWitness)
    requires Eligibility(H, credentialDepth, policyDepth, root, tradeCommitment, w)
    ensures TradeCommitmentV1(H, EligibilityIntent(H, w)) == tradeCommitment
    ensures DecodeCredential(w).credentialExpiry >= EligibilityIntent(H, w).expiry
    ensures DecodePolicy(w) == PolicyTuple(DecodeCredential(w).investorClass, DecodeCredential(w).jurisdiction)
  {
    EligibilityHashers(H, w);
    TradeHasherIsCommitment(H, w.trade, RecipientHasher(H, w));
    GreaterEqMeaning(64, w.credentialExpiry, w.trade.expiry, w.validThroughTrade);
  }
}
