/**
 The frozen hash schema spelled out, independently of the functions that build its inputs: every
 domain tag as its label, every limb as a part of the number the bytes denote, every hash with its
 inputs in order.
 Sources: docs/trade-commitment-v1.md, crates/commitments/src/{domain,trade,asset_base,receiver}.rs,
 crates/credentials/src/credential.rs.
 */
module FrozenSchema {
  import opened Machine
  import opened Positional
  import opened Protocol
  import opened Hashing
  import opened Encoding
  import opened Commitments
  import opened Credentials

  // ---------- domain tags ----------

  /** ASCII text read as a big-endian integer, after `acc`. */
  function Label(acc: int, text: string): int
    decreases |text|
  {
    if text == "" then acc else Label(256 * acc + text[0] as int, text[1..])
  }

  lemma AssetAndFeeTags()
    ensures ASSET_V1 == Label(0, "ASSETV1") && FEE_V1 == Label(0, "FEEV1") && ZEC_ASSET_TAG == Label(0, "ZEC")
  {
  }

  lemma TradePartTags()
    ensures TRADE_A_V1 == Label(0, "TRDA_V1") && TRADE_B_V1 == Label(0, "TRDB_V1")
  {
  }

  lemma TradeTags()
    ensures TRADE_META_V1 == Label(0, "TRDM_V1") && TRADE_V1 == Label(0, "TRADE_V1")
  {
  }

  lemma RecipientTags()
    ensures SUBJECT_V1 == Label(0, "SUBJECT1") && RECEIVER_V1 == Label(0, "RECEIVR1")
  {
  }

  lemma BindingTags()
    ensures RECIPIENT_BINDING_V1 == Label(0, "RCPBIND1") && FEE_RECIPIENT_V1 == Label(0, "FRCPTV1")
  {
  }

  lemma CredentialTags()
    ensures CREDENTIAL_V1 == Label(0, "CRED_V1") && CREDENTIAL_V2 == Label(0, "CRED_V2")
  {
  }

  lemma CredentialMetaTags()
    ensures CREDENTIAL_META_V1 == Label(0, "CREDMETA")
  {
  }

  lemma PolicyTags()
    ensures ELIGIBILITY_POLICY_V1 == Label(0, "ELIGPOL1")
  {
  }

  lemma IssuanceTags()
    ensures ISSUANCE_META_V1 == Label(0, "ISSMETA1") && ISSUANCE_V1 == Label(0, "ISSUEV1")
  {
  }

  function Tags(): seq<Field>
  {
    [ASSET_V1, FEE_V1, ZEC_ASSET_TAG, TRADE_A_V1, TRADE_B_V1, TRADE_META_V1, TRADE_V1, SUBJECT_V1, RECEIVER_V1,
     RECIPIENT_BINDING_V1, FEE_RECIPIENT_V1, CREDENTIAL_META_V1, CREDENTIAL_V1, CREDENTIAL_V2, ELIGIBILITY_POLICY_V1,
     ISSUANCE_META_V1, ISSUANCE_V1]
  }

  /** No two hashes of the schema share a domain. */
  lemma TagsAreDistinct(i: nat, j: nat)
    requires i < j < |Tags()|
    ensures Tags()[i] != Tags()[j]
  {
  }

  // ---------- limbs as parts of a number ----------

  /** The two limbs are the halves of the little-endian number the 32 bytes denote. */
  lemma AssetLimbsValue(asset: AssetBase)
    ensures var l := EncodeAssetBase(asset); LeVal(asset, 256) == l.lo + TWO_128 * l.hi
  {
    PowersOf256();
    assert asset == asset[..16] + asset[16..];
    LeAppend(asset[..16], asset[16..], 256);
  }

  lemma AssetLimbsAre(asset: AssetBase, hi: u128, lo: u128)
    requires LeVal(asset, 256) == lo + TWO_128 * hi
    ensures EncodeAssetBase(asset) == AssetLimbs(hi, lo)
  {
    var l := EncodeAssetBase(asset);
    AssetLimbsValue(asset);
    SameDigitSameRest(l.lo, l.hi, lo, hi, TWO_128);
  }

  /** The three limbs are the 128, 128 and 88 bits of the little-endian number the 43 bytes denote. */
  lemma ReceiverLimbsValue(receiver: Receiver)
    ensures var l := EncodeReceiver(receiver);
      LeVal(receiver, 256) == l.limb0 + TWO_128 * (l.limb1 + TWO_128 * l.limb2)
  {
    var rest := receiver[16..];
    PowersOf256();
    assert receiver == receiver[..16] + rest;
    LeAppend(receiver[..16], rest, 256);
    assert rest[..16] == receiver[16..32] && rest[16..] == receiver[32..] && rest == rest[..16] + rest[16..];
    LeAppend(rest[..16], rest[16..], 256);
  }

  lemma ReceiverLimbsAre(receiver: Receiver, limb0: u128, limb1: u128, limb2: u128)
    requires LeVal(receiver, 256) == limb0 + TWO_128 * (limb1 + TWO_128 * limb2)
    ensures var l := EncodeReceiver(receiver); l.limb0 == limb0 && l.limb1 == limb1 && l.limb2 == limb2
  {
    var l := EncodeReceiver(receiver);
    ReceiverLimbsValue(receiver);
    SameDigitSameRest(l.limb0, l.limb1 + TWO_128 * l.limb2, limb0, limb1 + TWO_128 * limb2, TWO_128);
    SameDigitSameRest(l.limb1, l.limb2, limb1, limb2, TWO_128);
  }

  // ---------- staged hashes ----------

  /** All seven stages of a trade commitment, for the limbs of the two assets. */
  lemma TradeStages(H: Hash<Field>, i: TradeIntent, offeredHi: u128, offeredLo: u128, requestedHi: u128,
                    requestedLo: u128)
    requires LeVal(i.offeredAsset, 256) == offeredLo + TWO_128 * offeredHi
    requires LeVal(i.requestedAsset, 256) == requestedLo + TWO_128 * requestedHi
    ensures var p := PartsOf(H, i);
      && p.offeredAssetCommitment == H([ASSET_V1, offeredHi, offeredLo])
      && p.requestedAssetCommitment == H([ASSET_V1, requestedHi, requestedLo])
      && p.feeCommitment == H([FEE_V1, ZEC_ASSET_TAG, i.matcherFee.amount, i.matcherFee.recipientCommitment])
      && p.tradePartA == H([TRADE_A_V1, p.offeredAssetCommitment, i.offeredAmount, p.requestedAssetCommitment])
      && p.tradePartB == H([TRADE_B_V1, i.requestedAmount, i.recipientCommitment, i.policyRoot])
      && p.tradeMeta == H([TRADE_META_V1, p.feeCommitment, i.nonce, i.expiry])
      && p.tradeCommitment == H([TRADE_V1, p.tradePartA, p.tradePartB, p.tradeMeta])
      && TradeCommitmentV1(H, i) == p.tradeCommitment
  {
    AssetLimbsAre(i.offeredAsset, offeredHi, offeredLo);
    AssetLimbsAre(i.requestedAsset, requestedHi, requestedLo);
  }

  /** The recipient commitment, for the limbs of the receiver. */
  lemma RecipientStages(H: Hash<Field>, secret: Field, receiver: Receiver, limb0: u128, limb1: u128, limb2: u128)
    requires LeVal(receiver, 256) == limb0 + TWO_128 * (limb1 + TWO_128 * limb2)
    ensures SubjectCommitment(H, secret) == H([SUBJECT_V1, secret])
    ensures ReceiverCommitment(H, receiver) == H([RECEIVER_V1, limb0, limb1, limb2])
    ensures BindRecipient(H, secret, receiver) ==
      H([RECIPIENT_BINDING_V1, H([SUBJECT_V1, secret]), H([RECEIVER_V1, limb0, limb1, limb2])])
  {
    ReceiverLimbsAre(receiver, limb0, limb1, limb2);
  }

  /** The fee recipient commitment: length and chunk count, then the three limbs with their positions. */
  lemma FeeRecipientLimbs(H: Hash<Field>, receiver: Receiver, limb0: u128, limb1: u128, limb2: u128)
    requires LeVal(receiver, 256) == limb0 + TWO_128 * (limb1 + TWO_128 * limb2)
    ensures MatcherFeeRecipientCommitment(H, receiver) ==
      H([H([H([H([FEE_RECIPIENT_V1, 43, 3]), limb0, 0]), limb1, 1]), limb2, 2])
  {
    ReceiverLimbsAre(receiver, limb0, limb1, limb2);
    FeeRecipientStages(H, receiver);
  }

  /** The active credential leaf, for the limbs of the approved receiver. */
  lemma CredentialStages(H: Hash<Field>, c: ActiveCredential, limb0: u128, limb1: u128, limb2: u128)
    requires LeVal(c.approvedReceiver, 256) == limb0 + TWO_128 * (limb1 + TWO_128 * limb2)
    ensures CredentialLeaf(H, c) ==
      H([CREDENTIAL_V2, c.authorityCommitment, H([SUBJECT_V1, c.subjectSecret]),
         H([CREDENTIAL_META_V1, c.investorClass, c.jurisdiction, c.credentialExpiry]), c.nonce,
         H([RECEIVER_V1, limb0, limb1, limb2])])
  {
    ReceiverLimbsAre(c.approvedReceiver, limb0, limb1, limb2);
  }

  /** The issuance leaf, for the limbs of the asset, and the policy leaf. */
  lemma RegistryStages(H: Hash<Field>, s: Issuance, t: PolicyTuple, hi: u128, lo: u128)
    requires LeVal(s.offeredAsset, 256) == lo + TWO_128 * hi
    ensures IssuanceLeaf(H, s) ==
      H([ISSUANCE_V1, s.issuerCommitment, H([ASSET_V1, hi, lo]),
         H([ISSUANCE_META_V1, s.seriesCommitment, s.policyRoot, s.issuanceNonce])])
    ensures PolicyLeaf(H, t) == H([ELIGIBILITY_POLICY_V1, t.investorClass, t.jurisdiction])
  {
    AssetLimbsAre(s.offeredAsset, hi, lo);
  }
}
