/**
 The staged hash `TradeCommitmentV1` and the recipient binding.
 Sources: crates/commitments/src/{trade,domain}.rs, circuits/shared/trade-commitment-v1.js (computeTrade).
 */
module Commitments {
  import opened Machine
  import opened Protocol
  import opened Hashing
  import opened Encoding
  import opened Hex
  import CanonicalBytes
  import DecimalText
  import FieldElement

  const ASSET_V1: Field := 18387490596738609
  const FEE_V1: Field := 301809882673
  const TRADE_A_V1: Field := 23734351151715889
  const TRADE_B_V1: Field := 23734351168493105
  const TRADE_META_V1: Field := 23734351353042481
  const TRADE_V1: Field := 6075990608753677873
  const ZEC_ASSET_TAG: Field := 5915971
  const SUBJECT_V1: Field := 6004778564925477937
  const RECEIVER_V1: Field := 5928218449365324337
  const RECIPIENT_BINDING_V1: Field := 5927669780177634353
  const FEE_RECIPIENT_V1: Field := 19793697433736753

  // ---------- inputs of each hash ----------

  function AssetQuery(asset: AssetBase): Query<Field>
  {
    var limbs := EncodeAssetBase(asset);
    [ASSET_V1, limbs.hi, limbs.lo]
  }

  function SubjectQuery(secret: Field): Query<Field>
  {
    [SUBJECT_V1, secret]
  }

  function ReceiverQuery(receiver: Receiver): Query<Field>
  {
    var limbs := EncodeReceiver(receiver);
    [RECEIVER_V1, limbs.limb0, limbs.limb1, limbs.limb2]
  }

  function FeeQuery(fee: MatcherFee): Query<Field>
  {
    [FEE_V1, ZEC_ASSET_TAG, fee.amount, fee.recipientCommitment]
  }

  function PartAQuery(H: Hash<Field>, i: TradeIntent): Query<Field>
  {
    [TRADE_A_V1, H(AssetQuery(i.offeredAsset)), i.offeredAmount, H(AssetQuery(i.requestedAsset))]
  }

  function PartBQuery(i: TradeIntent): Query<Field>
  {
    [TRADE_B_V1, i.requestedAmount, i.recipientCommitment, i.policyRoot]
  }

  function MetaQuery(H: Hash<Field>, i: TradeIntent): Query<Field>
  {
    [TRADE_META_V1, H(FeeQuery(i.matcherFee)), i.nonce, i.expiry]
  }

  function TradeQuery(H: Hash<Field>, i: TradeIntent): Query<Field>
  {
    [TRADE_V1, H(PartAQuery(H, i)), H(PartBQuery(i)), H(MetaQuery(H, i))]
  }

  /** Every input hashed while computing the trade commitment. */
  function TradeQueries(H: Hash<Field>, i: TradeIntent): seq<Query<Field>>
  {
    [AssetQuery(i.offeredAsset), AssetQuery(i.requestedAsset), FeeQuery(i.matcherFee),
     PartAQuery(H, i), PartBQuery(i), MetaQuery(H, i), TradeQuery(H, i)]
  }

  // ---------- commitments ----------

  function SubjectCommitment(H: Hash<Field>, secret: Field): Field
  {
    H(SubjectQuery(secret))
  }

  function ReceiverCommitment(H: Hash<Field>, receiver: Receiver): Field
  {
    H(ReceiverQuery(receiver))
  }

  function RecipientQuery(H: Hash<Field>, secret: Field, receiver: Receiver): Query<Field>
  {
    [RECIPIENT_BINDING_V1, SubjectCommitment(H, secret), ReceiverCommitment(H, receiver)]
  }

  function BindRecipient(H: Hash<Field>, secret: Field, receiver: Receiver): Field
  {
    H(RecipientQuery(H, secret, receiver))
  }

  function BindingQueries(H: Hash<Field>, secret: Field, receiver: Receiver): seq<Query<Field>>
  {
    [SubjectQuery(secret), ReceiverQuery(receiver), RecipientQuery(H, secret, receiver)]
  }

  function MatcherFeeRecipientCommitment(H: Hash<Field>, receiver: Receiver): Field
  {
    CanonicalBytes.CommitBytes(H, FEE_RECIPIENT_V1, receiver)
  }

  function TradeCommitmentV1(H: Hash<Field>, i: TradeIntent): Field
  {
    H(TradeQuery(H, i))
  }

  /** Every intermediate value of `TradeCommitmentV1`. */
  datatype TradeCommitmentParts = TradeCommitmentParts(
    offeredAssetCommitment: Field, requestedAssetCommitment: Field, feeCommitment: Field,
    tradePartA: Field, tradePartB: Field, tradeMeta: Field, tradeCommitment: Field)

  function PartsOf(H: Hash<Field>, i: TradeIntent): TradeCommitmentParts
  {
    TradeCommitmentParts(
      H(AssetQuery(i.offeredAsset)), H(AssetQuery(i.requestedAsset)), H(FeeQuery(i.matcherFee)),
      H(PartAQuery(H, i)), H(PartBQuery(i)), H(MetaQuery(H, i)), TradeCommitmentV1(H, i))
  }

  /** The matcher gate: recompute and compare. */
  function VerifyTradeCommitment(H: Hash<Field>, i: TradeIntent, expected: Field): (r: Result<()>)
    ensures r.Ok? <==> TradeCommitmentV1(H, i) == expected
  {
    var actual := TradeCommitmentV1(H, i);
    if actual != expected then
      Err(CommitmentMismatch(FieldElement.PrintDecimal(FieldElement.OfValue(expected)),
                             FieldElement.PrintDecimal(FieldElement.OfValue(actual))))
    else
      Ok(())
  }

  /** A mismatch is reported by the decimal texts of the presented and of the recomputed commitment. */
  lemma MismatchNamesBoth(H: Hash<Field>, i: TradeIntent, expected: Field)
    requires VerifyTradeCommitment(H, i, expected).Err?
    ensures var e := VerifyTradeCommitment(H, i, expected).error;
      && e.CommitmentMismatch? && e.expected != e.actual
      && FieldElement.ParseDecimal(e.expected) == Ok(FieldElement.OfValue(expected))
      && FieldElement.ParseDecimal(e.actual) == Ok(FieldElement.OfValue(TradeCommitmentV1(H, i)))
  {
    var actual := TradeCommitmentV1(H, i);
    DecimalText.ParsePrinted(FieldElement.OfValue(expected));
    DecimalText.ParsePrinted(FieldElement.OfValue(actual));
    FieldElement.ValueIsBijective(FieldElement.OfValue(0), expected);
    FieldElement.ValueIsBijective(FieldElement.OfValue(0), actual);
  }

  // ---------- binding ----------

  lemma AssetBinding(H: Hash<Field>, all: seq<Query<Field>>, a: AssetBase, b: AssetBase)
    requires CollisionFree(H, all) && AssetQuery(a) in all && AssetQuery(b) in all
    requires H(AssetQuery(a)) == H(AssetQuery(b))
    ensures a == b
  {
    SameInput(H, all, AssetQuery(a), AssetQuery(b));
    assert AssetQuery(a)[1] == AssetQuery(b)[1] && AssetQuery(a)[2] == AssetQuery(b)[2];
    AssetRoundTrip(a, EncodeAssetBase(a));
    AssetRoundTrip(b, EncodeAssetBase(b));
  }

  lemma ReceiverBinding(H: Hash<Field>, all: seq<Query<Field>>, a: Receiver, b: Receiver)
    requires CollisionFree(H, all) && ReceiverQuery(a) in all && ReceiverQuery(b) in all
    requires H(ReceiverQuery(a)) == H(ReceiverQuery(b))
    ensures a == b
  {
    SameInput(H, all, ReceiverQuery(a), ReceiverQuery(b));
    assert ReceiverQuery(a)[1] == ReceiverQuery(b)[1] && ReceiverQuery(a)[2] == ReceiverQuery(b)[2];
    assert ReceiverQuery(a)[3] == ReceiverQuery(b)[3];
    ReceiverEncodeDecode(a);
    ReceiverEncodeDecode(b);
  }

  lemma SubjectBinding(H: Hash<Field>, all: seq<Query<Field>>, a: Field, b: Field)
    requires CollisionFree(H, all) && SubjectQuery(a) in all && SubjectQuery(b) in all
    requires H(SubjectQuery(a)) == H(SubjectQuery(b))
    ensures a == b
  {
    SameInput(H, all, SubjectQuery(a), SubjectQuery(b));
    assert SubjectQuery(a)[1] == SubjectQuery(b)[1];
  }

  ghost predicate Listed(part: seq<Query<Field>>, all: seq<Query<Field>>)
  {
    forall q {:trigger q in part} :: q in part ==> q in all
  }

  lemma TradeListed(H: Hash<Field>, i: TradeIntent, all: seq<Query<Field>>)
    requires Listed(TradeQueries(H, i), all)
    ensures AssetQuery(i.offeredAsset) in all && AssetQuery(i.requestedAsset) in all && FeeQuery(i.matcherFee) in all
    ensures PartAQuery(H, i) in all && PartBQuery(i) in all && MetaQuery(H, i) in all && TradeQuery(H, i) in all
  {
    var q := TradeQueries(H, i);
    assert q[0] in q && q[1] in q && q[2] in q && q[3] in q && q[4] in q && q[5] in q && q[6] in q;
  }

  lemma PartsAgree(H: Hash<Field>, all: seq<Query<Field>>, i: TradeIntent, j: TradeIntent)
    requires CollisionFree(H, all) && Listed(TradeQueries(H, i), all) && Listed(TradeQueries(H, j), all)
    requires TradeCommitmentV1(H, i) == TradeCommitmentV1(H, j)
    ensures H(PartAQuery(H, i)) == H(PartAQuery(H, j))
    ensures H(PartBQuery(i)) == H(PartBQuery(j)) && H(MetaQuery(H, i)) == H(MetaQuery(H, j))
  {
    TradeListed(H, i, all);
    TradeListed(H, j, all);
    var q, q' := TradeQuery(H, i), TradeQuery(H, j);
    SameInput(H, all, q, q');
    assert q[1] == q'[1] && q[2] == q'[2] && q[3] == q'[3];
  }

  lemma PartABinding(H: Hash<Field>, all: seq<Query<Field>>, i: TradeIntent, j: TradeIntent)
    requires CollisionFree(H, all) && Listed(TradeQueries(H, i), all) && Listed(TradeQueries(H, j), all)
    requires H(PartAQuery(H, i)) == H(PartAQuery(H, j))
    ensures i.offeredAsset == j.offeredAsset && i.offeredAmount == j.offeredAmount &&
      i.requestedAsset == j.requestedAsset
  {
    TradeListed(H, i, all);
    TradeListed(H, j, all);
    var q, q' := PartAQuery(H, i), PartAQuery(H, j);
    SameInput(H, all, q, q');
    assert q[1] == q'[1] && q[2] == q'[2] && q[3] == q'[3];
    AssetBinding(H, all, i.offeredAsset, j.offeredAsset);
    AssetBinding(H, all, i.requestedAsset, j.requestedAsset);
  }

  lemma PartBBinding(H: Hash<Field>, all: seq<Query<Field>>, i: TradeIntent, j: TradeIntent)
    requires CollisionFree(H, all) && Listed(TradeQueries(H, i), all) && Listed(TradeQueries(H, j), all)
    requires H(PartBQuery(i)) == H(PartBQuery(j))
    ensures i.requestedAmount == j.requestedAmount
    ensures i.recipientCommitment == j.recipientCommitment && i.policyRoot == j.policyRoot
  {
    TradeListed(H, i, all);
    TradeListed(H, j, all);
    var q, q' := PartBQuery(i), PartBQuery(j);
    SameInput(H, all, q, q');
    assert q[1] == q'[1] && q[2] == q'[2] && q[3] == q'[3];
  }

  lemma MetaBinding(H: Hash<Field>, all: seq<Query<Field>>, i: TradeIntent, j: TradeIntent)
    requires CollisionFree(H, all) && Listed(TradeQueries(H, i), all) && Listed(TradeQueries(H, j), all)
    requires H(MetaQuery(H, i)) == H(MetaQuery(H, j))
    ensures i.matcherFee == j.matcherFee && i.nonce == j.nonce && i.expiry == j.expiry
  {
    TradeListed(H, i, all);
    TradeListed(H, j, all);
    var q, q' := MetaQuery(H, i), MetaQuery(H, j);
    SameInput(H, all, q, q');
    assert q[1] == q'[1] && q[2] == q'[2] && q[3] == q'[3];
    var f, f' := FeeQuery(i.matcherFee), FeeQuery(j.matcherFee);
    SameInput(H, all, f, f');
    assert f[2] == f'[2] && f[3] == f'[3];
  }

  /** One commitment, one intent: every field and every asset byte, up to a collision among the inputs hashed. */
  lemma TradeBinding(H: Hash<Field>, all: seq<Query<Field>>, i: TradeIntent, j: TradeIntent)
    requires CollisionFree(H, all) && Listed(TradeQueries(H, i), all) && Listed(TradeQueries(H, j), all)
    ensures TradeCommitmentV1(H, i) == TradeCommitmentV1(H, j) <==> i == j
  {
    if TradeCommitmentV1(H, i) == TradeCommitmentV1(H, j) {
      PartsAgree(H, all, i, j);
      PartABinding(H, all, i, j);
      PartBBinding(H, all, i, j);
      MetaBinding(H, all, i, j);
    }
  }

  /** The recipient commitment pins the subject secret and all 43 receiver bytes. */
  lemma RecipientBinding(H: Hash<Field>, all: seq<Query<Field>>, secret: Field, receiver: Receiver, secret': Field,
                         receiver': Receiver)
    requires CollisionFree(H, all)
    requires Listed(BindingQueries(H, secret, receiver), all) && Listed(BindingQueries(H, secret', receiver'), all)
    ensures BindRecipient(H, secret, receiver) == BindRecipient(H, secret', receiver') <==>
      secret == secret' && receiver == receiver'
  {
    var b, b' := BindingQueries(H, secret, receiver), BindingQueries(H, secret', receiver');
    assert b[0] in b && b[1] in b && b[2] in b && b'[0] in b' && b'[1] in b' && b'[2] in b';
    if H(b[2]) == H(b'[2]) {
      SameInput(H, all, b[2], b'[2]);
      assert b[2][1] == b'[2][1] && b[2][2] == b'[2][2];
      SubjectBinding(H, all, secret, secret');
      ReceiverBinding(H, all, receiver, receiver');
    }
  }

  /** The fee recipient commitment pins all 43 receiver bytes; a receiver is never empty, so no tag preimage arises. */
  lemma FeeRecipientBinding(H: Hash<Field>, a: Receiver, b: Receiver)
    requires CollisionFree(H, CanonicalBytes.ByteQueries(H, FEE_RECIPIENT_V1, a) +
                              CanonicalBytes.ByteQueries(H, FEE_RECIPIENT_V1, b))
    ensures MatcherFeeRecipientCommitment(H, a) == MatcherFeeRecipientCommitment(H, b) <==> a == b
  {
    CanonicalBytes.CanonicalBytesBinding(H, FEE_RECIPIENT_V1, a, FEE_RECIPIENT_V1, b);
  }

  /** A fee receiver takes three chunks: four nested hashes over its length and its three limbs. */
  lemma FeeRecipientStages(H: Hash<Field>, receiver: Receiver)
    ensures var l := EncodeReceiver(receiver);
      MatcherFeeRecipientCommitment(H, receiver) ==
        H([H([H([H([FEE_RECIPIENT_V1, 43, 3]), l.limb0, 0]), l.limb1, 1]), l.limb2, 2])
  {
    var l := EncodeReceiver(receiver);
    CanonicalBytes.CommitmentIsLastState(H, FEE_RECIPIENT_V1, receiver);
    var s :| CanonicalBytes.IsStaging(H, FEE_RECIPIENT_V1, receiver, s) &&
      s[|s| - 1] == MatcherFeeRecipientCommitment(H, receiver);
    assert receiver[0..16] == receiver[..16] && receiver[32..43] == receiver[32..];
    assert CanonicalBytes.StagingStep(H, receiver, s, 0);
    assert CanonicalBytes.StagingStep(H, receiver, s, 1);
    assert CanonicalBytes.StagingStep(H, receiver, s, 2);
  }

  // ---------- the JavaScript schema ----------

  function AssertU64(value: int, name: string): Js<u64>
  {
    if value < 0 || value >= TWO_64 then Throws(name + " must be an unsigned 64-bit integer") else Returned(value)
  }

  function AssertField(value: int, name: string): Js<Field>
  {
    if value < 0 || value >= MODULUS then Throws(name + " must be a canonical BN254 scalar") else Returned(value)
  }

  datatype RawTrade = RawTrade(
    offeredAssetBase: string, offeredAmount: int, requestedAssetBase: string, requestedAmount: int,
    recipientCommitment: int, policyRoot: int, matcherFeeAmount: int, matcherFeeRecipientCommitment: int,
    nonce: int, expiry: int)

  function ComputeAssetCommitment(H: Hash<Field>, asset: string): Js<Field>
  {
    var limbs :- AssetIdToLimbs(asset);
    Returned(H([ASSET_V1, limbs.hi, limbs.lo]))
  }

  function ComputeFee(H: Hash<Field>, f: RawTrade): Js<Field>
  {
    var amount :- AssertU64(f.matcherFeeAmount, "matcher fee amount");
    var recipient :- AssertField(f.matcherFeeRecipientCommitment, "matcher fee recipient commitment");
    Returned(H([FEE_V1, ZEC_ASSET_TAG, amount, recipient]))
  }

  function ComputePartA(H: Hash<Field>, f: RawTrade, offered: Field, requested: Field): Js<Field>
  {
    var amount :- AssertU64(f.offeredAmount, "offered amount");
    Returned(H([TRADE_A_V1, offered, amount, requested]))
  }

  function ComputePartB(H: Hash<Field>, f: RawTrade): Js<Field>
  {
    var amount :- AssertU64(f.requestedAmount, "requested amount");
    var recipient :- AssertField(f.recipientCommitment, "recipient commitment");
    var policyRoot :- AssertField(f.policyRoot, "policy root");
    Returned(H([TRADE_B_V1, amount, recipient, policyRoot]))
  }

  function ComputeMeta(H: Hash<Field>, f: RawTrade, fee: Field): Js<Field>
  {
    var nonce :- AssertU64(f.nonce, "trade nonce");
    var expiry :- AssertU64(f.expiry, "trade expiry");
    Returned(H([TRADE_META_V1, fee, nonce, expiry]))
  }

  /** The stages in the order of the JavaScript function, each range assertion where it stands there. */
  function ComputeTrade(H: Hash<Field>, f: RawTrade): Js<TradeCommitmentParts>
  {
    var offered :- ComputeAssetCommitment(H, f.offeredAssetBase);
    var requested :- ComputeAssetCommitment(H, f.requestedAssetBase);
    var fee :- ComputeFee(H, f);
    var partA :- ComputePartA(H, f, offered, requested);
    var partB :- ComputePartB(H, f);
    var meta :- ComputeMeta(H, f, fee);
    Returned(TradeCommitmentParts(offered, requested, fee, partA, partB, meta, H([TRADE_V1, partA, partB, meta])))
  }

  function RawOf(i: TradeIntent): RawTrade
  {
    RawTrade(HexText(i.offeredAsset), i.offeredAmount, HexText(i.requestedAsset), i.requestedAmount,
             i.recipientCommitment, i.policyRoot, i.matcherFee.amount, i.matcherFee.recipientCommitment,
             i.nonce, i.expiry)
  }

  predicate IsAssetText(hex: string)
  {
    IsHex(hex) && |hex| == 64
  }

  predicate Representable(f: RawTrade)
  {
    && IsAssetText(f.offeredAssetBase) && IsAssetText(f.requestedAssetBase)
    && 0 <= f.offeredAmount < TWO_64 && 0 <= f.requestedAmount < TWO_64 && 0 <= f.matcherFeeAmount < TWO_64
    && 0 <= f.nonce < TWO_64 && 0 <= f.expiry < TWO_64
    && 0 <= f.recipientCommitment < MODULUS && 0 <= f.policyRoot < MODULUS
    && 0 <= f.matcherFeeRecipientCommitment < MODULUS
  }

  function IntentOf(f: RawTrade): TradeIntent
    requires Representable(f)
  {
    TradeIntent(HexBytes(f.offeredAssetBase), f.offeredAmount, HexBytes(f.requestedAssetBase), f.requestedAmount,
                f.recipientCommitment, f.policyRoot, MatcherFee(f.matcherFeeAmount, f.matcherFeeRecipientCommitment),
                f.nonce, f.expiry)
  }

  lemma ComputeAssetAgrees(H: Hash<Field>, hex: string)
    ensures ComputeAssetCommitment(H, hex).Returned? <==> IsAssetText(hex)
    ensures IsAssetText(hex) ==> ComputeAssetCommitment(H, hex) == Returned(H(AssetQuery(HexBytes(hex))))
  {
    if IsAssetText(hex) {
      AssetIdIsEncoding(hex);
    }
  }

  /**
   The JavaScript schema accepts exactly the representable intents and computes every stage of the
   Rust commitment.
   */
  lemma JsAgreesWithRust(H: Hash<Field>, f: RawTrade)
    ensures ComputeTrade(H, f).Returned? <==> Representable(f)
    ensures Representable(f) ==> ComputeTrade(H, f) == Returned(PartsOf(H, IntentOf(f)))
  {
    ComputeAssetAgrees(H, f.offeredAssetBase);
    ComputeAssetAgrees(H, f.requestedAssetBase);
  }

  /** Every intent has a JavaScript form, and reading it back gives the intent. */
  lemma RawRoundTrip(i: TradeIntent)
    ensures Representable(RawOf(i)) && IntentOf(RawOf(i)) == i
  {
    ReadWritten(i.offeredAsset);
    ReadWritten(i.requestedAsset);
  }
}
