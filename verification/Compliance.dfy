/**
 What the two proofs establish together: the compliance statement of the protocol.
 Sources: docs/architecture.md sections 5 and 12 to 15,
 docs/decisions/0004-credential-approved-receiver-binding.md.

 Each theorem holds for every hash: either its conclusion holds, or two different inputs that the
 parties actually hashed (the transcript `all`) collide, and `FindCollision` returns them: by its
 contract it returns nothing exactly when `CollisionFree` holds.
 */
module Compliance {
  import opened Positional
  import opened Protocol
  import opened Hashing
  import opened Merkle
  import opened Gadgets
  import opened Commitments
  import opened Credentials
  import opened Circuits

  // ---------- transcripts ----------

  function ProvenanceQueries(H: Hash<Field>, w: ProvenanceWitness): seq<Query<Field>>
    requires TradeRanges(w.trade) && Num2Bits(64, w.issuanceNonce) && |w.siblings| == |w.pathIndices|
  {
    TradeQueries(H, DecodeIntent(w.trade, w.recipientCommitment)) + IssuanceQueries(H, DecodeIssuance(w)) +
    FoldQueries(H, IssuanceLeafHasher(H, w), w.siblings, w.pathIndices)
  }

  function EligibilityQueries(H: Hash<Field>, w: EligibilityWitness): seq<Query<Field>>
    requires EligibilityRanges(w)
    requires |w.credentialSiblings| == |w.credentialPathIndices| && |w.policySiblings| == |w.policyPathIndices|
  {
    TradeQueries(H, EligibilityIntent(H, w)) + CredentialQueries(H, DecodeCredential(w)) +
    BindingQueries(H, w.subjectSecret, DecodeReceiverOf(w)) + [PolicyQuery(DecodePolicy(w))] +
    FoldQueries(H, CredentialLeafHasher(H, w), w.credentialSiblings, w.credentialPathIndices) +
    FoldQueries(H, PolicyLeafHasher(H, w), w.policySiblings, w.policyPathIndices)
  }

  function RegistryQueries<T>(H: Hash<Field>, schema: Schema<T>, list: seq<T>, d: nat): seq<Query<Field>>
    requires |list| == Pow2(d)
  {
    ListQueries(schema, list) + TreeQueries(H, Leaves(schema, list), d)
  }

  function RegistryRoot<T>(H: Hash<Field>, schema: Schema<T>, list: seq<T>, d: nat): Field
    requires |list| == Pow2(d)
  {
    Root(H, Leaves(schema, list), d)
  }

  function IssuanceRoot(H: Hash<Field>, list: seq<Issuance>, d: nat): Field
    requires |list| == Pow2(d)
  {
    RegistryRoot(H, IssuanceSchema(H), list, d)
  }

  function CredentialRoot(H: Hash<Field>, list: seq<ActiveCredential>, d: nat): Field
    requires |list| == Pow2(d)
  {
    RegistryRoot(H, CredentialSchema(H), list, d)
  }

  function PolicyRoot(H: Hash<Field>, list: seq<PolicyTuple>, d: nat): Field
    requires |list| == Pow2(d)
  {
    RegistryRoot(H, PolicySchema(H), list, d)
  }

  // ---------- membership through the circuit ----------

  /** A satisfied membership template against a registry's root opens the entry at the index its bits spell. */
  lemma MembershipOpensEntry<T>(H: Hash<Field>, all: seq<Query<Field>>, schema: Schema<T>, list: seq<T>, d: nat,
                                leaf: Field, siblings: seq<Field>, indices: seq<Field>, s: MerkleSignals)
    requires NoZeroDivisors() && |list| == Pow2(d) && |siblings| == |indices|
    requires MerkleProofVerifier(H, d, leaf, RegistryRoot(H, schema, list, d), siblings, indices, 1, s)
    requires CollisionFree(H, all) && Listed(RegistryQueries(H, schema, list, d), all)
    requires Listed(FoldQueries(H, leaf, siblings, indices), all)
    ensures 0 <= Index(indices) < |list|
    ensures schema.leaf(list[Index(indices)]) == leaf
    ensures Listed(schema.queries(list[Index(indices)]), all)
  {
    var leaves := Leaves(schema, list);
    ListedParts(ListQueries(schema, list), TreeQueries(H, leaves, d), all);
    MembershipOpensLeaf(H, all, leaves, d, leaf, siblings, indices, s);
    EntryAt(schema, list, Index(indices));
  }

  lemma MembershipOpensLeaf(H: Hash<Field>, all: seq<Query<Field>>, leaves: seq<Field>, d: nat, leaf: Field,
                            siblings: seq<Field>, indices: seq<Field>, s: MerkleSignals)
    requires NoZeroDivisors() && |leaves| == Pow2(d) && |siblings| == |indices|
    requires MerkleProofVerifier(H, d, leaf, Root(H, leaves, d), siblings, indices, 1, s)
    requires CollisionFree(H, all) && Listed(TreeQueries(H, leaves, d), all)
    requires Listed(FoldQueries(H, leaf, siblings, indices), all)
    ensures 0 <= Index(indices) < |leaves| && leaves[Index(indices)] == leaf
  {
    VerifierSound(H, d, leaf, Root(H, leaves, d), siblings, indices, 1, s);
    CollisionFreePart(H, all, TreeQueries(H, leaves, d) + FoldQueries(H, leaf, siblings, indices));
    PathSound(H, leaves, d, leaf, siblings, indices);
  }

  lemma ListedParts(a: seq<Query<Field>>, b: seq<Query<Field>>, all: seq<Query<Field>>)
    requires Listed(a + b, all)
    ensures Listed(a, all) && Listed(b, all)
  {
    assert forall q :: q in a || q in b ==> q in a + b;
  }

  lemma ProvenanceListed(H: Hash<Field>, w: ProvenanceWitness, all: seq<Query<Field>>)
    requires TradeRanges(w.trade) && Num2Bits(64, w.issuanceNonce) && |w.siblings| == |w.pathIndices|
    requires Listed(ProvenanceQueries(H, w), all)
    ensures Listed(TradeQueries(H, DecodeIntent(w.trade, w.recipientCommitment)), all)
    ensures Listed(IssuanceQueries(H, DecodeIssuance(w)), all)
    ensures Listed(FoldQueries(H, IssuanceLeafHasher(H, w), w.siblings, w.pathIndices), all)
  {
    var a, b := TradeQueries(H, DecodeIntent(w.trade, w.recipientCommitment)), IssuanceQueries(H, DecodeIssuance(w));
    var c := FoldQueries(H, IssuanceLeafHasher(H, w), w.siblings, w.pathIndices);
    ListedParts(a + b, c, all);
    ListedParts(a, b, all);
  }

  lemma EligibilityListed(H: Hash<Field>, w: EligibilityWitness, all: seq<Query<Field>>)
    requires EligibilityRanges(w)
    requires |w.credentialSiblings| == |w.credentialPathIndices| && |w.policySiblings| == |w.policyPathIndices|
    requires Listed(EligibilityQueries(H, w), all)
    ensures Listed(TradeQueries(H, EligibilityIntent(H, w)), all)
    ensures Listed(CredentialQueries(H, DecodeCredential(w)), all)
    ensures Listed(BindingQueries(H, w.subjectSecret, DecodeReceiverOf(w)), all)
    ensures PolicyQuery(DecodePolicy(w)) in all
    ensures Listed(FoldQueries(H, CredentialLeafHasher(H, w), w.credentialSiblings, w.credentialPathIndices), all)
    ensures Listed(FoldQueries(H, PolicyLeafHasher(H, w), w.policySiblings, w.policyPathIndices), all)
  {
    var a, b := TradeQueries(H, EligibilityIntent(H, w)), CredentialQueries(H, DecodeCredential(w));
    var c, p := BindingQueries(H, w.subjectSecret, DecodeReceiverOf(w)), [PolicyQuery(DecodePolicy(w))];
    var f := FoldQueries(H, CredentialLeafHasher(H, w), w.credentialSiblings, w.credentialPathIndices);
    var g := FoldQueries(H, PolicyLeafHasher(H, w), w.policySiblings, w.policyPathIndices);
    ListedParts(a + b + c + p + f, g, all);
    ListedParts(a + b + c + p, f, all);
    ListedParts(a + b + c, p, all);
    ListedParts(a + b, c, all);
    ListedParts(a, b, all);
    assert p[0] in p;
  }

  // ---------- the two circuits against their registries ----------

  /** Provenance: the decoded issuance is the one the issuer put at the proved index. */
  lemma IssuanceIsAuthorized(H: Hash<Field>, all: seq<Query<Field>>, list: seq<Issuance>, d: nat,
                             tradeCommitment: Field, w: ProvenanceWitness)
    requires NoZeroDivisors() && CollisionFree(H, all) && |list| == Pow2(d)
    requires Provenance(H, d, IssuanceRoot(H, list, d), tradeCommitment, w)
    requires Listed(ProvenanceQueries(H, w), all)
    requires Listed(RegistryQueries(H, IssuanceSchema(H), list, d), all)
    ensures 0 <= Index(w.pathIndices) < |list|
    ensures list[Index(w.pathIndices)] == DecodeIssuance(w)
  {
    ProvenanceListed(H, w, all);
    MembershipOpensEntry(H, all, IssuanceSchema(H), list, d, IssuanceLeafHasher(H, w), w.siblings, w.pathIndices,
                         w.membership);
    ProvenanceHashers(H, w);
    IssuanceBinding(H, all, list[Index(w.pathIndices)], DecodeIssuance(w));
  }

  /**
   Approved receiver: the credential at the proved index is the one the witness presents, so the
   limbs it settles to decode to exactly the 43 bytes the authority approved for that subject.
   */
  lemma ReceiverIsApproved(H: Hash<Field>, all: seq<Query<Field>>, list: seq<ActiveCredential>, d: nat,
                           policyDepth: nat, tradeCommitment: Field, w: EligibilityWitness)
    requires NoZeroDivisors() && CollisionFree(H, all) && |list| == Pow2(d)
    requires Eligibility(H, d, policyDepth, CredentialRoot(H, list, d), tradeCommitment, w)
    requires Listed(EligibilityQueries(H, w), all)
    requires Listed(RegistryQueries(H, CredentialSchema(H), list, d), all)
    ensures 0 <= Index(w.credentialPathIndices) < |list|
    ensures list[Index(w.credentialPathIndices)] == DecodeCredential(w)
    ensures list[Index(w.credentialPathIndices)].approvedReceiver == DecodeReceiverOf(w)
  {
    EligibilityListed(H, w, all);
    MembershipOpensEntry(H, all, CredentialSchema(H), list, d, CredentialLeafHasher(H, w), w.credentialSiblings,
                         w.credentialPathIndices, w.credentialMembership);
    EligibilityHashers(H, w);
    CredentialBinding(H, all, list[Index(w.credentialPathIndices)], DecodeCredential(w));
  }

  /** Policy: the tuple of the credential is in the tree whose root the trade commits to. */
  lemma TupleIsAllowed(H: Hash<Field>, all: seq<Query<Field>>, list: seq<PolicyTuple>, d: nat, credentialDepth: nat,
                       root: Field, tradeCommitment: Field, w: EligibilityWitness)
    requires NoZeroDivisors() && CollisionFree(H, all) && |list| == Pow2(d)
    requires Eligibility(H, credentialDepth, d, root, tradeCommitment, w)
    requires w.trade.policyRoot == PolicyRoot(H, list, d)
    requires Listed(EligibilityQueries(H, w), all) && Listed(RegistryQueries(H, PolicySchema(H), list, d), all)
    ensures 0 <= Index(w.policyPathIndices) < |list|
    ensures list[Index(w.policyPathIndices)] == DecodePolicy(w)
  {
    EligibilityListed(H, w, all);
    MembershipOpensEntry(H, all, PolicySchema(H), list, d, PolicyLeafHasher(H, w), w.policySiblings,
                         w.policyPathIndices, w.policyMembership);
    EligibilityHashers(H, w);
    var t := list[Index(w.policyPathIndices)];
    var q := PolicySchema(H).queries(t);
    assert q[0] == PolicyQuery(t) && q[0] in q;
    PolicyBinding(H, all, t, DecodePolicy(w));
  }

  // ---------- the matcher and the two proofs ----------

  /** An intent the matcher accepts is, field for field and byte for byte, the one the provenance proof denotes. */
  lemma MatcherAgreesWithProvenance(H: Hash<Field>, depth: nat, root: Field, tradeCommitment: Field,
                                    w: ProvenanceWitness, intent: TradeIntent)
    requires Provenance(H, depth, root, tradeCommitment, w)
    requires CollisionFree(H, ProvenanceQueries(H, w) + TradeQueries(H, intent))
    ensures VerifyTradeCommitment(H, intent, tradeCommitment).Ok? <==>
      intent == DecodeIntent(w.trade, w.recipientCommitment)
  {
    var all := ProvenanceQueries(H, w) + TradeQueries(H, intent);
    ListedParts(ProvenanceQueries(H, w), TradeQueries(H, intent), all);
    ProvenanceListed(H, w, all);
    ProvenanceDenotesIntent(H, depth, root, tradeCommitment, w);
    TradeBinding(H, all, intent, DecodeIntent(w.trade, w.recipientCommitment));
  }

  lemma MatcherAgreesWithEligibility(H: Hash<Field>, credentialDepth: nat, policyDepth: nat, root: Field,
                                     tradeCommitment: Field, w: EligibilityWitness, intent: TradeIntent)
    requires Eligibility(H, credentialDepth, policyDepth, root, tradeCommitment, w)
    requires CollisionFree(H, EligibilityQueries(H, w) + TradeQueries(H, intent))
    ensures VerifyTradeCommitment(H, intent, tradeCommitment).Ok? <==> intent == EligibilityIntent(H, w)
  {
    var all := EligibilityQueries(H, w) + TradeQueries(H, intent);
    ListedParts(EligibilityQueries(H, w), TradeQueries(H, intent), all);
    EligibilityListed(H, w, all);
    EligibilityDenotesIntent(H, credentialDepth, policyDepth, root, tradeCommitment, w);
    TradeBinding(H, all, intent, EligibilityIntent(H, w));
  }

  lemma SameIntent(H: Hash<Field>, all: seq<Query<Field>>, issuanceDepth: nat, issuanceRoot: Field,
                   credentialDepth: nat, policyDepth: nat, credentialRoot: Field, tradeCommitment: Field,
                   p: ProvenanceWitness, e: EligibilityWitness)
    requires CollisionFree(H, all)
    requires Provenance(H, issuanceDepth, issuanceRoot, tradeCommitment, p)
    requires Eligibility(H, credentialDepth, policyDepth, credentialRoot, tradeCommitment, e)
    requires Listed(ProvenanceQueries(H, p), all) && Listed(EligibilityQueries(H, e), all)
    ensures DecodeIntent(p.trade, p.recipientCommitment) == EligibilityIntent(H, e)
  {
    ProvenanceListed(H, p, all);
    EligibilityListed(H, e, all);
    ProvenanceDenotesIntent(H, issuanceDepth, issuanceRoot, tradeCommitment, p);
    EligibilityDenotesIntent(H, credentialDepth, policyDepth, credentialRoot, tradeCommitment, e);
    TradeBinding(H, all, DecodeIntent(p.trade, p.recipientCommitment), EligibilityIntent(H, e));
  }

  // ---------- joint compliance ----------

  /** What issuers and credential authorities publish; `policies[k]` are the tuples issuance `k` allows. */
  datatype Registries = Registries(
    issuances: seq<Issuance>, issuanceDepth: nat,
    policies: seq<seq<PolicyTuple>>, policyDepth: nat,
    credentials: seq<ActiveCredential>, credentialDepth: nat)
  {
    /** The trees are full. */
    predicate Full()
    {
      && |issuances| == |policies| == Pow2(issuanceDepth) && |credentials| == Pow2(credentialDepth)
      && forall k :: 0 <= k < |policies| ==> |policies[k]| == Pow2(policyDepth)
    }
  }

  /** The policy root inside issuance `k` is the root of the tuples it allows. */
  ghost predicate PolicyIsPublished(H: Hash<Field>, r: Registries, k: nat)
    requires r.Full() && k < |r.issuances|
  {
    r.issuances[k].policyRoot == PolicyRoot(H, r.policies[k], r.policyDepth)
  }

  /** Everything the protocol claims of a trade in the asset of issuance `k` that passed both proofs. */
  ghost predicate Compliant(H: Hash<Field>, r: Registries, k: nat, intent: TradeIntent)
    requires r.Full() && k < |r.issuances|
  {
    && intent.offeredAsset == r.issuances[k].offeredAsset && intent.policyRoot == r.issuances[k].policyRoot
    && exists c :: c in r.credentials && Backs(H, c, r.policies[k], intent)
  }

  /** The credential belongs to an allowed class and jurisdiction, approves the receiver and outlives the trade. */
  predicate Backs(H: Hash<Field>, c: ActiveCredential, policy: seq<PolicyTuple>, intent: TradeIntent)
  {
    && PolicyTuple(c.investorClass, c.jurisdiction) in policy
    && intent.recipientCommitment == BindRecipient(H, c.subjectSecret, c.approvedReceiver)
    && c.credentialExpiry >= intent.expiry
  }

  function PolicyQueries(H: Hash<Field>, policies: seq<seq<PolicyTuple>>, d: nat): seq<Query<Field>>
    requires forall k :: 0 <= k < |policies| ==> |policies[k]| == Pow2(d)
  {
    if policies == [] then []
    else RegistryQueries(H, PolicySchema(H), policies[0], d) + PolicyQueries(H, policies[1..], d)
  }

  lemma {:induction false} PolicyListed(H: Hash<Field>, policies: seq<seq<PolicyTuple>>, d: nat, k: nat,
                                        all: seq<Query<Field>>)
    requires forall k :: 0 <= k < |policies| ==> |policies[k]| == Pow2(d)
    requires k < |policies| && Listed(PolicyQueries(H, policies, d), all)
    ensures Listed(RegistryQueries(H, PolicySchema(H), policies[k], d), all)
    decreases k
  {
    ListedParts(RegistryQueries(H, PolicySchema(H), policies[0], d), PolicyQueries(H, policies[1..], d), all);
    if k == 0 {
    } else {
      PolicyListed(H, policies[1..], d, k - 1, all);
    }
  }

  /** Every input hashed by the two proofs and by the registries. */
  function JointTranscript(H: Hash<Field>, r: Registries, p: ProvenanceWitness, e: EligibilityWitness)
    : seq<Query<Field>>
    requires r.Full()
    requires TradeRanges(p.trade) && Num2Bits(64, p.issuanceNonce) && |p.siblings| == |p.pathIndices|
    requires EligibilityRanges(e)
    requires |e.credentialSiblings| == |e.credentialPathIndices| && |e.policySiblings| == |e.policyPathIndices|
  {
    ProvenanceQueries(H, p) + EligibilityQueries(H, e) +
    RegistryQueries(H, IssuanceSchema(H), r.issuances, r.issuanceDepth) +
    RegistryQueries(H, CredentialSchema(H), r.credentials, r.credentialDepth) +
    PolicyQueries(H, r.policies, r.policyDepth)
  }

  lemma JointListed(H: Hash<Field>, r: Registries, p: ProvenanceWitness, e: EligibilityWitness)
    requires r.Full()
    requires TradeRanges(p.trade) && Num2Bits(64, p.issuanceNonce) && |p.siblings| == |p.pathIndices|
    requires EligibilityRanges(e)
    requires |e.credentialSiblings| == |e.credentialPathIndices| && |e.policySiblings| == |e.policyPathIndices|
    ensures var all := JointTranscript(H, r, p, e);
      && Listed(ProvenanceQueries(H, p), all) && Listed(EligibilityQueries(H, e), all)
      && Listed(RegistryQueries(H, IssuanceSchema(H), r.issuances, r.issuanceDepth), all)
      && Listed(RegistryQueries(H, CredentialSchema(H), r.credentials, r.credentialDepth), all)
      && Listed(PolicyQueries(H, r.policies, r.policyDepth), all)
  {
    var a, b := ProvenanceQueries(H, p), EligibilityQueries(H, e);
    var c := RegistryQueries(H, IssuanceSchema(H), r.issuances, r.issuanceDepth);
    var d := RegistryQueries(H, CredentialSchema(H), r.credentials, r.credentialDepth);
    var f := PolicyQueries(H, r.policies, r.policyDepth);
    var all := a + b + c + d + f;
    ListedParts(a + b + c + d, f, all);
    ListedParts(a + b + c, d, all);
    ListedParts(a + b, c, all);
    ListedParts(a, b, all);
  }

  /**
   Policy substitution fails: the tuple an eligibility proof presents is one that the issuance
   behind the provenance proof of the same trade allows, whatever root the witness carries.
   */
  lemma PolicyIsTheIssuers(H: Hash<Field>, all: seq<Query<Field>>, r: Registries, credentialRoot: Field,
                           tradeCommitment: Field, p: ProvenanceWitness, e: EligibilityWitness)
    requires NoZeroDivisors() && CollisionFree(H, all) && r.Full()
    requires Provenance(H, r.issuanceDepth, IssuanceRoot(H, r.issuances, r.issuanceDepth), tradeCommitment, p)
    requires Eligibility(H, r.credentialDepth, r.policyDepth, credentialRoot, tradeCommitment, e)
    requires Listed(ProvenanceQueries(H, p), all) && Listed(EligibilityQueries(H, e), all)
    requires Listed(RegistryQueries(H, IssuanceSchema(H), r.issuances, r.issuanceDepth), all)
    requires Listed(PolicyQueries(H, r.policies, r.policyDepth), all)
    ensures DecodeIntent(p.trade, p.recipientCommitment) == EligibilityIntent(H, e)
    ensures 0 <= Index(p.pathIndices) < |r.issuances| && r.issuances[Index(p.pathIndices)] == DecodeIssuance(p)
    ensures PolicyIsPublished(H, r, Index(p.pathIndices)) ==> DecodePolicy(e) in r.policies[Index(p.pathIndices)]
  {
    var issuanceRoot, k := IssuanceRoot(H, r.issuances, r.issuanceDepth), Index(p.pathIndices);
    SameIntent(H, all, r.issuanceDepth, issuanceRoot, r.credentialDepth, r.policyDepth, credentialRoot,
               tradeCommitment, p, e);
    IssuanceIsAuthorized(H, all, r.issuances, r.issuanceDepth, tradeCommitment, p);
    if PolicyIsPublished(H, r, k) {
      PolicyListed(H, r.policies, r.policyDepth, k, all);
      TupleIsAllowed(H, all, r.policies[k], r.policyDepth, r.credentialDepth, credentialRoot, tradeCommitment, e);
    }
  }

  /**
   Joint compliance. Two proofs that expose one trade commitment denote one intent. Its offered
   asset and policy root were issued together, at the index the provenance proof spells; and if that
   issuance's policy root is the root of the tuples it allows, then the intent's recipient is the
   receiver that an active credential approves for its subject, the credential's own tuple is among
   those, and the credential outlives the trade. Otherwise `FindCollision` on the joint transcript
   returns a pair.
   */
  lemma JointCompliance(H: Hash<Field>, r: Registries, tradeCommitment: Field, p: ProvenanceWitness,
                        e: EligibilityWitness)
    requires NoZeroDivisors() && r.Full()
    requires Provenance(H, r.issuanceDepth, IssuanceRoot(H, r.issuances, r.issuanceDepth), tradeCommitment, p)
    requires Eligibility(H, r.credentialDepth, r.policyDepth, CredentialRoot(H, r.credentials, r.credentialDepth),
                         tradeCommitment, e)
    requires CollisionFree(H, JointTranscript(H, r, p, e))
    ensures DecodeIntent(p.trade, p.recipientCommitment) == EligibilityIntent(H, e)
    ensures 0 <= Index(p.pathIndices) < |r.issuances|
    ensures r.issuances[Index(p.pathIndices)] == DecodeIssuance(p)
    ensures PolicyIsPublished(H, r, Index(p.pathIndices)) ==>
      Compliant(H, r, Index(p.pathIndices), EligibilityIntent(H, e))
  {
    var all := JointTranscript(H, r, p, e);
    var credentialRoot := CredentialRoot(H, r.credentials, r.credentialDepth);
    JointListed(H, r, p, e);
    PolicyIsTheIssuers(H, all, r, credentialRoot, tradeCommitment, p, e);
    ReceiverIsApproved(H, all, r.credentials, r.credentialDepth, r.policyDepth, tradeCommitment, e);
    EligibilityDenotesIntent(H, r.credentialDepth, r.policyDepth, credentialRoot, tradeCommitment, e);
    var i := Index(e.credentialPathIndices);
    assert r.credentials[i] in r.credentials;
  }

  /** A trade that delivers to `receiver` for `secret` is backed by a credential approving just that. */
  lemma SettledReceiverIsApproved(H: Hash<Field>, list: seq<ActiveCredential>, d: nat, policyDepth: nat,
                                  intent: TradeIntent, secret: Field, receiver: Receiver, w: EligibilityWitness)
    requires NoZeroDivisors() && |list| == Pow2(d)
    requires intent.recipientCommitment == BindRecipient(H, secret, receiver)
    requires Eligibility(H, d, policyDepth, CredentialRoot(H, list, d), TradeCommitmentV1(H, intent), w)
    requires CollisionFree(H, SubstitutionTranscript(H, list, d, intent, secret, receiver, w))
    ensures DecodeCredential(w) in list
    ensures DecodeCredential(w).subjectSecret == secret && DecodeCredential(w).approvedReceiver == receiver
  {
    var a, b := EligibilityQueries(H, w), RegistryQueries(H, CredentialSchema(H), list, d);
    var c, e := TradeQueries(H, intent), BindingQueries(H, secret, receiver);
    var all := a + b + c + e;
    ListedParts(a + b + c, e, all);
    ListedParts(a + b, c, all);
    ListedParts(a, b, all);
    EligibilityListed(H, w, all);
    EligibilityDenotesIntent(H, d, policyDepth, CredentialRoot(H, list, d), TradeCommitmentV1(H, intent), w);
    TradeBinding(H, all, intent, EligibilityIntent(H, w));
    RecipientBinding(H, all, secret, receiver, w.subjectSecret, DecodeReceiverOf(w));
    ReceiverIsApproved(H, all, list, d, policyDepth, TradeCommitmentV1(H, intent), w);
  }

  function SubstitutionTranscript(H: Hash<Field>, list: seq<ActiveCredential>, d: nat, intent: TradeIntent,
                                  secret: Field, receiver: Receiver, w: EligibilityWitness): seq<Query<Field>>
    requires |list| == Pow2(d) && EligibilityRanges(w)
    requires |w.credentialSiblings| == |w.credentialPathIndices| && |w.policySiblings| == |w.policyPathIndices|
  {
    EligibilityQueries(H, w) + RegistryQueries(H, CredentialSchema(H), list, d) + TradeQueries(H, intent) +
    BindingQueries(H, secret, receiver)
  }

  /**
   Receiver substitution: if no active credential approves receiver B for this subject, then no
   eligibility witness exists for a trade that delivers to B, whatever else is valid.
   */
  lemma SubstitutedReceiverHasNoWitness(H: Hash<Field>, list: seq<ActiveCredential>, d: nat, policyDepth: nat,
                                        intent: TradeIntent, secret: Field, receiver: Receiver, w: EligibilityWitness)
    requires NoZeroDivisors() && |list| == Pow2(d)
    requires intent.recipientCommitment == BindRecipient(H, secret, receiver)
    requires EligibilityRanges(w)
    requires |w.credentialSiblings| == |w.credentialPathIndices| && |w.policySiblings| == |w.policyPathIndices|
    requires CollisionFree(H, SubstitutionTranscript(H, list, d, intent, secret, receiver, w))
    requires forall c :: c in list && c.subjectSecret == secret ==> c.approvedReceiver != receiver
    ensures !Eligibility(H, d, policyDepth, CredentialRoot(H, list, d), TradeCommitmentV1(H, intent), w)
  {
    if Eligibility(H, d, policyDepth, CredentialRoot(H, list, d), TradeCommitmentV1(H, intent), w) {
      SettledReceiverIsApproved(H, list, d, policyDepth, intent, secret, receiver, w);
    }
  }
}
