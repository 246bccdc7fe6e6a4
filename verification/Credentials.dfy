/**
 The leaves of the three registries: authorized issuances, active credentials, allowed policy tuples.
 Sources: crates/credentials/src/credential.rs, circuits/shared/eligibility-v1.js,
 circuits/shared/trade-commitment-v1.js (computeIssuance).
 */
module Credentials {
  import opened Machine
  import opened Protocol
  import opened Hashing
  import opened Commitments

  const CREDENTIAL_META_V1: Field := 4851015908287927361
  const CREDENTIAL_V1: Field := 18949280892933681
  const CREDENTIAL_V2: Field := 18949280892933682
  const ELIGIBILITY_POLICY_V1: Field := 4993446657485917233
  const ISSUANCE_META_V1: Field := 5283658379176460593
  const ISSUANCE_V1: Field := 20639290677876273

  type u16 = x: int | 0 <= x < 0x1_0000

  // ---------- credentials ----------

  datatype ActiveCredential = ActiveCredential(
    authorityCommitment: Field,
    subjectSecret: Field,
    investorClass: byte,
    jurisdiction: u16,
    credentialExpiry: u64,
    nonce: u64,
    approvedReceiver: Receiver)

  function CredentialMetaQuery(c: ActiveCredential): Query<Field>
  {
    [CREDENTIAL_META_V1, c.investorClass, c.jurisdiction, c.credentialExpiry]
  }

  function CredentialLeafQuery(H: Hash<Field>, c: ActiveCredential): Query<Field>
  {
    [CREDENTIAL_V2, c.authorityCommitment, SubjectCommitment(H, c.subjectSecret), H(CredentialMetaQuery(c)), c.nonce,
     ReceiverCommitment(H, c.approvedReceiver)]
  }

  function CredentialLeaf(H: Hash<Field>, c: ActiveCredential): Field
  {
    H(CredentialLeafQuery(H, c))
  }

  function CredentialQueries(H: Hash<Field>, c: ActiveCredential): seq<Query<Field>>
  {
    [SubjectQuery(c.subjectSecret), ReceiverQuery(c.approvedReceiver), CredentialMetaQuery(c),
     CredentialLeafQuery(H, c)]
  }

  predicate Authorizes(H: Hash<Field>, c: ActiveCredential, receiver: Receiver)
  {
    ReceiverCommitment(H, c.approvedReceiver) == ReceiverCommitment(H, receiver)
  }

  /** Up to a collision, a credential authorizes one receiver and no other. */
  lemma AuthorizesExactlyOne(H: Hash<Field>, c: ActiveCredential, receiver: Receiver)
    requires CollisionFree(H, [ReceiverQuery(c.approvedReceiver), ReceiverQuery(receiver)])
    ensures Authorizes(H, c, receiver) <==> receiver == c.approvedReceiver
  {
    var all := [ReceiverQuery(c.approvedReceiver), ReceiverQuery(receiver)];
    assert all[0] in all && all[1] in all;
    if Authorizes(H, c, receiver) {
      ReceiverBinding(H, all, c.approvedReceiver, receiver);
    }
  }

  /** A leaf determines every field of the credential, the approved receiver included. */
  lemma CredentialBinding(H: Hash<Field>, all: seq<Query<Field>>, c: ActiveCredential, c': ActiveCredential)
    requires CollisionFree(H, all) && Listed(CredentialQueries(H, c), all) && Listed(CredentialQueries(H, c'), all)
    ensures CredentialLeaf(H, c) == CredentialLeaf(H, c') <==> c == c'
  {
    var q, q' := CredentialQueries(H, c), CredentialQueries(H, c');
    assert q[0] in q && q[1] in q && q[2] in q && q[3] in q;
    assert q'[0] in q' && q'[1] in q' && q'[2] in q' && q'[3] in q';
    if CredentialLeaf(H, c) == CredentialLeaf(H, c') {
      SameInput(H, all, q[3], q'[3]);
      assert q[3][1] == q'[3][1] && q[3][2] == q'[3][2] && q[3][3] == q'[3][3];
      assert q[3][4] == q'[3][4] && q[3][5] == q'[3][5];
      SubjectBinding(H, all, c.subjectSecret, c'.subjectSecret);
      ReceiverBinding(H, all, c.approvedReceiver, c'.approvedReceiver);
      SameInput(H, all, q[2], q'[2]);
      assert q[2][1] == q'[2][1] && q[2][2] == q'[2][2] && q[2][3] == q'[2][3];
    }
  }

  /** The superseded leaf, which approves no receiver. */
  function LegacyLeafQuery(H: Hash<Field>, c: ActiveCredential): Query<Field>
  {
    [CREDENTIAL_V1, c.authorityCommitment, SubjectCommitment(H, c.subjectSecret), H(CredentialMetaQuery(c)), c.nonce]
  }

  /** A V1 leaf is never a V2 leaf, unless the two inputs collide. */
  lemma LeafVersionsAreDisjoint(H: Hash<Field>, c: ActiveCredential, c': ActiveCredential)
    requires CollisionFree(H, [LegacyLeafQuery(H, c), CredentialLeafQuery(H, c')])
    ensures H(LegacyLeafQuery(H, c)) != CredentialLeaf(H, c')
  {
    var all := [LegacyLeafQuery(H, c), CredentialLeafQuery(H, c')];
    assert all[0] in all && all[1] in all && |all[0]| != |all[1]|;
    assert Separated(H, all[0], all[1]);
  }

  // ---------- policy tuples ----------

  /** The shared schema admits any 64-bit codes; the circuit only narrower ones. */
  datatype PolicyTuple = PolicyTuple(investorClass: u64, jurisdiction: u64)

  function PolicyQuery(t: PolicyTuple): Query<Field>
  {
    [ELIGIBILITY_POLICY_V1, t.investorClass, t.jurisdiction]
  }

  function PolicyLeaf(H: Hash<Field>, t: PolicyTuple): Field
  {
    H(PolicyQuery(t))
  }

  lemma PolicyBinding(H: Hash<Field>, all: seq<Query<Field>>, t: PolicyTuple, t': PolicyTuple)
    requires CollisionFree(H, all) && PolicyQuery(t) in all && PolicyQuery(t') in all
    ensures PolicyLeaf(H, t) == PolicyLeaf(H, t') <==> t == t'
  {
    var q, q' := PolicyQuery(t), PolicyQuery(t');
    if H(q) == H(q') {
      SameInput(H, all, q, q');
      assert q[1] == q'[1] && q[2] == q'[2];
    }
  }

  // ---------- issuances ----------

  datatype Issuance = Issuance(
    issuerCommitment: Field,
    offeredAsset: AssetBase,
    seriesCommitment: Field,
    policyRoot: Field,
    issuanceNonce: u64)

  function IssuanceMetaQuery(s: Issuance): Query<Field>
  {
    [ISSUANCE_META_V1, s.seriesCommitment, s.policyRoot, s.issuanceNonce]
  }

  function IssuanceLeafQuery(H: Hash<Field>, s: Issuance): Query<Field>
  {
    [ISSUANCE_V1, s.issuerCommitment, H(AssetQuery(s.offeredAsset)), H(IssuanceMetaQuery(s))]
  }

  function IssuanceLeaf(H: Hash<Field>, s: Issuance): Field
  {
    H(IssuanceLeafQuery(H, s))
  }

  function IssuanceQueries(H: Hash<Field>, s: Issuance): seq<Query<Field>>
  {
    [AssetQuery(s.offeredAsset), IssuanceMetaQuery(s), IssuanceLeafQuery(H, s)]
  }

  /** A leaf determines the whole issuance: asset and policy root cannot be recombined. */
  lemma IssuanceBinding(H: Hash<Field>, all: seq<Query<Field>>, s: Issuance, s': Issuance)
    requires CollisionFree(H, all) && Listed(IssuanceQueries(H, s), all) && Listed(IssuanceQueries(H, s'), all)
    ensures IssuanceLeaf(H, s) == IssuanceLeaf(H, s') <==> s == s'
  {
    var q, q' := IssuanceQueries(H, s), IssuanceQueries(H, s');
    assert q[0] in q && q[1] in q && q[2] in q && q'[0] in q' && q'[1] in q' && q'[2] in q';
    if IssuanceLeaf(H, s) == IssuanceLeaf(H, s') {
      SameInput(H, all, q[2], q'[2]);
      assert q[2][1] == q'[2][1] && q[2][2] == q'[2][2] && q[2][3] == q'[2][3];
      AssetBinding(H, all, s.offeredAsset, s'.offeredAsset);
      SameInput(H, all, q[1], q'[1]);
      assert q[1][1] == q'[1][1] && q[1][2] == q'[1][2] && q[1][3] == q'[1][3];
    }
  }

  // ---------- registries as lists of entries ----------

  /** How the entries of a registry become leaves, and what is hashed on the way. */
  datatype Schema<!T> = Schema(leaf: T -> Field, queries: T -> seq<Query<Field>>)

  function IssuanceSchema(H: Hash<Field>): Schema<Issuance>
  {
    Schema((s: Issuance) => IssuanceLeaf(H, s), (s: Issuance) => IssuanceQueries(H, s))
  }

  function CredentialSchema(H: Hash<Field>): Schema<ActiveCredential>
  {
    Schema((c: ActiveCredential) => CredentialLeaf(H, c), (c: ActiveCredential) => CredentialQueries(H, c))
  }

  function PolicySchema(H: Hash<Field>): Schema<PolicyTuple>
  {
    Schema((t: PolicyTuple) => PolicyLeaf(H, t), (t: PolicyTuple) => [PolicyQuery(t)])
  }

  function Leaves<T>(schema: Schema<T>, list: seq<T>): (leaves: seq<Field>)
    ensures |leaves| == |list|
  {
    if list == [] then [] else [schema.leaf(list[0])] + Leaves(schema, list[1..])
  }

  function ListQueries<T>(schema: Schema<T>, list: seq<T>): seq<Query<Field>>
  {
    if list == [] then [] else schema.queries(list[0]) + ListQueries(schema, list[1..])
  }

  lemma {:induction false} EntryAt<T>(schema: Schema<T>, list: seq<T>, i: nat)
    requires i < |list|
    ensures Leaves(schema, list)[i] == schema.leaf(list[i])
    ensures Listed(schema.queries(list[i]), ListQueries(schema, list))
    decreases i
  {
    if i == 0 {
    } else {
      EntryAt(schema, list[1..], i - 1);
    }
  }
}
