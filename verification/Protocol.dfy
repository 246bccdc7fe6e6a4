/** Vocabulary shared by the protocol: lifecycle states and events, typed errors, the trade intent. */
module Protocol {
  import opened Machine

  // ---------- lifecycle vocabulary ----------

  datatype LifecycleState =
    | Created | Verified | SettlementConstructed | Submitted
    | Confirmed | Consumed | Expired | Failed

  datatype LifecycleEvent =
    | CreateEvent | VerifyEvent | AcquireConstructionEvent | SubmitEvent | ConfirmEvent
    | ConsumeEvent | FailEvent | ExpireEvent | RetryEvent

  datatype FailureReason =
    | VerificationRejected | ConstructionFailed | SubmissionFailed | ConfirmationFailed

  /** A 32-byte settlement transaction identifier. */
  type TxId = s: seq<byte> | |s| == 32 witness seq(32, _ => 0)

  // ---------- errors ----------

  datatype FieldEncodingProblem = WrongLength | NotReduced | NotDecimal | DecimalOverflow

  datatype RootEnvelopeProblem =
    | MissingAuthorityIdentifier
    | IdentifierTooLong(got: nat, max: nat)

  datatype ProtocolError =
    | InvalidFieldEncoding(reason: FieldEncodingProblem)
    | LimbOutOfRange(bits: u32)
    | InvertedWindow
    | ExpiredTrade(expiry: u64, now: u64)
    | CommitmentMismatch(expected: string, actual: string)
    | InvalidRootEnvelope(problem: RootEnvelopeProblem)
    | UnsupportedVersion(version: u64)
    | InvalidStateTransition(from: LifecycleState, attempted: LifecycleEvent)
    | AlreadyConsumed
    | UnknownTrade
    | UnreconciledPriorSubmission
    | RetryBudgetExhausted(attempts: u32, max: u32)

  datatype Result<+T> = Ok(value: T) | Err(error: ProtocolError)

  // ---------- the field and the trade intent ----------

  /** The BN254 scalar modulus. */
  const MODULUS: int := 21888242871839275222246405745257275088548364400416034343698204186575808495617

  /** A reduced BN254 scalar, as a number. */
  type Field = x: int | 0 <= x < MODULUS

  type AssetBase = s: seq<byte> | |s| == 32 witness seq(32, _ => 0)

  type Receiver = s: seq<byte> | |s| == 43 witness seq(43, _ => 0)

  datatype MatcherFee = MatcherFee(amount: u64, recipientCommitment: Field)

  /** The values committed by `TradeCommitmentV1`, and nothing else. */
  datatype TradeIntent = TradeIntent(
    offeredAsset: AssetBase,
    offeredAmount: u64,
    requestedAsset: AssetBase,
    requestedAmount: u64,
    recipientCommitment: Field,
    policyRoot: Field,
    matcherFee: MatcherFee,
    nonce: u64,
    expiry: u64)
  {
    /** The expiry second itself is still usable. */
    predicate IsExpiredAt(now: u64)
    {
      now > expiry
    }
  }
}
