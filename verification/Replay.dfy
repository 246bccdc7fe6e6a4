/**
 The replay store: one lifecycle record per trade commitment, updated in place.
 Source: crates/protocol/src/replay.rs.

 `Step` is the transition table of the documentation (source states, expiry gate, effect);
 the methods of `ReplayStore` follow the control flow of the code and are proved to implement it.
 */
module Replay {
  import opened Machine
  import opened Protocol

  const DEFAULT_MAX_RETRIES: u32 := 3

  datatype TradeRecord = TradeRecord(
    commitment: Field,
    intent: TradeIntent,
    state: LifecycleState,
    failureReason: Option<FailureReason>,
    priorTxid: Option<TxId>,
    retryCount: u32)

  /** One call on the store, without the commitment it is addressed to. Time is an argument. */
  datatype Op =
    | Create(intent: TradeIntent)
    | Verify(now: u64)
    | Acquire(now: u64)
    | Submit(txid: TxId, now: u64)
    | Confirm
    | Consume
    | Fail(reason: FailureReason)
    | Expire(now: u64)
    | Retry(acknowledged: Option<TxId>, now: u64)

  datatype Call = Call(key: Field, op: Op)

  // ---------- the transition table ----------

  function EventOf(op: Op): LifecycleEvent
  {
    match op
    case Create(_) => CreateEvent
    case Verify(_) => VerifyEvent
    case Acquire(_) => AcquireConstructionEvent
    case Submit(_, _) => SubmitEvent
    case Confirm => ConfirmEvent
    case Consume => ConsumeEvent
    case Fail(_) => FailEvent
    case Expire(_) => ExpireEvent
    case Retry(_, _) => RetryEvent
  }

  function Sources(op: Op): set<LifecycleState>
  {
    match op
    case Create(_) => {}
    case Verify(_) => {Created}
    case Acquire(_) => {Verified}
    case Submit(_, _) => {SettlementConstructed}
    case Confirm => {Submitted}
    case Consume => {Confirmed}
    case Fail(_) => {Created, Verified, SettlementConstructed, Submitted}
    case Expire(_) => {Created, Verified, SettlementConstructed, Failed}
    case Retry(_, _) => {Failed}
  }

  /** Transitions that start new work are gated on the committed expiry. */
  predicate StartsNewWork(op: Op)
  {
    op.Verify? || op.Acquire? || op.Submit? || op.Retry?
  }

  predicate Elapsed(r: TradeRecord, op: Op)
  {
    StartsNewWork(op) && r.intent.IsExpiredAt(op.now)
  }

  /** What still blocks an unexpired transition out of a permitted source state. */
  function Obstacle(maxRetries: u32, r: TradeRecord, op: Op): Option<ProtocolError>
  {
    if op.Expire? && !r.intent.IsExpiredAt(op.now) then Some(Rejection(r.state, ExpireEvent))
    else if op.Retry? && r.retryCount >= maxRetries then Some(RetryBudgetExhausted(r.retryCount, maxRetries))
    else if op.Retry? && r.priorTxid != op.acknowledged then Some(UnreconciledPriorSubmission)
    else None
  }

  function Effect(maxRetries: u32, r: TradeRecord, op: Op): TradeRecord
    requires Obstacle(maxRetries, r, op).None?
  {
    match op
    case Create(_) => r
    case Verify(_) => r.(state := Verified, failureReason := None)
    case Acquire(_) => r.(state := SettlementConstructed)
    case Submit(txid, _) => r.(state := Submitted, priorTxid := Some(txid))
    case Confirm => r.(state := Confirmed)
    case Consume => r.(state := Consumed)
    case Fail(reason) =>
      r.(state := Failed, failureReason := Some(reason),
         priorTxid := if r.state.Submitted? then r.priorTxid else None)
    case Expire(_) => r.(state := Expired)
    case Retry(_, _) =>
      r.(state := Created, failureReason := None, priorTxid := None, retryCount := r.retryCount + 1)
  }

  function Rejection(from: LifecycleState, attempted: LifecycleEvent): ProtocolError
  {
    if from.Consumed? then AlreadyConsumed else InvalidStateTransition(from, attempted)
  }

  datatype Outcome = Outcome(slot: Option<TradeRecord>, result: Result<TradeRecord>)

  function Step(maxRetries: u32, key: Field, slot: Option<TradeRecord>, op: Op): Outcome
  {
    match slot
    case None =>
      if op.Create? then
        var r := TradeRecord(key, op.intent, Created, None, None, 0);
        Outcome(Some(r), Ok(r))
      else
        Outcome(None, Err(UnknownTrade))
    case Some(r) =>
      if r.state !in Sources(op) then
        Outcome(slot, Err(Rejection(r.state, EventOf(op))))
      else if Elapsed(r, op) then
        Outcome(Some(r.(state := Expired)), Err(ExpiredTrade(r.intent.expiry, op.now)))
      else
        match Obstacle(maxRetries, r, op)
        case Some(e) => Outcome(slot, Err(e))
        case None => var r' := Effect(maxRetries, r, op); Outcome(Some(r'), Ok(r'))
  }

  // ---------- the whole store ----------

  type Records = map<Field, TradeRecord>

  function Slot(records: Records, key: Field): Option<TradeRecord>
  {
    if key in records then Some(records[key]) else None
  }

  function ResultOf(maxRetries: u32, records: Records, c: Call): Result<TradeRecord>
  {
    Step(maxRetries, c.key, Slot(records, c.key), c.op).result
  }

  function Apply(maxRetries: u32, records: Records, c: Call): Records
  {
    match Step(maxRetries, c.key, Slot(records, c.key), c.op).slot
    case None => records
    case Some(r) => records[c.key := r]
  }

  /** The records after a run of calls on an empty store. */
  function Run(maxRetries: u32, h: seq<Call>): Records
  {
    if h == [] then map[] else Apply(maxRetries, Run(maxRetries, h[..|h| - 1]), h[|h| - 1])
  }

  lemma RunPush(maxRetries: u32, h: seq<Call>, c: Call)
    ensures Run(maxRetries, h + [c]) == Apply(maxRetries, Run(maxRetries, h), c)
  {
    assert (h + [c])[..|h|] == h;
  }

  // ---------- the implementation ----------

  class ReplayStore {
    var records: Records
    const maxRetries: u32
    ghost var history: seq<Call>

    /** The records are always those of the run so far, so every theorem about runs applies. */
    ghost predicate Valid()
      reads this
    {
      records == Run(maxRetries, history)
    }

    constructor ()
      ensures Valid() && history == [] && maxRetries == 3 && records == map[]
    {
      records, maxRetries, history := map[], DEFAULT_MAX_RETRIES, [];
    }

    constructor WithMaxRetries(maxRetries: u32)
      ensures Valid() && history == [] && this.maxRetries == maxRetries && records == map[]
    {
      this.records, this.maxRetries, this.history := map[], maxRetries, [];
    }

    ghost method Record(c: Call)
      modifies `history
      ensures history == old(history) + [c]
      ensures Run(maxRetries, history) == Apply(maxRetries, Run(maxRetries, old(history)), c)
    {
      RunPush(maxRetries, history, c);
      history := history + [c];
    }

    method DenyConsumed(state: LifecycleState) returns (e: Option<ProtocolError>)
      ensures e == if state.Consumed? then Some(AlreadyConsumed) else None
    {
      if state.Consumed? {
        return Some(AlreadyConsumed);
      }
      return None;
    }

    /** Moves an elapsed record to `Expired` in place and reports the error; otherwise does nothing. */
    method ExpireIfElapsed(commitment: Field, now: u64) returns (e: Option<ProtocolError>)
      requires commitment in records
      modifies `records
      ensures old(records[commitment]).intent.IsExpiredAt(now) ==>
        records == old(records)[commitment := old(records[commitment]).(state := Expired)] &&
        e == Some(ExpiredTrade(old(records[commitment]).intent.expiry, now))
      ensures !old(records[commitment]).intent.IsExpiredAt(now) ==> records == old(records) && e == None
    {
      var record := records[commitment];
      if record.intent.IsExpiredAt(now) {
        records := records[commitment := record.(state := Expired)];
        return Some(ExpiredTrade(record.intent.expiry, now));
      }
      return None;
    }

    method Create(commitment: Field, intent: TradeIntent) returns (r: Result<TradeRecord>)
      requires Valid()
      modifies this
      ensures Valid() && history == old(history) + [Call(commitment, Op.Create(intent))]
      ensures r == ResultOf(maxRetries, old(records), Call(commitment, Op.Create(intent)))
      ensures records == Apply(maxRetries, old(records), Call(commitment, Op.Create(intent)))
    {
      Record(Call(commitment, Op.Create(intent)));
      if commitment in records {
        return Err(Rejection(records[commitment].state, CreateEvent));
      }
      var record := TradeRecord(commitment, intent, Created, None, None, 0);
      records := records[commitment := record];
      r := Ok(record);
    }

    method Verify(commitment: Field, now: u64) returns (r: Result<TradeRecord>)
      requires Valid()
      modifies this
      ensures Valid() && history == old(history) + [Call(commitment, Op.Verify(now))]
      ensures r == ResultOf(maxRetries, old(records), Call(commitment, Op.Verify(now)))
      ensures records == Apply(maxRetries, old(records), Call(commitment, Op.Verify(now)))
    {
      Record(Call(commitment, Op.Verify(now)));
      if commitment !in records {
        return Err(UnknownTrade);
      }
      var record := records[commitment];
      var denied := DenyConsumed(record.state);
      if denied.Some? {
        return Err(denied.value);
      }
      if record.state != Created {
        return Err(Rejection(record.state, VerifyEvent));
      }
      var expired := ExpireIfElapsed(commitment, now);
      if expired.Some? {
        return Err(expired.value);
      }
      record := record.(state := Verified, failureReason := None);
      records := records[commitment := record];
      r := Ok(record);
    }

    method AcquireConstruction(commitment: Field, now: u64) returns (r: Result<TradeRecord>)
      requires Valid()
      modifies this
      ensures Valid() && history == old(history) + [Call(commitment, Op.Acquire(now))]
      ensures r == ResultOf(maxRetries, old(records), Call(commitment, Op.Acquire(now)))
      ensures records == Apply(maxRetries, old(records), Call(commitment, Op.Acquire(now)))
    {
      Record(Call(commitment, Op.Acquire(now)));
      if commitment !in records {
        return Err(UnknownTrade);
      }
      var record := records[commitment];
      var denied := DenyConsumed(record.state);
      if denied.Some? {
        return Err(denied.value);
      }
      if record.state != Verified {
        return Err(Rejection(record.state, AcquireConstructionEvent));
      }
      var expired := ExpireIfElapsed(commitment, now);
      if expired.Some? {
        return Err(expired.value);
      }
      record := record.(state := SettlementConstructed);
      records := records[commitment := record];
      r := Ok(record);
    }

    method Submit(commitment: Field, txid: TxId, now: u64) returns (r: Result<TradeRecord>)
      requires Valid()
      modifies this
      ensures Valid() && history == old(history) + [Call(commitment, Op.Submit(txid, now))]
      ensures r == ResultOf(maxRetries, old(records), Call(commitment, Op.Submit(txid, now)))
      ensures records == Apply(maxRetries, old(records), Call(commitment, Op.Submit(txid, now)))
    {
      Record(Call(commitment, Op.Submit(txid, now)));
      if commitment !in records {
        return Err(UnknownTrade);
      }
      var record := records[commitment];
      var denied := DenyConsumed(record.state);
      if denied.Some? {
        return Err(denied.value);
      }
      if record.state != SettlementConstructed {
        return Err(Rejection(record.state, SubmitEvent));
      }
      var expired := ExpireIfElapsed(commitment, now);
      if expired.Some? {
        return Err(expired.value);
      }
      record := record.(state := Submitted, priorTxid := Some(txid));
      records := records[commitment := record];
      r := Ok(record);
    }

    method Confirm(commitment: Field) returns (r: Result<TradeRecord>)
      requires Valid()
      modifies this
      ensures Valid() && history == old(history) + [Call(commitment, Op.Confirm)]
      ensures r == ResultOf(maxRetries, old(records), Call(commitment, Op.Confirm))
      ensures records == Apply(maxRetries, old(records), Call(commitment, Op.Confirm))
    {
      Record(Call(commitment, Op.Confirm));
      if commitment !in records {
        return Err(UnknownTrade);
      }
      var record := records[commitment];
      var denied := DenyConsumed(record.state);
      if denied.Some? {
        return Err(denied.value);
      }
      if record.state != Submitted {
        return Err(Rejection(record.state, ConfirmEvent));
      }
      record := record.(state := Confirmed);
      records := records[commitment := record];
      r := Ok(record);
    }

    method Consume(commitment: Field) returns (r: Result<TradeRecord>)
      requires Valid()
      modifies this
      ensures Valid() && history == old(history) + [Call(commitment, Op.Consume)]
      ensures r == ResultOf(maxRetries, old(records), Call(commitment, Op.Consume))
      ensures records == Apply(maxRetries, old(records), Call(commitment, Op.Consume))
    {
      Record(Call(commitment, Op.Consume));
      if commitment !in records {
        return Err(UnknownTrade);
      }
      var record := records[commitment];
      var denied := DenyConsumed(record.state);
      if denied.Some? {
        return Err(denied.value);
      }
      if record.state != Confirmed {
        return Err(Rejection(record.state, ConsumeEvent));
      }
      record := record.(state := Consumed);
      records := records[commitment := record];
      r := Ok(record);
    }

    method Fail(commitment: Field, reason: FailureReason) returns (r: Result<TradeRecord>)
      requires Valid()
      modifies this
      ensures Valid() && history == old(history) + [Call(commitment, Op.Fail(reason))]
      ensures r == ResultOf(maxRetries, old(records), Call(commitment, Op.Fail(reason)))
      ensures records == Apply(maxRetries, old(records), Call(commitment, Op.Fail(reason)))
    {
      Record(Call(commitment, Op.Fail(reason)));
      if commitment !in records {
        return Err(UnknownTrade);
      }
      var record := records[commitment];
      var denied := DenyConsumed(record.state);
      if denied.Some? {
        return Err(denied.value);
      }
      if !(record.state.Created? || record.state.Verified? || record.state.SettlementConstructed? ||
           record.state.Submitted?) {
        return Err(Rejection(record.state, FailEvent));
      }
      if record.state != Submitted {
        record := record.(priorTxid := None);
      }
      record := record.(state := Failed, failureReason := Some(reason));
      records := records[commitment := record];
      r := Ok(record);
    }

    method Expire(commitment: Field, now: u64) returns (r: Result<TradeRecord>)
      requires Valid()
      modifies this
      ensures Valid() && history == old(history) + [Call(commitment, Op.Expire(now))]
      ensures r == ResultOf(maxRetries, old(records), Call(commitment, Op.Expire(now)))
      ensures records == Apply(maxRetries, old(records), Call(commitment, Op.Expire(now)))
    {
      Record(Call(commitment, Op.Expire(now)));
      if commitment !in records {
        return Err(UnknownTrade);
      }
      var record := records[commitment];
      var denied := DenyConsumed(record.state);
      if denied.Some? {
        return Err(denied.value);
      }
      if !(record.state.Created? || record.state.Verified? || record.state.SettlementConstructed? ||
           record.state.Failed?) {
        return Err(Rejection(record.state, ExpireEvent));
      }
      if !record.intent.IsExpiredAt(now) {
        return Err(Rejection(record.state, ExpireEvent));
      }
      record := record.(state := Expired);
      records := records[commitment := record];
      r := Ok(record);
    }

    method RetryAfterFailure(commitment: Field, acknowledged: Option<TxId>, now: u64)
      returns (r: Result<TradeRecord>)
      requires Valid()
      modifies this
      ensures Valid() && history == old(history) + [Call(commitment, Op.Retry(acknowledged, now))]
      ensures r == ResultOf(maxRetries, old(records), Call(commitment, Op.Retry(acknowledged, now)))
      ensures records == Apply(maxRetries, old(records), Call(commitment, Op.Retry(acknowledged, now)))
    {
      Record(Call(commitment, Op.Retry(acknowledged, now)));
      if commitment !in records {
        return Err(UnknownTrade);
      }
      var record := records[commitment];
      var denied := DenyConsumed(record.state);
      if denied.Some? {
        return Err(denied.value);
      }
      if record.state != Failed {
        return Err(Rejection(record.state, RetryEvent));
      }
      var expired := ExpireIfElapsed(commitment, now);
      if expired.Some? {
        return Err(expired.value);
      }
      if record.retryCount >= maxRetries {
        return Err(RetryBudgetExhausted(record.retryCount, maxRetries));
      }
      if record.priorTxid != acknowledged {
        return Err(UnreconciledPriorSubmission);
      }
      record := record.(state := Created, failureReason := None, priorTxid := None,
                        retryCount := record.retryCount + 1);
      records := records[commitment := record];
      r := Ok(record);
    }
  }
}
