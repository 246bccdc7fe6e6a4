/**
 What each call does, decided by state, clock, budget and txid alone, and what that means over runs:
 when calls are accepted, which error a refusal reports, and what the expiry gate did in any history.
 Source: crates/protocol/src/replay.rs, docs/architecture.md section 17.
 */
module ReplayEvents {
  import opened Machine
  import opened Protocol
  import opened Replay
  import opened ReplayRuns

  // ---------- one call ----------

  /** A call on an existing record is accepted exactly under these conditions. */
  lemma AcceptedExactly(max: u32, key: Field, r: TradeRecord, op: Op)
    ensures Step(max, key, Some(r), op).result.Ok? <==>
      match op
      case Create(_) => false
      case Verify(now) => r.state.Created? && now <= r.intent.expiry
      case Acquire(now) => r.state.Verified? && now <= r.intent.expiry
      case Submit(_, now) => r.state.SettlementConstructed? && now <= r.intent.expiry
      case Confirm => r.state.Submitted?
      case Consume => r.state.Confirmed?
      case Fail(_) => r.state.Created? || r.state.Verified? || r.state.SettlementConstructed? || r.state.Submitted?
      case Expire(now) =>
        now > r.intent.expiry &&
        (r.state.Created? || r.state.Verified? || r.state.SettlementConstructed? || r.state.Failed?)
      case Retry(acknowledged, now) =>
        r.state.Failed? && now <= r.intent.expiry && r.retryCount < max && acknowledged == r.priorTxid
  {
  }

  /** The record an accepted call returns and stores, field by field. */
  lemma AcceptedRecord(max: u32, key: Field, r: TradeRecord, op: Op)
    requires Step(max, key, Some(r), op).result.Ok?
    ensures var r' := Step(max, key, Some(r), op).result.value;
      && Step(max, key, Some(r), op).slot == Some(r')
      && r'.commitment == r.commitment && r'.intent == r.intent
      && (r'.state.Created? <==> op.Retry?) && (r'.state.Verified? <==> op.Verify?)
      && (r'.state.SettlementConstructed? <==> op.Acquire?) && (r'.state.Submitted? <==> op.Submit?)
      && (r'.state.Confirmed? <==> op.Confirm?) && (r'.state.Consumed? <==> op.Consume?)
      && (r'.state.Failed? <==> op.Fail?) && (r'.state.Expired? <==> op.Expire?)
      && r'.failureReason ==
           (if op.Fail? then Some(op.reason) else if op.Verify? || op.Retry? then None else r.failureReason)
      && r'.priorTxid ==
           (if op.Submit? then Some(op.txid)
            else if op.Retry? || (op.Fail? && !r.state.Submitted?) then None
            else r.priorTxid)
      && r'.retryCount == (if op.Retry? then r.retryCount + 1 else r.retryCount)
  {
  }

  /** Creation is accepted exactly on an unused commitment; nothing else is. */
  lemma CreatedExactly(max: u32, key: Field, slot: Option<TradeRecord>, op: Op)
    ensures slot.None? ==> (Step(max, key, slot, op).result.Ok? <==> op.Create?)
    ensures op.Create? && slot.None? ==>
      var r := Step(max, key, slot, op).result.value;
      && Step(max, key, slot, op).slot == Some(r)
      && r.commitment == key && r.intent == op.intent && r.state.Created?
      && r.failureReason.None? && r.priorTxid.None? && r.retryCount == 0
  {
  }

  /** The call would start new work out of the record's present state. */
  predicate WouldStart(r: TradeRecord, op: Op)
  {
    || (op.Verify? && r.state.Created?) || (op.Acquire? && r.state.Verified?)
    || (op.Submit? && r.state.SettlementConstructed?) || (op.Retry? && r.state.Failed?)
  }

  /** Which error a refused call reports, with its arguments. */
  lemma ErrorsExactly(max: u32, key: Field, r: TradeRecord, op: Op, e: ProtocolError)
    requires Step(max, key, Some(r), op).result == Err(e)
    ensures e != UnknownTrade
    ensures e == AlreadyConsumed <==> r.state.Consumed?
    ensures e.ExpiredTrade? <==> WouldStart(r, op) && op.now > r.intent.expiry
    ensures e.ExpiredTrade? ==> e == ExpiredTrade(r.intent.expiry, op.now)
    ensures e.RetryBudgetExhausted? <==>
      op.Retry? && r.state.Failed? && op.now <= r.intent.expiry && r.retryCount >= max
    ensures e.RetryBudgetExhausted? ==> e == RetryBudgetExhausted(r.retryCount, max)
    ensures e == UnreconciledPriorSubmission <==>
      op.Retry? && r.state.Failed? && op.now <= r.intent.expiry && r.retryCount < max && op.acknowledged != r.priorTxid
    ensures
      || e == AlreadyConsumed || e.ExpiredTrade? || e.RetryBudgetExhausted? || e == UnreconciledPriorSubmission
      || (e.InvalidStateTransition? && e.from == r.state && Attempts(e.attempted, op))
  {
  }

  /** The event named in an error is that of the call. */
  predicate Attempts(event: LifecycleEvent, op: Op)
  {
    match event
    case CreateEvent => op.Create?
    case VerifyEvent => op.Verify?
    case AcquireConstructionEvent => op.Acquire?
    case SubmitEvent => op.Submit?
    case ConfirmEvent => op.Confirm?
    case ConsumeEvent => op.Consume?
    case FailEvent => op.Fail?
    case ExpireEvent => op.Expire?
    case RetryEvent => op.Retry?
  }

  lemma UnknownExactly(max: u32, key: Field, slot: Option<TradeRecord>, op: Op)
    ensures Step(max, key, slot, op).result == Err(UnknownTrade) <==> slot.None? && !op.Create?
    ensures slot.None? && !op.Create? ==> Step(max, key, slot, op).slot.None?
  {
  }

  // ---------- the clock over runs ----------

  predicate OnTime(op: Op, expiry: u64)
  {
    && (op.Verify? || op.Acquire? || op.Submit? || op.Retry? ==> op.now <= expiry)
    && (op.Expire? ==> op.now > expiry)
  }

  lemma AcceptedIsOnTime(max: u32, key: Field, r: TradeRecord, op: Op)
    requires Step(max, key, Some(r), op).result.Ok?
    ensures OnTime(op, r.intent.expiry)
  {
    AcceptedExactly(max, key, r, op);
  }

  /** In every run all new work, retries included, was accepted no later than expiry, and explicit expiry only after. */
  lemma {:induction false} GateHeldThroughout(max: u32, h: seq<Call>, key: Field, i: nat)
    requires i < |Accepted(max, h, key)| && After(max, h, key).Some?
    ensures OnTime(Accepted(max, h, key)[i], After(max, h, key).value.intent.expiry)
  {
    var f, c := h[..|h| - 1], h[|h| - 1];
    var ops, slot := Accepted(max, f, key), After(max, f, key);
    Unfold(max, h, key);
    if slot.None? {
      NothingAccepted(max, f, key);
    } else {
      if c.key == key {
        RecordStep(max, key, slot.value, c.op);
      }
      if i < |ops| {
        GateHeldThroughout(max, f, key, i);
      } else {
        AcceptedIsOnTime(max, key, slot.value, c.op);
      }
    }
  }

  lemma NothingAccepted(max: u32, h: seq<Call>, key: Field)
    requires After(max, h, key).None?
    ensures Accepted(max, h, key) == []
  {
    AcceptedTallies(max, h, key);
  }

  /** A call on the commitment that read the clock strictly after `expiry`. */
  predicate ReadLate(c: Call, key: Field, expiry: u64)
  {
    && c.key == key && (c.op.Verify? || c.op.Acquire? || c.op.Submit? || c.op.Retry? || c.op.Expire?)
    && c.op.now > expiry
  }

  /** No live trade is ever expired: an expired record was seen by a call strictly after its committed expiry. */
  lemma {:induction false} ExpiredOnlyLate(max: u32, h: seq<Call>, key: Field)
    requires After(max, h, key).Some? && After(max, h, key).value.state.Expired?
    ensures exists i :: 0 <= i < |h| && ReadLate(h[i], key, After(max, h, key).value.intent.expiry)
  {
    var f, c := h[..|h| - 1], h[|h| - 1];
    var slot := After(max, f, key);
    LastCall(max, h, key);
    if slot.Some? && slot.value.state.Expired? {
      ExpiredOnlyLate(max, f, key);
      if c.key == key {
        RecordStep(max, key, slot.value, c.op);
      }
      var i :| 0 <= i < |f| && ReadLate(f[i], key, slot.value.intent.expiry);
      assert ReadLate(h[i], key, After(max, h, key).value.intent.expiry);
    } else {
      BecomesExpired(max, key, slot, c.op);
      assert ReadLate(h[|h| - 1], key, After(max, h, key).value.intent.expiry);
    }
  }

  lemma BecomesExpired(max: u32, key: Field, slot: Option<TradeRecord>, op: Op)
    requires slot.Some? ==> !slot.value.state.Expired?
    requires Step(max, key, slot, op).slot.Some? && Step(max, key, slot, op).slot.value.state.Expired?
    ensures slot.Some? && Step(max, key, slot, op).slot.value.intent == slot.value.intent
    ensures ReadLate(Call(key, op), key, slot.value.intent.expiry)
  {
  }

  /** The gate, positively: new work attempted too late is refused with both times and ends the record. */
  lemma LateWorkExpires(max: u32, h: seq<Call>, key: Field, op: Op)
    requires After(max, h, key).Some? && WouldStart(After(max, h, key).value, op)
    requires op.now > After(max, h, key).value.intent.expiry
    ensures var r := After(max, h, key).value;
      && ResultOf(max, Run(max, h), Call(key, op)) == Err(ExpiredTrade(r.intent.expiry, op.now))
      && After(max, h + [Call(key, op)], key) == Some(r.(state := Expired))
  {
    RunPush(max, h, Call(key, op));
  }

  // ---------- failing and retrying over runs ----------

  /**
   An attempt can be given up at any point before confirmation, with any reason. Only the txid of a
   submission in flight is kept, for the retry to acknowledge.
   */
  lemma CanAlwaysFail(max: u32, h: seq<Call>, key: Field, r: TradeRecord, reason: FailureReason)
    requires After(max, h, key) == Some(r)
    requires r.state.Created? || r.state.Verified? || r.state.SettlementConstructed? || r.state.Submitted?
    ensures var failed := r.(state := Failed, failureReason := Some(reason),
                             priorTxid := if r.state.Submitted? then r.priorTxid else None);
      && ResultOf(max, Run(max, h), Call(key, Op.Fail(reason))) == Ok(failed)
      && After(max, h + [Call(key, Op.Fail(reason))], key) == Some(failed)
  {
    RunPush(max, h, Call(key, Op.Fail(reason)));
  }

  /** A failed attempt can be retried while the trade is on time and has a retry left, by naming its txid. */
  lemma CanRetry(max: u32, h: seq<Call>, key: Field, r: TradeRecord, now: u64)
    requires After(max, h, key) == Some(r) && r.state.Failed?
    requires now <= r.intent.expiry && r.retryCount < max
    ensures var retried := TradeRecord(key, r.intent, Created, None, None, r.retryCount + 1);
      && ResultOf(max, Run(max, h), Call(key, Op.Retry(r.priorTxid, now))) == Ok(retried)
      && After(max, h + [Call(key, Op.Retry(r.priorTxid, now))], key) == Some(retried)
  {
    ReachableRecordsAreWellFormed(max, h, key);
    RunPush(max, h, Call(key, Op.Retry(r.priorTxid, now)));
  }
}
