/**
 What every run of the replay store guarantees: any calls, any interleaving of commitments, any
 clock readings. `ReplayStore.Valid` makes the store's records those of a run, so each lemma
 about `Run` is about every reachable store.
 */
module ReplayRuns {
  import opened Machine
  import opened Protocol
  import opened Replay

  function After(max: u32, h: seq<Call>, key: Field): Option<TradeRecord>
  {
    Slot(Run(max, h), key)
  }

  // ---------- the reachable-state invariant ----------

  ghost predicate WellFormed(max: u32, key: Field, r: TradeRecord)
  {
    && r.commitment == key
    && r.retryCount <= max
    && (r.state.Created? || r.state.Verified? || r.state.SettlementConstructed? ==>
          r.priorTxid.None? && r.failureReason.None?)
    && (r.state.Submitted? || r.state.Confirmed? || r.state.Consumed? ==>
          r.priorTxid.Some? && r.failureReason.None?)
    && (r.state.Failed? ==> r.failureReason.Some?)
    && (r.state.Expired? && r.priorTxid.Some? ==> r.failureReason.Some?)
  }

  lemma {:induction false} ReachableRecordsAreWellFormed(max: u32, h: seq<Call>, key: Field)
    ensures After(max, h, key).Some? ==> WellFormed(max, key, After(max, h, key).value)
  {
    if h == [] {
    } else {
      var f, c := h[..|h| - 1], h[|h| - 1];
      ReachableRecordsAreWellFormed(max, f, key);
      LastCall(max, h, key);
      if c.key == key {
        WellFormedStep(max, key, After(max, f, key), c.op);
      }
    }
  }

  lemma LastCall(max: u32, h: seq<Call>, key: Field)
    requires h != []
    ensures var f, c := h[..|h| - 1], h[|h| - 1];
      After(max, h, key) == if c.key == key then Step(max, key, After(max, f, key), c.op).slot else After(max, f, key)
  {
  }

  lemma WellFormedStep(max: u32, key: Field, slot: Option<TradeRecord>, op: Op)
    requires slot.Some? ==> WellFormed(max, key, slot.value)
    ensures var after := Step(max, key, slot, op).slot; after.Some? ==> WellFormed(max, key, after.value)
  {
  }

  /**
   A rejected call leaves the store alone, except that the expiry gate moves the one addressed
   record to `Expired`. Accepted calls always change the record.
   */
  lemma ErrorFrame(max: u32, records: Records, c: Call)
    ensures var r, after := ResultOf(max, records, c), Apply(max, records, c);
      && (after != records <==> r.Ok? || r.error.ExpiredTrade?)
      && (r.Err? && r.error.ExpiredTrade? ==>
            && c.key in records && StartsNewWork(c.op) && c.op.now > records[c.key].intent.expiry
            && after == records[c.key := records[c.key].(state := Expired)])
      && (r.Ok? ==> after == records[c.key := r.value])
  {
    var before, after := Slot(records, c.key), Slot(Apply(max, records, c), c.key);
    if before == after && before.Some? {
      assert Apply(max, records, c) == records;
    }
  }

  /** Keys, commitments and intents are fixed at creation; `Consumed` and `Expired` are never left. */
  lemma {:induction false} RecordsPersist(max: u32, h: seq<Call>, g: seq<Call>, key: Field)
    requires After(max, h, key).Some?
    ensures After(max, h + g, key).Some?
    ensures var r, r' := After(max, h, key).value, After(max, h + g, key).value;
      && r'.commitment == r.commitment == key && r'.intent == r.intent
      && (r.state.Consumed? || r.state.Expired? ==> r' == r)
  {
    ReachableRecordsAreWellFormed(max, h, key);
    if g == [] {
      assert h + g == h;
    } else {
      var f := g[..|g| - 1];
      assert (h + g)[..|h + g| - 1] == h + f;
      RecordsPersist(max, h, f, key);
      LastCall(max, h + g, key);
      RecordStep(max, key, After(max, h + f, key).value, g[|g| - 1].op);
    }
  }

  lemma RecordStep(max: u32, key: Field, r: TradeRecord, op: Op)
    ensures var slot := Step(max, key, Some(r), op).slot;
      && slot.Some? && slot.value.commitment == r.commitment && slot.value.intent == r.intent
      && (r.state.Consumed? || r.state.Expired? ==> slot.value == r)
  {
  }

  // ---------- independence of interleaved commitments ----------

  /** The calls addressed to one commitment, in order. */
  function Only(h: seq<Call>, key: Field): seq<Call>
  {
    if h == [] then []
    else
      var c := h[|h| - 1];
      Only(h[..|h| - 1], key) + if c.key == key then [c] else []
  }

  /** The results returned for the calls addressed to one commitment, in order. */
  function ResultsFor(max: u32, h: seq<Call>, key: Field): seq<Result<TradeRecord>>
  {
    if h == [] then []
    else
      var f, c := h[..|h| - 1], h[|h| - 1];
      ResultsFor(max, f, key) + if c.key == key then [ResultOf(max, Run(max, f), c)] else []
  }

  /** Each commitment behaves as if it were alone in an otherwise empty store. */
  lemma {:induction false} Projection(max: u32, h: seq<Call>, key: Field)
    ensures After(max, h, key) == After(max, Only(h, key), key)
    ensures ResultsFor(max, h, key) == ResultsFor(max, Only(h, key), key)
    ensures Run(max, Only(h, key)).Keys <= {key}
  {
    if h == [] {
    } else {
      var f, c := h[..|h| - 1], h[|h| - 1];
      Projection(max, f, key);
      if c.key == key {
        assert Only(h, key)[..|Only(h, key)| - 1] == Only(f, key);
      } else {
        assert Only(h, key) == Only(f, key);
        assert ResultsFor(max, h, key) == ResultsFor(max, f, key);
      }
    }
  }

  /** Two schedules that agree per commitment end in the same store. */
  lemma InterleavingIsIrrelevant(max: u32, h: seq<Call>, g: seq<Call>)
    requires forall key :: Only(h, key) == Only(g, key)
    ensures Run(max, h) == Run(max, g)
  {
    forall key: Field
      ensures Slot(Run(max, h), key) == Slot(Run(max, g), key)
    {
      Projection(max, h, key);
      Projection(max, g, key);
    }
    SlotsDetermineRecords(Run(max, h), Run(max, g));
  }

  lemma SlotsDetermineRecords(a: Records, b: Records)
    requires forall key :: Slot(a, key) == Slot(b, key)
    ensures a == b
  {
    assert forall key :: key in a ==> Slot(a, key) == Some(a[key]);
    assert forall key :: key in b ==> Slot(b, key) == Some(b[key]);
    assert a.Keys == b.Keys;
  }

  // ---------- the accepted operations of one commitment ----------

  predicate IsAccepted(max: u32, h: seq<Call>, key: Field, c: Call)
  {
    c.key == key && ResultOf(max, Run(max, h), c).Ok?
  }

  function Accepted(max: u32, h: seq<Call>, key: Field): seq<Op>
  {
    if h == [] then []
    else
      var f, c := h[..|h| - 1], h[|h| - 1];
      Accepted(max, f, key) + if IsAccepted(max, f, key, c) then [c.op] else []
  }

  /** The accepted operations after one more call. */
  function Extended(max: u32, key: Field, slot: Option<TradeRecord>, ops: seq<Op>, op: Op): seq<Op>
  {
    if Step(max, key, slot, op).result.Ok? then ops + [op] else ops
  }

  lemma Unfold(max: u32, h: seq<Call>, key: Field)
    requires h != []
    ensures var f, c := h[..|h| - 1], h[|h| - 1];
      && (c.key != key ==> After(max, h, key) == After(max, f, key) && Accepted(max, h, key) == Accepted(max, f, key))
      && (c.key == key ==>
            && After(max, h, key) == Step(max, key, After(max, f, key), c.op).slot
            && Accepted(max, h, key) == Extended(max, key, After(max, f, key), Accepted(max, f, key), c.op))
  {
  }

  function SubmittedTxids(ops: seq<Op>): seq<TxId>
  {
    if ops == [] then []
    else
      var o := ops[|ops| - 1];
      SubmittedTxids(ops[..|ops| - 1]) + if o.Submit? then [o.txid] else []
  }

  function AcknowledgedTxids(ops: seq<Op>): seq<TxId>
  {
    if ops == [] then []
    else
      var o := ops[|ops| - 1];
      AcknowledgedTxids(ops[..|ops| - 1]) +
        if o.Retry? && o.acknowledged.Some? then [o.acknowledged.value] else []
  }

  function Outstanding(slot: Option<TradeRecord>): seq<TxId>
  {
    if slot.Some? && slot.value.priorTxid.Some? then [slot.value.priorTxid.value] else []
  }

  lemma PushTxids(ops: seq<Op>, o: Op)
    ensures SubmittedTxids(ops + [o]) == SubmittedTxids(ops) + if o.Submit? then [o.txid] else []
    ensures AcknowledgedTxids(ops + [o]) ==
      AcknowledgedTxids(ops) + if o.Retry? && o.acknowledged.Some? then [o.acknowledged.value] else []
  {
    assert (ops + [o])[..|ops|] == ops;
  }

  /** No txid is ever dropped: every submitted txid was acknowledged by a retry or is still on record. */
  lemma {:induction false} TxidLedger(max: u32, h: seq<Call>, key: Field)
    ensures Balanced(Accepted(max, h, key), After(max, h, key))
  {
    if h == [] {
    } else {
      var f, c := h[..|h| - 1], h[|h| - 1];
      TxidLedger(max, f, key);
      Unfold(max, h, key);
      if c.key == key {
        ReachableRecordsAreWellFormed(max, f, key);
        LedgerStep(max, key, After(max, f, key), c.op, Accepted(max, f, key));
      }
    }
  }

  ghost predicate Balanced(ops: seq<Op>, slot: Option<TradeRecord>)
  {
    SubmittedTxids(ops) == AcknowledgedTxids(ops) + Outstanding(slot)
  }

  /** Only submission and retry touch the txid on record, and a failure never drops it. */
  lemma OutstandingStep(max: u32, key: Field, slot: Option<TradeRecord>, op: Op)
    requires slot.Some? ==> WellFormed(max, key, slot.value)
    ensures var after, ok := Outstanding(Step(max, key, slot, op).slot), Step(max, key, slot, op).result.Ok?;
      if ok && op.Submit? then Outstanding(slot) == [] && after == [op.txid]
      else if ok && op.Retry? then
        after == [] && Outstanding(slot) == if op.acknowledged.Some? then [op.acknowledged.value] else []
      else after == Outstanding(slot)
  {
  }

  lemma LedgerStep(max: u32, key: Field, slot: Option<TradeRecord>, op: Op, ops: seq<Op>)
    requires slot.Some? ==> WellFormed(max, key, slot.value)
    requires Balanced(ops, slot)
    ensures Balanced(Extended(max, key, slot, ops, op), Step(max, key, slot, op).slot)
  {
    PushTxids(ops, op);
    OutstandingStep(max, key, slot, op);
    if op.Submit? {
      assert AcknowledgedTxids(ops) + [] == AcknowledgedTxids(ops);
    }
  }

  // ---------- reconciliation between two submissions ----------

  /** The txid of submission `i` was first failed and then exactly acknowledged before position `end`. */
  ghost predicate Reconciled(ops: seq<Op>, i: nat, end: nat)
    requires end <= |ops| && i < |ops| && ops[i].Submit?
  {
    exists m, n :: i < m < n < end && ops[m].Fail? && ops[n].Retry? && ops[n].acknowledged == Some(ops[i].txid)
  }

  /** What the record still says about submission `i`. */
  ghost predicate InFlight(ops: seq<Op>, i: nat, slot: Option<TradeRecord>)
    requires i < |ops| && ops[i].Submit?
  {
    && slot.Some? && slot.value.priorTxid == Some(ops[i].txid)
    && (slot.value.state.Submitted? || slot.value.state.Confirmed? || slot.value.state.Consumed? ||
        exists m :: i < m < |ops| && ops[m].Fail?)
  }

  lemma {:induction false} SubmissionIsInFlightOrReconciled(max: u32, h: seq<Call>, key: Field, i: nat)
    requires i < |Accepted(max, h, key)| && Accepted(max, h, key)[i].Submit?
    ensures var ops := Accepted(max, h, key);
      Reconciled(ops, i, |ops|) || InFlight(ops, i, After(max, h, key))
  {
    var f, c := h[..|h| - 1], h[|h| - 1];
    var ops := Accepted(max, f, key);
    Unfold(max, h, key);
    ReachableRecordsAreWellFormed(max, f, key);
    if i == |ops| {
    } else {
      SubmissionIsInFlightOrReconciled(max, f, key, i);
      if c.key == key {
        StepAfterSubmission(max, key, After(max, f, key), c.op, ops, i);
      }
    }
  }

  lemma StepAfterSubmission(max: u32, key: Field, slot: Option<TradeRecord>, op: Op, ops: seq<Op>, i: nat)
    requires i < |ops| && ops[i].Submit?
    requires slot.Some? ==> WellFormed(max, key, slot.value)
    requires Reconciled(ops, i, |ops|) || InFlight(ops, i, slot)
    ensures var ops' := Extended(max, key, slot, ops, op);
      |ops| <= |ops'| && ops'[i] == ops[i] &&
      (Reconciled(ops', i, |ops'|) || InFlight(ops', i, Step(max, key, slot, op).slot))
  {
    var ops' := Extended(max, key, slot, ops, op);
    if Reconciled(ops, i, |ops|) {
      var m, n :| i < m < n < |ops| && ops[m].Fail? && ops[n].Retry? && ops[n].acknowledged == Some(ops[i].txid);
      assert i < m < n < |ops'| && ops'[m].Fail? && ops'[n].Retry? && ops'[n].acknowledged == Some(ops'[i].txid);
    } else if ops' != ops {
      StepWhileInFlight(max, key, slot, op, ops, i);
    }
  }

  lemma StepWhileInFlight(max: u32, key: Field, slot: Option<TradeRecord>, op: Op, ops: seq<Op>, i: nat)
    requires i < |ops| && ops[i].Submit? && InFlight(ops, i, slot)
    requires WellFormed(max, key, slot.value)
    requires Step(max, key, slot, op).result.Ok?
    ensures Reconciled(ops + [op], i, |ops| + 1) || InFlight(ops + [op], i, Step(max, key, slot, op).slot)
  {
    var ops' := ops + [op];
    if slot.value.state.Submitted? || slot.value.state.Confirmed? || slot.value.state.Consumed? {
      assert op.Fail? ==> ops'[|ops|].Fail?;
    } else {
      var m :| i < m < |ops| && ops[m].Fail?;
      assert ops'[m].Fail?;
      if op.Retry? {
        assert i < m < |ops| < |ops'| && ops'[|ops|].Retry? && ops'[|ops|].acknowledged == Some(ops'[i].txid);
      }
    }
  }

  /** A second submission is accepted only after the first was failed and its txid acknowledged exactly. */
  lemma {:induction false} NoSubmissionWhileUnreconciled(max: u32, h: seq<Call>, key: Field, i: nat, j: nat)
    requires i < j < |Accepted(max, h, key)|
    requires Accepted(max, h, key)[i].Submit? && Accepted(max, h, key)[j].Submit?
    ensures Reconciled(Accepted(max, h, key), i, j)
  {
    var f, c := h[..|h| - 1], h[|h| - 1];
    var ops, ops' := Accepted(max, f, key), Accepted(max, h, key);
    Unfold(max, h, key);
    if j < |ops| {
      NoSubmissionWhileUnreconciled(max, f, key, i, j);
    } else {
      ReachableRecordsAreWellFormed(max, f, key);
      SubmissionIsInFlightOrReconciled(max, f, key, i);
    }
    var m, n :| i < m < n < j && ops[m].Fail? && ops[n].Retry? && ops[n].acknowledged == Some(ops[i].txid);
    assert ops'[m].Fail? && ops'[n].Retry? && ops'[n].acknowledged == Some(ops'[i].txid);
  }

  // ---------- exactly-once settlement ----------

  function Count(ops: seq<Op>, event: LifecycleEvent): nat
  {
    if ops == [] then 0
    else Count(ops[..|ops| - 1], event) + if EventOf(ops[|ops| - 1]) == event then 1 else 0
  }

  lemma CountPush(ops: seq<Op>, o: Op, event: LifecycleEvent)
    ensures Count(ops + [o], event) == Count(ops, event) + if EventOf(o) == event then 1 else 0
  {
    assert (ops + [o])[..|ops|] == ops;
  }

  /** What the record says about how often each event was accepted. */
  ghost predicate Tallies(ops: seq<Op>, slot: Option<TradeRecord>)
  {
    (slot.None? ==> ops == []) &&
    (slot.Some? ==> SettlementTallies(ops, slot.value) && AttemptTallies(ops, slot.value))
  }

  ghost predicate SettlementTallies(ops: seq<Op>, r: TradeRecord)
  {
    && Count(ops, ConfirmEvent) == (if r.state.Confirmed? || r.state.Consumed? then 1 else 0)
    && Count(ops, ConsumeEvent) == (if r.state.Consumed? then 1 else 0)
  }

  ghost predicate AttemptTallies(ops: seq<Op>, r: TradeRecord)
  {
    && Count(ops, CreateEvent) == 1
    && Count(ops, RetryEvent) == r.retryCount
    && Count(ops, SubmitEvent) <= r.retryCount +
         (if r.state.Created? || r.state.Verified? || r.state.SettlementConstructed? then 0 else 1)
  }

  lemma {:induction false} AcceptedTallies(max: u32, h: seq<Call>, key: Field)
    ensures Tallies(Accepted(max, h, key), After(max, h, key))
  {
    if h == [] {
    } else {
      var f, c := h[..|h| - 1], h[|h| - 1];
      AcceptedTallies(max, f, key);
      Unfold(max, h, key);
      if c.key == key {
        TallyStep(max, key, After(max, f, key), c.op, Accepted(max, f, key));
      }
    }
  }

  lemma TallyStep(max: u32, key: Field, slot: Option<TradeRecord>, op: Op, ops: seq<Op>)
    requires Tallies(ops, slot)
    ensures Tallies(Extended(max, key, slot, ops, op), Step(max, key, slot, op).slot)
  {
    if slot.Some? {
      var o := Step(max, key, slot, op);
      StateMove(max, key, slot.value, op);
      SettlementTallyStep(slot.value, op, o.slot.value, o.result.Ok?, ops);
      AttemptTallyStep(slot.value, op, o.slot.value, o.result.Ok?, ops);
    } else if op.Create? {
      assert ops + [op] == [op] && [op][..0] == [];
    }
  }

  function Target(op: Op): LifecycleState
  {
    match op
    case Create(_) => Created
    case Verify(_) => Verified
    case Acquire(_) => SettlementConstructed
    case Submit(_, _) => Submitted
    case Confirm => Confirmed
    case Consume => Consumed
    case Fail(_) => Failed
    case Expire(_) => Expired
    case Retry(_, _) => Created
  }

  /** How one call moves state and retry count. */
  ghost predicate Moves(r: TradeRecord, op: Op, r': TradeRecord, accepted: bool)
  {
    if accepted then
      r.state in Sources(op) && r'.state == Target(op) &&
      r'.retryCount == r.retryCount + if op.Retry? then 1 else 0
    else
      r'.retryCount == r.retryCount &&
      (r'.state == r.state ||
       (r'.state.Expired? &&
        (r.state.Created? || r.state.Verified? || r.state.SettlementConstructed? || r.state.Failed?)))
  }

  lemma StateMove(max: u32, key: Field, r: TradeRecord, op: Op)
    ensures var o := Step(max, key, Some(r), op);
      o.slot.Some? && Moves(r, op, o.slot.value, o.result.Ok?)
  {
  }

  lemma SettlementTallyStep(r: TradeRecord, op: Op, r': TradeRecord, accepted: bool, ops: seq<Op>)
    requires SettlementTallies(ops, r) && Moves(r, op, r', accepted)
    ensures SettlementTallies(if accepted then ops + [op] else ops, r')
  {
    CountPush(ops, op, ConfirmEvent);
    CountPush(ops, op, ConsumeEvent);
    SettledMove(r, op, r', accepted);
  }

  /** Confirmation and consumption are entered by their own events and left by no other. */
  lemma SettledMove(r: TradeRecord, op: Op, r': TradeRecord, accepted: bool)
    requires Moves(r, op, r', accepted)
    ensures accepted && op.Confirm? ==> r.state.Submitted? && r'.state.Confirmed?
    ensures accepted && op.Consume? ==> r.state.Confirmed? && r'.state.Consumed?
    ensures !(accepted && (op.Confirm? || op.Consume?)) ==>
      (r'.state.Confirmed? <==> r.state.Confirmed?) && (r'.state.Consumed? <==> r.state.Consumed?)
  {
  }

  lemma AttemptTallyStep(r: TradeRecord, op: Op, r': TradeRecord, accepted: bool, ops: seq<Op>)
    requires AttemptTallies(ops, r) && Moves(r, op, r', accepted)
    ensures AttemptTallies(if accepted then ops + [op] else ops, r')
  {
    CountPush(ops, op, CreateEvent);
    CountPush(ops, op, RetryEvent);
    CountPush(ops, op, SubmitEvent);
  }

  /** The accepted operations since the commitment was last created or retried. */
  function Attempt(ops: seq<Op>): seq<Op>
  {
    if ops == [] then []
    else
      var o := ops[|ops| - 1];
      if o.Create? || o.Retry? then [o] else Attempt(ops[..|ops| - 1]) + [o]
  }

  /** The first `n` operations of an attempt are the happy path, each gated step on time. */
  ghost predicate HappyPath(r: TradeRecord, a: seq<Op>, n: nat)
  {
    && 1 <= n <= |a| && n <= 6 && (a[0].Create? || (a[0].Retry? && a[0].now <= r.intent.expiry))
    && (n > 1 ==> a[1].Verify? && a[1].now <= r.intent.expiry)
    && (n > 2 ==> a[2].Acquire? && a[2].now <= r.intent.expiry)
    && (n > 3 ==> a[3].Submit? && a[3].now <= r.intent.expiry && r.priorTxid == Some(a[3].txid))
    && (n > 4 ==> a[4].Confirm?)
    && (n > 5 ==> a[5].Consume?)
  }

  /** The state determines the shape of the current attempt. */
  ghost predicate AttemptShape(r: TradeRecord, a: seq<Op>)
  {
    var n := |a|;
    match r.state
    case Created => n == 1 && HappyPath(r, a, 1)
    case Verified => n == 2 && HappyPath(r, a, 2)
    case SettlementConstructed => n == 3 && HappyPath(r, a, 3)
    case Submitted => n == 4 && HappyPath(r, a, 4)
    case Confirmed => n == 5 && HappyPath(r, a, 5)
    case Consumed => n == 6 && HappyPath(r, a, 6)
    case Failed => 2 <= n <= 5 && HappyPath(r, a, n - 1) && a[n - 1].Fail?
    case Expired => n >= 1 && forall i :: 0 <= i < n ==> !a[i].Confirm? && !a[i].Consume?
  }

  ghost predicate ShapedSlot(max: u32, key: Field, slot: Option<TradeRecord>, ops: seq<Op>)
  {
    slot.Some? ==> WellFormed(max, key, slot.value) && AttemptShape(slot.value, Attempt(ops))
  }

  lemma {:induction false} CurrentAttempt(max: u32, h: seq<Call>, key: Field)
    ensures ShapedSlot(max, key, After(max, h, key), Accepted(max, h, key))
  {
    if h == [] {
    } else {
      var f, c := h[..|h| - 1], h[|h| - 1];
      CurrentAttempt(max, f, key);
      Unfold(max, h, key);
      if c.key == key {
        AttemptStep(max, key, After(max, f, key), c.op, Accepted(max, f, key));
      }
    }
  }

  lemma AttemptPush(ops: seq<Op>, op: Op)
    ensures Attempt(ops + [op]) == if op.Create? || op.Retry? then [op] else Attempt(ops) + [op]
  {
    assert (ops + [op])[..|ops|] == ops;
  }

  lemma AttemptStep(max: u32, key: Field, slot: Option<TradeRecord>, op: Op, ops: seq<Op>)
    requires ShapedSlot(max, key, slot, ops)
    ensures ShapedSlot(max, key, Step(max, key, slot, op).slot, Extended(max, key, slot, ops, op))
  {
    AttemptPush(ops, op);
    if slot.None? {
    } else if Step(max, key, slot, op).result.Err? {
      RejectedAttempt(max, key, slot.value, op, ops);
    } else if StartsNewWork(op) {
      GatedAttempt(max, key, slot.value, op, ops);
    } else {
      UngatedAttempt(max, key, slot.value, op, ops);
    }
  }

  lemma RejectedAttempt(max: u32, key: Field, r: TradeRecord, op: Op, ops: seq<Op>)
    requires ShapedSlot(max, key, Some(r), ops) && Step(max, key, Some(r), op).result.Err?
    ensures ShapedSlot(max, key, Step(max, key, Some(r), op).slot, ops)
  {
  }

  lemma GatedAttempt(max: u32, key: Field, r: TradeRecord, op: Op, ops: seq<Op>)
    requires ShapedSlot(max, key, Some(r), ops)
    requires StartsNewWork(op) && Step(max, key, Some(r), op).result.Ok?
    ensures ShapedSlot(max, key, Step(max, key, Some(r), op).slot, ops + [op])
  {
    AttemptPush(ops, op);
    WellFormedStep(max, key, Some(r), op);
    var r' := Step(max, key, Some(r), op).result.value;
    if op.Retry? {
      FreshAttempt(r', op);
    } else {
      AttemptGrows(max, key, r, op, r', Attempt(ops));
    }
  }

  lemma FreshAttempt(r': TradeRecord, op: Op)
    requires op.Retry? && op.now <= r'.intent.expiry && r'.state.Created?
    ensures AttemptShape(r', [op])
  {
  }

  lemma AttemptGrows(max: u32, key: Field, r: TradeRecord, op: Op, r': TradeRecord, a: seq<Op>)
    requires AttemptShape(r, a) && StartsNewWork(op) && !op.Retry?
    requires Step(max, key, Some(r), op).result == Ok(r')
    ensures AttemptShape(r', a + [op])
  {
    PathPush(r, r', a, op);
  }

  /** The next operation of the happy path, on time if gated. */
  predicate ContinuesPath(r': TradeRecord, n: nat, op: Op)
  {
    match n
    case 1 => op.Verify? && op.now <= r'.intent.expiry
    case 2 => op.Acquire? && op.now <= r'.intent.expiry
    case 3 => op.Submit? && op.now <= r'.intent.expiry && r'.priorTxid == Some(op.txid)
    case 4 => op.Confirm?
    case 5 => op.Consume?
    case _ => false
  }

  lemma PathPush(r: TradeRecord, r': TradeRecord, a: seq<Op>, op: Op)
    requires HappyPath(r, a, |a|) && ContinuesPath(r', |a|, op)
    requires r'.intent == r.intent && (|a| > 3 ==> r'.priorTxid == r.priorTxid)
    ensures HappyPath(r', a + [op], |a| + 1)
  {
  }

  lemma UngatedAttempt(max: u32, key: Field, r: TradeRecord, op: Op, ops: seq<Op>)
    requires ShapedSlot(max, key, Some(r), ops)
    requires !StartsNewWork(op) && Step(max, key, Some(r), op).result.Ok?
    ensures ShapedSlot(max, key, Step(max, key, Some(r), op).slot, ops + [op])
  {
    if op.Fail? {
      FailedAttempt(max, key, r, op, ops);
    } else if op.Expire? {
      ExpiredAttempt(max, key, r, op, ops);
    } else {
      SettlingAttempt(max, key, r, op, ops);
    }
  }

  lemma SettlingAttempt(max: u32, key: Field, r: TradeRecord, op: Op, ops: seq<Op>)
    requires ShapedSlot(max, key, Some(r), ops)
    requires (op.Confirm? || op.Consume?) && Step(max, key, Some(r), op).result.Ok?
    ensures ShapedSlot(max, key, Step(max, key, Some(r), op).slot, ops + [op])
  {
    AttemptPush(ops, op);
    WellFormedStep(max, key, Some(r), op);
    AttemptSettles(max, key, r, op, Step(max, key, Some(r), op).result.value, Attempt(ops));
  }

  lemma AttemptSettles(max: u32, key: Field, r: TradeRecord, op: Op, r': TradeRecord, a: seq<Op>)
    requires AttemptShape(r, a) && (op.Confirm? || op.Consume?)
    requires Step(max, key, Some(r), op).result == Ok(r')
    ensures AttemptShape(r', a + [op])
  {
    PathPush(r, r', a, op);
  }

  lemma FailedAttempt(max: u32, key: Field, r: TradeRecord, op: Op, ops: seq<Op>)
    requires ShapedSlot(max, key, Some(r), ops)
    requires op.Fail? && Step(max, key, Some(r), op).result.Ok?
    ensures ShapedSlot(max, key, Step(max, key, Some(r), op).slot, ops + [op])
  {
    AttemptPush(ops, op);
    WellFormedStep(max, key, Some(r), op);
    PathThenFailure(r, Step(max, key, Some(r), op).result.value, Attempt(ops), op);
  }

  lemma ExpiredAttempt(max: u32, key: Field, r: TradeRecord, op: Op, ops: seq<Op>)
    requires ShapedSlot(max, key, Some(r), ops)
    requires op.Expire? && Step(max, key, Some(r), op).result.Ok?
    ensures ShapedSlot(max, key, Step(max, key, Some(r), op).slot, ops + [op])
  {
    AttemptPush(ops, op);
    WellFormedStep(max, key, Some(r), op);
    NeverConfirmed(r, Attempt(ops));
  }

  /** An attempt that can still expire holds neither a confirmation nor a consumption. */
  lemma NeverConfirmed(r: TradeRecord, a: seq<Op>)
    requires AttemptShape(r, a) && !r.state.Confirmed? && !r.state.Consumed?
    ensures forall i :: 0 <= i < |a| ==> !a[i].Confirm? && !a[i].Consume?
  {
  }

  lemma PathThenFailure(r: TradeRecord, r': TradeRecord, a: seq<Op>, op: Op)
    requires HappyPath(r, a, |a|) && |a| <= 4 && op.Fail?
    requires r'.intent == r.intent && (|a| > 3 ==> r'.priorTxid == r.priorTxid)
    ensures HappyPath(r', a + [op], |a|) && (a + [op])[|a|] == op
  {
  }

  /**
   A settled commitment was confirmed once and consumed at most once; its txid is the one submitted
   by the current attempt, which verified, acquired and submitted no later than the committed expiry;
   every earlier submitted txid had been acknowledged by a retry.
   */
  lemma ExactlyOnceSettlement(max: u32, h: seq<Call>, key: Field)
    requires After(max, h, key).Some?
    requires After(max, h, key).value.state.Confirmed? || After(max, h, key).value.state.Consumed?
    ensures var r, ops := After(max, h, key).value, Accepted(max, h, key);
      var a := Attempt(ops);
      && Count(ops, ConfirmEvent) == 1
      && Count(ops, ConsumeEvent) == (if r.state.Consumed? then 1 else 0)
      && |a| == (if r.state.Consumed? then 6 else 5) && HappyPath(r, a, |a|)
      && r.priorTxid == Some(a[3].txid)
      && SubmittedTxids(ops) == AcknowledgedTxids(ops) + [a[3].txid]
  {
    AcceptedTallies(max, h, key);
    CurrentAttempt(max, h, key);
    TxidLedger(max, h, key);
  }

  /** No run accepts a second confirmation or a second consumption of one commitment. */
  lemma AtMostOnce(max: u32, h: seq<Call>, key: Field)
    ensures Count(Accepted(max, h, key), ConfirmEvent) <= 1
    ensures Count(Accepted(max, h, key), ConsumeEvent) <= Count(Accepted(max, h, key), ConfirmEvent)
  {
    AcceptedTallies(max, h, key);
    if After(max, h, key).None? {
      assert Accepted(max, h, key) == [];
    }
  }

  // ---------- the exact work bound ----------

  function Rank(s: LifecycleState): nat
  {
    match s
    case Created => 5
    case Verified => 4
    case SettlementConstructed => 3
    case Submitted => 2
    case Failed => 1
    case Confirmed => 1
    case Consumed => 0
    case Expired => 0
  }

  function Potential(max: u32, r: TradeRecord): int
  {
    5 * (max - r.retryCount) + Rank(r.state)
  }

  /** Calls that changed the record of `key`, whether they returned `Ok` or `ExpiredTrade`. */
  function Changes(max: u32, h: seq<Call>, key: Field): nat
  {
    if h == [] then 0
    else
      var f := h[..|h| - 1];
      Changes(max, f, key) + if After(max, f, key) != After(max, h, key) then 1 else 0
  }

  /** Every change of a record, accepted or not, uses up potential. */
  lemma PotentialFalls(max: u32, key: Field, r: TradeRecord, op: Op)
    requires WellFormed(max, key, r)
    ensures var slot := Step(max, key, Some(r), op).slot;
      slot.Some? && (slot.value != r ==> 0 <= Potential(max, slot.value) < Potential(max, r))
  {
  }

  /** Creation aside, at most 5 * (max + 1) calls change a record, and at most max + 1 submit. */
  lemma {:induction false} WorkBound(max: u32, h: seq<Call>, key: Field)
    ensures After(max, h, key).None? ==> Changes(max, h, key) == 0
    ensures After(max, h, key).Some? ==>
      Changes(max, h, key) + Potential(max, After(max, h, key).value) <= 1 + 5 * (max + 1)
    ensures Changes(max, h, key) <= 1 + 5 * (max + 1)
    ensures Submissions(max, h, key) <= max + 1
  {
    ReachableRecordsAreWellFormed(max, h, key);
    AcceptedTallies(max, h, key);
    if After(max, h, key).None? {
      assert Accepted(max, h, key) == [];
    }
    if h == [] {
    } else {
      var f, c := h[..|h| - 1], h[|h| - 1];
      WorkBound(max, f, key);
      ReachableRecordsAreWellFormed(max, f, key);
      if c.key == key && After(max, f, key).Some? {
        PotentialFalls(max, key, After(max, f, key).value, c.op);
      }
    }
  }

  // ---------- the bound is attained ----------

  function Submissions(max: u32, h: seq<Call>, key: Field): nat
  {
    Count(Accepted(max, h, key), SubmitEvent)
  }

  function Calls(key: Field, ops: seq<Op>): seq<Call>
  {
    if ops == [] then [] else [Call(key, ops[0])] + Calls(key, ops[1..])
  }

  /** Every operation of `ops` is accepted and changes the record, which ends as `r'`. */
  ghost predicate Leads(max: u32, key: Field, r: TradeRecord, ops: seq<Op>, r': TradeRecord)
    decreases |ops|
  {
    if ops == [] then r == r'
    else
      var o := Step(max, key, Some(r), ops[0]);
      o.result.Ok? && o.slot == Some(o.result.value) && o.result.value != r &&
      Leads(max, key, o.result.value, ops[1..], r')
  }

  function SubmitCount(ops: seq<Op>): nat
  {
    if ops == [] then 0 else (if ops[0].Submit? then 1 else 0) + SubmitCount(ops[1..])
  }

  lemma LeadsCons(max: u32, key: Field, r: TradeRecord, op: Op, r1: TradeRecord, ops: seq<Op>, r': TradeRecord)
    requires Step(max, key, Some(r), op) == Outcome(Some(r1), Ok(r1)) && r1 != r
    requires Leads(max, key, r1, ops, r')
    ensures Leads(max, key, r, [op] + ops, r')
    ensures SubmitCount([op] + ops) == (if op.Submit? then 1 else 0) + SubmitCount(ops)
  {
    assert ([op] + ops)[1..] == ops;
  }

  lemma Advance(max: u32, h: seq<Call>, key: Field, r: TradeRecord, op: Op, r': TradeRecord)
    requires After(max, h, key) == Some(r) && r' != r
    requires Step(max, key, Some(r), op) == Outcome(Some(r'), Ok(r'))
    ensures After(max, h + [Call(key, op)], key) == Some(r')
    ensures Changes(max, h + [Call(key, op)], key) == Changes(max, h, key) + 1
    ensures Submissions(max, h + [Call(key, op)], key) ==
      Submissions(max, h, key) + if op.Submit? then 1 else 0
  {
    var g := h + [Call(key, op)];
    assert g[..|g| - 1] == h;
    Unfold(max, g, key);
    CountPush(Accepted(max, h, key), op, SubmitEvent);
  }

  lemma {:induction false} AdvanceAlong(max: u32, h: seq<Call>, key: Field, r: TradeRecord, ops: seq<Op>,
                                        r': TradeRecord)
    requires Leads(max, key, r, ops, r') && After(max, h, key) == Some(r)
    ensures var g := h + Calls(key, ops);
      && After(max, g, key) == Some(r')
      && Changes(max, g, key) == Changes(max, h, key) + |ops|
      && Submissions(max, g, key) == Submissions(max, h, key) + SubmitCount(ops)
    decreases |ops|
  {
    if ops == [] {
      assert h + Calls(key, ops) == h;
    } else {
      var r1 := Step(max, key, Some(r), ops[0]).result.value;
      var h1 := h + [Call(key, ops[0])];
      Advance(max, h, key, r, ops[0], r1);
      AdvanceAlong(max, h1, key, r1, ops[1..], r');
      CallsCons(h, key, ops);
    }
  }

  lemma CallsCons(h: seq<Call>, key: Field, ops: seq<Op>)
    requires ops != []
    ensures h + Calls(key, ops) == (h + [Call(key, ops[0])]) + Calls(key, ops[1..])
  {
  }

  lemma CreationState(max: u32, key: Field, intent: TradeIntent)
    ensures var h := [Call(key, Op.Create(intent))];
      && After(max, h, key) == Some(TradeRecord(key, intent, Created, None, None, 0))
      && Changes(max, h, key) == 1 && Submissions(max, h, key) == 0
  {
    var c := Call(key, Op.Create(intent));
    RunPush(max, [], c);
    assert [] + [c] == [c] && [c][..0] == [];
    assert After(max, [], key) == None && Accepted(max, [], key) == [];
    Unfold(max, [c], key);
    CountPush([], c.op, SubmitEvent);
    assert [] + [c.op] == [c.op];
  }

  /** What an attempt does once it is submitted: it fails and is retried, or it settles. */
  function FailAndRetry(txid: TxId): seq<Op>
  {
    [Op.Fail(SubmissionFailed)] + ([Op.Retry(Some(txid), 0)] + [])
  }

  function Settle(): seq<Op>
  {
    [Op.Confirm] + ([Op.Consume] + [])
  }

  function SubmitThen(txid: TxId, rest: seq<Op>): seq<Op>
  {
    [Op.Verify(0)] + ([Op.Acquire(0)] + ([Op.Submit(txid, 0)] + rest))
  }

  lemma SubmitThenLeads(max: u32, key: Field, r: TradeRecord, txid: TxId, rest: seq<Op>, r': TradeRecord)
    requires r.state == Created && r.failureReason == None && r.priorTxid == None
    requires Leads(max, key, r.(state := Submitted, priorTxid := Some(txid)), rest, r')
    ensures Leads(max, key, r, SubmitThen(txid, rest), r')
    ensures SubmitCount(SubmitThen(txid, rest)) == 1 + SubmitCount(rest)
  {
    var r1, r2 := r.(state := Verified), r.(state := SettlementConstructed);
    LeadsCons(max, key, r2, Op.Submit(txid, 0), r.(state := Submitted, priorTxid := Some(txid)), rest, r');
    LeadsCons(max, key, r1, Op.Acquire(0), r2, [Op.Submit(txid, 0)] + rest, r');
    LeadsCons(max, key, r, Op.Verify(0), r1, [Op.Acquire(0)] + ([Op.Submit(txid, 0)] + rest), r');
  }

  lemma FailAndRetryLeads(max: u32, key: Field, r: TradeRecord, txid: TxId)
    requires r.state == Submitted && r.failureReason == None && r.priorTxid == Some(txid) && r.retryCount < max
    ensures Leads(max, key, r, FailAndRetry(txid),
                  r.(state := Created, priorTxid := None, retryCount := r.retryCount + 1))
    ensures SubmitCount(FailAndRetry(txid)) == 0 && |FailAndRetry(txid)| == 2
  {
    var failed := r.(state := Failed, failureReason := Some(SubmissionFailed));
    var retried := r.(state := Created, priorTxid := None, retryCount := r.retryCount + 1);
    LeadsCons(max, key, failed, Op.Retry(Some(txid), 0), retried, [], retried);
    LeadsCons(max, key, r, Op.Fail(SubmissionFailed), failed, [Op.Retry(Some(txid), 0)] + [], retried);
  }

  lemma SettleLeads(max: u32, key: Field, r: TradeRecord)
    requires r.state == Submitted
    ensures Leads(max, key, r, Settle(), r.(state := Consumed))
    ensures SubmitCount(Settle()) == 0 && |Settle()| == 2
  {
    LeadsCons(max, key, r.(state := Confirmed), Op.Consume, r.(state := Consumed), [], r.(state := Consumed));
    LeadsCons(max, key, r, Op.Confirm, r.(state := Confirmed), [Op.Consume] + [], r.(state := Consumed));
  }

  /** Creation followed by `n` failed and retried attempts. */
  function FailedRounds(key: Field, intent: TradeIntent, txid: TxId, n: nat): seq<Call>
  {
    if n == 0 then [Call(key, Op.Create(intent))]
    else FailedRounds(key, intent, txid, n - 1) + Calls(key, SubmitThen(txid, FailAndRetry(txid)))
  }

  /** Freshly back at `Created` after `n` failed attempts, having changed and submitted as much as possible. */
  ghost predicate Exhausting(max: u32, h: seq<Call>, key: Field, intent: TradeIntent, n: u32)
  {
    && After(max, h, key) == Some(TradeRecord(key, intent, Created, None, None, n))
    && Changes(max, h, key) == 1 + 5 * n && Submissions(max, h, key) == n
  }

  lemma {:induction false} FailedRoundsState(max: u32, key: Field, intent: TradeIntent, txid: TxId, n: u32)
    requires n <= max
    ensures Exhausting(max, FailedRounds(key, intent, txid, n), key, intent, n)
  {
    if n == 0 {
      CreationState(max, key, intent);
    } else {
      FailedRoundsState(max, key, intent, txid, n - 1);
      OneMoreRound(max, FailedRounds(key, intent, txid, n - 1), key, intent, txid, n - 1);
    }
  }

  lemma OneMoreRound(max: u32, h: seq<Call>, key: Field, intent: TradeIntent, txid: TxId, n: u32)
    requires n < max && Exhausting(max, h, key, intent, n)
    ensures Exhausting(max, h + Calls(key, SubmitThen(txid, FailAndRetry(txid))), key, intent, n + 1)
  {
    FailedRound(max, h, key, TradeRecord(key, intent, Created, None, None, n), txid);
  }

  lemma FailedRound(max: u32, h: seq<Call>, key: Field, r: TradeRecord, txid: TxId)
    requires r.state == Created && r.failureReason == None && r.priorTxid == None && r.retryCount < max
    requires After(max, h, key) == Some(r)
    ensures var g := h + Calls(key, SubmitThen(txid, FailAndRetry(txid)));
      && After(max, g, key) == Some(r.(retryCount := r.retryCount + 1))
      && Changes(max, g, key) == Changes(max, h, key) + 5
      && Submissions(max, g, key) == Submissions(max, h, key) + 1
  {
    var r' := r.(retryCount := r.retryCount + 1);
    FailAndRetryLeads(max, key, r.(state := Submitted, priorTxid := Some(txid)), txid);
    SubmitThenLeads(max, key, r, txid, FailAndRetry(txid), r');
    AdvanceAlong(max, h, key, r, SubmitThen(txid, FailAndRetry(txid)), r');
  }

  /** For every retry bound there is a settled run that reaches both bounds of `WorkBound`. */
  lemma WorkBoundIsAttained(max: u32, key: Field, intent: TradeIntent, txid: TxId)
    ensures exists h ::
      && Changes(max, h, key) == 1 + 5 * (max + 1) && Submissions(max, h, key) == max + 1
      && After(max, h, key).Some? && After(max, h, key).value.state.Consumed?
  {
    var h := FailedRounds(key, intent, txid, max);
    var r := TradeRecord(key, intent, Created, None, None, max);
    var settled := r.(state := Consumed, priorTxid := Some(txid));
    FailedRoundsState(max, key, intent, txid, max);
    SettleLeads(max, key, r.(state := Submitted, priorTxid := Some(txid)));
    SubmitThenLeads(max, key, r, txid, Settle(), settled);
    AdvanceAlong(max, h, key, r, SubmitThen(txid, Settle()), settled);
    assert Changes(max, h + Calls(key, SubmitThen(txid, Settle())), key) == 1 + 5 * (max + 1);
  }
}
