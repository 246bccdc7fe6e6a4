/**
 Which records can still reach a terminal state, and the construction lock.
 Source: crates/protocol/src/replay.rs.
 */
module ReplayProgress {
  import opened Machine
  import opened Protocol
  import opened Replay
  import opened ReplayRuns

  /** The record after a sequence of operations addressed to it, accepted or not. */
  function Play(max: u32, key: Field, r: TradeRecord, ops: seq<Op>): TradeRecord
    decreases |ops|
  {
    if ops == [] then r else Play(max, key, Next(max, key, r, ops[0]), ops[1..])
  }

  function Next(max: u32, key: Field, r: TradeRecord, op: Op): TradeRecord
  {
    var slot := Step(max, key, Some(r), op).slot;
    if slot.Some? then slot.value else r
  }

  /** Playing operations on a reachable record continues the run that reached it. */
  lemma {:induction false} PlayContinuesRun(max: u32, h: seq<Call>, key: Field, r: TradeRecord, ops: seq<Op>)
    requires After(max, h, key) == Some(r)
    ensures After(max, h + Calls(key, ops), key) == Some(Play(max, key, r, ops))
    decreases |ops|
  {
    if ops == [] {
      assert h + Calls(key, ops) == h;
    } else {
      var h1 := h + [Call(key, ops[0])];
      RunPush(max, h, Call(key, ops[0]));
      PlayContinuesRun(max, h1, key, Next(max, key, r, ops[0]), ops[1..]);
      CallsCons(h, key, ops);
    }
  }

  // ---------- the clock ----------

  predicate ReadsClock(op: Op)
  {
    StartsNewWork(op) || op.Expire?
  }

  /** The clock after an operation that was called at second `now` or later. */
  function ClockAfter(now: u64, op: Op): u64
  {
    if ReadsClock(op) then op.now else now
  }

  /** The clock readings start at second `now` or later and never move backwards. */
  predicate ClockFrom(now: u64, ops: seq<Op>)
    decreases |ops|
  {
    ops == [] || (now <= ClockAfter(now, ops[0]) && ClockFrom(ClockAfter(now, ops[0]), ops[1..]))
  }

  lemma PlayCons(max: u32, key: Field, r: TradeRecord, now: u64, op: Op, ops: seq<Op>)
    requires now <= ClockAfter(now, op) && ClockFrom(ClockAfter(now, op), ops)
    ensures ClockFrom(now, [op] + ops)
    ensures Play(max, key, r, [op] + ops) == Play(max, key, Next(max, key, r, op), ops)
  {
    assert ([op] + ops)[1..] == ops;
  }

  /** From second `now` on, these calls bring the record to `goal`. */
  ghost predicate Reaches(max: u32, key: Field, r: TradeRecord, now: u64, goal: LifecycleState, ops: seq<Op>)
  {
    ClockFrom(now, ops) && Play(max, key, r, ops).state == goal
  }

  // ---------- which records can still settle ----------

  /** In flight or settled; or on time, with an attempt under way or a retry left. */
  predicate CanSettle(max: u32, r: TradeRecord, now: u64)
  {
    || r.state.Submitted? || r.state.Confirmed? || r.state.Consumed?
    || (!r.intent.IsExpiredAt(now) &&
        (r.state.Created? || r.state.Verified? || r.state.SettlementConstructed? ||
         (r.state.Failed? && r.retryCount < max)))
  }

  function Distance(s: LifecycleState): nat
  {
    match s
    case Failed => 6
    case Created => 5
    case Verified => 4
    case SettlementConstructed => 3
    case Submitted => 2
    case Confirmed => 1
    case Consumed => 0
    case Expired => 0
  }

  /** The next operation on the way to settlement. */
  function Onward(r: TradeRecord, now: u64, txid: TxId): Op
  {
    match r.state
    case Failed => Op.Retry(r.priorTxid, now)
    case Created => Op.Verify(now)
    case Verified => Op.Acquire(now)
    case SettlementConstructed => Op.Submit(txid, now)
    case Submitted => Op.Confirm
    case Confirmed => Op.Consume
    case Consumed => Op.Consume
    case Expired => Op.Consume
  }

  lemma OnwardLeadsOn(max: u32, key: Field, r: TradeRecord, now: u64, txid: TxId)
    requires CanSettle(max, r, now) && !r.state.Consumed?
    ensures var r' := Next(max, key, r, Onward(r, now, txid));
      CanSettle(max, r', now) && Distance(r'.state) < Distance(r.state)
    ensures ClockAfter(now, Onward(r, now, txid)) == now
  {
  }

  function Settling(max: u32, key: Field, r: TradeRecord, now: u64, txid: TxId): seq<Op>
    requires CanSettle(max, r, now)
    decreases Distance(r.state)
  {
    if r.state.Consumed? then []
    else
      var op := Onward(r, now, txid);
      OnwardLeadsOn(max, key, r, now, txid);
      [op] + Settling(max, key, Next(max, key, r, op), now, txid)
  }

  lemma {:induction false} SettlingSettles(max: u32, key: Field, r: TradeRecord, now: u64, txid: TxId)
    requires CanSettle(max, r, now)
    ensures Reaches(max, key, r, now, Consumed, Settling(max, key, r, now, txid))
    decreases Distance(r.state)
  {
    if r.state.Consumed? {
    } else {
      var op := Onward(r, now, txid);
      OnwardLeadsOn(max, key, r, now, txid);
      var r' := Next(max, key, r, op);
      SettlingSettles(max, key, r', now, txid);
      PlayCons(max, key, r, now, op, Settling(max, key, r', now, txid));
    }
  }

  lemma TooLateStep(max: u32, key: Field, r: TradeRecord, now: u64, op: Op)
    requires !CanSettle(max, r, now) && now <= ClockAfter(now, op)
    ensures !CanSettle(max, Next(max, key, r, op), ClockAfter(now, op))
  {
  }

  lemma {:induction false} TooLate(max: u32, key: Field, r: TradeRecord, now: u64, ops: seq<Op>)
    requires !CanSettle(max, r, now) && ClockFrom(now, ops)
    ensures !Play(max, key, r, ops).state.Consumed?
    decreases |ops|
  {
    if ops == [] {
    } else {
      TooLateStep(max, key, r, now, ops[0]);
      TooLate(max, key, Next(max, key, r, ops[0]), ClockAfter(now, ops[0]), ops[1..]);
    }
  }

  /** At any time, a record can still be consumed if and only if it is in flight, or on time with an attempt left. */
  lemma SettlesExactly(max: u32, key: Field, r: TradeRecord, now: u64)
    ensures (exists ops :: Reaches(max, key, r, now, Consumed, ops)) <==> CanSettle(max, r, now)
  {
    if CanSettle(max, r, now) {
      var txid: TxId := seq(32, _ => 0);
      SettlingSettles(max, key, r, now, txid);
      assert Reaches(max, key, r, now, Consumed, Settling(max, key, r, now, txid));
    } else {
      forall ops: seq<Op> | ClockFrom(now, ops)
        ensures !Play(max, key, r, ops).state.Consumed?
      {
        TooLate(max, key, r, now, ops);
      }
    }
  }

  // ---------- which records can still expire ----------

  /** Not confirmed, and committed to an expiry that some clock reading passes. */
  predicate CanExpire(r: TradeRecord)
  {
    r.state.Expired? || (!r.state.Confirmed? && !r.state.Consumed? && r.intent.expiry < TWO_64 - 1)
  }

  /** A submission in flight has to fail before it can expire. */
  function Expiring(r: TradeRecord): seq<Op>
  {
    match r.state
    case Submitted => [Op.Fail(ConfirmationFailed)] + ([Op.Expire(TWO_64 - 1)] + [])
    case Expired => []
    case _ => [Op.Expire(TWO_64 - 1)] + []
  }

  lemma ExpiringExpires(max: u32, key: Field, r: TradeRecord, now: u64)
    requires CanExpire(r)
    ensures Reaches(max, key, r, now, Expired, Expiring(r))
  {
    var late := Op.Expire(TWO_64 - 1);
    if r.state.Submitted? {
      var fail := Op.Fail(ConfirmationFailed);
      PlayCons(max, key, Next(max, key, r, fail), now, late, []);
      PlayCons(max, key, r, now, fail, [late] + []);
    } else if !r.state.Expired? {
      PlayCons(max, key, r, now, late, []);
    }
  }

  lemma {:induction false} NeverExpires(max: u32, key: Field, r: TradeRecord, ops: seq<Op>)
    requires !CanExpire(r)
    ensures !Play(max, key, r, ops).state.Expired?
    decreases |ops|
  {
    if ops == [] {
    } else {
      NeverExpiresStep(max, key, r, ops[0]);
      NeverExpires(max, key, Next(max, key, r, ops[0]), ops[1..]);
    }
  }

  lemma NeverExpiresStep(max: u32, key: Field, r: TradeRecord, op: Op)
    requires !CanExpire(r)
    ensures !CanExpire(Next(max, key, r, op))
  {
  }

  /** At any time, a record can still expire if and only if it is unconfirmed and its expiry can be passed. */
  lemma ExpiresExactly(max: u32, key: Field, r: TradeRecord, now: u64)
    ensures (exists ops :: Reaches(max, key, r, now, Expired, ops)) <==> CanExpire(r)
  {
    if CanExpire(r) {
      ExpiringExpires(max, key, r, now);
    } else {
      forall ops: seq<Op>
        ensures !Play(max, key, r, ops).state.Expired?
      {
        NeverExpires(max, key, r, ops);
      }
    }
  }

  // ---------- progress ----------

  /** Some calls made from second `now` on end the record. */
  ghost predicate Ends(max: u32, key: Field, r: TradeRecord, now: u64, ops: seq<Op>)
  {
    Reaches(max, key, r, now, Consumed, ops) || Reaches(max, key, r, now, Expired, ops)
  }

  /** Failed, out of retries, and committed to an expiry no clock reading can pass. */
  predicate Stuck(max: u32, r: TradeRecord)
  {
    r.state.Failed? && r.retryCount >= max && r.intent.expiry == TWO_64 - 1
  }

  /**
   Whatever time it is, every record can still be brought to `Consumed` or `Expired` by a clock
   that only moves forward, with one exception: a failed record without retry budget whose
   committed expiry is the largest 64-bit second, because no time is strictly after it.
   */
  lemma ProgressExactly(max: u32, key: Field, r: TradeRecord, now: u64)
    ensures (exists ops :: Ends(max, key, r, now, ops)) <==> !Stuck(max, r)
  {
    SettlesExactly(max, key, r, now);
    ExpiresExactly(max, key, r, now);
    if CanSettle(max, r, now) {
      var ops :| Reaches(max, key, r, now, Consumed, ops);
      assert Ends(max, key, r, now, ops);
    } else if CanExpire(r) {
      var ops :| Reaches(max, key, r, now, Expired, ops);
      assert Ends(max, key, r, now, ops);
    }
  }

  /** Nothing ever changes the exception again. */
  lemma {:induction false} StuckForever(max: u32, key: Field, r: TradeRecord, ops: seq<Op>)
    requires Stuck(max, r)
    ensures Play(max, key, r, ops) == r
    decreases |ops|
  {
    if ops == [] {
    } else {
      StuckStep(max, key, r, ops[0]);
      StuckForever(max, key, r, ops[1..]);
    }
  }

  lemma StuckStep(max: u32, key: Field, r: TradeRecord, op: Op)
    requires Stuck(max, r)
    ensures Next(max, key, r, op) == r
  {
  }

  /** The exception is reachable for every retry bound. */
  lemma StuckIsReachable(max: u32, key: Field, intent: TradeIntent, txid: TxId)
    requires intent.expiry == TWO_64 - 1
    ensures exists h :: After(max, h, key).Some? && Stuck(max, After(max, h, key).value)
  {
    FailedRoundsState(max, key, intent, txid, max);
    var h := FailedRounds(key, intent, txid, max);
    var r := TradeRecord(key, intent, Created, None, None, max);
    var failed := r.(state := Failed, failureReason := Some(VerificationRejected));
    Advance(max, h, key, r, Op.Fail(VerificationRejected), failed);
    var g := h + [Call(key, Op.Fail(VerificationRejected))];
    assert After(max, g, key).Some? && Stuck(max, After(max, g, key).value);
  }

  // ---------- the construction lock ----------

  /** No fresh attempt since the lock was taken. */
  ghost predicate LockHeld(slot: Option<TradeRecord>)
  {
    slot.Some? && !slot.value.state.Created? && !slot.value.state.Verified?
  }

  ghost predicate RetriedAfter(ops: seq<Op>, i: nat)
  {
    exists n :: i < n < |ops| && ops[n].Retry?
  }

  lemma {:induction false} LockOutlivesAcquisition(max: u32, h: seq<Call>, key: Field, i: nat)
    requires i < |Accepted(max, h, key)| && Accepted(max, h, key)[i].Acquire?
    ensures RetriedAfter(Accepted(max, h, key), i) || LockHeld(After(max, h, key))
  {
    var f, c := h[..|h| - 1], h[|h| - 1];
    var ops := Accepted(max, f, key);
    Unfold(max, h, key);
    if i == |ops| {
    } else {
      LockOutlivesAcquisition(max, f, key, i);
      if c.key == key {
        LockStep(max, key, After(max, f, key), c.op, ops, i);
      }
    }
  }

  lemma LockStep(max: u32, key: Field, slot: Option<TradeRecord>, op: Op, ops: seq<Op>, i: nat)
    requires i < |ops| && (RetriedAfter(ops, i) || LockHeld(slot))
    ensures RetriedAfter(Extended(max, key, slot, ops, op), i) || LockHeld(Step(max, key, slot, op).slot)
  {
    var ops' := Extended(max, key, slot, ops, op);
    if RetriedAfter(ops, i) {
      var n :| i < n < |ops| && ops[n].Retry?;
      assert ops'[n].Retry?;
    } else if op.Retry? && |ops'| > |ops| {
      assert ops'[|ops|].Retry?;
    }
  }

  /** Between two accepted acquisitions of one commitment there is an accepted retry. */
  lemma {:induction false} ConstructionIsExclusive(max: u32, h: seq<Call>, key: Field, i: nat, j: nat)
    requires i < j < |Accepted(max, h, key)|
    requires Accepted(max, h, key)[i].Acquire? && Accepted(max, h, key)[j].Acquire?
    ensures exists n :: i < n < j && Accepted(max, h, key)[n].Retry?
  {
    var f := h[..|h| - 1];
    var ops, ops' := Accepted(max, f, key), Accepted(max, h, key);
    Unfold(max, h, key);
    if j < |ops| {
      ConstructionIsExclusive(max, f, key, i, j);
    } else {
      LockOutlivesAcquisition(max, f, key, i);
    }
    var n :| i < n < j && ops[n].Retry?;
    assert ops'[n].Retry?;
  }
}
