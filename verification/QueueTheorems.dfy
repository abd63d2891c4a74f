/** What the transactions of the queue mean for its rows, in terms of their fields, over every run. */
module QueueTheorems {
  import opened Base
  import opened ActionRecords
  import opened ActionProtocol
  import opened ActionInvariants
  import opened ActionTheorems

  // ----------------------------------------------------------------- enqueue

  /** A row that has never been claimed and holds what it was enqueued with. */
  predicate Waiting(r: Row, identity: Identity, availableAt: Instant) {
    && r.status.Pending? && r.attemptCount == 0 && r.identity == identity && r.availableAt == availableAt
    && r.updatedAt == identity.createdAt && r.lastErrorCode.None? && r.outcomeId.None? && r.lastAttempt.None?
  }

  /**
   * An intent that is enqueued for the first time waits, with the availability it was given, until
   * it is first claimed, whatever else happens. No claim before that time leases it; from that time
   * on a claim finds work, and takes another row only if that row comes first.
   */
  lemma EnqueuedWaitsUntilAvailable(
    before: seq<Op>, id: nat, identity: Identity, availableAt: Instant, after: seq<Op>,
    worker: string, now: Instant, leaseFor: int)
    requires
      var db := Run(EMPTY_DB, before);
      id !in db.rows && id in Apply(db, OpEnqueue(id, identity, availableAt)).rows
    ensures
      var first := Apply(Run(EMPTY_DB, before), OpEnqueue(id, identity, availableAt));
      var db := Run(first, after);
      var claim := Claim(db, worker, now, leaseFor);
      && Waiting(first.rows[id], identity, availableAt)
      && id in db.rows
      && (db.rows[id].attemptCount == 0 ==> Waiting(db.rows[id], identity, availableAt))
      && (db.rows[id].attemptCount == 0 && now < availableAt ==>
            id in claim.db.rows && Waiting(claim.db.rows[id], identity, availableAt))
      && (db.rows[id].attemptCount == 0 && now >= availableAt && worker != "" && leaseFor > 0 ==>
            && claim.result.Ok? && claim.result.value.Some?
            && var r := claim.result.value.value;
               && r.id in db.rows
               && (r.id == id || Precedes(db.rows[r.id], db.rows[id])))
  {
    var db0 := Run(EMPTY_DB, before);
    RunKeepsInv(EMPTY_DB, before);
    ApplyKeepsInv(db0, OpEnqueue(id, identity, availableAt));
    var first := Apply(db0, OpEnqueue(id, identity, availableAt));
    RunIsLater(first, after);
    RunKeepsInv(first, after);
    var db := Run(first, after);
    assert LaterRow(first, db, id) && RowOk(first, id) && RowOk(db, id);
    if db.rows[id].attemptCount == 0 {
      ClaimByFields(db, worker, now, leaseFor);
      if now >= availableAt { assert Due(db.rows[id], now); }
    }
  }

  /** By availability, then creation, then id. */
  predicate Precedes(a: Row, b: Row) {
    || a.availableAt < b.availableAt
    || (a.availableAt == b.availableAt && a.identity.createdAt < b.identity.createdAt)
    || (a.availableAt == b.availableAt && a.identity.createdAt == b.identity.createdAt && a.id < b.id)
  }

  /** Pending and available, or leased by a worker whose lease has expired. */
  predicate Due(r: Row, now: Instant) {
    if r.status.Leased? then r.leaseExpiresAt.Some? && now >= r.leaseExpiresAt.value
    else r.status.Pending? && now >= r.availableAt
  }

  /** Same trace or same idempotency key. */
  predicate Shares(a: Identity, b: Identity) { a.traceId == b.traceId || a.dispatch.key == b.dispatch.key }

  /**
   * A first enqueue succeeds exactly for a legal availability when no row has the id, the trace or
   * the idempotency key. Enqueuing the identity of a stored row again answers with that row; every
   * other enqueue is refused; neither changes a table.
   */
  lemma EnqueuesExactlyWhen(ops: seq<Op>, id: nat, identity: Identity, availableAt: Instant)
    ensures
      var db := Run(EMPTY_DB, ops);
      var s := Enqueue(db, id, identity, availableAt);
      && (s.db != db <==>
            && identity.createdAt <= availableAt && id !in db.rows
            && forall k :: k in db.rows ==> !Shares(db.rows[k].identity, identity))
      && (s.db != db ==>
            && s.result == Ok(s.db.rows[id]) && Waiting(s.db.rows[id], identity, availableAt)
            && s.db == db.(rows := db.rows[id := s.db.rows[id]]))
      && (s.db == db ==>
            s.result == if availableAt < identity.createdAt then Err(ValueError)
                        else if id in db.rows && db.rows[id].identity == identity then Ok(db.rows[id])
                        else Err(IdempotencyConflict))
  {
    var db := Run(EMPTY_DB, ops);
    if k :| k in db.rows && db.rows[k].identity.traceId == identity.traceId {
      assert Owns(db.rows, id, identity, k);
    }
    if id in db.rows { assert Owns(db.rows, id, identity, id); }
    assert id !in db.rows ==> db.rows[id := FreshRow(id, identity, availableAt)] != db.rows;
  }

  ghost predicate RowsApart(rows: map<nat, Row>) {
    forall a, b :: a in rows && b in rows && a != b ==> !Shares(rows[a].identity, rows[b].identity)
  }

  lemma StepKeepsRowsApart(db: Db, op: Op)
    requires Inv(db) && RowsApart(db.rows)
    ensures RowsApart(Apply(db, op).rows)
  {
    var db' := Apply(db, op);
    if op.OpEnqueue? {
      if db' != db { assert forall k :: k in db.rows ==> !Owns(db.rows, op.id, op.identity, k); }
    } else {
      SameIdentities(db, op);
    }
  }

  lemma SameIdentities(db: Db, op: Op)
    requires Inv(db) && !op.OpEnqueue?
    ensures
      var rows := Apply(db, op).rows;
      rows.Keys == db.rows.Keys && forall id :: id in db.rows ==> rows[id].identity == db.rows[id].identity
  {
    StepIsLater(db, op);
    assert forall id :: id in db.rows ==> LaterRow(db, Apply(db, op), id);
  }

  lemma {:induction false} RunKeepsRowsApart(db: Db, ops: seq<Op>)
    requires Inv(db) && RowsApart(db.rows)
    ensures RowsApart(Run(db, ops).rows)
    decreases |ops|
  {
    if ops != [] {
      StepKeepsRowsApart(db, ops[0]);
      ApplyKeepsInv(db, ops[0]);
      RunKeepsRowsApart(Apply(db, ops[0]), ops[1..]);
    }
  }

  /** Over every run, no two intents share a trace or an idempotency key. */
  lemma IntentsAreUnique(ops: seq<Op>, a: nat, b: nat)
    requires
      var rows := Run(EMPTY_DB, ops).rows;
      a in rows && b in rows && Shares(rows[a].identity, rows[b].identity)
    ensures a == b
  {
    RunKeepsRowsApart(EMPTY_DB, ops);
  }

  // ------------------------------------------------------------------- claim

  /** The row after a claim, from the row before. */
  predicate LeasedFrom(before: Row, r: Row, worker: string, token: nat, now: Instant, leaseFor: int) {
    && r.id == before.id && r.identity == before.identity && r.status.Leased?
    && r.attemptCount == before.attemptCount + 1 && r.availableAt == before.availableAt
    && r.leaseOwner == Some(worker) && r.leaseToken == Some(token) && r.leaseExpiresAt == Some(now + leaseFor)
    && r.lastErrorCode == before.lastErrorCode && r.outcomeId == before.outcomeId && r.lastAttempt == before.lastAttempt
    && r.updatedAt == now
  }

  /**
   * A claim with legal arguments answers with nothing exactly when no row is due. Otherwise it
   * leases, under a new token and for the given time, the due row that precedes all other due rows,
   * and leaves every other row and table alone.
   */
  lemma ClaimsExactlyWhen(ops: seq<Op>, worker: string, now: Instant, leaseFor: int)
    ensures ClaimMeans(Run(EMPTY_DB, ops), worker, now, leaseFor)
  {
    RunKeepsInv(EMPTY_DB, ops);
    ClaimByFields(Run(EMPTY_DB, ops), worker, now, leaseFor);
  }

  ghost predicate ClaimMeans(db: Db, worker: string, now: Instant, leaseFor: int) {
    var s := Claim(db, worker, now, leaseFor);
    if worker == "" || leaseFor <= 0 then s == Step(db, Err(ValueError))
    else
      && s.result.Ok?
      && (s.result.value.None? <==> forall k :: k in db.rows ==> !Due(db.rows[k], now))
      && (s.result.value.None? ==> s.db == db)
      && (s.result.value.Some? ==>
            var r := s.result.value.value;
            && r.id in db.rows && Due(db.rows[r.id], now)
            && LeasedFrom(db.rows[r.id], r, worker, db.nextToken, now, leaseFor)
            && s.db == db.(rows := db.rows[r.id := r], nextToken := db.nextToken + 1)
            && forall k :: k in db.rows && k != r.id && Due(db.rows[k], now) ==> Precedes(db.rows[r.id], db.rows[k]))
  }

  lemma ClaimByFields(db: Db, worker: string, now: Instant, leaseFor: int)
    requires Inv(db)
    ensures ClaimMeans(db, worker, now, leaseFor)
  {
    assert forall k :: k in db.rows ==> (Due(db.rows[k], now) <==> Ready(db.rows[k], now));
    var next := NextReady(db.rows, now);
    if next.Some? {
      assert RowOk(db, next.value);
    } else if k :| k in db.rows && Due(db.rows[k], now) {
      SomeReadySomeNext(db, now, k);
    }
  }

  // ------------------------------------------------------------------- start

  /** The intent that a worker holds shows a lease of its own that is live at the start. */
  predicate HoldsLease(intent: Row, worker: string, token: nat, at: Instant) {
    && worker != "" && intent.status.Leased? && intent.attemptCount >= 1
    && intent.leaseOwner == Some(worker) && intent.leaseToken == Some(token)
    && intent.leaseExpiresAt.Some? && intent.updatedAt <= at < intent.leaseExpiresAt.value
  }

  /**
   * A start is recorded anew exactly when both the intent that the worker holds and the stored row
   * show the same attempt under a lease of this worker that is live then, the dispatch metadata
   * agree, and no record of that attempt is stored. Nothing else changes.
   */
  lemma StartIsNewExactlyWhen(ops: seq<Op>, intent: Row, worker: string, token: nat, at: Instant)
    ensures
      var db := Run(EMPTY_DB, ops);
      var s := Start(db, intent, worker, token, at);
      && (s.db != db <==>
            && HoldsLease(intent, worker, token, at)
            && intent.id in db.rows && HoldsLease(db.rows[intent.id], worker, token, at)
            && db.rows[intent.id].attemptCount == intent.attemptCount
            && db.rows[intent.id].identity.dispatch == intent.identity.dispatch
            && forall a :: a in db.attempts && a.intentId == intent.id ==> a.number != intent.attemptCount)
      && (s.db != db ==>
            && s.result.Ok? && s.db == db.(attempts := db.attempts + {s.result.value})
            && StartedFor(s.result.value, intent, worker, token, at))
      && (s.db == db && s.result.Ok? ==> s.result.value in db.attempts)
  {
    var db := Run(EMPTY_DB, ops);
    RunKeepsInv(EMPTY_DB, ops);
    StartByFields(db, intent, worker, token, at);
  }

  predicate StartedFor(a: Attempt, intent: Row, worker: string, token: nat, at: Instant) {
    && a.intentId == intent.id && a.number == intent.attemptCount && a.revision == 1 && a.status.Started?
    && a.worker == worker && a.tokenHash == TokenHash(token) && a.dispatch == intent.identity.dispatch
    && a.startedAt == at && a.createdAt == at && a.supersedes.None? && a.finishedAt.None?
  }

  lemma StartByFields(db: Db, intent: Row, worker: string, token: nat, at: Instant)
    requires Inv(db)
    ensures
      var s := Start(db, intent, worker, token, at);
      && (s.db != db <==>
            && HoldsLease(intent, worker, token, at)
            && intent.id in db.rows && HoldsLease(db.rows[intent.id], worker, token, at)
            && db.rows[intent.id].attemptCount == intent.attemptCount
            && db.rows[intent.id].identity.dispatch == intent.identity.dispatch
            && forall a :: a in db.attempts && a.intentId == intent.id ==> a.number != intent.attemptCount)
      && (s.db != db ==>
            && s.result.Ok? && s.db == db.(attempts := db.attempts + {s.result.value})
            && StartedFor(s.result.value, intent, worker, token, at))
      && (s.db == db && s.result.Ok? ==> s.result.value in db.attempts)
  {
    var built := BuildStarted(intent, worker, token, at);
    if built.Ok? {
      var a := built.value;
      assert a in db.attempts <==> db.attempts + {a} == db.attempts;
      if intent.id in db.rows {
        forall b | b in db.attempts && b.intentId == intent.id && b.number == intent.attemptCount
          ensures !HoldsLease(db.rows[intent.id], worker, token, at)
                  || db.rows[intent.id].attemptCount != intent.attemptCount || b.revision == 1
        {
          assert AttemptOk(db, b);
        }
      }
    }
  }

  /** The row shows the lease and the attempt of the intent that the worker holds. */
  predicate SameLease(r: Row, intent: Row, worker: string, token: nat, at: Instant) {
    && HoldsLease(r, worker, token, at) && r.attemptCount == intent.attemptCount
    && r.identity.dispatch == intent.identity.dispatch
  }

  /**
   * Over every run, a start that is stored already is answered with its record; and each refusal has
   * its own cause: a blank worker, a held intent or a stored row that shows no such lease, a row that
   * does not exist, or another record of the same attempt.
   */
  lemma StartRefusalsMean(ops: seq<Op>, intent: Row, worker: string, token: nat, at: Instant)
    ensures StartAnswers(Run(EMPTY_DB, ops), intent, worker, token, at)
  {
    var db := Run(EMPTY_DB, ops);
    RunKeepsInv(EMPTY_DB, ops);
    if HoldsLease(intent, worker, token, at) {
      HeldStart(db, intent, worker, token, at);
    }
  }

  ghost predicate StartStored(db: Db, intent: Row, worker: string, token: nat, at: Instant) {
    exists a :: a in db.attempts && StartedFor(a, intent, worker, token, at)
  }

  ghost predicate StartAnswers(db: Db, intent: Row, worker: string, token: nat, at: Instant) {
    var r := Start(db, intent, worker, token, at).result;
    var (held, stored) := (HoldsLease(intent, worker, token, at), StartStored(db, intent, worker, token, at));
    var same := intent.id in db.rows && SameLease(db.rows[intent.id], intent, worker, token, at);
    var other := exists a :: a in db.attempts && a.intentId == intent.id && a.number == intent.attemptCount;
    && (r.Ok? <==> held && (stored || (same && !other)))
    && (r == Err(ValueError) <==> worker == "")
    && (r == Err(MissingReference) <==> held && intent.id !in db.rows)
    && (r == Err(DuplicateRecord) <==> held && !stored && same && other)
    && (r == Err(ContractError) <==> worker != "" && (!held || (!stored && intent.id in db.rows && !same)))
  }

  lemma HeldStart(db: Db, intent: Row, worker: string, token: nat, at: Instant)
    requires Inv(db) && HoldsLease(intent, worker, token, at)
    ensures StartAnswers(db, intent, worker, token, at)
  {
    var a := BuildStarted(intent, worker, token, at).value;
    forall b | b in db.attempts
      ensures StartedFor(b, intent, worker, token, at) ==> b == a
      ensures b.intentId == intent.id ==> intent.id in db.rows
    {
      assert AttemptOk(db, b);
    }
    StartByFields(db, intent, worker, token, at);
  }

  // ---------------------------------------------------------------- finalize

  /** The terminal record of an attempt, in the terms of the call that wrote it. */
  predicate EndedBy(t: Attempt, call: Call) {
    && t.supersedes == Some(call.started) && t.revision == 2
    && t.intentId == call.started.intentId && t.number == call.started.number && t.worker == call.started.worker
    && t.tokenHash == call.started.tokenHash && t.dispatch == call.started.dispatch
    && t.startedAt == call.started.startedAt && t.finishedAt == Some(call.finishedAt) && t.createdAt == call.finishedAt
    && t.responseHash == call.responseHash
    && t.latencyMs.Some? && t.latencyMs.value * 1000 <= call.finishedAt - t.startedAt < (t.latencyMs.value + 1) * 1000
    && match call.verdict
       case Success(outcome) => t.status.Succeeded? && t.outcomeId == Some(outcome) && t.errorCode.None?
       case Failure(error, _) => t.status.Failed? && t.errorCode == Some(error) && t.outcomeId.None?
  }

  /** The row after a finalization, from the row before. */
  predicate FreedFrom(before: Row, r: Row, t: Attempt, call: Call) {
    && r.id == before.id && r.identity == before.identity && r.attemptCount == before.attemptCount
    && r.leaseOwner.None? && r.leaseToken.None? && r.leaseExpiresAt.None?
    && r.lastAttempt == Some(t) && r.updatedAt == call.finishedAt
    && match call.verdict
       case Success(outcome) =>
         && r.status.Completed? && r.outcomeId == Some(outcome)
         && r.availableAt == before.availableAt && r.lastErrorCode == before.lastErrorCode
       case Failure(error, None) =>
         && r.status.FailedForGood? && r.lastErrorCode == Some(error)
         && r.availableAt == before.availableAt && r.outcomeId == before.outcomeId
       case Failure(error, Some(retryAt)) =>
         && r.status.Pending? && r.lastErrorCode == Some(error)
         && r.availableAt == retryAt && r.outcomeId == before.outcomeId
  }

  /** A fresh finalization writes exactly the terminal record and the row that its call names. */
  lemma FinalizationWrites(ops: seq<Op>, call: Call)
    ensures
      var db := Run(EMPTY_DB, ops);
      var s := Finalize(db, call);
      s.result.Ok? && !s.result.value.alreadyFinalized ==>
        var (id, t) := (call.started.intentId, s.result.value.attempt);
        && id in db.rows && id in s.db.rows && t !in db.attempts
        && EndedBy(t, call) && FreedFrom(db.rows[id], s.db.rows[id], t, call)
        && s.db == db.(rows := db.rows[id := s.db.rows[id]], attempts := db.attempts + {t})
  {
  }

  /** The call is well formed: a verdict, a started record not after the finish, a retry not before it. */
  predicate BuildsTerminal(call: Call) {
    && call.verdict.text != "" && call.started.revision == 1 && call.started.status.Started?
    && call.started.startedAt <= call.finishedAt
  }

  predicate RetriesEarly(call: Call) {
    call.verdict.Failure? && call.verdict.retryAt.Some? && call.verdict.retryAt.value < call.finishedAt
  }

  /** The terminal record of the call is stored. */
  ghost predicate EndStored(db: Db, call: Call) {
    exists t :: t in db.attempts && EndedBy(t, call)
  }

  /** The row is as the call left it. */
  predicate ShowsEnd(r: Row, call: Call) {
    && call.token == call.started.tokenHash.token
    && r.lastAttempt.Some? && EndedBy(r.lastAttempt.value, call)
    && match call.verdict
       case Success(outcome) => r.status.Completed? && r.outcomeId == Some(outcome)
       case Failure(error, None) => r.status.FailedForGood? && r.lastErrorCode == Some(error)
       case Failure(error, Some(time)) => r.status.Pending? && r.lastErrorCode == Some(error) && r.availableAt == time
  }

  /**
   * Over every run, a call is answered as already finalized exactly when its record is stored and the
   * row is still as the call left it. Each refusal has its own cause, and the constraints on attempts
   * and rows cause none.
   */
  lemma FinalizationRefusalsMean(ops: seq<Op>, call: Call)
    ensures FinalizationAnswers(Run(EMPTY_DB, ops), call)
  {
    var db := Run(EMPTY_DB, ops);
    RunKeepsInv(EMPTY_DB, ops);
    if BuildsTerminal(call) && !RetriesEarly(call) && call.started.intentId in db.rows {
      StoredEnd(db, call);
      if !EndStored(db, call) { FreshEnd(db, call); }
    }
  }

  ghost predicate FinalizationAnswers(db: Db, call: Call) {
    var r := Finalize(db, call).result;
    var ready := BuildsTerminal(call) && !RetriesEarly(call);
    var known := call.started.intentId in db.rows;
    var open := ready && known && !EndStored(db, call) && HeldBy(db.rows[call.started.intentId], call);
    && (r == Err(ValueError) <==> call.verdict.text == "" || (BuildsTerminal(call) && RetriesEarly(call)))
    && (r == Err(ContractError) <==> call.verdict.text != "" && !BuildsTerminal(call))
    && (r == Err(MissingReference) <==>
          (ready && !known)
          || (open && (call.started !in db.attempts || (call.verdict.Success? && call.verdict.text !in db.records))))
    && (r == Err(InvalidProgression) <==>
          open && call.started in db.attempts
          && call.verdict.Success? && call.verdict.text in db.records && !db.records[call.verdict.text])
    && (r == Err(FinalizationConflict) <==>
          && ready && known
          && if EndStored(db, call) then !ShowsEnd(db.rows[call.started.intentId], call)
             else !HeldBy(db.rows[call.started.intentId], call))
    && (r.Ok? && r.value.alreadyFinalized <==>
          ready && known && EndStored(db, call) && ShowsEnd(db.rows[call.started.intentId], call))
    && (r.Ok? || r.error in {ValueError, ContractError, MissingReference, InvalidProgression, FinalizationConflict})
  }

  lemma StoredEnd(db: Db, call: Call)
    requires Inv(db) && BuildsTerminal(call) && !RetriesEarly(call) && call.started.intentId in db.rows
    ensures
      var t := BuildTerminal(call.started, call.finishedAt, call.verdict, call.responseHash).value;
      var r := Finalize(db, call).result;
      && (EndStored(db, call) <==> t in db.attempts)
      && (EndStored(db, call) ==>
            r == if ShowsEnd(db.rows[t.intentId], call) then Ok(Finalized(t, call.verdict, true)) else Err(FinalizationConflict))
  {
    var t := BuildTerminal(call.started, call.finishedAt, call.verdict, call.responseHash).value;
    assert EndedBy(t, call);
    assert RowOk(db, t.intentId);
    forall b: Attempt | ValidAttempt(b) && EndedBy(b, call) ensures b == t {
    }
    forall b | b in db.attempts ensures ValidAttempt(b) { assert AttemptOk(db, b); }
  }

  lemma FreshEnd(db: Db, call: Call)
    requires Inv(db) && BuildsTerminal(call) && !RetriesEarly(call) && call.started.intentId in db.rows
    requires BuildTerminal(call.started, call.finishedAt, call.verdict, call.responseHash).value !in db.attempts
    ensures
      var (r, held) := (Finalize(db, call).result, HeldBy(db.rows[call.started.intentId], call));
      var missing := call.started !in db.attempts || (call.verdict.Success? && call.verdict.text !in db.records);
      && (r == Err(FinalizationConflict) <==> !held)
      && (r == Err(MissingReference) <==> held && missing)
      && (r == Err(InvalidProgression) <==>
            held && !missing && call.verdict.Success? && !db.records[call.verdict.text])
      && (r.Ok? || r.error in {MissingReference, InvalidProgression, FinalizationConflict})
  {
    if call.started in db.attempts { assert AttemptOk(db, call.started); }
    FreshFinalization(db, call);
  }

  // ------------------------------------------------------------------- delete

  /** An unforced delete removes a record exactly when it is stored and neither attempt nor row names it. */
  lemma DeletesExactlyWhen(db: Db, id: string)
    ensures
      var s := DeleteRecord(db, id);
      && (s.result.Ok? <==>
            && id in db.records && (forall a :: a in db.attempts ==> a.outcomeId != Some(id))
            && forall k :: k in db.rows ==> db.rows[k].outcomeId != Some(id) && db.rows[k].identity.traceId != id)
      && s.db == if s.result.Ok? then db.(records := db.records - {id}) else db
  {
  }
}
