/** The guarantees of the action protocol, over every run of interleaved transactions. */
module ActionTheorems {
  import opened Base
  import opened ActionRecords
  import opened ActionProtocol
  import opened ActionInvariants

  // ------------------------------------------------- evidence and queue agree

  /**
   * In every reachable state each row has a legal shape, no attempt is numbered above the row's
   * count, and a row that is completed, failed, or back in the queue points at the one terminal
   * record of its last attempt, with the same verdict.
   */
  lemma EvidenceMatchesQueue(ops: seq<Op>, id: nat)
    requires id in Run(EMPTY_DB, ops).rows
    ensures
      var db := Run(EMPTY_DB, ops);
      var r := db.rows[id];
      && ValidState(r)
      && (forall a :: a in db.attempts && a.intentId == id ==> 1 <= a.number <= r.attemptCount)
      && (r.status.Leased? ==>
            forall a :: a in db.attempts && a.intentId == id && a.number == r.attemptCount ==> a.revision == 1)
      && (!r.status.Leased? && r.attemptCount > 0 ==>
            && r.lastAttempt.Some? && r.lastAttempt.value in db.attempts
            && (forall a :: a in db.attempts && a.intentId == id && a.number == r.attemptCount && a.revision == 2
                  ==> a == r.lastAttempt.value)
            && r.lastAttempt.value.intentId == id && r.lastAttempt.value.number == r.attemptCount
            && (if r.status.Completed? then
                  r.lastAttempt.value.status.Succeeded? && r.lastAttempt.value.outcomeId == r.outcomeId
                else
                  r.lastAttempt.value.status.Failed? && r.lastAttempt.value.errorCode == r.lastErrorCode))
  {
    var db := Run(EMPTY_DB, ops);
    RunKeepsInv(EMPTY_DB, ops);
    assert RowOk(db, id);
    var r := db.rows[id];
    forall a | a in db.attempts && a.intentId == id
      ensures 1 <= a.number <= r.attemptCount
      ensures r.status.Leased? && a.number == r.attemptCount ==> a.revision == 1
      ensures r.lastAttempt.Some? && a.revision == 2 && a.number == r.lastAttempt.value.number ==>
        a == r.lastAttempt.value
    {
      assert AttemptOk(db, a);
      if r.lastAttempt.Some? { assert PairOk(a, r.lastAttempt.value); }
    }
  }

  // --------------------------------------------------------- no overlap in time

  lemma AttemptsNeverOverlap(ops: seq<Op>, a: Attempt, b: Attempt)
    requires a in Run(EMPTY_DB, ops).attempts && b in Run(EMPTY_DB, ops).attempts
    requires a.intentId == b.intentId && a.number < b.number
    ensures a.startedAt <= b.startedAt
    ensures a.finishedAt.Some? ==> a.finishedAt.value <= b.startedAt
  {
    RunKeepsInv(EMPTY_DB, ops);
    var db := Run(EMPTY_DB, ops);
    assert PairOk(a, b) && AttemptOk(db, a);
  }

  /** `ORDER BY started_at, intent_id, attempt_number, revision`, strictly. */
  predicate ListedBefore(a: Attempt, b: Attempt) {
    || a.startedAt < b.startedAt
    || (a.startedAt == b.startedAt && a.intentId < b.intentId)
    || (a.startedAt == b.startedAt && a.intentId == b.intentId && a.number < b.number)
    || (a.startedAt == b.startedAt && a.intentId == b.intentId && a.number == b.number && a.revision < b.revision)
  }

  predicate CausallyBefore(a: Attempt, b: Attempt) {
    a.number < b.number || (a.number == b.number && a.revision < b.revision)
  }

  /**
   * The listing of one intent is its causal order: distinct records of one intent are listed in
   * the order of their attempt numbers, each terminal record after its started record.
   */
  lemma ListingIsCausal(ops: seq<Op>, a: Attempt, b: Attempt)
    requires a in Run(EMPTY_DB, ops).attempts && b in Run(EMPTY_DB, ops).attempts
    requires a.intentId == b.intentId
    ensures ListedBefore(a, b) <==> CausallyBefore(a, b)
    ensures a != b ==> ListedBefore(a, b) || ListedBefore(b, a)
  {
    RunKeepsInv(EMPTY_DB, ops);
    var db := Run(EMPTY_DB, ops);
    assert PairOk(a, b) && PairOk(b, a) && AttemptOk(db, a) && AttemptOk(db, b);
    if a.number == b.number {
      SameNumberSameStart(db, a, b);
    }
  }

  /** Both revisions of one attempt record the same start. */
  lemma SameNumberSameStart(db: Db, a: Attempt, b: Attempt)
    requires Inv(db) && a in db.attempts && b in db.attempts
    requires a.intentId == b.intentId && a.number == b.number
    ensures a.startedAt == b.startedAt
  {
    assert AttemptOk(db, a) && AttemptOk(db, b);
    var x := if a.revision == 2 then a.supersedes.value else a;
    var y := if b.revision == 2 then b.supersedes.value else b;
    assert PairOk(x, y);
  }

  // ------------------------------------------------------------------- fencing

  ghost predicate Terminal(db: Db, id: nat, number: nat, a: Attempt) {
    a in db.attempts && a.intentId == id && a.number == number && a.revision == 2
  }

  /** An attempt or a row refers to the record. */
  predicate Cited(db: Db, id: string) { Reported(db.attempts, id) || HeldByRow(db.rows, id) }

  /** What no step can undo for the rows of `db`. */
  ghost predicate Later(db: Db, db': Db) {
    && db.attempts <= db'.attempts
    && (forall id :: id in db.records && Cited(db, id) ==> id in db'.records && db'.records[id] == db.records[id])
    && forall id :: id in db.rows ==> LaterRow(db, db', id)
  }

  ghost predicate LaterRow(db: Db, db': Db, id: nat)
    requires id in db.rows
  {
    && id in db'.rows
    && db'.rows[id].identity == db.rows[id].identity
    && db.rows[id].attemptCount <= db'.rows[id].attemptCount
    && (db.rows[id].status.Completed? || db.rows[id].status.FailedForGood? ==> db'.rows[id] == db.rows[id])
    && (!db.rows[id].status.Leased? && db'.rows[id].attemptCount == db.rows[id].attemptCount ==>
          db'.rows[id] == db.rows[id])
    && (forall a :: a in db'.attempts && a.intentId == id && a.revision == 2
          && (a.number < db.rows[id].attemptCount || (!db.rows[id].status.Leased? && a.number == db.rows[id].attemptCount))
          ==> a in db.attempts)
  }

  lemma FinalizeIsLater(db: Db, call: Call)
    requires Inv(db)
    ensures Later(db, Finalize(db, call).db)
  {
    if Finalize(db, call).db != db {
      var t, r := FinalizeUnderLease(db, call);
    }
  }

  lemma EnqueueIsLater(db: Db, id: nat, identity: Identity, availableAt: Instant)
    ensures Later(db, Enqueue(db, id, identity, availableAt).db)
  {
    if id in db.rows { assert Owns(db.rows, id, identity, id); }
  }

  lemma ClaimIsLater(db: Db, worker: string, now: Instant, leaseFor: int)
    requires Inv(db)
    ensures Later(db, Claim(db, worker, now, leaseFor).db)
  {
    var db' := Claim(db, worker, now, leaseFor).db;
    if db' != db {
      assert RowOk(db, NextReady(db.rows, now).value);
    }
  }

  lemma StartIsLater(db: Db, intent: Row, worker: string, token: nat, startedAt: Instant)
    ensures Later(db, Start(db, intent, worker, token, startedAt).db)
  {
  }

  lemma StepIsLater(db: Db, op: Op)
    requires Inv(db)
    ensures Later(db, Apply(db, op))
  {
    match op
    case OpFinalize(call) => FinalizeIsLater(db, call);
    case OpEnqueue(id, identity, availableAt) => EnqueueIsLater(db, id, identity, availableAt);
    case OpClaim(worker, now, leaseFor) => ClaimIsLater(db, worker, now, leaseFor);
    case OpStart(intent, worker, token, startedAt) => StartIsLater(db, intent, worker, token, startedAt);
    case OpRecord(_, _) =>
    case OpDelete(_) =>
  }

  lemma CitedStays(db: Db, db': Db, id: string)
    requires Inv(db) && Later(db, db') && Cited(db, id)
    ensures Cited(db', id)
  {
    if HeldByRow(db.rows, id) {
      var k :| k in db.rows && (db.rows[k].outcomeId == Some(id) || db.rows[k].identity.traceId == id);
      assert RowOk(db, k) && LaterRow(db, db', k);
    }
  }

  lemma {:induction false} RunIsLater(db: Db, ops: seq<Op>)
    requires Inv(db)
    ensures Later(db, Run(db, ops))
    decreases |ops|
  {
    if ops != [] {
      var mid := Apply(db, ops[0]);
      StepIsLater(db, ops[0]);
      ApplyKeepsInv(db, ops[0]);
      RunIsLater(mid, ops[1..]);
      var last := Run(mid, ops[1..]);
      forall id | id in db.rows ensures LaterRow(db, last, id) {
        assert LaterRow(db, mid, id) && LaterRow(mid, last, id);
      }
      forall id | Cited(db, id) ensures Cited(mid, id) { CitedStays(db, mid, id); }
    }
  }

  /** Once a later attempt has been claimed, an attempt's terminal evidence is closed for ever. */
  lemma Fenced(before: seq<Op>, after: seq<Op>, id: nat, number: nat, a: Attempt)
    requires
      var db := Run(EMPTY_DB, before);
      id in db.rows && number < db.rows[id].attemptCount
    ensures
      var db := Run(EMPTY_DB, before);
      Terminal(Run(db, after), id, number, a) <==> Terminal(db, id, number, a)
  {
    var db := Run(EMPTY_DB, before);
    RunKeepsInv(EMPTY_DB, before);
    RunIsLater(db, after);
    assert LaterRow(db, Run(db, after), id);
  }

  /** An intent has at most one succeeded attempt, and it is the intent's highest attempt. */
  lemma SingleSuccess(ops: seq<Op>, a: Attempt, b: Attempt)
    requires a in Run(EMPTY_DB, ops).attempts && b in Run(EMPTY_DB, ops).attempts
    requires a.intentId == b.intentId && a.status.Succeeded?
    ensures b.status.Succeeded? ==> b == a
    ensures b.number <= a.number
  {
    RunKeepsInv(EMPTY_DB, ops);
    var db := Run(EMPTY_DB, ops);
    assert AttemptOk(db, a) && AttemptOk(db, b) && RowOk(db, a.intentId);
  }

  /** Completed and failed are absorbing: no later step changes the row or records another attempt. */
  lemma TerminalIsAbsorbing(before: seq<Op>, after: seq<Op>, id: nat)
    requires
      var db := Run(EMPTY_DB, before);
      id in db.rows && (db.rows[id].status.Completed? || db.rows[id].status.FailedForGood?)
    ensures
      var db := Run(EMPTY_DB, before);
      var db' := Run(db, after);
      && id in db'.rows && db'.rows[id] == db.rows[id]
      && forall a: Attempt :: a.intentId == id ==> (a in db'.attempts <==> a in db.attempts)
  {
    RunKeepsInv(EMPTY_DB, before);
    NoAttemptWithoutLease(Run(EMPTY_DB, before), after, id);
  }

  ghost predicate Untouched(db: Db, db': Db, id: nat) {
    && id in db.rows && id in db'.rows && db'.rows[id] == db.rows[id]
    && forall a: Attempt :: a.intentId == id ==> (a in db'.attempts <==> a in db.attempts)
  }

  lemma StepLeavesTerminal(db: Db, op: Op, id: nat)
    requires Inv(db) && id in db.rows && (db.rows[id].status.Completed? || db.rows[id].status.FailedForGood?)
    ensures Untouched(db, Apply(db, op), id)
  {
    StepIsLater(db, op);
    assert LaterRow(db, Apply(db, op), id);
    if op.OpFinalize? && Apply(db, op) != db {
      var t, r := FinalizeUnderLease(db, op.call);
    }
  }

  lemma {:induction false} NoAttemptWithoutLease(db: Db, ops: seq<Op>, id: nat)
    requires Inv(db) && id in db.rows && (db.rows[id].status.Completed? || db.rows[id].status.FailedForGood?)
    ensures Untouched(db, Run(db, ops), id)
    decreases |ops|
  {
    if ops != [] {
      StepLeavesTerminal(db, ops[0], id);
      ApplyKeepsInv(db, ops[0]);
      NoAttemptWithoutLease(Apply(db, ops[0]), ops[1..], id);
    }
  }

  // ---------------------------------------------------------------- replay

  /**
   * After a call of `complete` or `fail` has succeeded, and until its intent is claimed again,
   * repeating it answers with the same attempt and changes nothing, and every other call for the
   * intent is refused. Once the intent has been claimed again, the call is refused.
   */
  lemma FinalizationReplays(before: seq<Op>, call: Call, after: seq<Op>, other: Call)
    requires Finalize(Run(EMPTY_DB, before), call).result.Ok?
    requires other.started.intentId == call.started.intentId && other != call
    ensures
      var first := Finalize(Run(EMPTY_DB, before), call);
      var db := Run(first.db, after);
      var id := call.started.intentId;
      && id in first.db.rows && id in db.rows
      && (db.rows[id].attemptCount == first.db.rows[id].attemptCount ==>
            && Finalize(db, call) == Step(db, Ok(Finalized(first.result.value.attempt, call.verdict, true)))
            && Finalize(db, other).result.Err? && Finalize(db, other).db == db)
      && (db.rows[id].attemptCount != first.db.rows[id].attemptCount ==>
            Finalize(db, call) == Step(db, Err(FinalizationConflict)))
  {
    var db0 := Run(EMPTY_DB, before);
    RunKeepsInv(EMPTY_DB, before);
    FinalizeKeepsInv(db0, call);
    var first := Finalize(db0, call);
    RunIsLater(first.db, after);
    var db := Run(first.db, after);
    var id := call.started.intentId;
    CommittedCall(db0, call);
    assert LaterRow(first.db, db, id);
    RunKeepsInv(first.db, after);
    if db.rows[id].attemptCount == first.db.rows[id].attemptCount {
      OnlyCommittedCall(db, call, other, first.result.value.attempt);
    } else {
      assert RowOk(db, id);
    }
  }

  /** What a successful call leaves in its row. */
  lemma CommittedCall(db: Db, call: Call)
    requires Inv(db) && Finalize(db, call).result.Ok?
    ensures
      var s := Finalize(db, call);
      var id := call.started.intentId;
      && id in s.db.rows && !s.db.rows[id].status.Leased?
      && s.result.value.attempt in s.db.attempts
      && BuildTerminal(call.started, call.finishedAt, call.verdict, call.responseHash) == Ok(s.result.value.attempt)
      && AgreesWithCommitted(s.db.rows[id], s.result.value.attempt, call)
      && s.result.value.attempt.number == s.db.rows[id].attemptCount
  {
    var t := BuildTerminal(call.started, call.finishedAt, call.verdict, call.responseHash).value;
    if t in db.attempts {
      assert RowOk(db, t.intentId);
    }
  }

  lemma OnlyCommittedCall(db: Db, call: Call, other: Call, t: Attempt)
    requires Inv(db) && call.started.intentId in db.rows && !db.rows[call.started.intentId].status.Leased?
    requires BuildTerminal(call.started, call.finishedAt, call.verdict, call.responseHash) == Ok(t)
    requires t in db.attempts && AgreesWithCommitted(db.rows[call.started.intentId], t, call)
    requires other.started.intentId == call.started.intentId && other != call
    ensures Finalize(db, other).result.Err?
  {
    var built := BuildTerminal(other.started, other.finishedAt, other.verdict, other.responseHash);
    if built.Ok? && built.value == t {
      assert other.started == call.started && other.finishedAt == call.finishedAt;
      assert other.token != call.token || other.verdict != call.verdict;
    }
  }

  /** The row is leased for the attempt of the call, under its worker and its token, beyond its finish. */
  predicate HeldBy(r: Row, call: Call) {
    && r.status.Leased? && r.attemptCount == call.started.number && r.leaseOwner == Some(call.started.worker)
    && r.leaseToken.Some? && r.leaseToken.value == call.token == call.started.tokenHash.token
    && r.leaseExpiresAt.Some? && call.finishedAt < r.leaseExpiresAt.value
  }

  ghost predicate CanFinalize(db: Db, call: Call) {
    && call.started in db.attempts && call.started.revision == 1
    && call.started.intentId in db.rows && HeldBy(db.rows[call.started.intentId], call)
    && call.started.startedAt <= call.finishedAt && call.verdict.text != ""
    && (call.verdict.Success? ==> call.verdict.text in db.records && db.records[call.verdict.text])
    && (call.verdict.Failure? && call.verdict.retryAt.Some? ==> call.finishedAt <= call.verdict.retryAt.value)
  }

  /**
   * Exactly when a call succeeds with fresh terminal evidence: the started attempt is stored, its
   * lease is live at the reported finish, and the reported outcome is a stored Outcome.
   */
  lemma FinalizesExactlyWhen(ops: seq<Op>, call: Call)
    ensures
      var db := Run(EMPTY_DB, ops);
      var s := Finalize(db, call);
      (s.result.Ok? && !s.result.value.alreadyFinalized) <==> CanFinalize(db, call)
  {
    RunKeepsInv(EMPTY_DB, ops);
    FreshFinalization(Run(EMPTY_DB, ops), call);
  }

  lemma FreshFinalization(db: Db, call: Call)
    requires Inv(db)
    ensures
      var s := Finalize(db, call);
      (s.result.Ok? && !s.result.value.alreadyFinalized) <==> CanFinalize(db, call)
  {
    if call.started in db.attempts {
      assert AttemptOk(db, call.started);
    }
    if CanFinalize(db, call) {
      var t := BuildTerminal(call.started, call.finishedAt, call.verdict, call.responseHash).value;
      assert RowOk(db, t.intentId);
      forall b | b in db.attempts
        ensures !(b.intentId == t.intentId && b.number == t.number && b.revision == 2)
        ensures b.supersedes != Some(call.started)
      {
        assert AttemptOk(db, b);
      }
      LastAttemptIsFree(db, t);
    }
  }

  /** The row checks and the unique index on `last_attempt_id` never reject a reachable update. */
  lemma ConstraintsNeverFire(ops: seq<Op>, call: Call, worker: string, now: Instant, leaseFor: int)
    ensures Finalize(Run(EMPTY_DB, ops), call).result != Err(IntegrityError)
    ensures worker != "" && leaseFor > 0 ==> Claim(Run(EMPTY_DB, ops), worker, now, leaseFor).result.Ok?
  {
    var db := Run(EMPTY_DB, ops);
    RunKeepsInv(EMPTY_DB, ops);
    var built := BuildTerminal(call.started, call.finishedAt, call.verdict, call.responseHash);
    if built.Ok? && built.value !in db.attempts {
      LastAttemptIsFree(db, built.value);
    }
    if worker != "" && leaseFor > 0 && NextReady(db.rows, now).Some? {
      assert RowOk(db, NextReady(db.rows, now).value);
    }
  }

  // ------------------------------------------------------------------- claim

  /** `claim` finds no work only when no row is ready; otherwise it leases the first ready row. */
  lemma ClaimTakesFirstReady(ops: seq<Op>, now: Instant, id: nat)
    requires
      var db := Run(EMPTY_DB, ops);
      id in db.rows && Ready(db.rows[id], now)
    ensures
      var db := Run(EMPTY_DB, ops);
      var next := NextReady(db.rows, now);
      next.Some? && (next.value == id || Before(db.rows[next.value], db.rows[id]))
  {
    RunKeepsInv(EMPTY_DB, ops);
    SomeReadySomeNext(Run(EMPTY_DB, ops), now, id);
  }

  lemma SomeReadySomeNext(db: Db, now: Instant, id: nat)
    requires Inv(db) && id in db.rows && Ready(db.rows[id], now)
    ensures NextReady(db.rows, now).Some?
  {
    var ready := set k | k in db.rows && Ready(db.rows[k], now);
    assert id in ready;
    forall k | k in db.rows ensures db.rows[k].id == k { assert RowOk(db, k); }
    var first := FirstOf(db.rows, ready);
    assert IsNext(db.rows, now, first);
  }

  lemma {:induction false} FirstOf(rows: map<nat, Row>, ids: set<nat>) returns (first: nat)
    requires ids != {} && ids <= rows.Keys
    requires forall k :: k in rows ==> rows[k].id == k
    ensures first in ids && forall k :: k in ids && k != first ==> Before(rows[first], rows[k])
    decreases ids
  {
    var some :| some in ids;
    first := some;
    if ids != {some} {
      var rest := FirstOf(rows, ids - {some});
      if Before(rows[rest], rows[some]) {
        first := rest;
      }
    }
  }
}
