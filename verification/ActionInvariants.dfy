/** What every interleaving of the action protocol keeps. */
module ActionInvariants {
  import opened Base
  import opened ActionRecords
  import opened ActionProtocol

  /** The last instant an attempt revision records. */
  function End(a: Attempt): Instant {
    if a.finishedAt.Some? then a.finishedAt.value else a.startedAt
  }

  /** A row and its terminal evidence agree. */
  ghost predicate EvidenceAgrees(db: Db, r: Row) {
    && (r.attemptCount == 0 ==> r.status.Pending? && r.lastAttempt.None?)
    && (r.lastAttempt.Some? ==>
          && r.lastAttempt.value in db.attempts
          && r.lastAttempt.value.intentId == r.id && r.lastAttempt.value.revision == 2)
    && (r.status.Completed? ==>
          && r.lastAttempt.Some? && r.lastAttempt.value.status.Succeeded?
          && r.lastAttempt.value.number == r.attemptCount
          && r.lastAttempt.value.outcomeId == r.outcomeId)
    && (r.status.FailedForGood? || (r.status.Pending? && r.attemptCount > 0) ==>
          && r.lastAttempt.Some? && r.lastAttempt.value.status.Failed?
          && r.lastAttempt.value.number == r.attemptCount
          && r.lastAttempt.value.errorCode == r.lastErrorCode)
  }

  ghost predicate RowOk(db: Db, id: nat)
    requires id in db.rows
  {
    var r := db.rows[id];
    && r.id == id && ValidState(r) && EvidenceAgrees(db, r)
    && (r.status.Leased? ==> r.attemptCount >= 1 && r.availableAt <= r.updatedAt < r.leaseExpiresAt.value)
  }

  /** Where an attempt stands in time against its row. */
  predicate Placed(r: Row, a: Attempt) {
    && 1 <= a.number <= r.attemptCount
    && (r.status.Leased? ==>
          if a.number < r.attemptCount then End(a) <= r.updatedAt else a.revision == 1 && MatchesLease(r, a))
    && (r.status.Pending? ==> End(a) <= r.availableAt)
  }

  ghost predicate AttemptOk(db: Db, a: Attempt) {
    && ValidAttempt(a) && a.intentId in db.rows
    && a.dispatch == db.rows[a.intentId].identity.dispatch
    && (a.revision == 2 ==>
          && a.supersedes.value in db.attempts && a.supersedes.value.revision == 1
          && Context(a) == Context(a.supersedes.value))
    && (a.status.Succeeded? ==>
          && db.rows[a.intentId].status.Completed? && db.rows[a.intentId].lastAttempt == Some(a)
          && a.outcomeId.value in db.records && db.records[a.outcomeId.value])
    && Placed(db.rows[a.intentId], a)
  }

  predicate PairOk(a: Attempt, b: Attempt) {
    a.intentId == b.intentId ==>
      && (a.number == b.number && a.revision == b.revision ==> a == b)
      && (a.number < b.number ==> End(a) <= b.startedAt)
  }

  ghost predicate Inv(db: Db) {
    && (forall id {:trigger RowOk(db, id)} :: id in db.rows ==> RowOk(db, id))
    && (forall a {:trigger AttemptOk(db, a)} :: a in db.attempts ==> AttemptOk(db, a))
    && (forall a, b {:trigger PairOk(a, b)} :: a in db.attempts && b in db.attempts ==> PairOk(a, b))
  }

  // ------------------------------------------------------- one step keeps Inv

  lemma EnqueueKeepsInv(db: Db, id: nat, identity: Identity, availableAt: Instant)
    requires Inv(db)
    ensures Inv(Enqueue(db, id, identity, availableAt).db)
  {
    var db' := Enqueue(db, id, identity, availableAt).db;
    if db' != db {
      assert id !in db.rows by { if id in db.rows { assert Owns(db.rows, id, identity, id); } }
      forall a | a in db'.attempts ensures AttemptOk(db', a) { assert AttemptOk(db, a); }
      forall k | k in db'.rows ensures RowOk(db', k) { if k != id { assert RowOk(db, k); } }
    }
  }

  lemma ClaimKeepsInv(db: Db, worker: string, now: Instant, leaseFor: int)
    requires Inv(db)
    ensures Inv(Claim(db, worker, now, leaseFor).db)
  {
    var db' := Claim(db, worker, now, leaseFor).db;
    if db' != db {
      var id := NextReady(db.rows, now).value;
      assert RowOk(db, id);
      forall k | k in db'.rows ensures RowOk(db', k) { if k != id { assert RowOk(db, k); } }
      forall a | a in db'.attempts ensures AttemptOk(db', a) { assert AttemptOk(db, a); }
    }
  }

  lemma StartKeepsInv(db: Db, intent: Row, worker: string, token: nat, startedAt: Instant)
    requires Inv(db)
    ensures Inv(Start(db, intent, worker, token, startedAt).db)
  {
    var db' := Start(db, intent, worker, token, startedAt).db;
    if db' != db {
      var a := BuildStarted(intent, worker, token, startedAt).value;
      assert db'.attempts == db.attempts + {a};
      InsertKeepsPairs(db, a);
      forall b | b in db'.attempts ensures AttemptOk(db', b) { if b != a { assert AttemptOk(db, b); } }
      forall k | k in db'.rows ensures RowOk(db', k) { assert RowOk(db, k); }
    }
  }

  /** An attempt that passes the checks under the live lease follows every attempt before it. */
  lemma InsertKeepsPairs(db: Db, a: Attempt)
    requires Inv(db) && InsertError(db, a).None? && ValidAttempt(a)
    requires a.intentId in db.rows && db.rows[a.intentId].status.Leased? && a.number == db.rows[a.intentId].attemptCount
    ensures forall b, c :: b in db.attempts + {a} && c in db.attempts + {a} ==> PairOk(b, c)
    ensures db.rows[a.intentId].updatedAt <= a.startedAt
  {
    var r := db.rows[a.intentId];
    if a.revision == 2 {
      var s := a.supersedes.value;
      assert AttemptOk(db, s);
    }
    forall b, c | b in db.attempts + {a} && c in db.attempts + {a} ensures PairOk(b, c) {
      if b in db.attempts { assert AttemptOk(db, b); }
      if c in db.attempts { assert AttemptOk(db, c); }
    }
  }

  /** A finalization that changes the tables ran under the live lease of its stored started attempt. */
  lemma FinalizeUnderLease(db: Db, call: Call) returns (t: Attempt, r: Row)
    requires Inv(db) && Finalize(db, call).db != db
    ensures BuildTerminal(call.started, call.finishedAt, call.verdict, call.responseHash) == Ok(t)
    ensures t.intentId in db.rows && r == db.rows[t.intentId] && RowOk(db, t.intentId)
    ensures LiveLease(r, call) && InsertError(db, t).None?
    ensures call.started in db.attempts && AttemptOk(db, call.started) && ValidAttempt(t)
    ensures Finalize(db, call).db ==
      db.(rows := db.rows[t.intentId := Transition(r, t, call.verdict, call.finishedAt)],
          attempts := db.attempts + {t})
    ensures call.verdict.Failure? && call.verdict.retryAt.Some? ==> call.finishedAt <= call.verdict.retryAt.value
  {
    t := BuildTerminal(call.started, call.finishedAt, call.verdict, call.responseHash).value;
    r := db.rows[t.intentId];
    assert AttemptOk(db, call.started);
  }

  lemma TransitionKeepsRow(db: Db, call: Call, t: Attempt, r: Row, db': Db)
    requires r.id == t.intentId && ValidState(r) && LiveLease(r, call) && ValidAttempt(t)
    requires BuildTerminal(call.started, call.finishedAt, call.verdict, call.responseHash) == Ok(t)
    requires r.availableAt <= call.finishedAt && r.attemptCount >= 1
    requires call.verdict.Failure? && call.verdict.retryAt.Some? ==> call.finishedAt <= call.verdict.retryAt.value
    requires t.intentId in db'.rows && t in db'.attempts
    requires db'.rows[t.intentId] == Transition(r, t, call.verdict, call.finishedAt)
    ensures RowOk(db', t.intentId)
  {
  }

  lemma TransitionKeepsPlaces(r: Row, call: Call, t: Attempt, a: Attempt)
    requires r.status.Leased? && LiveLease(r, call) && r.leaseExpiresAt.Some?
    requires BuildTerminal(call.started, call.finishedAt, call.verdict, call.responseHash) == Ok(t)
    requires call.verdict.Failure? && call.verdict.retryAt.Some? ==> call.finishedAt <= call.verdict.retryAt.value
    requires r.updatedAt <= call.finishedAt && 1 <= t.number
    requires a == t || (Placed(r, a) && ValidAttempt(a) && (a.number == r.attemptCount ==> End(a) <= call.finishedAt))
    ensures Placed(Transition(r, t, call.verdict, call.finishedAt), a)
  {
  }

  lemma FinalizeKeepsInv(db: Db, call: Call)
    requires Inv(db)
    ensures Inv(Finalize(db, call).db)
  {
    var db' := Finalize(db, call).db;
    if db' != db {
      var t, r := FinalizeUnderLease(db, call);
      InsertKeepsPairs(db, t);
      TransitionKeepsRow(db, call, t, r, db');
      forall k | k in db'.rows ensures RowOk(db', k) { if k != t.intentId { assert RowOk(db, k); } }
      forall a | a in db'.attempts ensures AttemptOk(db', a) { FinalizeKeepsAttempt(db, call, a); }
    }
  }

  lemma FinalizeKeepsAttempt(db: Db, call: Call, a: Attempt)
    requires Inv(db) && Finalize(db, call).db != db && a in Finalize(db, call).db.attempts
    ensures AttemptOk(Finalize(db, call).db, a)
  {
    var t, r := FinalizeUnderLease(db, call);
    if a != t {
      assert AttemptOk(db, a) && PairOk(a, call.started);
    }
    if a.intentId == t.intentId {
      TransitionKeepsPlaces(r, call, t, a);
    }
  }

  /** Other records may come and go, except the reported outcomes. */
  lemma RecordsKeepInv(db: Db, db': Db)
    requires Inv(db) && db' == db.(records := db'.records)
    requires forall id :: id in db.records && Reported(db.attempts, id) ==>
      id in db'.records && db'.records[id] == db.records[id]
    ensures Inv(db')
  {
    forall a | a in db'.attempts ensures AttemptOk(db', a) { assert AttemptOk(db, a); }
    forall k | k in db'.rows ensures RowOk(db', k) { assert RowOk(db, k); }
  }

  lemma ApplyKeepsInv(db: Db, op: Op)
    requires Inv(db)
    ensures Inv(Apply(db, op))
  {
    match op
    case OpEnqueue(id, identity, availableAt) => EnqueueKeepsInv(db, id, identity, availableAt);
    case OpRecord(id, isOutcome) => RecordsKeepInv(db, SaveRecord(db, id, isOutcome).db);
    case OpDelete(id) => RecordsKeepInv(db, DeleteRecord(db, id).db);
    case OpClaim(worker, now, leaseFor) => ClaimKeepsInv(db, worker, now, leaseFor);
    case OpStart(intent, worker, token, startedAt) => StartKeepsInv(db, intent, worker, token, startedAt);
    case OpFinalize(call) => FinalizeKeepsInv(db, call);
  }

  lemma {:induction false} RunKeepsInv(db: Db, ops: seq<Op>)
    requires Inv(db)
    ensures Inv(Run(db, ops))
    decreases |ops|
  {
    if ops != [] {
      ApplyKeepsInv(db, ops[0]);
      RunKeepsInv(Apply(db, ops[0]), ops[1..]);
    }
  }

  /** The unique index on `last_attempt_id` has no entry for evidence that is not yet stored. */
  lemma LastAttemptIsFree(db: Db, t: Attempt)
    requires Inv(db) && t !in db.attempts
    ensures !LastAttemptTaken(db.rows, t.intentId, t)
  {
    forall other | other in db.rows ensures db.rows[other].lastAttempt != Some(t) {
      assert RowOk(db, other);
    }
  }
}
