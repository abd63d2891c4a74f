/** What holds for a team of workers whose claims, starts, executions and finishes interleave. */
module DispatchTheorems {
  import opened Base
  import opened ActionRecords
  import P = ActionProtocol
  import AI = ActionInvariants
  import AT = ActionTheorems
  import opened DispatchProtocol

  // -------------------------------------------------------------- invariants

  /**
   * A worker inside a pass holds a claim on its row. As long as nobody has claimed the row again,
   * the row is exactly as the claim left it.
   */
  ghost predicate ClaimOk(w: World, k: nat) {
    var p := PhaseOf(w, k);
    !p.Idle? ==>
      && p.intent.id in w.db.rows && 1 <= p.intent.attemptCount <= w.db.rows[p.intent.id].attemptCount
      && (p.intent.attemptCount == w.db.rows[p.intent.id].attemptCount ==> w.db.rows[p.intent.id] == p.intent)
      && p.intent.status.Leased? && p.intent.leaseToken.Some? && p.intent.leaseExpiresAt.Some?
  }

  /** A claimed intent was claimed by this worker's configuration, and has no attempt yet. */
  ghost predicate ClaimedOk(w: World, k: nat, c: Config) {
    var p := PhaseOf(w, k);
    p.Claimed? ==>
      && p.intent.leaseOwner == Some(c.worker) && p.intent.updatedAt == p.claimedAt
      && p.intent.leaseExpiresAt == Some(p.claimedAt + c.leaseFor)
      && forall a :: a in w.db.attempts && a.intentId == p.intent.id ==> a.number != p.intent.attemptCount
  }

  /** Past its start, a worker holds the stored started attempt of its claim. */
  ghost predicate StartedOk(w: World, k: nat) {
    var p := PhaseOf(w, k);
    (p.Started? || p.Executed? ==>
       && p.started in w.db.attempts && p.started.revision == 1 && p.started.intentId == p.intent.id
       && P.MatchesLease(p.intent, p.started))
    && (p.Executed? ==> LegalResult(p.result))
  }

  /** Two workers never hold the same attempt of an intent. */
  ghost predicate ApartOk(w: World, k: nat, l: nat) {
    var (p, q) := (PhaseOf(w, k), PhaseOf(w, l));
    k != l && !p.Idle? && !q.Idle? ==> (p.intent.id, p.intent.attemptCount) != (q.intent.id, q.intent.attemptCount)
  }

  /** Before its execution, a worker's attempt has reached no adapter. */
  ghost predicate FreshOk(w: World, k: nat) {
    var p := PhaseOf(w, k);
    p.Claimed? || p.Started? ==>
      forall i :: 0 <= i < |w.calls| ==>
        (w.calls[i].started.intentId, w.calls[i].started.number) != (p.intent.id, p.intent.attemptCount)
  }

  /** Every adapter call ran under a started attempt that was stored then, and still is. */
  ghost predicate CallOk(w: World, i: nat)
    requires i < |w.calls|
  {
    w.calls[i].stored && w.calls[i].started in w.db.attempts && w.calls[i].started.revision == 1
  }

  ghost predicate DistinctCalls(calls: seq<AdapterCall>) {
    forall i, j :: 0 <= i < j < |calls| ==>
      (calls[i].started.intentId, calls[i].started.number) != (calls[j].started.intentId, calls[j].started.number)
  }

  ghost predicate WorkerOk(w: World, k: nat, c: Config) {
    ClaimOk(w, k) && ClaimedOk(w, k, c) && StartedOk(w, k) && FreshOk(w, k)
  }

  ghost predicate Inv(w: World, team: Team) {
    && AI.Inv(w.db)
    && (forall k {:trigger WorkerOk(w, k, team(k))} :: WorkerOk(w, k, team(k)))
    && (forall k, l {:trigger ApartOk(w, k, l)} :: ApartOk(w, k, l))
    && (forall i {:trigger CallOk(w, i)} :: 0 <= i < |w.calls| ==> CallOk(w, i))
    && DistinctCalls(w.calls)
  }

  // ------------------------------------------------------------- steps keep it

  lemma ClientKeepsInv(w: World, op: P.Op, team: Team)
    requires Inv(w, team) && IsClientOp(op)
    ensures Inv(w.(db := P.Apply(w.db, op)), team)
  {
    var w' := w.(db := P.Apply(w.db, op));
    AI.ApplyKeepsInv(w.db, op);
    ClientLeavesRows(w.db, op);
    forall k ensures WorkerOk(w', k, team(k)) { assert WorkerOk(w, k, team(k)); }
    forall k, l ensures ApartOk(w', k, l) { assert ApartOk(w, k, l); }
    forall i | 0 <= i < |w'.calls| ensures CallOk(w', i) { assert CallOk(w, i); }
  }

  lemma ClientLeavesRows(db: P.Db, op: P.Op)
    requires IsClientOp(op)
    ensures P.Apply(db, op).attempts == db.attempts
    ensures forall id :: id in db.rows ==> id in P.Apply(db, op).rows && P.Apply(db, op).rows[id] == db.rows[id]
  {
    if op.OpEnqueue? && op.id in db.rows { assert P.Owns(db.rows, op.id, op.identity, op.id); }
  }

  /** A claim hands out an attempt that nobody has held before. */
  lemma ClaimKeepsInv(w: World, k: nat, at: Instant, team: Team)
    requires Inv(w, team) && PhaseOf(w, k).Idle?
    ensures Inv(AfterTurn(w, k, ClaimTurn(team(k), TurnOf(w, k), at)), team)
  {
    var w' := AfterTurn(w, k, ClaimTurn(team(k), TurnOf(w, k), at));
    AI.ClaimKeepsInv(w.db, team(k).worker, at, team(k).leaseFor);
    forall l ensures WorkerOk(w', l, team(l)) { ClaimKeepsWorker(w, k, at, team, l); }
    forall l, m ensures ApartOk(w', l, m) { ClaimKeepsApart(w, k, at, team, l, m); }
    ClaimKeepsAttempts(w.db, team(k), at);
    forall i | 0 <= i < |w'.calls| ensures CallOk(w', i) { assert CallOk(w, i); }
  }

  lemma ClaimKeepsAttempts(db: P.Db, c: Config, at: Instant)
    ensures P.Claim(db, c.worker, at, c.leaseFor).db.attempts == db.attempts
  {
  }

  lemma ClaimKeepsWorker(w: World, k: nat, at: Instant, team: Team, l: nat)
    requires Inv(w, team) && PhaseOf(w, k).Idle?
    ensures WorkerOk(AfterTurn(w, k, ClaimTurn(team(k), TurnOf(w, k), at)), l, team(l))
  {
    var db' := P.Claim(w.db, team(k).worker, at, team(k).leaseFor).db;
    assert WorkerOk(w, l, team(l));
    if db' != w.db {
      ClaimedRow(w.db, team(k), at, db');
      if l == k { NewClaimIsFresh(w, k, at, team); }
    }
  }

  lemma ClaimKeepsApart(w: World, k: nat, at: Instant, team: Team, l: nat, m: nat)
    requires Inv(w, team) && PhaseOf(w, k).Idle?
    ensures ApartOk(AfterTurn(w, k, ClaimTurn(team(k), TurnOf(w, k), at)), l, m)
  {
    var db' := P.Claim(w.db, team(k).worker, at, team(k).leaseFor).db;
    if db' != w.db {
      ClaimedRow(w.db, team(k), at, db');
    }
    assert ApartOk(w, l, m) && WorkerOk(w, l, team(l)) && WorkerOk(w, m, team(m));
  }

  lemma ClaimedRow(db: P.Db, c: Config, at: Instant, db': P.Db)
    requires AI.Inv(db) && P.Claim(db, c.worker, at, c.leaseFor).db == db' && db' != db
    ensures
      var r := P.Claim(db, c.worker, at, c.leaseFor).result;
      && r.Ok? && r.value.Some?
      && var intent := r.value.value;
         && intent.id in db.rows && intent == P.LeasedRow(db.rows[intent.id], c.worker, db.nextToken, at, c.leaseFor)
         && db'.rows == db.rows[intent.id := intent] && db'.attempts == db.attempts
  {
    assert AI.RowOk(db, P.NextReady(db.rows, at).value);
  }

  lemma NewClaimIsFresh(w: World, k: nat, at: Instant, team: Team)
    requires Inv(w, team) && PhaseOf(w, k).Idle?
    requires P.Claim(w.db, team(k).worker, at, team(k).leaseFor).db != w.db
    ensures WorkerOk(AfterTurn(w, k, ClaimTurn(team(k), TurnOf(w, k), at)), k, team(k))
  {
    var w' := AfterTurn(w, k, ClaimTurn(team(k), TurnOf(w, k), at));
    ClaimedRow(w.db, team(k), at, w'.db);
    var intent := w'.phases[k].intent;
    forall a | a in w.db.attempts && a.intentId == intent.id ensures a.number < intent.attemptCount {
      assert AI.AttemptOk(w.db, a);
    }
    forall i | 0 <= i < |w.calls|
      ensures (w.calls[i].started.intentId, w.calls[i].started.number) != (intent.id, intent.attemptCount)
    {
      assert CallOk(w, i);
    }
  }

  lemma StartKeepsInv(w: World, k: nat, team: Team)
    requires Inv(w, team) && PhaseOf(w, k).Claimed?
    ensures Inv(AfterTurn(w, k, StartTurn(team(k), TurnOf(w, k))), team)
  {
    var p := PhaseOf(w, k);
    var w' := AfterTurn(w, k, StartTurn(team(k), TurnOf(w, k)));
    assert WorkerOk(w, k, team(k));
    AI.StartKeepsInv(w.db, p.intent, team(k).worker, p.intent.leaseToken.value, p.claimedAt);
    forall l ensures WorkerOk(w', l, team(l)) {
      assert WorkerOk(w, l, team(l)) && ApartOk(w, k, l);
    }
    forall l, m ensures ApartOk(w', l, m) { assert ApartOk(w, l, m); }
    forall i | 0 <= i < |w'.calls| ensures CallOk(w', i) { assert CallOk(w, i); }
  }

  lemma ExecuteKeepsInv(w: World, k: nat, resolution: Resolution, reply: Reply, team: Team)
    requires Inv(w, team) && PhaseOf(w, k).Started? && LegalEnvironment(resolution, reply)
    ensures Inv(AfterTurn(w, k, ExecuteTurn(team(k), TurnOf(w, k), resolution, reply)), team)
  {
    var w' := AfterTurn(w, k, ExecuteTurn(team(k), TurnOf(w, k), resolution, reply));
    assert WorkerOk(w, k, team(k));
    forall l ensures WorkerOk(w', l, team(l)) {
      assert WorkerOk(w, l, team(l)) && ApartOk(w, k, l);
    }
    forall l, m ensures ApartOk(w', l, m) { assert ApartOk(w, l, m); }
    forall i | 0 <= i < |w'.calls| ensures CallOk(w', i) { if i < |w.calls| { assert CallOk(w, i); } }
  }

  lemma FinishKeepsInv(w: World, k: nat, at: Instant, team: Team)
    requires Inv(w, team) && PhaseOf(w, k).Executed? && PhaseOf(w, k).intent.leaseToken.Some?
    ensures Inv(AfterTurn(w, k, FinishTurn(team(k), TurnOf(w, k), at).turn), team)
  {
    var w' := AfterTurn(w, k, FinishTurn(team(k), TurnOf(w, k), at).turn);
    var call := CallOf(team(k), PhaseOf(w, k), at);
    AI.FinalizeKeepsInv(w.db, call);
    FinalizeLeavesOthers(w.db, call);
    assert WorkerOk(w, k, team(k));
    forall l ensures WorkerOk(w', l, team(l)) {
      assert WorkerOk(w, l, team(l)) && ApartOk(w, k, l);
    }
    forall l, m ensures ApartOk(w', l, m) { assert ApartOk(w, l, m); }
    forall i | 0 <= i < |w'.calls| ensures CallOk(w', i) { assert CallOk(w, i); }
  }

  /** A finalization touches only the row of its attempt, at that attempt's number. */
  lemma FinalizeLeavesOthers(db: P.Db, call: P.Call)
    requires AI.Inv(db)
    ensures
      var db' := P.Finalize(db, call).db;
      && db'.rows.Keys == db.rows.Keys && db.attempts <= db'.attempts
      && (forall a :: a in db'.attempts && a !in db.attempts ==>
            a.intentId == call.started.intentId && a.number == call.started.number)
      && (forall id :: id in db.rows ==>
            && db'.rows[id].attemptCount == db.rows[id].attemptCount
            && (db'.rows[id] != db.rows[id] ==>
                  id == call.started.intentId && db.rows[id].attemptCount == call.started.number))
  {
    if P.Finalize(db, call).db != db {
      var t, r := AI.FinalizeUnderLease(db, call);
    }
  }

  lemma ApplyKeepsInv(w: World, op: Op, team: Team)
    requires Inv(w, team)
    ensures Inv(Apply(w, op, team), team)
  {
    match op
    case OpClaim(k, at) => if PhaseOf(w, k).Idle? { ClaimKeepsInv(w, k, at, team); }
    case OpStart(k) => if PhaseOf(w, k).Claimed? { StartKeepsInv(w, k, team); }
    case OpExecute(k, resolution, reply) =>
      if PhaseOf(w, k).Started? && LegalEnvironment(resolution, reply) {
        ExecuteKeepsInv(w, k, resolution, reply, team);
      }
    case OpFinish(k, at) =>
      if PhaseOf(w, k).Executed? && PhaseOf(w, k).intent.leaseToken.Some? { FinishKeepsInv(w, k, at, team); }
    case OpCrash(k) => CrashKeepsInv(w, k, team);
    case OpClient(op) => if IsClientOp(op) { ClientKeepsInv(w, op, team); }
  }

  lemma CrashKeepsInv(w: World, k: nat, team: Team)
    requires Inv(w, team)
    ensures Inv(w.(phases := w.phases[k := Idle]), team)
  {
    var w' := w.(phases := w.phases[k := Idle]);
    forall l ensures WorkerOk(w', l, team(l)) { assert WorkerOk(w, l, team(l)); }
    forall l, m ensures ApartOk(w', l, m) { assert ApartOk(w, l, m); }
    forall i | 0 <= i < |w'.calls| ensures CallOk(w', i) { assert CallOk(w, i); }
  }

  lemma {:induction false} RunKeepsInv(w: World, ops: seq<Op>, team: Team)
    requires Inv(w, team)
    ensures Inv(Run(w, ops, team), team)
    decreases |ops|
  {
    if ops != [] {
      ApplyKeepsInv(w, ops[0], team);
      RunKeepsInv(Apply(w, ops[0], team), ops[1..], team);
    }
  }

  lemma Reachable(ops: seq<Op>, team: Team)
    ensures Inv(Run(EMPTY_WORLD, ops, team), team)
  {
    forall k ensures WorkerOk(EMPTY_WORLD, k, team(k)) { }
    forall k, l ensures ApartOk(EMPTY_WORLD, k, l) { }
    RunKeepsInv(EMPTY_WORLD, ops, team);
  }

  // ---------------------------------------------------------------- theorems

  /**
   * Over all workers and every interleaving, crashes included: each adapter call runs under a
   * started attempt that is stored before the call, and no attempt of an intent reaches an adapter
   * twice.
   */
  lemma AdaptersRunOncePerStoredAttempt(ops: seq<Op>, team: Team, i: nat)
    requires i < |Run(EMPTY_WORLD, ops, team).calls|
    ensures
      var w := Run(EMPTY_WORLD, ops, team);
      var a := w.calls[i].started;
      && w.calls[i].stored && a in w.db.attempts && a.revision == 1 && a.status.Started?
      && forall j :: 0 <= j < |w.calls| && j != i ==>
           (w.calls[j].started.intentId, w.calls[j].started.number) != (a.intentId, a.number)
  {
    Reachable(ops, team);
    var w := Run(EMPTY_WORLD, ops, team);
    assert CallOk(w, i) && AI.AttemptOk(w.db, w.calls[i].started);
    forall j | 0 <= j < |w.calls| && j != i
      ensures (w.calls[j].started.intentId, w.calls[j].started.number)
        != (w.calls[i].started.intentId, w.calls[i].started.number)
    {
      assert DistinctCalls(w.calls);
    }
  }

  /** Somebody has claimed the row again since this worker claimed it. */
  predicate TakenOver(w: World, k: nat) {
    var p := PhaseOf(w, k);
    !p.Idle? && p.intent.id in w.db.rows && p.intent.attemptCount < w.db.rows[p.intent.id].attemptCount
  }

  /**
   * A worker records its start exactly when nobody has taken its row over since the claim. A
   * refused start changes no table, ends the pass, and no adapter is called.
   */
  lemma StartsExactlyWhen(ops: seq<Op>, team: Team, k: nat)
    requires LegalConfig(team(k)) && PhaseOf(Run(EMPTY_WORLD, ops, team), k).Claimed?
    ensures
      var w := Run(EMPTY_WORLD, ops, team);
      var t := StartTurn(team(k), TurnOf(w, k));
      && (t.phase.Started? <==> !TakenOver(w, k))
      && (t.phase.Started? ==> t.phase.started !in w.db.attempts && t.db == w.db.(attempts := w.db.attempts + {t.phase.started}))
      && (!t.phase.Started? ==> t == TurnOf(w, k).(phase := Idle))
  {
    Reachable(ops, team);
    var w := Run(EMPTY_WORLD, ops, team);
    StartWhileHeld(w, k, team);
  }

  lemma StartWhileHeld(w: World, k: nat, team: Team)
    requires Inv(w, team) && LegalConfig(team(k)) && PhaseOf(w, k).Claimed?
    ensures
      var t := StartTurn(team(k), TurnOf(w, k));
      && (t.phase.Started? <==> !TakenOver(w, k))
      && (t.phase.Started? ==> t.phase.started !in w.db.attempts && t.db == w.db.(attempts := w.db.attempts + {t.phase.started}))
      && (!t.phase.Started? ==> t == TurnOf(w, k).(phase := Idle))
  {
    var p := PhaseOf(w, k);
    assert WorkerOk(w, k, team(k));
    var built := BuildStarted(p.intent, team(k).worker, p.intent.leaseToken.value, p.claimedAt);
    assert built.Ok? && built.value !in w.db.attempts;
    assert !P.IndexClash(w.db.attempts, built.value);
  }

  /** The row after a finish: what the verdict says, and no lease. */
  predicate Reported(before: Row, row: Row, terminal: Attempt, verdict: Verdict) {
    && row.identity == before.identity && row.lastAttempt == Some(terminal)
    && terminal.number == row.attemptCount == before.attemptCount
    && row.leaseToken.None?
    && match verdict
       case Success(outcome) => row.status.Completed? && row.outcomeId == Some(outcome)
       case Failure(error, None) => row.status.FailedForGood? && row.lastErrorCode == Some(error)
       case Failure(error, Some(retryAt)) =>
         row.status.Pending? && row.lastErrorCode == Some(error) && row.availableAt == retryAt
  }

  /** A pass can report: still its turn, a finish inside the lease, and a reported outcome that is stored. */
  predicate CanReport(w: World, k: nat, at: Instant)
    requires PhaseOf(w, k).Executed? && PhaseOf(w, k).intent.leaseExpiresAt.Some?
  {
    var p := PhaseOf(w, k);
    && !TakenOver(w, k)
    && p.started.startedAt <= at < p.intent.leaseExpiresAt.value
    && (p.result.ToolSucceeded? ==> p.result.outcome in w.db.records && w.db.records[p.result.outcome])
  }

  /** What a finish does: report and free the row, or change nothing. */
  ghost predicate FinishedOrRefused(w: World, k: nat, c: Config, at: Instant)
    requires PhaseOf(w, k).Executed? && PhaseOf(w, k).intent.leaseToken.Some?
    requires PhaseOf(w, k).intent.leaseExpiresAt.Some? && PhaseOf(w, k).intent.id in w.db.rows
  {
    var (p, s) := (PhaseOf(w, k), FinishTurn(c, TurnOf(w, k), at));
    && s.turn.phase.Idle? && s.turn.calls == w.calls
    && (s.result.Ok? <==> CanReport(w, k, at))
    && (s.result.Err? ==> s.turn.db == w.db)
    && (s.result.Ok? ==>
          && !s.result.value.alreadyFinalized && p.intent.id in s.turn.db.rows
          && s.turn.db.rows == w.db.rows[p.intent.id := s.turn.db.rows[p.intent.id]]
          && Reported(w.db.rows[p.intent.id], s.turn.db.rows[p.intent.id], s.result.value.attempt,
                      VerdictOf(p.result, at, c.defaultRetryAfter)))
  }

  /**
   * A pass ends with its verdict in the row exactly when nobody has taken the row over, the finish
   * lies inside the lease, and a reported outcome is a stored Outcome. In particular a pass whose
   * lease was taken over ends refused. A refused finish changes no table.
   */
  lemma FinishesExactlyWhen(ops: seq<Op>, team: Team, k: nat, at: Instant)
    requires LegalConfig(team(k)) && PhaseOf(Run(EMPTY_WORLD, ops, team), k).Executed?
    ensures
      var w := Run(EMPTY_WORLD, ops, team);
      var p := PhaseOf(w, k);
      && p.intent.leaseToken.Some? && p.intent.leaseExpiresAt.Some? && p.intent.id in w.db.rows
      && FinishedOrRefused(w, k, team(k), at)
      && (TakenOver(w, k) ==> FinishTurn(team(k), TurnOf(w, k), at).result.Err?
                              && FinishTurn(team(k), TurnOf(w, k), at).turn == TurnOf(w, k).(phase := Idle))
  {
    Reachable(ops, team);
    var w := Run(EMPTY_WORLD, ops, team);
    assert WorkerOk(w, k, team(k));
    FinishWhileHeld(w, k, team, at);
  }

  lemma FinishWhileHeld(w: World, k: nat, team: Team, at: Instant)
    requires Inv(w, team) && LegalConfig(team(k)) && PhaseOf(w, k).Executed?
    requires PhaseOf(w, k).intent.leaseToken.Some?
    requires PhaseOf(w, k).intent.leaseExpiresAt.Some? && PhaseOf(w, k).intent.id in w.db.rows
    ensures FinishedOrRefused(w, k, team(k), at)
  {
    var p := PhaseOf(w, k);
    var call := CallOf(team(k), p, at);
    assert WorkerOk(w, k, team(k));
    AT.FreshFinalization(w.db, call);
    NotReplayed(w, k, team, at);
    assert AT.CanFinalize(w.db, call) <==> CanReport(w, k, at);
  }

  /** Nobody has finalized a held attempt before its holder does. */
  lemma NotReplayed(w: World, k: nat, team: Team, at: Instant)
    requires Inv(w, team) && PhaseOf(w, k).Executed? && PhaseOf(w, k).intent.leaseToken.Some?
    ensures
      var r := P.Finalize(w.db, CallOf(team(k), PhaseOf(w, k), at)).result;
      r.Ok? ==> !r.value.alreadyFinalized
  {
    var p := PhaseOf(w, k);
    var call := CallOf(team(k), p, at);
    assert WorkerOk(w, k, team(k)) && AI.RowOk(w.db, p.intent.id);
  }
}
