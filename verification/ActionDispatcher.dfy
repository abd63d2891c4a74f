/** A worker as an object: the steps of a pass as methods, and the pass (action_dispatcher.py). */
module ActionDispatcher {
  import opened Base
  import opened ActionRecords
  import P = ActionProtocol
  import opened ActionInvariants
  import opened ActionTables
  import opened ActionTheorems
  import opened DispatchProtocol
  import DispatchTheorems

  datatype DispatchResult = NoWork | Dispatched(intentId: nat, started: Attempt, terminal: Attempt, verdict: Verdict)

  datatype PassStep = PassStep(turn: Turn, result: Result<DispatchResult, ActionError>)

  function Answer(id: nat, a: Attempt, r: Result<P.Finalized, ActionError>): Result<DispatchResult, ActionError> {
    match r
    case Err(e) => Err(e)
    case Ok(f) => Ok(Dispatched(id, a, f.attempt, f.verdict))
  }

  /** `dispatch_once` when nobody else acts in between. */
  ghost function Pass(
    c: Config, t: Turn, claimedAt: Instant, finishedAt: Instant, resolution: Resolution, reply: Reply): PassStep
  {
    var claimed := ClaimTurn(c, t, claimedAt);
    if !claimed.phase.Claimed? || claimed.phase.intent.leaseToken.None? then PassStep(claimed.(phase := Idle), Ok(NoWork))
    else
      var intent := claimed.phase.intent;
      var started := StartTurn(c, claimed);
      if !started.phase.Started? then
        PassStep(started, Err(P.Start(claimed.db, intent, c.worker, intent.leaseToken.value, claimedAt).result.error))
      else
        var executed := ExecuteTurn(c, started, resolution, reply);
        var finished := FinishTurn(c, executed, finishedAt);
        PassStep(finished.turn,
                 Answer(intent.id, started.phase.started, finished.result))
  }

  class Dispatcher {
    const database: ActionDatabase
    const config: Config
    var phase: Phase
    /** The adapter calls of this worker, in order. */
    var calls: seq<AdapterCall>

    ghost predicate Valid()
      reads this, database
    {
      database.Valid() && LegalConfig(config)
    }

    ghost function Now(): Turn
      reads this, database
    {
      Turn(database.Tables(), phase, calls)
    }

    constructor (database: ActionDatabase, config: Config)
      requires database.Valid() && LegalConfig(config)
      ensures Valid() && this.database == database && this.config == config && phase.Idle? && calls == []
    {
      this.database, this.config := database, config;
      phase, calls := Idle, [];
    }

    /** Claim the first ready row. */
    method ClaimNext(claimedAt: Instant)
      requires Valid() && phase.Idle?
      modifies this`phase, database
      ensures Valid() && Now() == ClaimTurn(config, old(Now()), claimedAt)
      ensures phase.Idle? <==> forall id :: id in old(database.rows) ==> !P.Ready(old(database.rows)[id], claimedAt)
    {
      ghost var before := database.Tables();
      ghost var next := P.NextReady(before.rows, claimedAt);
      if next.Some? {
        assert RowOk(before, next.value);
      } else if id :| id in before.rows && P.Ready(before.rows[id], claimedAt) {
        SomeReadySomeNext(before, claimedAt, id);
      }
      var claim := database.Claim(config.worker, claimedAt, config.leaseFor);
      if claim.Ok? && claim.value.Some? {
        phase := Claimed(claim.value.value, claimedAt);
      }
    }

    /** Store the evidence that the claimed attempt has started, whatever happened since the claim. */
    method RecordStart() returns (r: Result<Attempt, ActionError>)
      requires Valid() && phase.Claimed? && phase.intent.leaseToken.Some?
      modifies this`phase, database
      ensures Valid() && Now() == StartTurn(config, old(Now()))
      ensures r == P.Start(old(database.Tables()), old(phase.intent), config.worker, old(phase.intent).leaseToken.value,
                           old(phase.claimedAt)).result
    {
      var intent := phase.intent;
      r := database.Start(intent, config.worker, intent.leaseToken.value, phase.claimedAt);
      phase := if r.Ok? then Phase.Started(intent, r.value) else Idle;
    }

    /** Classify the attempt, calling the adapter only past the fail-closed checks. */
    method ExecuteAdapter(resolution: Resolution, reply: Reply)
      requires Valid() && phase.Started? && LegalEnvironment(resolution, reply)
      modifies this`phase, this`calls
      ensures Valid() && Now() == ExecuteTurn(config, old(Now()), resolution, reply)
      ensures phase.Executed? && LegalResult(phase.result)
    {
      var (intent, a) := (phase.intent, phase.started);
      if Reaches(config, intent, resolution) {
        calls := calls + [AdapterCall(a, a in database.attempts)];
      }
      phase := Executed(intent, a, ResultOf(config, intent, resolution, reply));
    }

    /**
     * Report the classified result, whatever happened to the row since. Fresh evidence is written
     * exactly when the lease is still live and the outcome is stored; a refusal changes no table.
     */
    method Finish(finishedAt: Instant) returns (r: Result<P.Finalized, ActionError>)
      requires Valid() && phase.Executed? && phase.intent.leaseToken.Some?
      modifies this`phase, database
      ensures Valid() && FinishStep(Now(), r) == FinishTurn(config, old(Now()), finishedAt)
      ensures (r.Ok? && !r.value.alreadyFinalized)
        <==> CanFinalize(old(database.Tables()), CallOf(config, old(phase), finishedAt))
      ensures r.Err? ==> database.Tables() == old(database.Tables())
    {
      var call := CallOf(config, phase, finishedAt);
      FreshFinalization(database.Tables(), call);
      r := database.Finalize(call);
      phase := Idle;
    }

    /** One pass without a step of anybody else in between. */
    method DispatchOnce(claimedAt: Instant, finishedAt: Instant, resolution: Resolution, reply: Reply)
      returns (r: Result<DispatchResult, ActionError>)
      requires Valid() && phase.Idle? && LegalEnvironment(resolution, reply)
      modifies this`phase, this`calls, database
      ensures Valid() && PassStep(Now(), r) == Pass(config, old(Now()), claimedAt, finishedAt, resolution, reply)
    {
      ghost var before := database.Tables();
      ClaimNext(claimedAt);
      if phase.Idle? {
        return Ok(NoWork);
      }
      ClaimHasToken(before, config, claimedAt);
      var intent := phase.intent;
      var started := RecordStart();
      if started.Err? {
        return Err(started.error);
      }
      ExecuteAdapter(resolution, reply);
      var finalized := Finish(finishedAt);
      r := Answer(intent.id, started.value, finalized);
    }
  }

  lemma ClaimHasToken(db: P.Db, c: Config, at: Instant)
    requires Inv(db) && P.Claim(db, c.worker, at, c.leaseFor).result.Ok?
    ensures
      var claimed := P.Claim(db, c.worker, at, c.leaseFor).result.value;
      claimed.Some? ==> claimed.value.leaseToken.Some?
  {
  }

  /** What an undisturbed pass comes to on a ready row. */
  ghost predicate PassReports(c: Config, db: P.Db, calls: seq<AdapterCall>, s: PassStep, claimedAt: Instant, finishedAt: Instant,
                              resolution: Resolution, reply: Reply)
  {
    var id := P.NextReady(db.rows, claimedAt);
    && id.Some? && id.value in db.rows && id.value in s.turn.db.rows && s.turn.phase.Idle?
    && var (before, row) := (db.rows[id.value], s.turn.db.rows[id.value]);
       var t := ResultOf(c, before, resolution, reply);
       && s.turn.db.rows == db.rows[id.value := row]
       && row.attemptCount == before.attemptCount + 1
       && (exists a :: a in s.turn.db.attempts && a !in db.attempts
             && a.revision == 1 && a.intentId == id.value && a.number == row.attemptCount
             && s.turn.calls == if Reaches(c, before, resolution) then calls + [AdapterCall(a, true)] else calls)
       && (s.result.Ok? <==>
             && claimedAt <= finishedAt < claimedAt + c.leaseFor
             && (t.ToolSucceeded? ==> t.outcome in db.records && db.records[t.outcome]))
       && (s.result.Err? ==> row.status.Leased? && row.leaseExpiresAt == Some(claimedAt + c.leaseFor))
       && (s.result.Ok? ==>
             && s.result.value.Dispatched? && s.result.value.intentId == id.value
             && s.result.value.verdict == VerdictOf(t, finishedAt, c.defaultRetryAfter)
             && DispatchTheorems.Reported(before.(attemptCount := row.attemptCount), row, s.result.value.terminal,
                                          s.result.value.verdict))
  }

  /**
   * An undisturbed pass reports no work exactly when no row is ready. Otherwise it leases the first
   * ready row and stores its started attempt before any adapter runs; it ends with a verdict exactly
   * when the finish lies inside the lease and a reported outcome is a stored Outcome. A refused
   * report leaves the row leased, to be claimed again once the lease has expired.
   */
  lemma UndisturbedPass(
    c: Config, t: Turn, claimedAt: Instant, finishedAt: Instant, resolution: Resolution, reply: Reply)
    requires Inv(t.db) && t.phase.Idle? && LegalConfig(c) && LegalEnvironment(resolution, reply)
    ensures
      var s := Pass(c, t, claimedAt, finishedAt, resolution, reply);
      if forall id :: id in t.db.rows ==> !P.Ready(t.db.rows[id], claimedAt)
      then s == PassStep(t, Ok(NoWork))
      else s.result != Ok(NoWork) && PassReports(c, t.db, t.calls, s, claimedAt, finishedAt, resolution, reply)
  {
    if id :| id in t.db.rows && P.Ready(t.db.rows[id], claimedAt) {
      SomeReadySomeNext(t.db, claimedAt, id);
      ReadyPass(c, t, claimedAt, finishedAt, resolution, reply);
    }
  }

  lemma ReadyPass(
    c: Config, t: Turn, claimedAt: Instant, finishedAt: Instant, resolution: Resolution, reply: Reply)
    requires Inv(t.db) && LegalConfig(c) && LegalEnvironment(resolution, reply)
    requires P.NextReady(t.db.rows, claimedAt).Some?
    ensures
      var s := Pass(c, t, claimedAt, finishedAt, resolution, reply);
      s.result != Ok(NoWork) && PassReports(c, t.db, t.calls, s, claimedAt, finishedAt, resolution, reply)
  {
    var intent, a, db := ClaimedAndStarted(c, t, claimedAt);
    OwnFinish(c, db, Executed(intent, a, ResultOf(c, intent, resolution, reply)), finishedAt);
    var s := Pass(c, t, claimedAt, finishedAt, resolution, reply);
    assert a in s.turn.db.attempts;
  }

  /** Right after its claim, a worker records a new started attempt. */
  lemma ClaimedAndStarted(c: Config, t: Turn, at: Instant) returns (intent: Row, a: Attempt, db: P.Db)
    requires Inv(t.db) && LegalConfig(c) && P.NextReady(t.db.rows, at).Some?
    ensures intent.id in t.db.rows && P.NextReady(t.db.rows, at) == Some(intent.id)
    ensures intent == P.LeasedRow(t.db.rows[intent.id], c.worker, t.db.nextToken, at, c.leaseFor)
    ensures ClaimTurn(c, t, at).phase == Claimed(intent, at)
    ensures StartTurn(c, ClaimTurn(c, t, at)) == Turn(db, Phase.Started(intent, a), t.calls) && Inv(db)
    ensures a !in t.db.attempts && a.revision == 1 && a.startedAt == at && P.MatchesLease(intent, a)
    ensures a.intentId == intent.id
    ensures db.rows == t.db.rows[intent.id := intent] && db.attempts == t.db.attempts + {a} && db.records == t.db.records
  {
    var claimed := ClaimTurn(c, t, at);
    ClaimKeepsInv(t.db, c.worker, at, c.leaseFor);
    assert RowOk(t.db, P.NextReady(t.db.rows, at).value);
    intent := claimed.phase.intent;
    StartKeepsInv(claimed.db, intent, c.worker, intent.leaseToken.value, at);
    a := BuildStarted(intent, c.worker, intent.leaseToken.value, at).value;
    forall b | b in t.db.attempts ensures !(b.intentId == a.intentId && b.number == a.number) {
      assert AttemptOk(t.db, b);
    }
    assert P.InsertError(claimed.db, a).None?;
    db := StartTurn(c, claimed).db;
  }

  /** While its row is as it left it, a worker's report is fresh exactly inside the lease. */
  lemma OwnFinish(c: Config, db: P.Db, phase: Phase, at: Instant)
    requires Inv(db) && LegalConfig(c) && phase.Executed? && LegalResult(phase.result)
    requires phase.intent.id in db.rows && db.rows[phase.intent.id] == phase.intent
    requires phase.started in db.attempts && phase.started.revision == 1 && phase.started.intentId == phase.intent.id
    requires P.MatchesLease(phase.intent, phase.started)
    ensures
      var (s, id) := (P.Finalize(db, CallOf(c, phase, at)), phase.intent.id);
      && (s.result.Ok? <==>
            && phase.started.startedAt <= at < phase.intent.leaseExpiresAt.value
            && (phase.result.ToolSucceeded? ==> phase.result.outcome in db.records && db.records[phase.result.outcome]))
      && (s.result.Err? ==> s.db == db)
      && (s.result.Ok? ==>
            && s.result.value.verdict == VerdictOf(phase.result, at, c.defaultRetryAfter)
            && id in s.db.rows && s.db.rows == db.rows[id := s.db.rows[id]] && db.attempts <= s.db.attempts
            && DispatchTheorems.Reported(phase.intent, s.db.rows[id], s.result.value.attempt, s.result.value.verdict))
  {
    var call := CallOf(c, phase, at);
    FreshFinalization(db, call);
    assert CanFinalize(db, call) ==> P.Finalize(db, call).result.Ok?;
    assert RowOk(db, phase.intent.id);
  }
}
