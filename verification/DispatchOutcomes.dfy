/** Which reply of a resolver or an adapter completes, reschedules or fails an intent. */
module DispatchOutcomes {
  import opened Base
  import opened ActionRecords
  import P = ActionProtocol
  import Q = QueueTheorems
  import opened DispatchProtocol
  import opened DispatchTheorems

  // ------------------------------------------------------ the execution behind

  lemma {:induction false} RunSnoc(w: World, ops: seq<Op>, op: Op, team: Team)
    ensures Run(w, ops + [op], team) == Apply(Run(w, ops, team), op, team)
    decreases |ops|
  {
    if ops == [] {
      assert ops + [op] == [op] && [op][1..] == [];
    } else {
      RunSnoc(Apply(w, ops[0], team), ops[1..], op, team);
      assert (ops + [op])[1..] == ops[1..] + [op];
    }
  }

  /** Step `i` of the run is the execution whose result worker `k` now holds. */
  ghost predicate ExecutedBy(ops: seq<Op>, team: Team, k: nat, i: nat) {
    && i < |ops| && ops[i].OpExecute? && ops[i].k == k && LegalEnvironment(ops[i].resolution, ops[i].reply)
    && var p := PhaseOf(Run(EMPTY_WORLD, ops[..i], team), k);
       p.Started? && PhaseOf(Run(EMPTY_WORLD, ops, team), k)
         == Executed(p.intent, p.started, ResultOf(team(k), p.intent, ops[i].resolution, ops[i].reply))
  }

  /** A worker that holds a result has executed, and nothing has happened to its pass since. */
  lemma {:induction false} SomeExecution(ops: seq<Op>, team: Team, k: nat) returns (i: nat)
    requires PhaseOf(Run(EMPTY_WORLD, ops, team), k).Executed?
    ensures ExecutedBy(ops, team, k, i)
    decreases |ops|
  {
    if ops == [] {
      assert false;
    } else {
      var (front, last) := (ops[..|ops| - 1], ops[|ops| - 1]);
      assert ops == front + [last];
      RunSnoc(EMPTY_WORLD, front, last, team);
      var w := Run(EMPTY_WORLD, front, team);
      if last.OpExecute? && last.k == k && PhaseOf(w, k).Started? && LegalEnvironment(last.resolution, last.reply) {
        i := |front|;
      } else {
        SamePhase(w, last, team, k);
        i := SomeExecution(front, team, k);
        assert ops[..i] == front[..i] && ops[i] == front[i];
      }
    }
  }

  lemma SamePhase(w: World, op: Op, team: Team, k: nat)
    requires PhaseOf(Apply(w, op, team), k).Executed?
    requires !(op.OpExecute? && op.k == k && PhaseOf(w, k).Started? && LegalEnvironment(op.resolution, op.reply))
    ensures PhaseOf(Apply(w, op, team), k) == PhaseOf(w, k)
  {
  }

  // ------------------------------------------------------- what a reply means

  /** The intent is closed with this error. */
  predicate FailsWith(row: Row, t: Attempt, error: string) {
    && row.status.FailedForGood? && row.lastErrorCode == Some(error)
    && t.status.Failed? && t.errorCode == Some(error)
  }

  /** The intent is back in the queue with this error, from this time on. */
  predicate RetriesAt(row: Row, t: Attempt, error: string, time: Instant) {
    && row.status.Pending? && row.lastErrorCode == Some(error) && row.availableAt == time
    && t.status.Failed? && t.errorCode == Some(error)
  }

  predicate CompletesWith(row: Row, t: Attempt, outcome: string) {
    && row.status.Completed? && row.outcomeId == Some(outcome)
    && t.status.Succeeded? && t.outcomeId == Some(outcome)
  }

  /** An error raised by the resolver or the adapter; `other` names one that is of neither tool class. */
  predicate RaisedMeans(row: Row, t: Attempt, e: Raised, other: string, at: Instant, pause: int) {
    && t.responseHash.None?
    && match e
       case PermanentError(code) => FailsWith(row, t, code)
       case RetryableError(code, Some(delay)) => RetriesAt(row, t, code, at + delay)
       case RetryableError(code, None) => RetriesAt(row, t, code, at + pause)
       case AnyOtherException => RetriesAt(row, t, other, at + pause)
  }

  predicate ReturnedMeans(row: Row, t: Attempt, result: ToolResult, at: Instant, pause: int) {
    match result
    case ToolSucceeded(outcome, hash) => CompletesWith(row, t, outcome) && t.responseHash == hash
    case PermanentFailure(error, hash) => FailsWith(row, t, error) && t.responseHash == hash
    case RetryableFailure(error, Some(delay), hash) => RetriesAt(row, t, error, at + delay) && t.responseHash == hash
    case RetryableFailure(error, None, hash) => RetriesAt(row, t, error, at + pause) && t.responseHash == hash
  }

  /** The tool is known, and the resolved input has the captured hash and conforms. */
  predicate InputAccepted(c: Config, intent: Row, resolution: Resolution) {
    && intent.identity.dispatch.tool in c.adapters && resolution.Resolved?
    && resolution.inputHash == intent.identity.dispatch.inputHash && resolution.conforms
  }

  /** The row and the terminal attempt after a report at `at`, from what resolver and adapter answered. */
  predicate ReplyMeans(c: Config, intent: Row, resolution: Resolution, reply: Reply, at: Instant, row: Row, t: Attempt) {
    var pause := c.defaultRetryAfter;
    && (intent.identity.dispatch.tool !in c.adapters ==> FailsWith(row, t, "unknown_tool") && t.responseHash.None?)
    && (intent.identity.dispatch.tool in c.adapters ==>
          && (resolution.ResolverRaised? ==>
                RaisedMeans(row, t, resolution.raised, "input_resolver_exception", at, pause))
          && (resolution.Resolved? && resolution.inputHash != intent.identity.dispatch.inputHash ==>
                FailsWith(row, t, "input_hash_mismatch") && t.responseHash.None?)
          && (resolution.Resolved? && resolution.inputHash == intent.identity.dispatch.inputHash && !resolution.conforms ==>
                FailsWith(row, t, "input_validation_failed") && t.responseHash.None?))
    && (InputAccepted(c, intent, resolution) ==>
          match reply
          case Returned(result) => ReturnedMeans(row, t, result, at, pause)
          case NotAToolResult => FailsWith(row, t, "invalid_adapter_result") && t.responseHash.None?
          case AdapterRaised(e) => RaisedMeans(row, t, e, "adapter_exception", at, pause))
  }

  /**
   * In every reachable world, a worker that reports leaves its row and the terminal record as the
   * answers of resolver and adapter demand: unknown tools, wrong or malformed input, permanent
   * errors and malformed results close the intent; retryable ones put it back after their own delay
   * or the default; any other exception after the default; a returned outcome completes it.
   */
  lemma ReportFollowsReply(ops: seq<Op>, team: Team, k: nat, at: Instant) returns (i: nat)
    requires LegalConfig(team(k)) && PhaseOf(Run(EMPTY_WORLD, ops, team), k).Executed?
    ensures ExecutedBy(ops, team, k, i)
    ensures
      var w := Run(EMPTY_WORLD, ops, team);
      var intent := PhaseOf(w, k).intent;
      && intent.leaseToken.Some?
      && var s := FinishTurn(team(k), TurnOf(w, k), at);
         s.result.Ok? ==>
           && intent.id in s.turn.db.rows
           && var (row, t) := (s.turn.db.rows[intent.id], s.result.value.attempt);
              && row.lastAttempt == Some(t) && t in s.turn.db.attempts
              && row.leaseOwner.None? && row.attemptCount == intent.attemptCount
              && ReplyMeans(team(k), intent, ops[i].resolution, ops[i].reply, at, row, t)
  {
    i := SomeExecution(ops, team, k);
    Reachable(ops, team);
    var w := Run(EMPTY_WORLD, ops, team);
    var p := PhaseOf(w, k);
    assert WorkerOk(w, k, team(k));
    var (call, s) := (CallOf(team(k), p, at), FinishTurn(team(k), TurnOf(w, k), at));
    if s.result.Ok? {
      NotReplayed(w, k, team, at);
      FinalizedByFields(w.db, call);
      VerdictMeans(team(k), p.intent, ops[i].resolution, ops[i].reply, call, s.turn.db.rows[p.intent.id], s.result.value.attempt);
    }
  }

  lemma FinalizedByFields(db: P.Db, call: P.Call)
    requires P.Finalize(db, call).result.Ok? && !P.Finalize(db, call).result.value.alreadyFinalized
    ensures
      var s := P.Finalize(db, call);
      var (id, t) := (call.started.intentId, s.result.value.attempt);
      && id in db.rows && id in s.db.rows && t in s.db.attempts
      && Q.EndedBy(t, call) && Q.FreedFrom(db.rows[id], s.db.rows[id], t, call)
  {
  }

  /** What the finalizer is called with, and what it leaves, per answer. */
  lemma VerdictMeans(c: Config, intent: Row, resolution: Resolution, reply: Reply, call: P.Call, row: Row, t: Attempt)
    requires call.verdict == VerdictOf(ResultOf(c, intent, resolution, reply), call.finishedAt, c.defaultRetryAfter)
    requires call.responseHash == ResultOf(c, intent, resolution, reply).responseHash
    requires Q.EndedBy(t, call) && exists before :: Q.FreedFrom(before, row, t, call)
    ensures ReplyMeans(c, intent, resolution, reply, call.finishedAt, row, t)
  {
  }

  /**
   * An execution calls the adapter, under the worker's stored attempt, exactly when the tool is
   * known and the resolved input has the captured hash and conforms.
   */
  lemma CallsAdapterExactlyWhen(ops: seq<Op>, team: Team, k: nat, resolution: Resolution, reply: Reply)
    requires PhaseOf(Run(EMPTY_WORLD, ops, team), k).Started? && LegalEnvironment(resolution, reply)
    ensures
      var w := Run(EMPTY_WORLD, ops, team);
      var (p, w') := (PhaseOf(w, k), Apply(w, OpExecute(k, resolution, reply), team));
      && PhaseOf(w', k).Executed? && PhaseOf(w', k).intent == p.intent && PhaseOf(w', k).started == p.started
      && w'.db == w.db
      && w'.calls == if InputAccepted(team(k), p.intent, resolution) then w.calls + [AdapterCall(p.started, true)] else w.calls
  {
    Reachable(ops, team);
    assert WorkerOk(Run(EMPTY_WORLD, ops, team), k, team(k));
  }
}
