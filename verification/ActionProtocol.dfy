/**
 * The tables behind the durable action protocol and the transactions on them, as functions from
 * one committed state to the next (sqlite_action_outbox.py, action_attempt_store.py,
 * action_finalizer.py). A refused transaction is rolled back. Class `ActionDatabase` holds the same
 * tables as mutable fields and is proved against these functions.
 */
module ActionProtocol {
  import opened Base
  import opened ActionRecords

  /** `records` maps the id of every record that is not an attempt to whether it is an Outcome. */
  datatype Db = Db(rows: map<nat, Row>, attempts: set<Attempt>, records: map<string, bool>, nextToken: nat)

  const EMPTY_DB := Db(map[], {}, map[], 0)

  datatype Step<+T> = Step(db: Db, result: Result<T, ActionError>)

  // ---------------------------------------------------------------- enqueue

  /** A fresh pending row, as `build_action_intent` leaves it. */
  function FreshRow(id: nat, identity: Identity, availableAt: Instant): Row {
    Row(id, identity, Pending, 0, availableAt, None, None, None, None, None, None, identity.createdAt)
  }

  predicate Owns(rows: map<nat, Row>, id: nat, identity: Identity, owner: nat) {
    owner in rows && (owner == id || rows[owner].identity.traceId == identity.traceId)
  }

  predicate KeyTaken(rows: map<nat, Row>, key: string) {
    exists other :: other in rows && rows[other].identity.dispatch.key == key
  }

  /** `SQLiteActionOutbox.enqueue` after its trace has been saved. */
  function Enqueue(db: Db, id: nat, identity: Identity, availableAt: Instant): Step<Row> {
    if availableAt < identity.createdAt then Step(db, Err(ValueError))
    else if exists owner | owner in db.rows :: Owns(db.rows, id, identity, owner) then
      if id in db.rows && db.rows[id].identity == identity then Step(db, Ok(db.rows[id]))
      else Step(db, Err(IdempotencyConflict))
    else if KeyTaken(db.rows, identity.dispatch.key) then Step(db, Err(IdempotencyConflict))
    else
      var row := FreshRow(id, identity, availableAt);
      Step(db.(rows := db.rows[id := row]), Ok(row))
  }

  // ------------------------------------------------------------------ claim

  predicate Ready(r: Row, now: Instant) {
    || (r.status.Pending? && r.availableAt <= now)
    || (r.status.Leased? && r.leaseExpiresAt.Some? && r.leaseExpiresAt.value <= now)
  }

  /** `ORDER BY available_at, created_at, id`. */
  predicate Before(a: Row, b: Row) {
    || a.availableAt < b.availableAt
    || (a.availableAt == b.availableAt && a.identity.createdAt < b.identity.createdAt)
    || (a.availableAt == b.availableAt && a.identity.createdAt == b.identity.createdAt && a.id < b.id)
  }

  ghost predicate IsNext(rows: map<nat, Row>, now: Instant, id: nat) {
    && id in rows && Ready(rows[id], now)
    && forall other :: other in rows && other != id && Ready(rows[other], now) ==> Before(rows[id], rows[other])
  }

  ghost function NextReady(rows: map<nat, Row>, now: Instant): (next: Option<nat>)
    ensures next.Some? ==> IsNext(rows, now, next.value)
    ensures next.None? ==> forall id :: !IsNext(rows, now, id)
  {
    if exists id :: IsNext(rows, now, id) then
      var id :| IsNext(rows, now, id);
      Some(id)
    else None
  }

  function LeasedRow(r: Row, worker: string, token: nat, now: Instant, leaseFor: int): Row {
    r.(status := Leased, attemptCount := r.attemptCount + 1, leaseOwner := Some(worker),
       leaseToken := Some(token), leaseExpiresAt := Some(now + leaseFor), updatedAt := now)
  }

  /** `claim`: lease the first ready row, under a fresh token. */
  ghost function Claim(db: Db, worker: string, now: Instant, leaseFor: int): Step<Option<Row>> {
    if worker == "" || leaseFor <= 0 then Step(db, Err(ValueError))
    else match NextReady(db.rows, now)
      case None => Step(db, Ok(None))
      case Some(id) =>
        var leased := LeasedRow(db.rows[id], worker, db.nextToken, now, leaseFor);
        if ValidState(leased) then
          Step(db.(rows := db.rows[id := leased], nextToken := db.nextToken + 1), Ok(Some(leased)))
        else Step(db, Err(ValueError))
  }

  // --------------------------------------------------------------- evidence

  predicate ReferencesExist(db: Db, a: Attempt) {
    && (a.supersedes.Some? ==> a.supersedes.value in db.attempts)
    && (a.outcomeId.Some? ==> a.outcomeId.value in db.records)
  }

  /** The current lease, as a started attempt must find it. */
  predicate MatchesLease(r: Row, a: Attempt) {
    && r.status.Leased? && a.number == r.attemptCount && r.leaseOwner == Some(a.worker)
    && r.leaseToken.Some? && a.tokenHash == TokenHash(r.leaseToken.value)
    && r.updatedAt <= a.startedAt
    && r.leaseExpiresAt.Some? && a.startedAt < r.leaseExpiresAt.value
  }

  /** `_validate_intent_and_progression`: the error it raises, if any. */
  function ProgressionError(db: Db, a: Attempt): Option<ActionError> {
    if a.intentId !in db.rows then Some(MissingReference)
    else if a.dispatch != db.rows[a.intentId].identity.dispatch then Some(ContractError)
    else if a.revision == 1 then
      if MatchesLease(db.rows[a.intentId], a) then None else Some(ContractError)
    else if a.supersedes.None? then Some(MissingReference)
    else
      var previous := a.supersedes.value;
      if previous.revision != 1 || !previous.status.Started? then Some(InvalidProgression)
      else if a.revision != previous.revision + 1 then Some(InvalidProgression)
      else if Context(a) != Context(previous) then Some(InvalidProgression)
      else if a.status.Succeeded? && !(a.outcomeId.Some? && a.outcomeId.value in db.records && db.records[a.outcomeId.value])
      then Some(InvalidProgression)
      else None
  }

  /** The uniqueness constraints of `action_attempt_index`. */
  predicate IndexClash(attempts: set<Attempt>, a: Attempt) {
    exists b | b in attempts ::
      || (b.intentId == a.intentId && b.number == a.number && b.revision == a.revision)
      || (a.supersedes.Some? && b.supersedes == a.supersedes)
  }

  /** The checks shared by `save` and `_save_attempt_with_connection`, for a record not yet stored. */
  function InsertError(db: Db, a: Attempt): Option<ActionError> {
    if !ReferencesExist(db, a) then Some(MissingReference)
    else if ProgressionError(db, a).Some? then ProgressionError(db, a)
    else if IndexClash(db.attempts, a) then Some(DuplicateRecord)
    else None
  }

  /** `SQLiteActionAttemptStore.save`. */
  function SaveAttempt(db: Db, a: Attempt): Step<Attempt> {
    if a in db.attempts then Step(db, Ok(a))
    else match InsertError(db, a)
      case Some(e) => Step(db, Err(e))
      case None => Step(db.(attempts := db.attempts + {a}), Ok(a))
  }

  /** `SQLiteActionAttemptStore.start`, from the intent the worker holds. */
  function Start(db: Db, intent: Row, worker: string, token: nat, startedAt: Instant): Step<Attempt> {
    match BuildStarted(intent, worker, token, startedAt)
    case Err(e) => Step(db, Err(e))
    case Ok(a) => SaveAttempt(db, a)
  }

  // --------------------------------------------------------------- finalize

  /** The arguments of `complete` or `fail`. */
  datatype Call = Call(
    started: Attempt, token: nat, finishedAt: Instant, verdict: Verdict, responseHash: Option<string>)

  datatype Finalized = Finalized(attempt: Attempt, verdict: Verdict, alreadyFinalized: bool)

  /** `_require_live_lease`. */
  predicate LiveLease(r: Row, call: Call) {
    && r.status.Leased?
    && r.leaseToken == Some(call.token) && call.started.tokenHash == TokenHash(call.token)
    && r.leaseOwner == Some(call.started.worker)
    && r.attemptCount == call.started.number
    && r.leaseExpiresAt.Some? && call.finishedAt < r.leaseExpiresAt.value
  }

  /** `_transition_outbox`: the row the UPDATE leaves. */
  function Transition(r: Row, terminal: Attempt, verdict: Verdict, finishedAt: Instant): Row {
    var freed := r.(leaseOwner := None, leaseToken := None, leaseExpiresAt := None,
                    lastAttempt := Some(terminal), updatedAt := finishedAt);
    match verdict
    case Success(outcome) => freed.(status := Completed, outcomeId := Some(outcome))
    case Failure(error, None) => freed.(status := FailedForGood, lastErrorCode := Some(error))
    case Failure(error, Some(retryAt)) =>
      freed.(status := Pending, lastErrorCode := Some(error), availableAt := retryAt)
  }

  /** `_assert_committed_state`: the row is what finalizing with this very call left. */
  predicate AgreesWithCommitted(r: Row, terminal: Attempt, call: Call) {
    && terminal.tokenHash == TokenHash(call.token)
    && r.lastAttempt == Some(terminal)
    && match call.verdict
       case Success(outcome) => r.status.Completed? && r.outcomeId == Some(outcome)
       case Failure(error, None) => r.status.FailedForGood? && r.lastErrorCode == Some(error)
       case Failure(error, Some(retryAt)) =>
         r.status.Pending? && r.lastErrorCode == Some(error) && r.availableAt == retryAt
  }

  /** The unique index on `last_attempt_id`. */
  predicate LastAttemptTaken(rows: map<nat, Row>, id: nat, terminal: Attempt) {
    exists other :: other in rows && other != id && rows[other].lastAttempt == Some(terminal)
  }

  /** `complete` and `fail`: terminal evidence and queue state in one transaction. */
  function Finalize(db: Db, call: Call): Step<Finalized> {
    match BuildTerminal(call.started, call.finishedAt, call.verdict, call.responseHash)
    case Err(e) => Step(db, Err(e))
    case Ok(terminal) =>
      if call.verdict.Failure? && call.verdict.retryAt.Some? && call.verdict.retryAt.value < call.finishedAt
      then Step(db, Err(ValueError))
      else if terminal.intentId !in db.rows then Step(db, Err(MissingReference))
      else
        var row := db.rows[terminal.intentId];
        if terminal in db.attempts then
          if AgreesWithCommitted(row, terminal, call)
          then Step(db, Ok(Finalized(terminal, call.verdict, true)))
          else Step(db, Err(FinalizationConflict))
        else if !LiveLease(row, call) then Step(db, Err(FinalizationConflict))
        else if InsertError(db, terminal).Some? then Step(db, Err(InsertError(db, terminal).value))
        else if LastAttemptTaken(db.rows, terminal.intentId, terminal) then Step(db, Err(IntegrityError))
        else
          var next := Transition(row, terminal, call.verdict, call.finishedAt);
          Step(db.(rows := db.rows[terminal.intentId := next], attempts := db.attempts + {terminal}),
               Ok(Finalized(terminal, call.verdict, false)))
  }

  // ----------------------------------------------------------- other records

  /** The first save of a record that is not an attempt. */
  function SaveRecord(db: Db, id: string, isOutcome: bool): Step<()> {
    if id in db.records then Step(db, Err(DuplicateRecord)) else Step(db.(records := db.records[id := isOutcome]), Ok(()))
  }

  /** An attempt reports the record as its outcome. */
  predicate Reported(attempts: set<Attempt>, id: string) {
    exists a | a in attempts :: a.outcomeId == Some(id)
  }

  /** A row holds the record as its outcome or belongs to it as its trace. */
  predicate HeldByRow(rows: map<nat, Row>, id: string) {
    exists k | k in rows :: rows[k].outcomeId == Some(id) || rows[k].identity.traceId == id
  }

  /** `delete` without `force`: dependants and foreign keys protect what an attempt or a row cites. */
  function DeleteRecord(db: Db, id: string): Step<()> {
    if id !in db.records then Step(db, Err(RecordNotFound))
    else if Reported(db.attempts, id) || HeldByRow(db.rows, id) then Step(db, Err(ReferencedRecord))
    else Step(db.(records := db.records - {id}), Ok(()))
  }

  // ------------------------------------------------------------------- runs

  /**
   * One committed transaction of some worker or client. The arguments are arbitrary: workers keep
   * their own clocks, may hold stale intents and attempts, and may stop at any point.
   */
  datatype Op =
    | OpEnqueue(id: nat, identity: Identity, availableAt: Instant)
    | OpRecord(recordId: string, isOutcome: bool)
    | OpDelete(deletedId: string)
    | OpClaim(worker: string, now: Instant, leaseFor: int)
    | OpStart(intent: Row, starter: string, token: nat, startedAt: Instant)
    | OpFinalize(call: Call)

  ghost function Apply(db: Db, op: Op): Db {
    match op
    case OpEnqueue(id, identity, availableAt) => Enqueue(db, id, identity, availableAt).db
    case OpRecord(id, isOutcome) => SaveRecord(db, id, isOutcome).db
    case OpDelete(id) => DeleteRecord(db, id).db
    case OpClaim(worker, now, leaseFor) => Claim(db, worker, now, leaseFor).db
    case OpStart(intent, worker, token, startedAt) => Start(db, intent, worker, token, startedAt).db
    case OpFinalize(call) => Finalize(db, call).db
  }

  ghost function Run(db: Db, ops: seq<Op>): Db
    decreases |ops|
  {
    if ops == [] then db else Run(Apply(db, ops[0]), ops[1..])
  }
}
