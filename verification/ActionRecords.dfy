/** Action intents (action_outbox.py) and attempt evidence (action_attempt.py). */
module ActionRecords {
  import opened Base

  datatype ActionError =
    | ValueError
    | ContractError
    | MissingReference
    | DuplicateRecord
    | InvalidProgression
    | FinalizationConflict
    | IdempotencyConflict
    | IntegrityError
    | RecordNotFound
    | ReferencedRecord

  /** Dispatch metadata that intents and attempts must agree on. */
  datatype Dispatch = Dispatch(tool: string, callId: Option<string>, key: string, inputHash: Option<string>)

  datatype IntentStatus = Pending | Leased | Completed | FailedForGood

  /** What `immutable_payload` lists, beside the row id. */
  datatype Identity = Identity(
    traceId: string, requester: string, agent: string, action: string, dispatch: Dispatch, createdAt: Instant)

  /**
   * One row of `action_outbox`. The id is the digest read as a number: all ids have the same
   * number of hexadecimal digits, so this keeps their order.
   */
  datatype Row = Row(
    id: nat,
    identity: Identity,
    status: IntentStatus,
    attemptCount: nat,
    availableAt: Instant,
    leaseOwner: Option<string>,
    leaseToken: Option<nat>,
    leaseExpiresAt: Option<Instant>,
    lastErrorCode: Option<string>,
    outcomeId: Option<string>,
    lastAttempt: Option<Attempt>,
    updatedAt: Instant)

  /** `ActionIntent.validate_state`: the shapes a row may have. */
  predicate ValidState(r: Row) {
    && (if r.status.Leased? then
          r.leaseOwner.Some? && r.leaseToken.Some? && r.leaseExpiresAt.Some?
        else
          r.leaseOwner.None? && r.leaseToken.None? && r.leaseExpiresAt.None?)
    && (r.outcomeId.Some? <==> r.status.Completed?)
    && (r.status.FailedForGood? ==> r.lastErrorCode.Some?)
    && r.identity.createdAt <= r.availableAt
    && r.identity.createdAt <= r.updatedAt
  }

  datatype AttemptStatus = Started | Succeeded | Failed

  /** The digest of a lease token; distinct tokens have distinct digests. */
  datatype TokenHash = TokenHash(token: nat)

  /**
   * One immutable attempt revision. Its id is its canonical payload, so the record is its own id
   * and `supersedes` holds the superseded record.
   */
  datatype Attempt = Attempt(
    intentId: nat,
    number: nat,
    revision: nat,
    supersedes: Option<Attempt>,
    worker: string,
    tokenHash: TokenHash,
    dispatch: Dispatch,
    status: AttemptStatus,
    startedAt: Instant,
    finishedAt: Option<Instant>,
    latencyMs: Option<int>,
    responseHash: Option<string>,
    errorCode: Option<string>,
    outcomeId: Option<string>,
    createdAt: Instant)

  /** Whole milliseconds between two instants, the first not later. */
  function Latency(started: Instant, finished: Instant): int
    requires started <= finished
  {
    (finished - started) / 1000
  }

  /** `ActionAttempt.validate_contract`. */
  predicate ValidAttempt(a: Attempt) {
    && a.number >= 1
    && (a.revision == 1 || a.revision == 2)
    && (a.revision == 1 ==>
          && a.status.Started? && a.supersedes.None?
          && a.finishedAt.None? && a.latencyMs.None? && a.responseHash.None?
          && a.errorCode.None? && a.outcomeId.None?
          && a.createdAt == a.startedAt)
    && (a.revision == 2 ==>
          && !a.status.Started? && a.supersedes.Some?
          && a.finishedAt.Some? && a.startedAt <= a.finishedAt.value
          && a.latencyMs == Some(Latency(a.startedAt, a.finishedAt.value))
          && a.createdAt == a.finishedAt.value
          && (a.status.Succeeded? ==> a.outcomeId.Some? && a.errorCode.None?)
          && (a.status.Failed? ==> a.errorCode.Some? && a.outcomeId.None?))
  }

  /** `_immutable_context`: what a terminal revision must copy from its started revision. */
  function Context(a: Attempt): (nat, nat, string, TokenHash, Dispatch, Instant) {
    (a.intentId, a.number, a.worker, a.tokenHash, a.dispatch, a.startedAt)
  }

  /** `build_started_attempt`, from the leased intent that the worker holds. */
  function BuildStarted(intent: Row, worker: string, token: nat, startedAt: Instant): (r: Result<Attempt, ActionError>)
    ensures r.Ok? ==> ValidAttempt(r.value) && r.value.revision == 1
    ensures r.Ok? ==> r.value.intentId == intent.id && r.value.number == intent.attemptCount
    ensures r.Ok? <==>
      && worker != "" && intent.status.Leased?
      && intent.leaseOwner == Some(worker) && intent.leaseToken == Some(token)
      && intent.updatedAt <= startedAt && intent.leaseExpiresAt.Some?
      && startedAt < intent.leaseExpiresAt.value && intent.attemptCount >= 1
  {
    if worker == "" then Err(ValueError)
    else if !intent.status.Leased? then Err(ContractError)
    else if intent.leaseOwner != Some(worker) || intent.leaseToken != Some(token) then Err(ContractError)
    else if startedAt < intent.updatedAt then Err(ContractError)
    else if intent.leaseExpiresAt.None? || intent.leaseExpiresAt.value <= startedAt then Err(ContractError)
    else if intent.attemptCount < 1 then Err(ContractError)
    else Ok(Attempt(intent.id, intent.attemptCount, 1, None, worker, TokenHash(token), intent.identity.dispatch,
                    Started, startedAt, None, None, None, None, None, startedAt))
  }

  /** `_build_terminal_attempt`; exactly one of `errorCode` and `outcomeId` is given. */
  function BuildTerminal(
    started: Attempt, finishedAt: Instant, verdict: Verdict, responseHash: Option<string>
  ): (r: Result<Attempt, ActionError>)
    ensures r.Ok? <==>
      verdict.text != "" && started.revision == 1 && started.status.Started? && started.startedAt <= finishedAt
    ensures r.Ok? ==>
      && Context(r.value) == Context(started) && r.value.supersedes == Some(started)
      && r.value.revision == 2 && r.value.finishedAt == Some(finishedAt) && r.value.responseHash == responseHash
      && (started.number >= 1 ==> ValidAttempt(r.value))
      && r.value.outcomeId == verdict.OutcomeId() && r.value.errorCode == verdict.ErrorCode()
  {
    if verdict.text == "" then Err(ValueError)
    else if started.revision != 1 || !started.status.Started? then Err(ContractError)
    else if finishedAt < started.startedAt then Err(ContractError)
    else Ok(started.(
      revision := 2, supersedes := Some(started),
      status := if verdict.Success? then Succeeded else Failed,
      finishedAt := Some(finishedAt), latencyMs := Some(Latency(started.startedAt, finishedAt)),
      responseHash := responseHash, errorCode := verdict.ErrorCode(), outcomeId := verdict.OutcomeId(),
      createdAt := finishedAt))
  }

  /** What the finalizer is told: an outcome, or an error code with an optional retry time. */
  datatype Verdict =
    | Success(text: string)
    | Failure(text: string, retryAt: Option<Instant>)
  {
    function OutcomeId(): Option<string> { if Success? then Some(text) else None }
    function ErrorCode(): Option<string> { if Failure? then Some(text) else None }
  }
}
