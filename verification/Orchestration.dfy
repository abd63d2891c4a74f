/**
 * The audited pipeline (orchestration.py) and the transaction that saves a trace together with its
 * action intent (enqueue in sqlite_action_outbox.py, build_action_intent in action_outbox.py).
 */
module Orchestration {
  import opened Base
  import T = DecisionTraces
  import A = ActionProtocol
  import AR = ActionRecords
  import V = MemoryView
  import Access = AccessControl

  datatype Proposal = Proposal(
    action: string, alternatives: set<string>, reasonCodes: set<string>,
    tool: Option<string>, callId: Option<string>, inputHash: Option<string>)

  /** What the decision callback returns. */
  datatype Decision = Proposed(proposal: Proposal) | NotAProposal

  datatype Request = Request(query: Access.Request, agent: string, decisionAt: Instant, requireContext: bool)

  /** The validators of the request classes. */
  predicate ValidRequest(r: Request) {
    && r.agent != "" && r.query.requester != "" && r.query.action != ""
    && r.query.asOf <= r.decisionAt
    && (r.query.knownAt.Some? ==> r.query.knownAt.value <= r.decisionAt)
  }

  // ------------------------------------------------------ build_action_intent

  /** The payload whose digest gives the intent its id and its idempotency key. */
  datatype IntentPayload = IntentPayload(
    traceId: string, requester: string, agent: string, action: string,
    tool: string, callId: Option<string>, inputHash: Option<string>)

  /** Nothing is assumed of either digest. */
  datatype Digests = Digests(trace: T.Deriver, intent: IntentPayload -> (nat, string))

  datatype Intent = Intent(id: nat, identity: AR.Identity, availableAt: Instant)

  function BuildIntent(t: T.Trace, p: Proposal, availableAt: Option<Instant>, digests: Digests): Option<Intent> {
    var c := t.payload.context;
    if !c.allowed || p.tool.None? then None
    else if p.action != c.action || p.tool != c.tool || p.callId != c.callId || p.inputHash != c.inputHash then None
    else
      var payload := IntentPayload(t.id, c.requester, c.agent, p.action, p.tool.value, p.callId, p.inputHash);
      var (id, key) := digests.intent(payload);
      var readyAt := if availableAt.Some? then availableAt.value else c.decisionAt;
      if readyAt < t.payload.createdAt then None
      else Some(Intent(id, AR.Identity(t.id, c.requester, c.agent, p.action,
                                       AR.Dispatch(p.tool.value, p.callId, key, p.inputHash), t.payload.createdAt), readyAt))
  }

  // ------------------------------------------------------------------- state

  /** One invocation of an executor: the trace it got, and whether the store held that trace then. */
  datatype Invocation = Invocation(traceId: string, stored: bool)

  datatype World = World(traces: T.Db, actions: A.Db, invoked: seq<Invocation>)

  const EMPTY_WORLD := World(T.EMPTY_DB, A.EMPTY_DB, [])

  datatype EnqueueStep = EnqueueStep(world: World, ok: bool)

  /** `enqueue`: the trace and its intent in one transaction. */
  function EnqueueIntent(w: World, t: T.Trace, p: Proposal, availableAt: Option<Instant>, digests: Digests): EnqueueStep {
    match BuildIntent(t, p, availableAt, digests)
    case None => EnqueueStep(w, false)
    case Some(intent) =>
      var saved := T.Save(w.traces, t);
      if saved.result.Err? then EnqueueStep(w, false)
      else
        var row := A.Enqueue(w.actions, intent.id, intent.identity, intent.availableAt);
        if row.result.Err? then EnqueueStep(w, false)
        else EnqueueStep(w.(traces := saved.db, actions := row.db), true)
  }

  // --------------------------------------------------------------------- run

  /** How a store call fails: not at all, before its transaction commits, or after. */
  datatype Fault = NoFault | BeforeCommit | AfterCommit

  datatype Reply = Raises | NoOutcome | NotAnOutcome | Returned(outcome: T.Outcome)

  /**
   * An executor may use the record store, or run the pipeline again, before it replies. `Enqueuing`
   * calls `enqueue`, and replies with its intent, or, when `wrapped`, with nothing.
   */
  datatype Executor =
    | Absent
    | Custom(effects: seq<T.Op>, reply: Reply)
    | Nested(calls: seq<Call>, reply: Reply)
    | Enqueuing(availableAt: Option<Instant>, wrapped: bool)

  datatype Status = Denied | NoAuthorizedContext | TracePersisted | AlreadyTraced | ActionCompleted | OutcomeTraced

  datatype RunError =
    AmbiguousMemory | InvalidProposal | InvalidTrace | TracePersistence | ActionExecution | OutcomePersistence

  /** One call of `run`; the adapters list `policies` and `memories`. */
  datatype Call = Call(
    request: Request, policies: seq<V.Version>, memories: seq<V.Version>, decision: Decision,
    traceFault: Fault, executor: Executor, outcomeSink: Option<Fault>, outcomeTraceFault: Fault)

  function CapturedContext(c: Call, a: Access.Authorization, view: V.View, p: Proposal): T.Context {
    var q := c.request.query;
    T.Context(
      q.requester, c.request.agent, p.action, a.decision.Allow?,
      set id | id in a.matched, set e | e in view.entries :: e.memory.id,
      q.asOf, q.knownAt, c.request.decisionAt, p.alternatives, {"policy_allowed"} + p.reasonCodes,
      p.tool, p.callId, p.inputHash)
  }

  datatype Plan = Stop(status: Status) | Refuse(error: RunError) | Act(proposal: Proposal, trace: T.Trace)

  /** `run` up to the point where it first touches a store: authorize, project, decide, build. */
  function PlanOf(c: Call, digests: Digests): Plan {
    var q := c.request.query;
    var a := Access.Authorize(c.policies, q);
    if !a.decision.Allow? then Stop(Denied)
    else
      match V.Project(Access.AdmittedBy(c.memories, a.scope), V.Query(q.asOf, q.knownAt, {}, {}))
      case Err(_) => Refuse(AmbiguousMemory)
      case Ok(view) =>
        if c.request.requireContext && view.entries == [] then Stop(NoAuthorizedContext)
        else if c.decision.NotAProposal? || c.decision.proposal.action != q.action then Refuse(InvalidProposal)
        else
          match T.BuildTrace(CapturedContext(c, a, view, c.decision.proposal), digests.trace)
          case Err(_) => Refuse(InvalidTrace)
          case Ok(trace) => Act(c.decision.proposal, trace)
  }

  /** A store call under a fault. */
  function Faulted(db: T.Db, s: T.Step, fault: Fault): T.Step {
    match fault
    case NoFault => s
    case BeforeCommit => T.Step(db, Err(T.ValueError))
    case AfterCommit => T.Step(s.db, Err(T.ValueError))
  }

  datatype ExecuteStep = ExecuteStep(world: World, reply: Reply)

  predicate Stored(db: T.Db, t: T.Trace) { t.id in db.records && db.records[t.id] == T.TraceRecord(t) }

  function Execute(w: World, e: Executor, p: Proposal, t: T.Trace, digests: Digests): ExecuteStep
    requires !e.Absent?
    decreases e, if e.Nested? then |e.calls| + 1 else 0
  {
    var started := w.(invoked := w.invoked + [Invocation(t.id, Stored(w.traces, t))]);
    match e
    case Custom(effects, reply) => ExecuteStep(started.(traces := T.Run(w.traces, effects)), reply)
    case Nested(calls, reply) => ExecuteStep(RunNested(started, e, |calls|, digests), reply)
    case Enqueuing(availableAt, wrapped) =>
      var s := EnqueueIntent(started, t, p, availableAt, digests);
      ExecuteStep(s.world, EnqueueReply(s.ok, wrapped))
  }

  /** `run` takes an intent for a malformed outcome. */
  function EnqueueReply(ok: bool, wrapped: bool): Reply {
    if !ok then Raises else if wrapped then NoOutcome else NotAnOutcome
  }

  /** The first `k` runs that an executor starts. */
  function RunNested(w: World, e: Executor, k: nat, digests: Digests): World
    requires e.Nested? && k <= |e.calls|
    decreases e, k
  {
    if k == 0 then w else RunCall(RunNested(w, e, k - 1, digests), e.calls[k - 1], digests).world
  }

  datatype RunStep = RunStep(world: World, result: Result<Status, RunError>)

  /** Save the outcome, then the trace version that links it. */
  function RecordOutcome(w: World, c: Call, t: T.Trace, outcome: T.Outcome, digests: Digests): RunStep {
    if c.outcomeSink.None? then RunStep(w, Err(OutcomePersistence))
    else
      var saved := Faulted(w.traces, T.SaveOther(w.traces, T.OutcomeRecord(outcome)), c.outcomeSink.value);
      var w1 := w.(traces := saved.db);
      if saved.result.Err? then RunStep(w1, Err(OutcomePersistence))
      else
        match T.AttachOutcome(t, outcome, digests.trace)
        case Err(_) => RunStep(w1, Err(OutcomePersistence))
        case Ok(next) =>
          var linked := Faulted(w1.traces, T.Save(w1.traces, next), c.outcomeTraceFault);
          RunStep(w1.(traces := linked.db), if linked.result.Ok? then Ok(OutcomeTraced) else Err(OutcomePersistence))
  }

  function AfterExecution(e: ExecuteStep, c: Call, t: T.Trace, digests: Digests): RunStep {
    match e.reply
    case Raises => RunStep(e.world, Err(ActionExecution))
    case NotAnOutcome => RunStep(e.world, Err(ActionExecution))
    case NoOutcome => RunStep(e.world, Ok(ActionCompleted))
    case Returned(outcome) => RecordOutcome(e.world, c, t, outcome, digests)
  }

  /** `run` from the exists-check on: save the trace first, execute only if it is new. */
  function ActOn(w: World, c: Call, p: Proposal, t: T.Trace, digests: Digests): RunStep
    decreases c, 0
  {
    var alreadyTraced := t.id in w.traces.index;
    var saved := Faulted(w.traces, T.Save(w.traces, t), c.traceFault);
    var w1 := w.(traces := saved.db);
    if saved.result.Err? then RunStep(w1, Err(TracePersistence))
    else if alreadyTraced then RunStep(w1, Ok(AlreadyTraced))
    else if c.executor.Absent? then RunStep(w1, Ok(TracePersisted))
    else AfterExecution(Execute(w1, c.executor, p, t, digests), c, t, digests)
  }

  /** `AuditedDecisionOrchestrator.run`. */
  function RunCall(w: World, c: Call, digests: Digests): RunStep
    decreases c, 1
  {
    match PlanOf(c, digests)
    case Stop(status) => RunStep(w, Ok(status))
    case Refuse(error) => RunStep(w, Err(error))
    case Act(p, t) => ActOn(w, c, p, t, digests)
  }

  // -------------------------------------------------------------------- runs

  /** A step of some client: a run, a store transaction, an enqueue, or a worker's transaction. */
  datatype Op =
    | OpRun(call: Call)
    | OpStore(op: T.Op)
    | OpEnqueue(trace: T.Trace, proposal: Proposal, availableAt: Option<Instant>)
    | OpWork(work: A.Op)

  ghost function Apply(w: World, op: Op, digests: Digests): World {
    match op
    case OpRun(call) => RunCall(w, call, digests).world
    case OpStore(op) => w.(traces := T.Apply(w.traces, op))
    case OpEnqueue(t, p, availableAt) =>
      if T.ValidPayload(t.payload) then EnqueueIntent(w, t, p, availableAt, digests).world else w
    case OpWork(work) => if work.OpEnqueue? then w else w.(actions := A.Apply(w.actions, work))
  }

  ghost function Run(w: World, ops: seq<Op>, digests: Digests): World
    decreases |ops|
  {
    if ops == [] then w else Run(Apply(w, ops[0], digests), ops[1..], digests)
  }
}
