/**
 * The steps of a worker pass, each a function: claim, record the start, execute, finalize
 * (action_dispatcher.py, strict_action_dispatcher.py); and runs in which the steps of a team of
 * workers interleave. Class `Dispatcher` performs the same steps.
 */
module DispatchProtocol {
  import opened Base
  import opened ActionRecords
  import P = ActionProtocol

  /** What a resolver or an adapter may raise. */
  datatype Raised =
    | RetryableError(code: string, retryAfter: Option<int>)
    | PermanentError(code: string)
    | AnyOtherException

  datatype ToolResult =
    | ToolSucceeded(outcome: string, responseHash: Option<string>)
    | RetryableFailure(error: string, retryAfter: Option<int>, responseHash: Option<string>)
    | PermanentFailure(error: string, responseHash: Option<string>)

  /** The input resolver's answer; `conforms` tells whether the payload passes the adapter's input model. */
  datatype Resolution = Resolved(inputHash: Option<string>, conforms: bool) | ResolverRaised(raised: Raised)

  datatype Reply = Returned(result: ToolResult) | NotAToolResult | AdapterRaised(raised: Raised)

  /** The constructors of the source reject blank codes and non-positive delays. */
  predicate LegalRaised(e: Raised) {
    match e
    case RetryableError(code, after) => code != "" && (after.Some? ==> after.value > 0)
    case PermanentError(code) => code != ""
    case AnyOtherException => true
  }

  predicate LegalResult(t: ToolResult) {
    match t
    case ToolSucceeded(outcome, _) => outcome != ""
    case RetryableFailure(error, after, _) => error != "" && (after.Some? ==> after.value > 0)
    case PermanentFailure(error, _) => error != ""
  }

  predicate LegalEnvironment(resolution: Resolution, reply: Reply) {
    && (resolution.ResolverRaised? ==> LegalRaised(resolution.raised))
    && (reply.Returned? ==> LegalResult(reply.result))
    && (reply.AdapterRaised? ==> LegalRaised(reply.raised))
  }

  function Classify(e: Raised, otherwise: string): ToolResult {
    match e
    case RetryableError(code, after) => RetryableFailure(code, after, None)
    case PermanentError(code) => PermanentFailure(code, None)
    case AnyOtherException => RetryableFailure(otherwise, None, None)
  }

  /** The adapter is reached only past all three fail-closed checks. */
  predicate AdapterReached(known: bool, intentHash: Option<string>, resolution: Resolution) {
    known && resolution.Resolved? && resolution.inputHash == intentHash && resolution.conforms
  }

  /** `_execute`, with the runtime guard of the strict dispatcher. */
  function Execute(known: bool, intentHash: Option<string>, resolution: Resolution, reply: Reply): (t: ToolResult)
    ensures LegalEnvironment(resolution, reply) ==> LegalResult(t)
    ensures t.ToolSucceeded? ==> AdapterReached(known, intentHash, resolution) && reply == Returned(t)
  {
    if !known then PermanentFailure("unknown_tool", None)
    else match resolution
      case ResolverRaised(raised) => Classify(raised, "input_resolver_exception")
      case Resolved(inputHash, conforms) =>
        if inputHash != intentHash then PermanentFailure("input_hash_mismatch", None)
        else if !conforms then PermanentFailure("input_validation_failed", None)
        else match reply
          case Returned(result) => result
          case NotAToolResult => PermanentFailure("invalid_adapter_result", None)
          case AdapterRaised(raised) => Classify(raised, "adapter_exception")
  }

  /** The call of the finalizer for a classified result. */
  function VerdictOf(t: ToolResult, finishedAt: Instant, defaultRetryAfter: int): Verdict {
    match t
    case ToolSucceeded(outcome, _) => Success(outcome)
    case RetryableFailure(error, after, _) =>
      Failure(error, Some(finishedAt + (if after.Some? then after.value else defaultRetryAfter)))
    case PermanentFailure(error, _) => Failure(error, None)
  }

  // ------------------------------------------------------- one worker's steps

  datatype Config = Config(worker: string, adapters: set<string>, leaseFor: int, defaultRetryAfter: int)

  /** The checks of the constructor. */
  predicate LegalConfig(c: Config) { c.worker != "" && c.leaseFor > 0 && c.defaultRetryAfter > 0 }

  /** Where a worker stands in its pass, and what it holds there. */
  datatype Phase =
    | Idle
    | Claimed(intent: Row, claimedAt: Instant)
    | Started(intent: Row, started: Attempt)
    | Executed(intent: Row, started: Attempt, result: ToolResult)

  /** A call of an adapter: the attempt it runs under, and whether that attempt was stored then. */
  datatype AdapterCall = AdapterCall(started: Attempt, stored: bool)

  /** What one step of a pass reads and changes. */
  datatype Turn = Turn(db: P.Db, phase: Phase, calls: seq<AdapterCall>)

  ghost function ClaimTurn(c: Config, t: Turn, at: Instant): Turn {
    var s := P.Claim(t.db, c.worker, at, c.leaseFor);
    Turn(s.db, if s.result.Ok? && s.result.value.Some? then Claimed(s.result.value.value, at) else Idle, t.calls)
  }

  /** A refused start ends the pass. */
  function StartTurn(c: Config, t: Turn): Turn
    requires t.phase.Claimed?
  {
    if t.phase.intent.leaseToken.None? then t.(phase := Idle)
    else
      var s := P.Start(t.db, t.phase.intent, c.worker, t.phase.intent.leaseToken.value, t.phase.claimedAt);
      Turn(s.db, if s.result.Ok? then Phase.Started(t.phase.intent, s.result.value) else Idle, t.calls)
  }

  /** The classified result of the current attempt. */
  function ResultOf(c: Config, intent: Row, resolution: Resolution, reply: Reply): ToolResult {
    Execute(intent.identity.dispatch.tool in c.adapters, intent.identity.dispatch.inputHash, resolution, reply)
  }

  predicate Reaches(c: Config, intent: Row, resolution: Resolution) {
    AdapterReached(intent.identity.dispatch.tool in c.adapters, intent.identity.dispatch.inputHash, resolution)
  }

  function ExecuteTurn(c: Config, t: Turn, resolution: Resolution, reply: Reply): Turn
    requires t.phase.Started?
  {
    var (intent, a) := (t.phase.intent, t.phase.started);
    Turn(t.db, Executed(intent, a, ResultOf(c, intent, resolution, reply)),
         if Reaches(c, intent, resolution) then t.calls + [AdapterCall(a, a in t.db.attempts)] else t.calls)
  }

  /** The call of the finalizer that ends a pass. */
  function CallOf(c: Config, phase: Phase, finishedAt: Instant): P.Call
    requires phase.Executed? && phase.intent.leaseToken.Some?
  {
    P.Call(phase.started, phase.intent.leaseToken.value, finishedAt,
           VerdictOf(phase.result, finishedAt, c.defaultRetryAfter), phase.result.responseHash)
  }

  datatype FinishStep = FinishStep(turn: Turn, result: Result<P.Finalized, ActionError>)

  function FinishTurn(c: Config, t: Turn, finishedAt: Instant): FinishStep
    requires t.phase.Executed? && t.phase.intent.leaseToken.Some?
  {
    var s := P.Finalize(t.db, CallOf(c, t.phase, finishedAt));
    FinishStep(Turn(s.db, Idle, t.calls), s.result)
  }

  // ------------------------------------------------------------ team of workers

  /** Worker `k` is configured as `team(k)`; several may share a name. */
  type Team = nat -> Config

  datatype World = World(db: P.Db, phases: map<nat, Phase>, calls: seq<AdapterCall>)

  const EMPTY_WORLD := World(P.EMPTY_DB, map[], [])

  function PhaseOf(w: World, k: nat): Phase { if k in w.phases then w.phases[k] else Idle }

  function TurnOf(w: World, k: nat): Turn { Turn(w.db, PhaseOf(w, k), w.calls) }

  function AfterTurn(w: World, k: nat, t: Turn): World { World(t.db, w.phases[k := t.phase], t.calls) }

  /**
   * One step of some worker or client, in any order and at any clock. A crashed worker loses what
   * it holds and may start a new pass; one that never acts again simply has no further step.
   */
  datatype Op =
    | OpClaim(k: nat, claimedAt: Instant)
    | OpStart(k: nat)
    | OpExecute(k: nat, resolution: Resolution, reply: Reply)
    | OpFinish(k: nat, finishedAt: Instant)
    | OpCrash(k: nat)
    | OpClient(op: P.Op)

  /** Clients enqueue intents, save records and delete them; only workers touch leases. */
  predicate IsClientOp(op: P.Op) { op.OpEnqueue? || op.OpRecord? || op.OpDelete? }

  ghost function Apply(w: World, op: Op, team: Team): World {
    match op
    case OpClaim(k, at) =>
      if PhaseOf(w, k).Idle? then AfterTurn(w, k, ClaimTurn(team(k), TurnOf(w, k), at)) else w
    case OpStart(k) =>
      if PhaseOf(w, k).Claimed? then AfterTurn(w, k, StartTurn(team(k), TurnOf(w, k))) else w
    case OpExecute(k, resolution, reply) =>
      if PhaseOf(w, k).Started? && LegalEnvironment(resolution, reply)
      then AfterTurn(w, k, ExecuteTurn(team(k), TurnOf(w, k), resolution, reply)) else w
    case OpFinish(k, at) =>
      if PhaseOf(w, k).Executed? && PhaseOf(w, k).intent.leaseToken.Some?
      then AfterTurn(w, k, FinishTurn(team(k), TurnOf(w, k), at).turn) else w
    case OpCrash(k) => w.(phases := w.phases[k := Idle])
    case OpClient(op) => if IsClientOp(op) then w.(db := P.Apply(w.db, op)) else w
  }

  ghost function Run(w: World, ops: seq<Op>, team: Team): World
    decreases |ops|
  {
    if ops == [] then w else Run(Apply(w, ops[0], team), ops[1..], team)
  }
}
