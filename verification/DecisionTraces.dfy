/** Immutable decision traces: the contract, the builder and the trace store's transactions. */
module DecisionTraces {
  import opened Base

  // ----------------------------------------------------------------- records

  /** The captured context, which no later version of a trace may change. */
  datatype Context = Context(
    requester: string, agent: string, action: string, allowed: bool,
    policyIds: set<string>, memoryIds: set<string>,
    asOf: Instant, knownAt: Option<Instant>, decisionAt: Instant,
    alternatives: set<string>, reasonCodes: set<string>,
    tool: Option<string>, callId: Option<string>, inputHash: Option<string>)

  /** What `canonical_payload` holds: a trace without its id. */
  datatype Payload = Payload(
    context: Context, outcomeId: Option<string>, supersedes: Option<string>, version: nat, createdAt: Instant)

  datatype Trace = Trace(id: string, payload: Payload)
  {
    function References(): set<string> {
      payload.context.policyIds + payload.context.memoryIds
      + (if payload.outcomeId.Some? then {payload.outcomeId.value} else {})
      + (if payload.supersedes.Some? then {payload.supersedes.value} else {})
    }
  }

  datatype Outcome = Outcome(id: string, references: set<string>, observedAt: Instant)

  /** The part of `DecisionTrace.validate_trace_contract` and its field constraints that no id enters. */
  predicate ValidPayload(p: Payload) {
    var c := p.context;
    && c.requester != "" && c.agent != "" && c.action != ""
    && (c.knownAt.Some? ==> c.knownAt.value <= c.decisionAt)
    && c.asOf <= c.decisionAt
    && (c.allowed ==> c.policyIds != {})
    && (c.callId.Some? ==> c.tool.Some?)
    && p.version >= 1
    && (p.version == 1 <==> p.supersedes.None?)
  }

  predicate ValidTrace(t: Trace) {
    t.id != "" && t.id !in t.References() && ValidPayload(t.payload)
  }

  // ----------------------------------------------------------------- builder

  datatype TraceError =
    | ValueError
    | NotAuthorized
    | BuildError
    | OutcomeAlreadyAttached
    | DuplicateRecord
    | MissingReference
    | InvalidProgression
    | RecordNotFound
    | ReferencedRecord

  /** The digest of a payload; nothing is assumed of it unless a lemma says so. */
  type Deriver = Payload -> string

  const PENDING_ID := "dtr_pending"

  /** `_create`: validate under a provisional id, then derive the id, which is not validated again. */
  function Create(payload: Payload, derive: Deriver): (r: Result<Trace, TraceError>)
    ensures r.Ok? ==> ValidPayload(payload) && r.value == Trace(derive(payload), payload)
  {
    if ValidTrace(Trace(PENDING_ID, payload)) then Ok(Trace(derive(payload), payload)) else Err(ValueError)
  }

  /** `build`, from a captured context. */
  function BuildTrace(context: Context, derive: Deriver): Result<Trace, TraceError> {
    if !context.allowed then Err(NotAuthorized)
    else Create(Payload(context, None, None, 1, context.decisionAt), derive)
  }

  function AttachedPayload(t: Trace, outcome: Outcome): Payload {
    Payload(t.payload.context, Some(outcome.id), Some(t.id), t.payload.version + 1, outcome.observedAt)
  }

  /** `attach_outcome`. */
  function AttachOutcome(t: Trace, outcome: Outcome, derive: Deriver): Result<Trace, TraceError> {
    if t.payload.outcomeId == Some(outcome.id) then Ok(t)
    else if t.payload.outcomeId.Some? then Err(OutcomeAlreadyAttached)
    else if outcome.observedAt < t.payload.context.decisionAt then Err(BuildError)
    else Create(AttachedPayload(t, outcome), derive)
  }

  // ------------------------------------------------------------------- store

  datatype Record = TraceRecord(trace: Trace) | OutcomeRecord(outcome: Outcome) | OtherRecord(id: string, refs: set<string>)
  {
    function Id(): string {
      match this
      case TraceRecord(t) => t.id
      case OutcomeRecord(o) => o.id
      case OtherRecord(id, _) => id
    }
    function References(): set<string> {
      match this
      case TraceRecord(t) => t.References()
      case OutcomeRecord(o) => o.references
      case OtherRecord(_, refs) => refs
    }
  }

  datatype IndexRow = IndexRow(version: nat, supersedes: Option<string>)

  /** Tables `records` and `decision_trace_index`. */
  datatype Db = Db(records: map<string, Record>, index: map<string, IndexRow>)

  const EMPTY_DB := Db(map[], map[])

  datatype Step = Step(db: Db, result: Result<bool, TraceError>)

  /** `_validate_progression`: the error it raises, if any. */
  function ProgressionError(db: Db, t: Trace): Option<TraceError> {
    if t.payload.version == 1 then
      if t.payload.supersedes.Some? then Some(InvalidProgression) else None
    else if t.payload.supersedes.None? then Some(InvalidProgression)
    else if t.payload.supersedes.value !in db.records then Some(RecordNotFound)
    else if !db.records[t.payload.supersedes.value].TraceRecord? then Some(InvalidProgression)
    else
      var previous := db.records[t.payload.supersedes.value].trace;
      if t.payload.version != previous.payload.version + 1 then Some(InvalidProgression)
      else if t.payload.outcomeId.None? then Some(InvalidProgression)
      else if t.payload.context != previous.payload.context then Some(InvalidProgression)
      else None
  }

  /** The trace starts a chain, or follows a stored trace of the version before, in its context, with an outcome. */
  predicate IsNextLink(db: Db, t: Trace) {
    match t.payload.supersedes
    case None => t.payload.version == 1
    case Some(id) =>
      && t.payload.version != 1 && t.payload.outcomeId.Some?
      && id in db.records && db.records[id].TraceRecord?
      && db.records[id].trace.payload.version + 1 == t.payload.version
      && db.records[id].trace.payload.context == t.payload.context
  }

  /** The primary key of the index, and the uniqueness of `supersedes_trace_id`. */
  predicate IndexClash(index: map<string, IndexRow>, t: Trace) {
    t.id in index || exists id | id in index :: t.payload.supersedes.Some? && index[id].supersedes == t.payload.supersedes
  }

  /** `_save_with_connection`: whether the trace was inserted. */
  function Save(db: Db, t: Trace): Step {
    if t.id in db.records then
      Step(db, if db.records[t.id] == TraceRecord(t) then Ok(false) else Err(DuplicateRecord))
    else if !(t.References() <= db.records.Keys) then Step(db, Err(MissingReference))
    else if ProgressionError(db, t).Some? then Step(db, Err(ProgressionError(db, t).value))
    else if IndexClash(db.index, t) then Step(db, Err(DuplicateRecord))
    else
      Step(Db(db.records[t.id := TraceRecord(t)], db.index[t.id := IndexRow(t.payload.version, t.payload.supersedes)]),
           Ok(true))
  }

  /** The generic `save` of any record that is not a trace. */
  function SaveOther(db: Db, record: Record): Step {
    if record.TraceRecord? then Step(db, Err(ValueError))
    else if !(record.References() <= db.records.Keys) then Step(db, Err(MissingReference))
    else if record.Id() in db.records then Step(db, Err(DuplicateRecord))
    else Step(db.(records := db.records[record.Id() := record]), Ok(true))
  }

  predicate Referenced(db: Db, id: string) {
    exists other | other in db.records :: other != id && id in db.records[other].References()
  }

  /** `delete` without `force`; the foreign key of the index protects every trace. */
  function Delete(db: Db, id: string): Step {
    if id !in db.records then Step(db, Err(RecordNotFound))
    else if Referenced(db, id) || id in db.index then Step(db, Err(ReferencedRecord))
    else Step(db.(records := db.records - {id}), Ok(true))
  }

  datatype Op = OpSave(trace: Trace) | OpSaveOther(record: Record) | OpDelete(id: string)

  /** The payload of a trace that reaches the store has been validated by its class. */
  function Apply(db: Db, op: Op): Db {
    match op
    case OpSave(t) => if ValidPayload(t.payload) then Save(db, t).db else db
    case OpSaveOther(record) => SaveOther(db, record).db
    case OpDelete(id) => Delete(db, id).db
  }

  function Run(db: Db, ops: seq<Op>): Db
    decreases |ops|
  {
    if ops == [] then db else Run(Apply(db, ops[0]), ops[1..])
  }

  // -------------------------------------------------------------- invariants

  ghost predicate IsTrace(db: Db, id: string) { id in db.records && db.records[id].TraceRecord? }

  /** A stored trace is valid, indexed, and the next link after its predecessor. */
  ghost predicate LinkOk(db: Db, id: string)
    requires IsTrace(db, id)
  {
    var t := db.records[id].trace;
    && t.id == id && ValidPayload(t.payload)
    && id in db.index && db.index[id] == IndexRow(t.payload.version, t.payload.supersedes)
    && (t.payload.version > 1 ==>
          && t.payload.outcomeId.Some?
          && IsTrace(db, t.payload.supersedes.value)
          && var previous := db.records[t.payload.supersedes.value].trace.payload;
             previous.version + 1 == t.payload.version && previous.context == t.payload.context)
  }

  ghost predicate RecordOk(db: Db, id: string)
    requires id in db.records
  {
    && db.records[id].Id() == id
    && db.records[id].References() <= db.records.Keys
    && (id in db.index <==> db.records[id].TraceRecord?)
  }

  ghost predicate OneSuccessor(db: Db, a: string, b: string) {
    a in db.index && b in db.index && db.index[a].supersedes.Some? && db.index[a].supersedes == db.index[b].supersedes
    ==> a == b
  }

  ghost predicate Inv(db: Db) {
    && db.index.Keys <= db.records.Keys
    && (forall id {:trigger RecordOk(db, id)} :: id in db.records ==> RecordOk(db, id))
    && (forall id {:trigger LinkOk(db, id)} :: IsTrace(db, id) ==> LinkOk(db, id))
    && (forall a, b {:trigger OneSuccessor(db, a, b)} :: OneSuccessor(db, a, b))
  }

  lemma SaveKeepsInv(db: Db, t: Trace)
    requires Inv(db) && ValidPayload(t.payload)
    ensures Inv(Save(db, t).db)
  {
    var db' := Save(db, t).db;
    if db' != db {
      forall id | id in db'.records ensures RecordOk(db', id) { if id != t.id { assert RecordOk(db, id); } }
      forall id | IsTrace(db', id) ensures LinkOk(db', id) { if id != t.id { assert LinkOk(db, id); } }
      forall a, b ensures OneSuccessor(db', a, b) { assert OneSuccessor(db, a, b); }
    }
  }

  lemma OthersKeepInv(db: Db, db': Db, id: string)
    requires Inv(db) && id !in db.index && db'.index == db.index
    requires forall other :: other != id ==>
      (other in db.records <==> other in db'.records)
      && (other in db.records ==> db.records[other] == db'.records[other])
    requires id in db'.records ==> !db'.records[id].TraceRecord? && RecordOk(db', id)
    requires id !in db'.records ==> !Referenced(db, id)
    ensures Inv(db')
  {
    forall k | k in db'.records ensures RecordOk(db', k) {
      if k != id {
        assert RecordOk(db, k);
        assert id !in db'.records && id in db.records[k].References() ==> Referenced(db, id);
      }
    }
    assert id in db.records ==> RecordOk(db, id);
    forall k | IsTrace(db', k) ensures LinkOk(db', k) { assert LinkOk(db, k); }
    forall a, b ensures OneSuccessor(db', a, b) { assert OneSuccessor(db, a, b); }
  }

  lemma ApplyKeepsInv(db: Db, op: Op)
    requires Inv(db)
    ensures Inv(Apply(db, op))
  {
    var db' := Apply(db, op);
    match op
    case OpSave(t) =>
      if ValidPayload(t.payload) { SaveKeepsInv(db, t); }
    case OpSaveOther(record) =>
      if db' != db { OthersKeepInv(db, db', record.Id()); }
    case OpDelete(id) =>
      if db' != db { OthersKeepInv(db, db', id); }
  }

  lemma {:induction false} RunKeepsInv(db: Db, ops: seq<Op>)
    requires Inv(db)
    ensures Inv(Run(db, ops))
    decreases |ops|
  {
    if ops != [] {
      ApplyKeepsInv(db, ops[0]);
      RunKeepsInv(Apply(db, ops[0]), ops[1..]);
    }
  }
}
