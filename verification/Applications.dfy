/**
 * Success criteria, lesson applications, outcome observations and criterion evaluations
 * (application.py), and the store that checks their causal order (application_store.py).
 */
module Applications {
  import opened Base

  // ----------------------------------------------------------------- records

  datatype CriterionResult = Met | NotMet | Indeterminate

  /** What the idempotency fingerprint covers: an application without its id and creation time. */
  datatype Usage = Usage(
    lessonId: string, queryId: string, retrievalId: string, actionId: string, criterionId: string,
    environmentId: string, projectionId: Option<string>, actor: Option<string>, appliedAt: Instant,
    key: string, accessPolicy: string)

  datatype Body =
    | Criterion(definition: string, fixedAt: Instant)
    | Application(usage: Usage)
    | Observation(applicationIds: seq<string>, actionId: string, observedAt: Instant, values: map<string, string>,
                  sourceIds: seq<string>, evidenceIds: seq<string>, supersedesObservation: Option<string>)
    | Evaluation(criterionId: string, evaluatedIds: seq<string>, observationIds: seq<string>, result: CriterionResult,
                 reasonCodes: set<string>, evaluatedAt: Instant, supersedesEvaluation: Option<string>)

  datatype Record = Record(id: string, createdAt: Instant, body: Body)

  /** `validate_result_contract`; the other validators only trim and sort. */
  predicate ValidRecord(r: Record) {
    r.body.Evaluation? ==>
      if r.body.result.Indeterminate? then r.body.reasonCodes != {}
      else r.body.observationIds != [] && r.body.reasonCodes == {}
  }

  /** A record of the experience store, as far as applications look at it. */
  datatype Experience = Experience(isLesson: bool, createdAt: Instant, refs: set<string>)

  /** A row of `application_idempotency`; a fingerprint is its payload. */
  datatype Binding = Binding(fingerprint: Usage, recordId: string)

  datatype Db = Db(experience: map<string, Experience>, records: map<string, Record>, keys: map<string, Binding>)

  const EMPTY_DB := Db(map[], map[], map[])

  datatype AppError =
    | MissingReference
    | ContractReference
    | TemporalContract
    | IdempotencyConflict
    | DuplicateRecord
    | RecordNotFound
    | ReferencedRecord
    | StoreError

  datatype Step = Step(db: Db, result: Result<Record, AppError>)

  // -------------------------------------------------------------- validation

  datatype Kind = IsCriterion | IsApplication | IsObservation | IsEvaluation

  function KindOf(b: Body): Kind {
    match b
    case Criterion(_, _) => IsCriterion
    case Application(_) => IsApplication
    case Observation(_, _, _, _, _, _, _) => IsObservation
    case Evaluation(_, _, _, _, _, _, _) => IsEvaluation
  }

  /** `_require_application_type`: the error it raises, if any. */
  function RequireKind(db: Db, id: string, kind: Kind): (e: Option<AppError>)
    ensures e.None? <==> id in db.records && KindOf(db.records[id].body) == kind
  {
    if id !in db.records then Some(MissingReference)
    else if KindOf(db.records[id].body) != kind then Some(ContractReference)
    else None
  }

  function RequireKinds(db: Db, ids: seq<string>, kind: Kind): (e: Option<AppError>)
    ensures e.None? <==> forall id :: id in ids ==> id in db.records && KindOf(db.records[id].body) == kind
    decreases |ids|
  {
    if ids == [] then None
    else
      assert forall id :: id in ids <==> id == ids[0] || id in ids[1..];
      var e := RequireKind(db, ids[0], kind);
      if e.Some? then e else RequireKinds(db, ids[1..], kind)
  }

  function RequireExperiences(db: Db, ids: seq<string>): (e: Option<AppError>)
    ensures e.None? <==> forall id :: id in ids ==> id in db.experience
    decreases |ids|
  {
    if ids == [] then None
    else
      assert forall id :: id in ids <==> id == ids[0] || id in ids[1..];
      if ids[0] !in db.experience then Some(MissingReference) else RequireExperiences(db, ids[1..])
  }

  /** The experience records that must not be later than the application. */
  function TimedBy(u: Usage): set<string> {
    {u.queryId, u.retrievalId, u.actionId, u.environmentId}
    + (if u.projectionId.Some? then {u.projectionId.value} else {})
  }

  /** Every experience record that an application names. */
  function CitedBy(u: Usage): set<string> { TimedBy(u) + {u.lessonId} }

  /** `_validate_application`. */
  function ApplicationError(db: Db, u: Usage): Option<AppError> {
    if u.lessonId !in db.experience then Some(MissingReference)
    else if !db.experience[u.lessonId].isLesson then Some(ContractReference)
    else if RequireKind(db, u.criterionId, IsCriterion).Some? then RequireKind(db, u.criterionId, IsCriterion)
    else if RequireExperiences(db, [u.queryId, u.retrievalId, u.actionId, u.environmentId]).Some? then
      Some(MissingReference)
    else
      var ids := [u.queryId, u.retrievalId, u.actionId, u.environmentId];
      assert ids[0] in ids && ids[1] in ids && ids[2] in ids && ids[3] in ids;
      var x := db.experience;
      if db.records[u.criterionId].body.fixedAt > x[u.queryId].createdAt
        || x[u.queryId].createdAt > x[u.retrievalId].createdAt
        || x[u.retrievalId].createdAt > u.appliedAt
        || x[u.actionId].createdAt > u.appliedAt
        || x[u.environmentId].createdAt > u.appliedAt
      then Some(TemporalContract)
      else if u.projectionId.None? then None
      else if u.projectionId.value !in x then Some(MissingReference)
      else if x[u.projectionId.value].createdAt > u.appliedAt then Some(TemporalContract)
      else None
  }

  /** An observation against the applications that it covers. */
  function CoverageError(db: Db, ids: seq<string>, o: Body): (e: Option<AppError>)
    requires o.Observation? && forall id :: id in ids ==> id in db.records && db.records[id].body.Application?
    ensures e.None? <==> forall id :: id in ids ==>
      db.records[id].body.usage.actionId == o.actionId && db.records[id].body.usage.appliedAt <= o.observedAt
    decreases |ids|
  {
    if ids == [] then None
    else
      assert forall id :: id in ids <==> id == ids[0] || id in ids[1..];
      var u := db.records[ids[0]].body.usage;
      if u.actionId != o.actionId then Some(ContractReference)
      else if u.appliedAt > o.observedAt then Some(TemporalContract)
      else CoverageError(db, ids[1..], o)
  }

  /** `_validate_observation`. */
  function ObservationError(db: Db, o: Body): Option<AppError>
    requires o.Observation?
  {
    if RequireKinds(db, o.applicationIds, IsApplication).Some? then RequireKinds(db, o.applicationIds, IsApplication)
    else if o.actionId !in db.experience then Some(MissingReference)
    else if RequireExperiences(db, o.sourceIds + o.evidenceIds).Some? then Some(MissingReference)
    else if CoverageError(db, o.applicationIds, o).Some? then CoverageError(db, o.applicationIds, o)
    else if o.supersedesObservation.None? then None
    else if RequireKind(db, o.supersedesObservation.value, IsObservation).Some? then
      RequireKind(db, o.supersedesObservation.value, IsObservation)
    else
      var previous := db.records[o.supersedesObservation.value].body;
      if previous.actionId != o.actionId then Some(ContractReference)
      else if previous.observedAt > o.observedAt then Some(TemporalContract)
      else None
  }

  predicate CriterionMatches(db: Db, e: Body)
    requires e.Evaluation? && forall id :: id in e.evaluatedIds ==> id in db.records && db.records[id].body.Application?
  {
    forall id :: id in e.evaluatedIds ==> db.records[id].body.usage.criterionId == e.criterionId
  }

  /** Some cited observation is about the application. */
  predicate Covers(db: Db, observationIds: seq<string>, applicationId: string)
    requires forall id :: id in observationIds ==> id in db.records && db.records[id].body.Observation?
  {
    exists id :: id in observationIds && applicationId in db.records[id].body.applicationIds
  }

  /** `_validate_evaluation`. */
  function EvaluationError(db: Db, e: Body): Option<AppError>
    requires e.Evaluation?
  {
    if RequireKind(db, e.criterionId, IsCriterion).Some? then RequireKind(db, e.criterionId, IsCriterion)
    else if RequireKinds(db, e.evaluatedIds, IsApplication).Some? then RequireKinds(db, e.evaluatedIds, IsApplication)
    else if !CriterionMatches(db, e) then Some(ContractReference)
    else if RequireKinds(db, e.observationIds, IsObservation).Some? then RequireKinds(db, e.observationIds, IsObservation)
    else if e.observationIds != [] && exists id | id in e.evaluatedIds :: !Covers(db, e.observationIds, id) then
      Some(ContractReference)
    else if exists id | id in e.observationIds :: db.records[id].body.observedAt > e.evaluatedAt then Some(TemporalContract)
    else if e.supersedesEvaluation.None? then None
    else if RequireKind(db, e.supersedesEvaluation.value, IsEvaluation).Some? then
      RequireKind(db, e.supersedesEvaluation.value, IsEvaluation)
    else
      var previous := db.records[e.supersedesEvaluation.value].body;
      if previous.criterionId != e.criterionId || previous.evaluatedIds != e.evaluatedIds then Some(ContractReference)
      else if previous.evaluatedAt > e.evaluatedAt then Some(TemporalContract)
      else None
  }

  /** `_validate_contract`. */
  function ContractError(db: Db, r: Record): Option<AppError> {
    match r.body
    case Criterion(_, _) => None
    case Application(usage) => ApplicationError(db, usage)
    case Observation(_, _, _, _, _, _, _) => ObservationError(db, r.body)
    case Evaluation(_, _, _, _, _, _, _) => EvaluationError(db, r.body)
  }

  // ------------------------------------------------------------ transactions

  /** `_existing_idempotent_application`. */
  function Existing(db: Db, u: Usage): Result<Option<Record>, AppError> {
    if u.key !in db.keys then Ok(None)
    else
      var bound := db.keys[u.key];
      if bound.fingerprint != u then Err(IdempotencyConflict)
      else if bound.recordId !in db.records then Err(RecordNotFound)
      else if !db.records[bound.recordId].body.Application? then Err(StoreError)
      else Ok(Some(db.records[bound.recordId]))
  }

  function Insert(db: Db, r: Record): Db {
    var keys := if r.body.Application? then db.keys[r.body.usage.key := Binding(r.body.usage, r.id)] else db.keys;
    Db(db.experience, db.records[r.id := r], keys)
  }

  /** `save`. */
  function Save(db: Db, r: Record): Step {
    var existing := if r.body.Application? then Existing(db, r.body.usage) else Ok(None);
    if existing.Err? then Step(db, Err(existing.error))
    else if existing.value.Some? then Step(db, Ok(existing.value.value))
    else if ContractError(db, r).Some? then Step(db, Err(ContractError(db, r).value))
    else if r.id in db.records then
      Step(db, Err(if r.body.Application? then IdempotencyConflict else DuplicateRecord))
    else Step(Insert(db, r), Ok(r))
  }

  /** A save in the experience store. */
  function SaveExperience(db: Db, id: string, x: Experience): Db {
    if id in db.experience || !(x.refs <= db.experience.Keys) then db
    else db.(experience := db.experience[id := x])
  }

  /** A delete in the experience store; it looks for references in that store only. */
  function DeleteExperience(db: Db, id: string): Db {
    if id !in db.experience || exists other | other in db.experience :: other != id && id in db.experience[other].refs
    then db
    else db.(experience := db.experience - {id})
  }

  datatype Op = OpSave(record: Record) | OpSaveExperience(id: string, x: Experience) | OpDelete(id: string)

  function Apply(db: Db, op: Op): Db {
    match op
    case OpSave(r) => if ValidRecord(r) then Save(db, r).db else db
    case OpSaveExperience(id, x) => SaveExperience(db, id, x)
    case OpDelete(id) => DeleteExperience(db, id)
  }

  function Run(db: Db, ops: seq<Op>): Db
    decreases |ops|
  {
    if ops == [] then db else Run(Apply(db, ops[0]), ops[1..])
  }
}
