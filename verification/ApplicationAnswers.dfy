/** Exactly when the application store accepts a record, and what each refusal means. */
module ApplicationAnswers {
  import opened Base
  import opened Applications
  import opened ApplicationTheorems

  predicate HasCriterion(db: Db, id: string) { id in db.records && db.records[id].body.Criterion? }
  predicate HasApplication(db: Db, id: string) { id in db.records && db.records[id].body.Application? }
  predicate HasObservation(db: Db, id: string) { id in db.records && db.records[id].body.Observation? }
  predicate HasEvaluation(db: Db, id: string) { id in db.records && db.records[id].body.Evaluation? }

  // ----------------------------------------------------------- applications

  /** Everything that an application names is stored. */
  predicate NamesStored(db: Db, u: Usage) {
    var x := db.experience;
    && u.lessonId in x && u.queryId in x && u.retrievalId in x && u.actionId in x && u.environmentId in x
    && u.criterionId in db.records
    && (u.projectionId.Some? ==> u.projectionId.value in x)
  }

  /** It names a lesson and a criterion. */
  predicate NamesFit(db: Db, u: Usage) {
    && (u.lessonId in db.experience ==> db.experience[u.lessonId].isLesson)
    && (u.criterionId in db.records ==> db.records[u.criterionId].body.Criterion?)
  }

  /** The criterion was fixed first, then came the query and its retrieval; all is there when the lesson is applied. */
  predicate InOrder(db: Db, u: Usage)
    requires NamesStored(db, u) && NamesFit(db, u)
  {
    var x := db.experience;
    && db.records[u.criterionId].body.fixedAt <= x[u.queryId].createdAt
    && x[u.queryId].createdAt <= x[u.retrievalId].createdAt
    && x[u.retrievalId].createdAt <= u.appliedAt
    && x[u.actionId].createdAt <= u.appliedAt && x[u.environmentId].createdAt <= u.appliedAt
    && (u.projectionId.Some? ==> x[u.projectionId.value].createdAt <= u.appliedAt)
  }

  lemma ApplicationAccepted(db: Db, u: Usage)
    ensures
      var e := ApplicationError(db, u);
      && (e.None? <==> NamesStored(db, u) && NamesFit(db, u) && InOrder(db, u))
      && (e == Some(MissingReference) ==> !NamesStored(db, u))
      && (e == Some(ContractReference) ==> !NamesFit(db, u))
      && (e == Some(TemporalContract) ==>
            var (x, at) := (db.experience, i => if i in db.experience then db.experience[i].createdAt else u.appliedAt);
            || (HasCriterion(db, u.criterionId) && db.records[u.criterionId].body.fixedAt > at(u.queryId))
            || at(u.queryId) > at(u.retrievalId)
            || at(u.retrievalId) > u.appliedAt || at(u.actionId) > u.appliedAt || at(u.environmentId) > u.appliedAt
            || (u.projectionId.Some? && at(u.projectionId.value) > u.appliedAt))
      && (e.None? || e.value in {MissingReference, ContractReference, TemporalContract})
  {
    var ids := [u.queryId, u.retrievalId, u.actionId, u.environmentId];
    assert ids[0] in ids && ids[1] in ids && ids[2] in ids && ids[3] in ids;
  }

  // ----------------------------------------------------------- observations

  /** All that an observation names is stored. */
  predicate ObservedStored(db: Db, o: Body)
    requires o.Observation?
  {
    && (forall id :: id in o.applicationIds ==> id in db.records)
    && o.actionId in db.experience
    && (forall id :: id in o.sourceIds ==> id in db.experience)
    && (forall id :: id in o.evidenceIds ==> id in db.experience)
    && (o.supersedesObservation.Some? ==> o.supersedesObservation.value in db.records)
  }

  /** It is about applications of its own action, and corrects an observation of that action. */
  predicate ObservedFits(db: Db, o: Body)
    requires o.Observation?
  {
    && (forall id :: id in o.applicationIds && id in db.records ==>
          db.records[id].body.Application? && db.records[id].body.usage.actionId == o.actionId)
    && (o.supersedesObservation.Some? && o.supersedesObservation.value in db.records ==>
          var previous := db.records[o.supersedesObservation.value].body;
          previous.Observation? && previous.actionId == o.actionId)
  }

  /** It is not earlier than an application it covers or an observation it corrects. */
  predicate ObservedLater(db: Db, o: Body)
    requires o.Observation?
  {
    && (forall id :: id in o.applicationIds && HasApplication(db, id) ==> db.records[id].body.usage.appliedAt <= o.observedAt)
    && (o.supersedesObservation.Some? && HasObservation(db, o.supersedesObservation.value) ==>
          db.records[o.supersedesObservation.value].body.observedAt <= o.observedAt)
  }

  lemma ObservationAccepted(db: Db, o: Body)
    requires o.Observation?
    ensures
      var e := ObservationError(db, o);
      && (e.None? <==> ObservedStored(db, o) && ObservedFits(db, o) && ObservedLater(db, o))
      && (e == Some(MissingReference) ==> !ObservedStored(db, o))
      && (e == Some(ContractReference) ==> !ObservedFits(db, o))
      && (e == Some(TemporalContract) ==> !ObservedLater(db, o))
      && (e.None? || e.value in {MissingReference, ContractReference, TemporalContract})
  {
    KindsSay(db, o.applicationIds, IsApplication);
    assert forall id :: id in o.sourceIds + o.evidenceIds <==> id in o.sourceIds || id in o.evidenceIds;
    RequiredSay(db, o.sourceIds + o.evidenceIds);
    if RequireKinds(db, o.applicationIds, IsApplication).None? {
      assert forall id :: id in o.applicationIds ==> KindOf(db.records[id].body) == IsApplication;
      CoverageSays(db, o.applicationIds, o);
    }
  }

  /** What the first offending id shows. */
  lemma {:induction false} KindsSay(db: Db, ids: seq<string>, kind: Kind)
    ensures
      var e := RequireKinds(db, ids, kind);
      && (e == Some(MissingReference) ==> exists id :: id in ids && id !in db.records)
      && (e == Some(ContractReference) ==> exists id :: id in ids && id in db.records && KindOf(db.records[id].body) != kind)
      && (e.None? || e.value in {MissingReference, ContractReference})
    decreases |ids|
  {
    if ids != [] {
      assert forall id :: id in ids[1..] ==> id in ids;
      assert ids[0] in ids;
      KindsSay(db, ids[1..], kind);
    }
  }

  lemma RequiredSay(db: Db, ids: seq<string>)
    ensures RequireExperiences(db, ids).Some? ==> exists id :: id in ids && id !in db.experience
  {
  }

  lemma {:induction false} CoverageSays(db: Db, ids: seq<string>, o: Body)
    requires o.Observation? && forall id :: id in ids ==> id in db.records && db.records[id].body.Application?
    ensures
      var e := CoverageError(db, ids, o);
      && (e == Some(ContractReference) ==> exists id :: id in ids && db.records[id].body.usage.actionId != o.actionId)
      && (e == Some(TemporalContract) ==> exists id :: id in ids && db.records[id].body.usage.appliedAt > o.observedAt)
      && (e.None? || e.value in {ContractReference, TemporalContract})
    decreases |ids|
  {
    if ids != [] {
      assert forall id :: id in ids[1..] ==> id in ids;
      assert ids[0] in ids;
      CoverageSays(db, ids[1..], o);
    }
  }

  // ------------------------------------------------------------ evaluations

  /** All that an evaluation names is stored. */
  predicate JudgedStored(db: Db, e: Body)
    requires e.Evaluation?
  {
    && e.criterionId in db.records
    && (forall id :: id in e.evaluatedIds ==> id in db.records)
    && (forall id :: id in e.observationIds ==> id in db.records)
    && (e.supersedesEvaluation.Some? ==> e.supersedesEvaluation.value in db.records)
  }

  /** Some cited observation is about the application. */
  predicate ObservedBy(db: Db, e: Body, id: string)
    requires e.Evaluation?
  {
    exists k :: k in e.observationIds && HasObservation(db, k) && id in db.records[k].body.applicationIds
  }

  /**
   * It judges applications of its own criterion, each of them observed when any observation is cited,
   * and corrects an evaluation of the same applications by the same criterion.
   */
  predicate JudgedFits(db: Db, e: Body)
    requires e.Evaluation?
  {
    && (e.criterionId in db.records ==> db.records[e.criterionId].body.Criterion?)
    && (forall id :: id in e.evaluatedIds && id in db.records ==>
          db.records[id].body.Application? && db.records[id].body.usage.criterionId == e.criterionId)
    && (forall id :: id in e.observationIds && id in db.records ==> db.records[id].body.Observation?)
    && (e.observationIds != [] ==> forall id :: id in e.evaluatedIds ==> ObservedBy(db, e, id))
    && (e.supersedesEvaluation.Some? && e.supersedesEvaluation.value in db.records ==>
          var previous := db.records[e.supersedesEvaluation.value].body;
          previous.Evaluation? && previous.criterionId == e.criterionId && previous.evaluatedIds == e.evaluatedIds)
  }

  /** It is not earlier than an observation it cites or an evaluation it corrects. */
  predicate JudgedLater(db: Db, e: Body)
    requires e.Evaluation?
  {
    && (forall id :: id in e.observationIds && HasObservation(db, id) ==> db.records[id].body.observedAt <= e.evaluatedAt)
    && (e.supersedesEvaluation.Some? && HasEvaluation(db, e.supersedesEvaluation.value) ==>
          db.records[e.supersedesEvaluation.value].body.evaluatedAt <= e.evaluatedAt)
  }

  lemma EvaluationAccepted(db: Db, e: Body)
    requires e.Evaluation?
    ensures
      var error := EvaluationError(db, e);
      && (error.None? <==> JudgedStored(db, e) && JudgedFits(db, e) && JudgedLater(db, e))
      && (error == Some(MissingReference) ==> !JudgedStored(db, e))
      && (error == Some(ContractReference) ==> !JudgedFits(db, e))
      && (error == Some(TemporalContract) ==> !JudgedLater(db, e))
      && (error.None? || error.value in {MissingReference, ContractReference, TemporalContract})
  {
    if Typed(db, e) {
      TypedEvaluation(db, e);
    } else {
      UntypedEvaluation(db, e);
    }
  }

  /** The criterion, the applications and the observations are stored as such. */
  predicate Typed(db: Db, e: Body)
    requires e.Evaluation?
  {
    && HasCriterion(db, e.criterionId)
    && (forall id :: id in e.evaluatedIds ==> HasApplication(db, id))
    && (forall id :: id in e.observationIds ==> HasObservation(db, id))
  }

  lemma UntypedEvaluation(db: Db, e: Body)
    requires e.Evaluation? && !Typed(db, e)
    ensures
      var error := EvaluationError(db, e);
      && ((error == Some(MissingReference) && !JudgedStored(db, e)) || (error == Some(ContractReference) && !JudgedFits(db, e)))
      && !(JudgedStored(db, e) && JudgedFits(db, e))
  {
    KindsSay(db, e.evaluatedIds, IsApplication);
    KindsSay(db, e.observationIds, IsObservation);
    assert forall id :: id in db.records && KindOf(db.records[id].body) == IsApplication ==> HasApplication(db, id);
    assert forall id :: id in db.records && KindOf(db.records[id].body) == IsObservation ==> HasObservation(db, id);
  }

  lemma TypedEvaluation(db: Db, e: Body)
    requires e.Evaluation? && Typed(db, e)
    ensures
      var error := EvaluationError(db, e);
      && (error.None? <==> JudgedStored(db, e) && JudgedFits(db, e) && JudgedLater(db, e))
      && (error == Some(MissingReference) ==> !JudgedStored(db, e))
      && (error == Some(ContractReference) ==> !JudgedFits(db, e))
      && (error == Some(TemporalContract) ==> !JudgedLater(db, e))
      && (error.None? || error.value in {MissingReference, ContractReference, TemporalContract})
  {
    assert RequireKinds(db, e.evaluatedIds, IsApplication).None?;
    assert RequireKinds(db, e.observationIds, IsObservation).None?;
    assert forall id :: Covers(db, e.observationIds, id) <==> ObservedBy(db, e, id);
  }

  // ------------------------------------------------------------------- saves

  /** The references, kinds and times of a record are in order. */
  predicate Accepts(db: Db, b: Body) {
    match b
    case Criterion(_, _) => true
    case Application(u) => NamesStored(db, u) && NamesFit(db, u) && InOrder(db, u)
    case Observation(_, _, _, _, _, _, _) => ObservedStored(db, b) && ObservedFits(db, b) && ObservedLater(db, b)
    case Evaluation(_, _, _, _, _, _, _) => JudgedStored(db, b) && JudgedFits(db, b) && JudgedLater(db, b)
  }

  /** A stored application bears the key. */
  ghost predicate KeyUsed(db: Db, key: string) {
    exists id :: HasApplication(db, id) && db.records[id].body.usage.key == key
  }

  /**
   * Over every run, a save adds its record, and only that, exactly when the record is in order, its id
   * is free, and no stored application bears its key. An application under a used key is answered by
   * the stored one with the same payload, or refused when the payloads differ. Nothing else changes the store.
   */
  lemma SavesExactlyWhen(ops: seq<Op>, r: Record)
    ensures
      var db := Run(EMPTY_DB, ops);
      var s := Save(db, r);
      var repeated := r.body.Application? && KeyUsed(db, r.body.usage.key);
      && (s.db != db <==> !repeated && Accepts(db, r.body) && r.id !in db.records)
      && (s.db != db ==> s.result == Ok(r) && s.db.records == db.records[r.id := r] && s.db.experience == db.experience)
      && (s.db == db && s.result.Ok? ==>
            repeated && s.result.value.id in db.records && s.result.value == db.records[s.result.value.id]
            && s.result.value.body == r.body)
      && (!repeated && Accepts(db, r.body) && r.id in db.records ==>
            s.result == Err(if r.body.Application? then IdempotencyConflict else DuplicateRecord))
      && (repeated ==> forall id :: HasApplication(db, id) && db.records[id].body.usage.key == r.body.usage.key ==>
            s.result == if db.records[id].body == r.body then Ok(db.records[id]) else Err(IdempotencyConflict))
  {
    var db := Run(EMPTY_DB, ops);
    RunKeepsInv(EMPTY_DB, ops);
    AcceptsExactlyWhen(db, r);
    if r.body.Application? { KeyMeans(db, r.body.usage.key); }
    assert r.id in db.records ==> RecordOk(db, r.id);
  }

  lemma AcceptsExactlyWhen(db: Db, r: Record)
    ensures ContractError(db, r).None? <==> Accepts(db, r.body)
  {
    match r.body
    case Criterion(_, _) =>
    case Application(u) => ApplicationAccepted(db, u);
    case Observation(_, _, _, _, _, _, _) => ObservationAccepted(db, r.body);
    case Evaluation(_, _, _, _, _, _, _) => EvaluationAccepted(db, r.body);
  }

  lemma KeyMeans(db: Db, key: string)
    requires Inv(db)
    ensures key in db.keys <==> KeyUsed(db, key)
    ensures forall id :: HasApplication(db, id) && db.records[id].body.usage.key == key ==>
      key in db.keys && db.keys[key] == Binding(db.records[id].body.usage, id) && db.records[id].id == id
  {
    if key in db.keys {
      assert BindingOk(db, key);
      assert HasApplication(db, db.keys[key].recordId);
    }
    forall id | HasApplication(db, id) ensures RecordOk(db, id) { assert RecordOk(db, id); }
  }

  /** An experience record is saved exactly under a free id with stored references. */
  lemma SavesExperienceExactlyWhen(db: Db, id: string, x: Experience)
    ensures
      var (s, free) := (SaveExperience(db, id, x),
                        id !in db.experience && forall r :: r in x.refs ==> r in db.experience);
      && s.records == db.records && s.keys == db.keys
      && s.experience == if free then db.experience[id := x] else db.experience
  {
  }

  /** An experience record is deleted exactly when it is stored and no other one refers to it. */
  lemma DeletesExactlyWhen(db: Db, id: string)
    ensures
      var (s, free) := (DeleteExperience(db, id),
                        forall other :: other in db.experience && other != id ==> id !in db.experience[other].refs);
      && s.records == db.records && s.keys == db.keys
      && s.experience == if id in db.experience && free then db.experience - {id} else db.experience
  {
  }
}
