/** The application store as a mutable database (application_store.py). */
module ApplicationTables {
  import opened Base
  import M = Applications
  import opened ApplicationTheorems

  class ApplicationDatabase {
    var experience: map<string, M.Experience>
    var records: map<string, M.Record>
    var keys: map<string, M.Binding>

    ghost function Tables(): M.Db
      reads this
    {
      M.Db(experience, records, keys)
    }

    ghost predicate Valid()
      reads this
    {
      Inv(Tables())
    }

    constructor ()
      ensures Valid() && Tables() == M.EMPTY_DB
    {
      experience, records, keys := map[], map[], map[];
    }

    method LoadAll(ids: seq<string>, kind: M.Kind) returns (error: Option<M.AppError>)
      ensures error == M.RequireKinds(Tables(), ids, kind)
    {
      for i := 0 to |ids|
        invariant M.RequireKinds(Tables(), ids[i..], kind) == M.RequireKinds(Tables(), ids, kind)
      {
        assert ids[i..][0] == ids[i] && ids[i..][1..] == ids[i + 1..];
        if ids[i] !in records {
          return Some(M.MissingReference);
        }
        if M.KindOf(records[ids[i]].body) != kind {
          return Some(M.ContractReference);
        }
      }
      error := None;
    }

    method RequireAll(ids: seq<string>) returns (error: Option<M.AppError>)
      ensures error == M.RequireExperiences(Tables(), ids)
    {
      for i := 0 to |ids|
        invariant M.RequireExperiences(Tables(), ids[i..]) == M.RequireExperiences(Tables(), ids)
      {
        assert ids[i..][0] == ids[i] && ids[i..][1..] == ids[i + 1..];
        if ids[i] !in experience {
          return Some(M.MissingReference);
        }
      }
      error := None;
    }

    /** `_validate_observation`. */
    method ValidateObservation(o: M.Body) returns (error: Option<M.AppError>)
      requires o.Observation?
      ensures error == M.ObservationError(Tables(), o)
    {
      error := LoadAll(o.applicationIds, M.IsApplication);
      if error.Some? {
        return;
      }
      if o.actionId !in experience {
        return Some(M.MissingReference);
      }
      error := RequireAll(o.sourceIds + o.evidenceIds);
      if error.Some? {
        return Some(M.MissingReference);
      }
      error := CheckCoverage(o);
      if error.Some? || o.supersedesObservation.None? {
        return;
      }
      error := M.RequireKind(M.Db(experience, records, keys), o.supersedesObservation.value, M.IsObservation);
      if error.Some? {
        return;
      }
      var previous := records[o.supersedesObservation.value].body;
      if previous.actionId != o.actionId {
        return Some(M.ContractReference);
      }
      error := if previous.observedAt > o.observedAt then Some(M.TemporalContract) else None;
    }

    method CheckCoverage(o: M.Body) returns (error: Option<M.AppError>)
      requires o.Observation? && forall id :: id in o.applicationIds ==> id in records && records[id].body.Application?
      ensures error == M.CoverageError(Tables(), o.applicationIds, o)
    {
      var ids := o.applicationIds;
      for i := 0 to |ids|
        invariant M.CoverageError(Tables(), ids[i..], o) == M.CoverageError(Tables(), ids, o)
      {
        assert ids[i..][0] == ids[i] && ids[i..][1..] == ids[i + 1..];
        var u := records[ids[i]].body.usage;
        if u.actionId != o.actionId {
          return Some(M.ContractReference);
        }
        if u.appliedAt > o.observedAt {
          return Some(M.TemporalContract);
        }
      }
      error := None;
    }

    /** The set that `_validate_evaluation` builds: every application that some observation covers. */
    method CoveredIds(observationIds: seq<string>) returns (covered: set<string>)
      requires forall id :: id in observationIds ==> id in records && records[id].body.Observation?
      ensures forall a :: a in covered <==> M.Covers(Tables(), observationIds, a)
    {
      covered := {};
      for i := 0 to |observationIds|
        invariant forall a :: a in covered <==>
          exists k :: 0 <= k < i && a in records[observationIds[k]].body.applicationIds
      {
        assert observationIds[i] in observationIds;
        covered := covered + (set a | a in records[observationIds[i]].body.applicationIds);
      }
    }

    /** `_validate_evaluation`. */
    method ValidateEvaluation(e: M.Body) returns (error: Option<M.AppError>)
      requires e.Evaluation?
      ensures error == M.EvaluationError(Tables(), e)
    {
      error := M.RequireKind(M.Db(experience, records, keys), e.criterionId, M.IsCriterion);
      if error.Some? {
        return;
      }
      error := LoadAll(e.evaluatedIds, M.IsApplication);
      if error.Some? {
        return;
      }
      if exists id | id in e.evaluatedIds :: records[id].body.usage.criterionId != e.criterionId {
        return Some(M.ContractReference);
      }
      error := LoadAll(e.observationIds, M.IsObservation);
      if error.Some? {
        return;
      }
      var covered := CoveredIds(e.observationIds);
      if e.observationIds != [] && exists id | id in e.evaluatedIds :: id !in covered {
        return Some(M.ContractReference);
      }
      if exists id | id in e.observationIds :: records[id].body.observedAt > e.evaluatedAt {
        return Some(M.TemporalContract);
      }
      if e.supersedesEvaluation.Some? {
        error := ValidateCorrection(e);
      }
    }

    method ValidateCorrection(e: M.Body) returns (error: Option<M.AppError>)
      requires e.Evaluation? && e.supersedesEvaluation.Some?
      ensures error
        == if M.RequireKind(Tables(), e.supersedesEvaluation.value, M.IsEvaluation).Some? then
             M.RequireKind(Tables(), e.supersedesEvaluation.value, M.IsEvaluation)
           else
             var previous := records[e.supersedesEvaluation.value].body;
             if previous.criterionId != e.criterionId || previous.evaluatedIds != e.evaluatedIds
             then Some(M.ContractReference)
             else if previous.evaluatedAt > e.evaluatedAt then Some(M.TemporalContract)
             else None
    {
      error := M.RequireKind(M.Db(experience, records, keys), e.supersedesEvaluation.value, M.IsEvaluation);
      if error.Some? {
        return;
      }
      var previous := records[e.supersedesEvaluation.value].body;
      if previous.criterionId != e.criterionId || previous.evaluatedIds != e.evaluatedIds {
        return Some(M.ContractReference);
      }
      error := if previous.evaluatedAt > e.evaluatedAt then Some(M.TemporalContract) else None;
    }

    method ValidateContract(r: M.Record) returns (error: Option<M.AppError>)
      ensures error == M.ContractError(Tables(), r)
    {
      match r.body {
        case Criterion(_, _) => error := None;
        case Application(u) => error := M.ApplicationError(M.Db(experience, records, keys), u);
        case Observation(_, _, _, _, _, _, _) => error := ValidateObservation(r.body);
        case Evaluation(_, _, _, _, _, _, _) => error := ValidateEvaluation(r.body);
      }
    }

    /** `save`. */
    method Save(r: M.Record) returns (result: Result<M.Record, M.AppError>)
      requires Valid() && M.ValidRecord(r)
      modifies this`records, this`keys
      ensures Valid() && M.Step(Tables(), result) == M.Save(old(Tables()), r)
    {
      ApplyKeepsInv(Tables(), M.OpSave(r));
      if r.body.Application? {
        var existing := M.Existing(M.Db(experience, records, keys), r.body.usage);
        if existing.Err? {
          return Err(existing.error);
        }
        if existing.value.Some? {
          return Ok(existing.value.value);
        }
      }
      var error := ValidateContract(r);
      if error.Some? {
        return Err(error.value);
      }
      if r.id in records {
        return Err(if r.body.Application? then M.IdempotencyConflict else M.DuplicateRecord);
      }
      records := records[r.id := r];
      if r.body.Application? {
        keys := keys[r.body.usage.key := M.Binding(r.body.usage, r.id)];
      }
      result := Ok(r);
    }
  }
}
