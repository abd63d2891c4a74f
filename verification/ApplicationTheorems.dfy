/** Causal order and idempotency of lesson applications, over every run of the stores. */
module ApplicationTheorems {
  import opened Base
  import opened Applications

  // ------------------------------------------------- what records alone keep

  /** What the other stored records say about a stored record; no experience record enters. */
  ghost predicate RecordOk(db: Db, id: string)
    requires id in db.records
  {
    var r := db.records[id];
    && r.id == id && ValidRecord(r)
    && match r.body
       case Criterion(_, _) => true
       case Application(u) =>
         && RequireKind(db, u.criterionId, IsCriterion).None?
         && u.key in db.keys && db.keys[u.key] == Binding(u, id)
       case Observation(_, _, _, _, _, _, _) => ObservationOk(db, r.body)
       case Evaluation(_, _, _, _, _, _, _) => EvaluationOk(db, r.body)
  }

  ghost predicate ObservationOk(db: Db, o: Body)
    requires o.Observation?
  {
    && RequireKinds(db, o.applicationIds, IsApplication).None?
    && CoverageError(db, o.applicationIds, o).None?
    && (o.supersedesObservation.Some? ==>
          && RequireKind(db, o.supersedesObservation.value, IsObservation).None?
          && db.records[o.supersedesObservation.value].body.actionId == o.actionId
          && db.records[o.supersedesObservation.value].body.observedAt <= o.observedAt)
  }

  ghost predicate EvaluationOk(db: Db, e: Body)
    requires e.Evaluation?
  {
    && RequireKind(db, e.criterionId, IsCriterion).None?
    && RequireKinds(db, e.evaluatedIds, IsApplication).None?
    && RequireKinds(db, e.observationIds, IsObservation).None?
    && CriterionMatches(db, e)
    && (e.observationIds != [] ==> forall id :: id in e.evaluatedIds ==> Covers(db, e.observationIds, id))
    && (forall id :: id in e.observationIds ==> db.records[id].body.observedAt <= e.evaluatedAt)
    && (e.supersedesEvaluation.Some? ==>
          && RequireKind(db, e.supersedesEvaluation.value, IsEvaluation).None?
          && db.records[e.supersedesEvaluation.value].body.criterionId == e.criterionId
          && db.records[e.supersedesEvaluation.value].body.evaluatedIds == e.evaluatedIds
          && db.records[e.supersedesEvaluation.value].body.evaluatedAt <= e.evaluatedAt)
  }

  ghost predicate BindingOk(db: Db, key: string)
    requires key in db.keys
  {
    var b := db.keys[key];
    && b.recordId in db.records && db.records[b.recordId].body == Application(b.fingerprint) && b.fingerprint.key == key
  }

  ghost predicate Inv(db: Db) {
    && (forall id {:trigger RecordOk(db, id)} :: id in db.records ==> RecordOk(db, id))
    && (forall key {:trigger BindingOk(db, key)} :: key in db.keys ==> BindingOk(db, key))
  }

  /** More records, and the old ones as they were. */
  ghost predicate Extends(db: Db, db': Db) {
    && (forall id :: id in db.records ==> id in db'.records && db'.records[id] == db.records[id])
    && (forall key :: key in db.keys ==> key in db'.keys && db'.keys[key] == db.keys[key])
  }

  lemma RecordStaysOk(db: Db, db': Db, id: string)
    requires Extends(db, db') && id in db.records && RecordOk(db, id)
    ensures RecordOk(db', id)
  {
    var b := db.records[id].body;
    if b.Evaluation? && b.observationIds != [] {
      forall a | a in b.evaluatedIds ensures Covers(db', b.observationIds, a) {
        assert Covers(db, b.observationIds, a);
      }
    }
  }

  lemma InsertedIsOk(db: Db, r: Record)
    requires ValidRecord(r) && r.id !in db.records && Save(db, r) == Step(Insert(db, r), Ok(r))
    requires ContractError(db, r).None? && (r.body.Application? ==> r.body.usage.key !in db.keys)
    ensures Extends(db, Insert(db, r)) && RecordOk(Insert(db, r), r.id)
  {
    var (b, db') := (r.body, Insert(db, r));
    if b.Evaluation? && b.observationIds != [] {
      forall a | a in b.evaluatedIds ensures Covers(db', b.observationIds, a) {
        assert Covers(db, b.observationIds, a);
      }
    }
  }

  lemma ApplyKeepsInv(db: Db, op: Op)
    requires Inv(db)
    ensures Inv(Apply(db, op)) && Extends(db, Apply(db, op))
  {
    var db' := Apply(db, op);
    if db'.records != db.records {
      InsertedIsOk(db, op.record);
    }
    forall id | id in db'.records ensures RecordOk(db', id) {
      if id in db.records {
        assert RecordOk(db, id);
        RecordStaysOk(db, db', id);
      }
    }
    forall key | key in db'.keys ensures BindingOk(db', key) {
      if key in db.keys { assert BindingOk(db, key); }
    }
  }

  lemma {:induction false} RunKeepsInv(db: Db, ops: seq<Op>)
    requires Inv(db)
    ensures Inv(Run(db, ops)) && Extends(db, Run(db, ops))
    decreases |ops|
  {
    if ops != [] {
      ApplyKeepsInv(db, ops[0]);
      RunKeepsInv(Apply(db, ops[0]), ops[1..]);
    }
  }

  // -------------------------------------------------------------- idempotency

  /** Idempotency keys and stored applications correspond one to one, whatever else happens. */
  lemma KeysAndApplicationsCorrespond(ops: seq<Op>)
    ensures
      var db := Run(EMPTY_DB, ops);
      && (forall id :: id in db.records && db.records[id].body.Application? ==>
            var u := db.records[id].body.usage;
            u.key in db.keys && db.keys[u.key] == Binding(u, id))
      && (forall key :: key in db.keys ==>
            var id := db.keys[key].recordId;
            id in db.records && db.records[id].body.Application? && db.records[id].body.usage.key == key)
      && (forall a, b :: a in db.records && b in db.records && db.records[a].body.Application?
            && db.records[b].body.Application? && db.records[a].body.usage.key == db.records[b].body.usage.key
            ==> a == b)
  {
    RunKeepsInv(EMPTY_DB, ops);
    var db := Run(EMPTY_DB, ops);
    assert forall id :: id in db.records ==> RecordOk(db, id);
    assert forall key :: key in db.keys ==> BindingOk(db, key);
  }

  /**
   * Retrying a saved application, at any time later and under any id, returns the stored record and
   * changes nothing; with any other payload under its key it is refused.
   */
  lemma SavedApplicationReplays(before: seq<Op>, r: Record, after: seq<Op>, retry: Record)
    requires r.body.Application? && ValidRecord(r) && Save(Run(EMPTY_DB, before), r).result == Ok(r)
    requires retry.body.Application? && retry.body.usage.key == r.body.usage.key
    ensures
      var db := Run(Save(Run(EMPTY_DB, before), r).db, after);
      && Save(db, retry).db == db
      && Save(db, retry).result
         == if retry.body.usage == r.body.usage then Ok(r) else Err(IdempotencyConflict)
  {
    var db0 := Run(EMPTY_DB, before);
    RunKeepsInv(EMPTY_DB, before);
    assert Apply(db0, OpSave(r)) == Save(db0, r).db;
    ApplyKeepsInv(db0, OpSave(r));
    var db1 := Save(db0, r).db;
    RunKeepsInv(db1, after);
    SavedIsBound(db0, r);
  }

  lemma SavedIsBound(db: Db, r: Record)
    requires Inv(db) && r.body.Application? && ValidRecord(r) && Save(db, r).result == Ok(r)
    ensures
      var db' := Save(db, r).db;
      && r.id in db'.records && db'.records[r.id] == r
      && r.body.usage.key in db'.keys && db'.keys[r.body.usage.key] == Binding(r.body.usage, r.id)
  {
    if r.body.usage.key in db.keys {
      var b := db.keys[r.body.usage.key];
      assert BindingOk(db, r.body.usage.key);
      assert RecordOk(db, b.recordId);
    }
  }

  // -------------------------------------------------------------- causal order

  /** The times of an application against the experience records that it cites. */
  ghost predicate Timely(db: Db, u: Usage) {
    && CitedBy(u) <= db.experience.Keys
    && u.criterionId in db.records && db.records[u.criterionId].body.Criterion?
    && db.records[u.criterionId].body.fixedAt <= db.experience[u.queryId].createdAt
    && db.experience[u.queryId].createdAt <= db.experience[u.retrievalId].createdAt
    && (forall x :: x in TimedBy(u) ==> db.experience[x].createdAt <= u.appliedAt)
  }

  ghost predicate AllTimely(db: Db) {
    forall id :: id in db.records && db.records[id].body.Application? ==> Timely(db, db.records[id].body.usage)
  }

  /** The operation deletes an experience record that a stored application cites. */
  ghost predicate DeletesCited(db: Db, op: Op) {
    && op.OpDelete? && DeleteExperience(db, op.id) != db
    && exists id :: id in db.records && db.records[id].body.Application? && op.id in CitedBy(db.records[id].body.usage)
  }

  lemma SavedIsTimely(db: Db, u: Usage)
    requires ApplicationError(db, u).None?
    ensures Timely(db, u)
  {
    var ids := [u.queryId, u.retrievalId, u.actionId, u.environmentId];
    assert ids[0] in ids && ids[1] in ids && ids[2] in ids && ids[3] in ids;
  }

  /** A step keeps all applications timely exactly unless it deletes a record that one of them cites. */
  lemma StepKeepsTimelyExactlyWhen(db: Db, op: Op)
    requires Inv(db) && AllTimely(db)
    ensures AllTimely(Apply(db, op)) <==> !DeletesCited(db, op)
  {
    var db' := Apply(db, op);
    ApplyKeepsInv(db, op);
    if DeletesCited(db, op) {
      var id :| id in db.records && db.records[id].body.Application? && op.id in CitedBy(db.records[id].body.usage);
      assert op.id !in db'.experience;
      assert !Timely(db', db'.records[id].body.usage);
    } else {
      forall id | id in db'.records && db'.records[id].body.Application? ensures Timely(db', db'.records[id].body.usage) {
        TimelyStays(db, op, id);
      }
    }
  }

  lemma TimelyStays(db: Db, op: Op, id: string)
    requires Inv(db) && AllTimely(db) && !DeletesCited(db, op)
    requires id in Apply(db, op).records && Apply(db, op).records[id].body.Application?
    ensures Timely(Apply(db, op), Apply(db, op).records[id].body.usage)
  {
    var db' := Apply(db, op);
    if id in db.records {
      assert RecordOk(db, id) && Timely(db, db.records[id].body.usage);
      assert db'.records[id] == db.records[id];
      if op.OpDelete? { assert op.id in CitedBy(db.records[id].body.usage) ==> db' == db; }
    } else {
      SavedIsTimely(db, op.record.body.usage);
    }
  }

  /** No step of the run deletes a record that is cited at that moment. */
  ghost predicate KeepsCited(db: Db, ops: seq<Op>)
    decreases |ops|
  {
    ops != [] ==> !DeletesCited(db, ops[0]) && KeepsCited(Apply(db, ops[0]), ops[1..])
  }

  lemma {:induction false} RunKeepsTimely(db: Db, ops: seq<Op>)
    requires Inv(db) && AllTimely(db) && KeepsCited(db, ops)
    ensures AllTimely(Run(db, ops))
    decreases |ops|
  {
    if ops != [] {
      StepKeepsTimelyExactlyWhen(db, ops[0]);
      ApplyKeepsInv(db, ops[0]);
      RunKeepsTimely(Apply(db, ops[0]), ops[1..]);
    }
  }

  /** Every state of the run keeps all applications timely exactly when no step deletes a cited record. */
  lemma {:induction false} RunTimelyExactlyWhen(db: Db, ops: seq<Op>)
    requires Inv(db) && AllTimely(db)
    ensures (forall n :: 0 <= n <= |ops| ==> AllTimely(Run(db, ops[..n]))) <==> KeepsCited(db, ops)
    decreases |ops|
  {
    if ops != [] {
      var next := Apply(db, ops[0]);
      StepKeepsTimelyExactlyWhen(db, ops[0]);
      ApplyKeepsInv(db, ops[0]);
      PrefixesOf(db, ops);
      assert Run(db, ops[..1]) == next;
      if AllTimely(next) {
        RunTimelyExactlyWhen(next, ops[1..]);
        if KeepsCited(next, ops[1..]) {
          forall n | 0 <= n <= |ops| ensures AllTimely(Run(db, ops[..n])) {
            if n > 0 { assert Run(db, ops[..n]) == Run(next, ops[1..][..n - 1]); }
          }
        } else {
          var n :| 0 <= n <= |ops[1..]| && !AllTimely(Run(next, ops[1..][..n]));
          assert Run(db, ops[..n + 1]) == Run(next, ops[1..][..n]);
        }
      }
    } else {
      assert ops[..0] == [];
    }
  }

  /** A prefix of a run is its first step and a prefix of the rest. */
  lemma PrefixesOf(db: Db, ops: seq<Op>)
    requires ops != []
    ensures forall n :: 0 < n <= |ops| ==> Run(db, ops[..n]) == Run(Apply(db, ops[0]), ops[1..][..n - 1])
    ensures Run(db, ops[..1]) == Apply(db, ops[0])
  {
    forall n | 0 < n <= |ops| ensures Run(db, ops[..n]) == Run(Apply(db, ops[0]), ops[1..][..n - 1]) {
      assert ops[..n][1..] == ops[1..][..n - 1];
    }
    assert ops[1..][..0] == [];
  }

  // ---------------------------------------------- the order of what is present

  /** The recorded times of an application are in order, as far as the cited records are present. */
  ghost predicate InOrder(db: Db, u: Usage)
    requires u.criterionId in db.records && db.records[u.criterionId].body.Criterion?
  {
    var (x, fixed) := (db.experience, db.records[u.criterionId].body.fixedAt);
    && (u.queryId in x ==> fixed <= x[u.queryId].createdAt)
    && (u.queryId in x && u.retrievalId in x ==> x[u.queryId].createdAt <= x[u.retrievalId].createdAt)
    && (forall id :: id in TimedBy(u) && id in x ==> x[id].createdAt <= u.appliedAt)
  }

  ghost predicate AllInOrder(db: Db)
    requires Inv(db)
  {
    forall id :: id in db.records && db.records[id].body.Application? ==>
      RecordOk(db, id) && InOrder(db, db.records[id].body.usage)
  }

  /** A time at which record `id` would not fit the application. */
  predicate OutOfBounds(db: Db, u: Usage, id: string, time: Instant)
    requires u.criterionId in db.records && db.records[u.criterionId].body.Criterion?
  {
    var x := db.experience;
    && id in TimedBy(u)
    && (|| time > u.appliedAt
        || (id == u.queryId && time < db.records[u.criterionId].body.fixedAt)
        || (id == u.queryId && u.retrievalId in x && x[u.retrievalId].createdAt < time)
        || (id == u.retrievalId && u.queryId in x && time < x[u.queryId].createdAt))
  }

  /** The operation saves a missing record that a stored application cites, at a time that does not fit. */
  ghost predicate SavesOutOfBounds(db: Db, op: Op)
    requires Inv(db)
  {
    && op.OpSaveExperience? && op.id !in db.experience && op.x.refs <= db.experience.Keys
    && exists k :: k in db.records && db.records[k].body.Application? && RecordOk(db, k)
         && OutOfBounds(db, db.records[k].body.usage, op.id, op.x.createdAt)
  }

  lemma SavedIsInOrder(db: Db, u: Usage)
    requires ApplicationError(db, u).None?
    ensures RequireKind(db, u.criterionId, IsCriterion).None? && InOrder(db, u)
  {
    SavedIsTimely(db, u);
  }

  /** One application across one step. */
  lemma InOrderStays(db: Db, op: Op, id: string)
    requires Inv(db) && AllInOrder(db) && Inv(Apply(db, op)) && Extends(db, Apply(db, op))
    requires id in Apply(db, op).records && Apply(db, op).records[id].body.Application?
    ensures RecordOk(Apply(db, op), id)
    ensures
      InOrder(Apply(db, op), Apply(db, op).records[id].body.usage) <==>
        !(&& op.OpSaveExperience? && op.id !in db.experience && op.x.refs <= db.experience.Keys
          && id in db.records && RecordOk(db, id) && OutOfBounds(db, db.records[id].body.usage, op.id, op.x.createdAt))
  {
    var db' := Apply(db, op);
    assert RecordOk(db', id);
    if id in db.records {
      assert RecordOk(db, id) && InOrder(db, db.records[id].body.usage);
    } else {
      SavedIsInOrder(db, op.record.body.usage);
    }
  }

  /**
   * A step keeps the recorded order of all applications exactly unless it saves a missing record
   * that one of them cites at a time outside its bounds. Deleting a cited record alone breaks no order.
   */
  lemma StepKeepsOrderExactlyWhen(db: Db, op: Op)
    requires Inv(db) && AllInOrder(db)
    ensures Inv(Apply(db, op)) && (AllInOrder(Apply(db, op)) <==> !SavesOutOfBounds(db, op))
  {
    var db' := Apply(db, op);
    ApplyKeepsInv(db, op);
    forall id | id in db'.records && db'.records[id].body.Application? ensures RecordOk(db', id) {
      InOrderStays(db, op, id);
    }
    if SavesOutOfBounds(db, op) {
      var k :| k in db.records && db.records[k].body.Application? && RecordOk(db, k)
        && OutOfBounds(db, db.records[k].body.usage, op.id, op.x.createdAt);
      InOrderStays(db, op, k);
    } else {
      forall id | id in db'.records && db'.records[id].body.Application?
        ensures RecordOk(db', id) && InOrder(db', db'.records[id].body.usage)
      {
        InOrderStays(db, op, id);
      }
    }
  }

  /** No step of the run saves a cited record out of its bounds. */
  ghost predicate StaysInBounds(db: Db, ops: seq<Op>)
    requires Inv(db)
    decreases |ops|
  {
    ops != [] ==>
      !SavesOutOfBounds(db, ops[0])
      && Inv(Apply(db, ops[0])) && StaysInBounds(Apply(db, ops[0]), ops[1..])
  }

  /** In order after every prefix of the run. */
  ghost predicate OrderedThroughout(db: Db, ops: seq<Op>) {
    forall n :: 0 <= n <= |ops| ==> Inv(Run(db, ops[..n])) && AllInOrder(Run(db, ops[..n]))
  }

  /** The recorded order holds throughout a run exactly when no step saves a cited record out of bounds. */
  lemma {:induction false} RunOrderedExactlyWhen(db: Db, ops: seq<Op>)
    requires Inv(db) && AllInOrder(db)
    ensures OrderedThroughout(db, ops) <==> StaysInBounds(db, ops)
    decreases |ops|
  {
    if ops != [] {
      var next := Apply(db, ops[0]);
      StepKeepsOrderExactlyWhen(db, ops[0]);
      PrefixesOf(db, ops);
      if AllInOrder(next) {
        RunOrderedExactlyWhen(next, ops[1..]);
        if StaysInBounds(next, ops[1..]) {
          forall n | 0 <= n <= |ops| ensures Inv(Run(db, ops[..n])) && AllInOrder(Run(db, ops[..n])) {
            if n > 0 { assert Run(db, ops[..n]) == Run(next, ops[1..][..n - 1]); }
          }
        } else {
          var n :| 0 <= n <= |ops[1..]| && !(Inv(Run(next, ops[1..][..n])) && AllInOrder(Run(next, ops[1..][..n])));
          assert Run(db, ops[..n + 1]) == Run(next, ops[1..][..n]);
        }
      } else {
        assert Run(db, ops[..1]) == next;
      }
    } else {
      assert ops[..0] == [];
    }
  }

  /** An observation in the list that covers the application, made between application and evaluation. */
  ghost predicate ObservedBetween(db: Db, e: Body, o: string, applicationId: string)
    requires e.Evaluation? && applicationId in db.records && db.records[applicationId].body.Application?
  {
    && o in e.observationIds && o in db.records && db.records[o].body.Observation?
    && applicationId in db.records[o].body.applicationIds
    && db.records[o].body.actionId == db.records[applicationId].body.usage.actionId
    && db.records[applicationId].body.usage.appliedAt <= db.records[o].body.observedAt <= e.evaluatedAt
  }

  /** The part of the causal order that lies between application and evaluation holds in every run. */
  lemma DeterminateIsObserved(ops: seq<Op>, id: string, applicationId: string)
    requires
      var db := Run(EMPTY_DB, ops);
      && id in db.records && db.records[id].body.Evaluation? && !db.records[id].body.result.Indeterminate?
      && applicationId in db.records[id].body.evaluatedIds
    ensures
      var db := Run(EMPTY_DB, ops);
      var e := db.records[id].body;
      && applicationId in db.records && db.records[applicationId].body.Application?
      && db.records[applicationId].body.usage.criterionId == e.criterionId
      && exists o :: ObservedBetween(db, e, o, applicationId)
  {
    RunKeepsInv(EMPTY_DB, ops);
    ObservedOnce(Run(EMPTY_DB, ops), id, applicationId);
  }

  lemma ObservedOnce(db: Db, id: string, applicationId: string)
    requires Inv(db) && id in db.records && db.records[id].body.Evaluation? && !db.records[id].body.result.Indeterminate?
    requires applicationId in db.records[id].body.evaluatedIds
    ensures
      var e := db.records[id].body;
      && applicationId in db.records && db.records[applicationId].body.Application?
      && db.records[applicationId].body.usage.criterionId == e.criterionId
      && exists o :: ObservedBetween(db, e, o, applicationId)
  {
    var e := db.records[id].body;
    assert RecordOk(db, id);
    assert Covers(db, e.observationIds, applicationId);
    var o :| o in e.observationIds && applicationId in db.records[o].body.applicationIds;
    assert RecordOk(db, o);
    assert ObservedBetween(db, e, o, applicationId);
  }

  /**
   * In every run that deletes no cited experience record, each determinate evaluation is causally
   * ordered for each application it covers: criterion fixed, query, retrieval, application,
   * observation, evaluation; and the criterion is the application's own.
   */
  lemma EvaluationsAreCausal(ops: seq<Op>, id: string, applicationId: string)
    requires KeepsCited(EMPTY_DB, ops)
    requires
      var db := Run(EMPTY_DB, ops);
      && id in db.records && db.records[id].body.Evaluation? && !db.records[id].body.result.Indeterminate?
      && applicationId in db.records[id].body.evaluatedIds
    ensures
      var db := Run(EMPTY_DB, ops);
      var e := db.records[id].body;
      && applicationId in db.records && db.records[applicationId].body.Application?
      && var u := db.records[applicationId].body.usage;
         && e.criterionId == u.criterionId && Timely(db, u)
         && db.records[e.criterionId].body.fixedAt <= db.experience[u.queryId].createdAt
              <= db.experience[u.retrievalId].createdAt <= u.appliedAt
         && exists o :: ObservedBetween(db, e, o, applicationId)
  {
    RunKeepsInv(EMPTY_DB, ops);
    RunKeepsTimely(EMPTY_DB, ops);
    var db := Run(EMPTY_DB, ops);
    ObservedOnce(db, id, applicationId);
    var u := db.records[applicationId].body.usage;
    assert Timely(db, u) && u.retrievalId in TimedBy(u);
  }

  /**
   * In every run that saves no cited record out of bounds, whatever it deletes, each determinate
   * evaluation is in order for each application it covers, as far as the cited records are present.
   */
  lemma EvaluationsStayInOrder(ops: seq<Op>, id: string, applicationId: string)
    requires Inv(EMPTY_DB) && StaysInBounds(EMPTY_DB, ops)
    requires
      var db := Run(EMPTY_DB, ops);
      && id in db.records && db.records[id].body.Evaluation? && !db.records[id].body.result.Indeterminate?
      && applicationId in db.records[id].body.evaluatedIds
    ensures
      var db := Run(EMPTY_DB, ops);
      var e := db.records[id].body;
      && applicationId in db.records && db.records[applicationId].body.Application?
      && var u := db.records[applicationId].body.usage;
         && e.criterionId == u.criterionId && RequireKind(db, u.criterionId, IsCriterion).None? && InOrder(db, u)
         && exists o :: ObservedBetween(db, e, o, applicationId)
  {
    RunKeepsInv(EMPTY_DB, ops);
    RunOrderedExactlyWhen(EMPTY_DB, ops);
    assert ops[..|ops|] == ops;
    ObservedOnce(Run(EMPTY_DB, ops), id, applicationId);
  }

  /**
   * The experience store lets a cited query be deleted when no experience record refers to it. Saved
   * again later, it breaks the order of an application that is stored already.
   */
  lemma ReplacedQueryBreaksOrder(ops: seq<Op>, id: string, late: Instant)
    requires
      var db := Run(EMPTY_DB, ops);
      && id in db.records && db.records[id].body.Application?
      && var u := db.records[id].body.usage;
         && u.queryId in db.experience && u.retrievalId in db.experience && u.queryId != u.retrievalId
         && db.experience[u.retrievalId].createdAt < late
         && forall other :: other in db.experience ==> u.queryId !in db.experience[other].refs
    ensures
      var db := Run(EMPTY_DB, ops);
      var u := db.records[id].body.usage;
      var db' := Apply(Apply(db, OpDelete(u.queryId)), OpSaveExperience(u.queryId, Experience(false, late, {})));
      && id in db'.records && db'.records[id] == db.records[id]
      && u.queryId in db'.experience && u.retrievalId in db'.experience
      && db'.experience[u.queryId].createdAt > db'.experience[u.retrievalId].createdAt
      && !AllTimely(db')
  {
    var db := Run(EMPTY_DB, ops);
    var u := db.records[id].body.usage;
    var db' := Apply(Apply(db, OpDelete(u.queryId)), OpSaveExperience(u.queryId, Experience(false, late, {})));
    assert !Timely(db', db'.records[id].body.usage);
  }

  // ------------------------------------------------------------ a failing run

  const USAGE := Usage("lesson", "query", "retrieval", "action", "criterion", "environment", None, None, 4, "key", "public")

  const CRITERION := Record("criterion", 0, Criterion("definition", 0))

  const APPLICATION := Record("application", 4, Application(USAGE))

  const OBSERVATION :=
    Record("observation", 5, Observation(["application"], "action", 5, map["metric" := "1"], [], [], None))

  const EVALUATION :=
    Record("evaluation", 6, Evaluation("criterion", ["application"], ["observation"], Met, {}, 6, None))

  /** Everything that the application cites. */
  const FACTS: seq<Op> := [
    OpSaveExperience("lesson", Experience(true, 0, {})),
    OpSaveExperience("query", Experience(false, 1, {})),
    OpSaveExperience("retrieval", Experience(false, 2, {})),
    OpSaveExperience("action", Experience(false, 3, {})),
    OpSaveExperience("environment", Experience(false, 3, {}))]

  /** Fix a criterion; apply, observe and evaluate. */
  const JUDGED: seq<Op> := [OpSave(CRITERION), OpSave(APPLICATION), OpSave(OBSERVATION), OpSave(EVALUATION)]

  /** Delete the query, and save it again, too late. */
  const REPLACED: seq<Op> := [OpDelete("query"), OpSaveExperience("query", Experience(false, 9, {}))]

  lemma {:induction false} RunSnoc(db: Db, ops: seq<Op>, op: Op)
    ensures Run(db, ops + [op]) == Apply(Run(db, ops), op)
    decreases |ops|
  {
    if ops == [] {
      assert [op][1..] == [] && ops + [op] == [op];
    } else {
      RunSnoc(Apply(db, ops[0]), ops[1..], op);
      assert (ops + [op])[1..] == ops[1..] + [op];
    }
  }

  lemma RunFour(db: Db, a: Op, b: Op, c: Op, d: Op)
    ensures Run(db, [a, b, c, d]) == Apply(Apply(Apply(Apply(db, a), b), c), d)
  {
    assert Run(db, []) == db;
    RunSnoc(db, [], a);
    RunSnoc(db, [a], b);
    RunSnoc(db, [a, b], c);
    RunSnoc(db, [a, b, c], d);
    assert [] + [a] == [a] && [a] + [b] == [a, b] && [a, b] + [c] == [a, b, c] && [a, b, c] + [d] == [a, b, c, d];
  }

  lemma {:induction false} RunConcat(db: Db, a: seq<Op>, b: seq<Op>)
    ensures Run(db, a + b) == Run(Run(db, a), b)
    decreases |a|
  {
    if a == [] {
      assert a + b == b;
    } else {
      RunConcat(Apply(db, a[0]), a[1..], b);
      assert (a + b)[1..] == a[1..] + b;
    }
  }

  const KNOWN: map<string, Experience> :=
    map["lesson" := Experience(true, 0, {}), "query" := Experience(false, 1, {}),
        "retrieval" := Experience(false, 2, {}), "action" := Experience(false, 3, {}),
        "environment" := Experience(false, 3, {})]

  lemma FactsAreKnown()
    ensures Run(EMPTY_DB, FACTS) == Db(KNOWN, map[], map[])
  {
    RunFour(EMPTY_DB, FACTS[0], FACTS[1], FACTS[2], FACTS[3]);
    RunSnoc(EMPTY_DB, FACTS[..4], FACTS[4]);
    assert FACTS[..4] == [FACTS[0], FACTS[1], FACTS[2], FACTS[3]] && FACTS == FACTS[..4] + [FACTS[4]];
  }

  lemma ApplicationIsAccepted(db: Db)
    requires db == Db(KNOWN, map["criterion" := CRITERION], map[])
    ensures Apply(db, OpSave(APPLICATION)) == Insert(db, APPLICATION)
  {
    assert ApplicationError(db, USAGE).None?;
  }

  lemma ObservationIsAccepted(db: Db)
    requires db.experience == KNOWN && "application" in db.records && db.records["application"] == APPLICATION
    requires "observation" !in db.records
    ensures Apply(db, OpSave(OBSERVATION)) == Insert(db, OBSERVATION)
  {
    assert ObservationError(db, OBSERVATION.body).None?;
  }

  lemma EvaluationIsAccepted(db: Db)
    requires "criterion" in db.records && db.records["criterion"] == CRITERION
    requires "application" in db.records && db.records["application"] == APPLICATION
    requires "observation" in db.records && db.records["observation"] == OBSERVATION
    requires "evaluation" !in db.records
    ensures Apply(db, OpSave(EVALUATION)) == Insert(db, EVALUATION)
  {
    var e := EVALUATION.body;
    assert "observation" in e.observationIds && Covers(db, e.observationIds, "application");
    assert EvaluationError(db, e).None?;
  }

  const RECORDS: map<string, Record> :=
    map["criterion" := CRITERION, "application" := APPLICATION, "observation" := OBSERVATION, "evaluation" := EVALUATION]

  lemma AllAreAccepted(db: Db)
    requires db == Db(KNOWN, map[], map[])
    ensures
      var d := Apply(Apply(Apply(Apply(db, OpSave(CRITERION)), OpSave(APPLICATION)), OpSave(OBSERVATION)), OpSave(EVALUATION));
      d.experience == KNOWN && d.records == RECORDS
  {
    var db1 := Apply(db, OpSave(CRITERION));
    assert db1 == Db(KNOWN, map["criterion" := CRITERION], map[]);
    ApplicationIsAccepted(db1);
    var db2 := Insert(db1, APPLICATION);
    ObservationIsAccepted(db2);
    EvaluationIsAccepted(Insert(db2, OBSERVATION));
  }

  lemma JudgedState()
    ensures Run(EMPTY_DB, FACTS + JUDGED).experience == KNOWN && Run(EMPTY_DB, FACTS + JUDGED).records == RECORDS
  {
    RunConcat(EMPTY_DB, FACTS, JUDGED);
    FactsAreKnown();
    var db := Run(EMPTY_DB, FACTS);
    RunFour(db, JUDGED[0], JUDGED[1], JUDGED[2], JUDGED[3]);
    AllAreAccepted(db);
  }

  lemma RunTwo(db: Db, a: Op, b: Op)
    ensures Run(db, [a, b]) == Apply(Apply(db, a), b)
  {
    assert Run(db, []) == db;
    RunSnoc(db, [], a);
    RunSnoc(db, [a], b);
    assert [] + [a] == [a] && [a] + [b] == [a, b];
  }

  lemma QueryIsReplaced(db: Db)
    requires db.experience == KNOWN
    ensures DeleteExperience(db, "query") != db
    ensures Run(db, REPLACED) == db.(experience := KNOWN["query" := Experience(false, 9, {})])
  {
    RunTwo(db, REPLACED[0], REPLACED[1]);
    assert DeleteExperience(db, "query") == db.(experience := KNOWN - {"query"});
    assert (KNOWN - {"query"})["query" := Experience(false, 9, {})] == KNOWN["query" := Experience(false, 9, {})];
  }

  lemma JudgedIsTimely(db: Db)
    requires db.experience == KNOWN && db.records == RECORDS
    ensures AllTimely(db) && DeletesCited(db, REPLACED[0])
  {
    assert forall id :: id in RECORDS && RECORDS[id].body.Application? ==> RECORDS[id].body == Application(USAGE);
    assert Timely(db, USAGE);
    assert db.records["application"].body == Application(USAGE) && "query" in CitedBy(USAGE);
    QueryIsReplaced(db);
  }

  /**
   * The causal order of a stored determinate evaluation can fail: in this run its query, deleted and
   * saved again, is later than the retrieval that it caused.
   */
  lemma CausalOrderCanFail()
    ensures
      var judged := Run(EMPTY_DB, FACTS + JUDGED);
      var db := Run(judged, REPLACED);
      && judged.records == db.records && AllTimely(judged) && !AllTimely(db)
      && "evaluation" in db.records && db.records["evaluation"] == EVALUATION
      && "application" in EVALUATION.body.evaluatedIds && !EVALUATION.body.result.Indeterminate?
      && CitedBy(USAGE) <= db.experience.Keys
      && db.experience["query"].createdAt > db.experience["retrieval"].createdAt
      && db.experience["query"].createdAt > EVALUATION.body.evaluatedAt
      && DeletesCited(judged, REPLACED[0])
  {
    JudgedState();
    var judged := Run(EMPTY_DB, FACTS + JUDGED);
    JudgedIsTimely(judged);
    QueryIsReplaced(judged);
    assert !Timely(Run(judged, REPLACED), Run(judged, REPLACED).records["application"].body.usage);
  }
}
