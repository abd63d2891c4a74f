/** Decision traces over every run of the store form disjoint simple paths. */
module TraceTheorems {
  import opened Base
  import opened DecisionTraces

  // ------------------------------------------------------------------- paths

  /** The trace `k` links before `id`. */
  function Ancestor(db: Db, id: string, k: nat): Option<string> {
    if k == 0 then Some(id)
    else match Ancestor(db, id, k - 1)
      case None => None
      case Some(a) =>
        if a in db.records && db.records[a].TraceRecord? then db.records[a].trace.payload.supersedes else None
  }

  function Version(db: Db, id: string): nat
    requires id in db.records && db.records[id].TraceRecord?
  {
    db.records[id].trace.payload.version
  }

  /** `a` is a stored trace of the given version with the captured context of `id`. */
  ghost predicate Shares(db: Db, id: string, a: string, version: int)
    requires IsTrace(db, id)
  {
    && IsTrace(db, a) && Version(db, a) == version
    && db.records[a].trace.payload.context == db.records[id].trace.payload.context
  }

  lemma {:induction false} Walk(db: Db, id: string, k: nat)
    requires Inv(db) && IsTrace(db, id) && k <= Version(db, id)
    ensures
      var a := Ancestor(db, id, k);
      if k == Version(db, id) then a.None? else a.Some? && Shares(db, id, a.value, Version(db, id) - k)
  {
    if k == 0 {
      assert LinkOk(db, id);
    } else {
      Walk(db, id, k - 1);
      assert LinkOk(db, Ancestor(db, id, k - 1).value);
    }
  }

  /**
   * From a stored trace of version n, exactly n - 1 links lead to a trace of version 1, after which
   * the chain ends; every trace on the way is stored, one version lower, and of the same context.
   */
  lemma WalkReachesVersionOne(ops: seq<Op>, id: string, k: nat)
    requires IsTrace(Run(EMPTY_DB, ops), id) && k < Version(Run(EMPTY_DB, ops), id)
    ensures
      var db := Run(EMPTY_DB, ops);
      var n := Version(db, id);
      && Ancestor(db, id, k).Some? && Shares(db, id, Ancestor(db, id, k).value, n - k)
      && Ancestor(db, id, n - 1).Some? && Shares(db, id, Ancestor(db, id, n - 1).value, 1)
      && Ancestor(db, id, n).None?
  {
    var db := Run(EMPTY_DB, ops);
    RunKeepsInv(EMPTY_DB, ops);
    Walk(db, id, k);
    Walk(db, id, Version(db, id) - 1);
    Walk(db, id, Version(db, id));
  }

  /** No trace has two successors. */
  lemma SuccessorIsUnique(ops: seq<Op>, a: string, b: string)
    requires
      var db := Run(EMPTY_DB, ops);
      && IsTrace(db, a) && IsTrace(db, b)
      && db.records[a].trace.payload.supersedes.Some?
      && db.records[a].trace.payload.supersedes == db.records[b].trace.payload.supersedes
    ensures a == b
  {
    var db := Run(EMPTY_DB, ops);
    RunKeepsInv(EMPTY_DB, ops);
    SameSuccessor(db, a, b);
  }

  lemma SameSuccessor(db: Db, a: string, b: string)
    requires Inv(db) && IsTrace(db, a) && IsTrace(db, b)
    requires db.records[a].trace.payload.supersedes.Some?
    requires db.records[a].trace.payload.supersedes == db.records[b].trace.payload.supersedes
    ensures a == b
  {
    assert LinkOk(db, a) && LinkOk(db, b);
    assert OneSuccessor(db, a, b);
  }

  lemma {:induction false} CommonAncestor(db: Db, a: string, b: string, i: nat, j: nat)
    requires Inv(db) && IsTrace(db, a) && IsTrace(db, b) && i < Version(db, a) && j < Version(db, b) && i <= j
    requires Ancestor(db, a, i) == Ancestor(db, b, j)
    ensures Ancestor(db, b, j - i) == Some(a)
    decreases i
  {
    if i > 0 {
      Walk(db, a, i - 1);
      Walk(db, b, j - 1);
      Walk(db, a, i);
      SameSuccessor(db, Ancestor(db, a, i - 1).value, Ancestor(db, b, j - 1).value);
      CommonAncestor(db, a, b, i - 1, j - 1);
    }
  }

  /** Two paths that meet are one path: the trace of the lower version is an ancestor of the other. */
  lemma PathsAreDisjoint(ops: seq<Op>, a: string, b: string, i: nat, j: nat)
    requires
      var db := Run(EMPTY_DB, ops);
      && IsTrace(db, a) && IsTrace(db, b) && Version(db, a) <= Version(db, b)
      && i < Version(db, a) && j < Version(db, b) && Ancestor(db, a, i) == Ancestor(db, b, j)
    ensures
      var db := Run(EMPTY_DB, ops);
      && Ancestor(db, b, Version(db, b) - Version(db, a)) == Some(a)
      && (Version(db, a) == Version(db, b) ==> a == b)
  {
    var db := Run(EMPTY_DB, ops);
    RunKeepsInv(EMPTY_DB, ops);
    Walk(db, a, i);
    Walk(db, b, j);
    CommonAncestor(db, a, b, i, j);
  }

  // ------------------------------------------------------------- append only

  lemma StepKeepsTrace(db: Db, op: Op, id: string)
    requires Inv(db) && IsTrace(db, id)
    ensures IsTrace(Apply(db, op), id) && Apply(db, op).records[id] == db.records[id]
  {
    assert LinkOk(db, id);
  }

  /** A stored trace stays as it is, whatever is saved or deleted later. */
  lemma {:induction false} TracesAreForever(db: Db, ops: seq<Op>, id: string)
    requires Inv(db) && IsTrace(db, id)
    ensures IsTrace(Run(db, ops), id) && Run(db, ops).records[id] == db.records[id]
    decreases |ops|
  {
    if ops != [] {
      StepKeepsTrace(db, ops[0], id);
      ApplyKeepsInv(db, ops[0]);
      TracesAreForever(Apply(db, ops[0]), ops[1..], id);
    }
  }

  /** Everything a stored trace refers to is stored: policies, memories, outcome and predecessor. */
  lemma TraceReferencesExist(ops: seq<Op>, id: string)
    requires IsTrace(Run(EMPTY_DB, ops), id)
    ensures Run(EMPTY_DB, ops).records[id].References() <= Run(EMPTY_DB, ops).records.Keys
  {
    RunKeepsInv(EMPTY_DB, ops);
    assert RecordOk(Run(EMPTY_DB, ops), id);
  }

  // ---------------------------------------------------------- attach_outcome

  ghost predicate IsTail(db: Db, id: string) {
    forall other :: other in db.index ==> db.index[other].supersedes != Some(id)
  }

  ghost predicate BothStored(db: Db, t: Trace, outcome: Outcome) {
    && t.id in db.records && db.records[t.id] == TraceRecord(t)
    && outcome.id in db.records && db.records[outcome.id] == OutcomeRecord(outcome)
  }

  /** What a caller can check: the outcome is not earlier than the decision, and no id is the provisional one. */
  predicate Attachable(t: Trace, outcome: Outcome) {
    t.payload.context.decisionAt <= outcome.observedAt && PENDING_ID !in t.References() + {t.id, outcome.id}
  }

  /**
   * Attaching a stored outcome to a stored trace. A trace with this outcome is its own answer, and
   * one with another outcome is refused. An outcome-free trace yields a next link exactly when the
   * outcome is attachable. The store accepts the link exactly when the trace is a tail and the
   * derived id is free, or when this very link is stored already; otherwise it is a duplicate.
   */
  lemma AttachExactlyWhen(ops: seq<Op>, t: Trace, outcome: Outcome, derive: Deriver)
    requires BothStored(Run(EMPTY_DB, ops), t, outcome)
    ensures
      var db := Run(EMPTY_DB, ops);
      var next := AttachOutcome(t, outcome, derive);
      match t.payload.outcomeId
      case Some(other) => next == if other == outcome.id then Ok(t) else Err(OutcomeAlreadyAttached)
      case None =>
        && (next.Ok? <==> Attachable(t, outcome))
        && (next.Err? ==>
              next.error == if outcome.observedAt < t.payload.context.decisionAt then BuildError else ValueError)
        && (next.Ok? ==>
              Save(db, next.value).result
                == if next.value.id in db.records then
                     if db.records[next.value.id] == TraceRecord(next.value) then Ok(false) else Err(DuplicateRecord)
                   else if IsTail(db, t.id) then Ok(true) else Err(DuplicateRecord))
  {
    var db := Run(EMPTY_DB, ops);
    RunKeepsInv(EMPTY_DB, ops);
    if t.payload.outcomeId.None? {
      ProvisionalIsValid(db, t, outcome);
      if Attachable(t, outcome) {
        AttachIsNextLink(db, t, outcome, derive);
      }
    }
  }

  lemma ProvisionalIsValid(db: Db, t: Trace, outcome: Outcome)
    requires Inv(db) && BothStored(db, t, outcome) && t.payload.outcomeId.None?
    ensures ValidTrace(Trace(PENDING_ID, AttachedPayload(t, outcome))) <==> PENDING_ID !in t.References() + {t.id, outcome.id}
  {
    assert IsTrace(db, t.id) && LinkOk(db, t.id);
    var p := Trace(PENDING_ID, AttachedPayload(t, outcome));
    assert p.References() == t.References() + {t.id, outcome.id};
  }

  lemma AttachIsNextLink(db: Db, t: Trace, outcome: Outcome, derive: Deriver)
    requires Inv(db) && BothStored(db, t, outcome) && t.payload.outcomeId.None? && Attachable(t, outcome)
    ensures
      var next := AttachOutcome(t, outcome, derive);
      && next.Ok?
      && ProgressionError(db, next.value).None? && next.value.References() <= db.records.Keys
      && (next.value.id !in db.records ==> (IndexClash(db.index, next.value) <==> !IsTail(db, t.id)))
  {
    ProvisionalIsValid(db, t, outcome);
    assert IsTrace(db, t.id) && LinkOk(db, t.id) && RecordOk(db, t.id);
  }

  /** A decision at instant 2 of an allowed action, with the given memories. */
  function SampleTrace(memoryIds: set<string>): Trace {
    Trace("trace", Payload(Context("requester", "agent", "action", true, {"policy"}, memoryIds, 2, None, 2, {}, {},
                                   None, None, None), None, None, 1, 2))
  }

  /** A record, a trace that may cite it, and an outcome. */
  function SampleRun(record: string, memoryIds: set<string>, observedAt: Instant): seq<Op> {
    [OpSaveOther(OtherRecord("policy", {})), OpSaveOther(OtherRecord(record, {})), OpSave(SampleTrace(memoryIds)),
     OpSaveOther(OutcomeRecord(Outcome("outcome", {}, observedAt)))]
  }

  lemma SampleIsStored(record: string, memoryIds: set<string>, observedAt: Instant)
    requires record != "policy" && record != "trace" && record != "outcome" && memoryIds <= {record}
    ensures BothStored(Run(EMPTY_DB, SampleRun(record, memoryIds, observedAt)), SampleTrace(memoryIds),
                       Outcome("outcome", {}, observedAt))
  {
    var ops := SampleRun(record, memoryIds, observedAt);
    assert ops[1..][1..] == ops[2..] && ops[2..][1..] == ops[3..] && ops[3..][1..] == [];
    var d1 := Apply(EMPTY_DB, ops[0]);
    var d2 := Apply(d1, ops[1]);
    var t := SampleTrace(memoryIds);
    assert t.References() <= {"policy", record};
    var d3 := Apply(d2, ops[2]);
    assert d3.records["trace"] == TraceRecord(t);
    assert Run(EMPTY_DB, ops) == Run(d1, ops[1..]) == Run(d2, ops[2..]) == Run(d3, ops[3..]) == Apply(d3, ops[3]);
  }

  /** Two refused inputs: an outcome before the decision, and a memory that bears the provisional id. */
  lemma AttachCanBeRefused(derive: Deriver)
    ensures
      var (t, early) := (SampleTrace({}), Outcome("outcome", {}, 1));
      && BothStored(Run(EMPTY_DB, SampleRun("memory", {}, 1)), t, early)
      && AttachOutcome(t, early, derive) == Err(BuildError)
    ensures
      var (t, outcome) := (SampleTrace({PENDING_ID}), Outcome("outcome", {}, 3));
      && BothStored(Run(EMPTY_DB, SampleRun(PENDING_ID, {PENDING_ID}, 3)), t, outcome)
      && AttachOutcome(t, outcome, derive) == Err(ValueError)
  {
    SampleIsStored("memory", {}, 1);
    SampleIsStored(PENDING_ID, {PENDING_ID}, 3);
    var (t, outcome) := (SampleTrace({PENDING_ID}), Outcome("outcome", {}, 3));
    assert PENDING_ID in Trace(PENDING_ID, AttachedPayload(t, outcome)).References();
  }

  /** Ids are derived from payloads, and no other record takes such an id. */
  ghost predicate Honest(op: Op, derive: Deriver) {
    match op
    case OpSave(t) => t.id == derive(t.payload)
    case OpSaveOther(record) => forall p :: record.Id() != derive(p)
    case OpDelete(_) => true
  }

  ghost predicate HonestIds(db: Db, derive: Deriver) {
    forall id :: id in db.records ==>
      if db.records[id].TraceRecord? then id == derive(db.records[id].trace.payload) else forall p :: id != derive(p)
  }

  lemma HonestStep(db: Db, op: Op, derive: Deriver)
    requires HonestIds(db, derive) && Honest(op, derive)
    ensures HonestIds(Apply(db, op), derive)
  {
  }

  lemma {:induction false} HonestRun(db: Db, ops: seq<Op>, derive: Deriver)
    requires Inv(db) && HonestIds(db, derive) && forall op :: op in ops ==> Honest(op, derive)
    ensures HonestIds(Run(db, ops), derive)
    decreases |ops|
  {
    if ops != [] {
      ApplyKeepsInv(db, ops[0]);
      HonestStep(db, ops[0], derive);
      HonestRun(Apply(db, ops[0]), ops[1..], derive);
    }
  }

  /**
   * With derived ids and a collision-free digest, attaching a stored outcome to an outcome-free
   * stored tail builds a link exactly when the outcome is attachable; the link is always accepted,
   * and becomes the tail.
   */
  lemma AttachToTailSucceeds(ops: seq<Op>, t: Trace, outcome: Outcome, derive: Deriver)
    requires forall op :: op in ops ==> Honest(op, derive)
    requires forall p, q :: derive(p) == derive(q) ==> p == q
    requires BothStored(Run(EMPTY_DB, ops), t, outcome) && t.payload.outcomeId.None? && IsTail(Run(EMPTY_DB, ops), t.id)
    ensures
      var db := Run(EMPTY_DB, ops);
      var next := AttachOutcome(t, outcome, derive);
      && (next.Ok? <==> Attachable(t, outcome))
      && (next.Ok? ==>
            var s := Save(db, next.value);
            s.result == Ok(true) && IsTrace(s.db, next.value.id)
            && IsTail(s.db, next.value.id) && Ancestor(s.db, next.value.id, 1) == Some(t.id))
  {
    var db := Run(EMPTY_DB, ops);
    RunKeepsInv(EMPTY_DB, ops);
    HonestRun(EMPTY_DB, ops, derive);
    AttachExactlyWhen(ops, t, outcome, derive);
    DerivedIdIsFree(db, t, outcome, derive);
  }

  lemma DerivedIdIsFree(db: Db, t: Trace, outcome: Outcome, derive: Deriver)
    requires Inv(db) && HonestIds(db, derive) && (forall p, q :: derive(p) == derive(q) ==> p == q)
    requires BothStored(db, t, outcome) && IsTail(db, t.id)
    ensures
      var id := derive(AttachedPayload(t, outcome));
      id !in db.records && id != t.id && forall other :: other in db.index ==> db.index[other].supersedes != Some(id)
  {
    var p := AttachedPayload(t, outcome);
    var id := derive(p);
    assert IsTrace(db, id) ==> LinkOk(db, id);
    forall other | other in db.index ensures db.index[other].supersedes != Some(id) {
      assert RecordOk(db, other) && IsTrace(db, other) && LinkOk(db, other);
    }
  }
}
