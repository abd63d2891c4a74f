/** Trace before action, at most once, and one trace for each intent, over every run. */
module OrchestrationTheorems {
  import opened Base
  import T = DecisionTraces
  import TT = TraceTheorems
  import A = ActionProtocol
  import AR = ActionRecords
  import AI = ActionInvariants
  import AT = ActionTheorems
  import V = MemoryView
  import Access = AccessControl
  import opened Orchestration

  // -------------------------------------------------------------- invariants

  /** An executor was only invoked for a trace that was stored, and still is. */
  ghost predicate InvocationOk(w: World, i: nat)
    requires i < |w.invoked|
  {
    w.invoked[i].stored && T.IsTrace(w.traces, w.invoked[i].traceId)
  }

  ghost predicate AtMostOnce(w: World) {
    forall i, j :: 0 <= i < j < |w.invoked| ==> w.invoked[i].traceId != w.invoked[j].traceId
  }

  /** An intent repeats what its stored trace captured. */
  predicate SameDispatch(row: AR.Row, t: T.Trace) {
    var (identity, c) := (row.identity, t.payload.context);
    && identity.traceId == t.id && c.allowed
    && identity.requester == c.requester && identity.agent == c.agent && identity.action == c.action
    && Some(identity.dispatch.tool) == c.tool && identity.dispatch.callId == c.callId
    && identity.dispatch.inputHash == c.inputHash
    && identity.createdAt == t.payload.createdAt
  }

  ghost predicate IntentOk(w: World, id: nat)
    requires id in w.actions.rows
  {
    var row := w.actions.rows[id];
    T.IsTrace(w.traces, row.identity.traceId) && SameDispatch(row, w.traces.records[row.identity.traceId].trace)
  }

  ghost predicate OneIntent(rows: map<nat, AR.Row>, a: nat, b: nat) {
    a in rows && b in rows && rows[a].identity.traceId == rows[b].identity.traceId ==> a == b
  }

  ghost predicate Intents(w: World) {
    && (forall id {:trigger IntentOk(w, id)} :: id in w.actions.rows ==> IntentOk(w, id))
    && (forall a, b {:trigger OneIntent(w.actions.rows, a, b)} :: OneIntent(w.actions.rows, a, b))
  }

  ghost predicate Inv(w: World) {
    && T.Inv(w.traces) && AI.Inv(w.actions)
    && (forall i {:trigger InvocationOk(w, i)} :: 0 <= i < |w.invoked| ==> InvocationOk(w, i))
    && AtMostOnce(w)
    && Intents(w)
  }

  /** Every stored trace of `db` is stored unchanged in `db'`. */
  ghost predicate KeepsTraces(db: T.Db, db': T.Db) {
    forall id :: T.IsTrace(db, id) ==> T.IsTrace(db', id) && db'.records[id] == db.records[id]
  }

  lemma MoreTracesKeepInv(w: World, traces: T.Db)
    requires Inv(w) && T.Inv(traces) && KeepsTraces(w.traces, traces)
    ensures Inv(w.(traces := traces))
  {
    var w' := w.(traces := traces);
    forall i | 0 <= i < |w'.invoked| ensures InvocationOk(w', i) { assert InvocationOk(w, i); }
    forall id | id in w'.actions.rows ensures IntentOk(w', id) { assert IntentOk(w, id); }
    forall a, b ensures OneIntent(w'.actions.rows, a, b) { assert OneIntent(w.actions.rows, a, b); }
  }

  lemma RunKeepsTraces(db: T.Db, ops: seq<T.Op>)
    requires T.Inv(db)
    ensures T.Inv(T.Run(db, ops)) && KeepsTraces(db, T.Run(db, ops))
  {
    T.RunKeepsInv(db, ops);
    forall id | T.IsTrace(db, id) ensures T.IsTrace(T.Run(db, ops), id) && T.Run(db, ops).records[id] == db.records[id] {
      TT.TracesAreForever(db, ops, id);
    }
  }

  lemma StepKeepsTraces(db: T.Db, op: T.Op)
    requires T.Inv(db)
    ensures T.Inv(T.Apply(db, op)) && KeepsTraces(db, T.Apply(db, op))
  {
    assert T.Run(T.Apply(db, op), []) == T.Apply(db, op);
    assert [op][1..] == [] && T.Run(db, [op]) == T.Apply(db, op);
    RunKeepsTraces(db, [op]);
  }

  // ----------------------------------------------------------------- enqueue

  lemma EnqueueKeepsInv(w: World, t: T.Trace, p: Proposal, availableAt: Option<Instant>, digests: Digests)
    requires Inv(w) && T.ValidPayload(t.payload)
    ensures
      var s := EnqueueIntent(w, t, p, availableAt, digests);
      Inv(s.world) && s.world.invoked == w.invoked && KeepsTraces(w.traces, s.world.traces)
  {
    var s := EnqueueIntent(w, t, p, availableAt, digests);
    if s.ok {
      StepKeepsTraces(w.traces, T.OpSave(t));
      var traces := T.Save(w.traces, t).db;
      MoreTracesKeepInv(w, traces);
      var w1 := w.(traces := traces);
      var intent := BuildIntent(t, p, availableAt, digests).value;
      AI.EnqueueKeepsInv(w.actions, intent.id, intent.identity, intent.availableAt);
      assert s.world == w1.(actions := s.world.actions);
      assert Stored(traces, t);
      RowKeepsIntents(w1, intent, t, s.world.actions);
      forall i | 0 <= i < |w.invoked| ensures InvocationOk(s.world, i) { assert InvocationOk(w1, i); }
    }
  }

  lemma RowKeepsIntents(w: World, intent: Intent, t: T.Trace, actions: A.Db)
    requires Intents(w) && Stored(w.traces, t)
    requires A.Enqueue(w.actions, intent.id, intent.identity, intent.availableAt).db == actions
    requires SameDispatch(A.FreshRow(intent.id, intent.identity, intent.availableAt), t)
    ensures Intents(w.(actions := actions))
  {
    var w' := w.(actions := actions);
    var rows := w.actions.rows;
    if actions != w.actions {
      assert forall owner :: owner in rows ==> !A.Owns(rows, intent.id, intent.identity, owner);
      forall id | id in actions.rows ensures IntentOk(w', id) { if id != intent.id { assert IntentOk(w, id); } }
      forall a, b ensures OneIntent(actions.rows, a, b) { assert OneIntent(rows, a, b); }
    } else {
      assert w' == w;
    }
  }

  lemma WorkKeepsInv(w: World, work: A.Op)
    requires Inv(w) && !work.OpEnqueue?
    ensures Inv(w.(actions := A.Apply(w.actions, work)))
  {
    var w' := w.(actions := A.Apply(w.actions, work));
    AI.ApplyKeepsInv(w.actions, work);
    SameRows(w.actions, work);
    forall i | 0 <= i < |w'.invoked| ensures InvocationOk(w', i) { assert InvocationOk(w, i); }
    forall id | id in w'.actions.rows ensures IntentOk(w', id) { assert IntentOk(w, id); }
    forall a, b ensures OneIntent(w'.actions.rows, a, b) { assert OneIntent(w.actions.rows, a, b); }
  }

  /** Workers neither add rows nor change what a row is for. */
  lemma SameRows(db: A.Db, work: A.Op)
    requires AI.Inv(db) && !work.OpEnqueue?
    ensures
      var db' := A.Apply(db, work);
      db'.rows.Keys == db.rows.Keys && forall id :: id in db.rows ==> db'.rows[id].identity == db.rows[id].identity
  {
    AT.StepIsLater(db, work);
    var db' := A.Apply(db, work);
    assert forall id :: id in db.rows ==> AT.LaterRow(db, db', id);
  }

  // --------------------------------------------------------------------- run

  /** A later state: consistent, and with every trace and invocation of the earlier one. */
  ghost predicate Advances(w: World, w': World) {
    Inv(w') && KeepsTraces(w.traces, w'.traces) && w.invoked <= w'.invoked
  }

  lemma InvocationKeepsInv(w: World, t: T.Trace)
    requires Inv(w) && Stored(w.traces, t)
    requires forall i :: 0 <= i < |w.invoked| ==> w.invoked[i].traceId != t.id
    ensures Advances(w, w.(invoked := w.invoked + [Invocation(t.id, true)]))
  {
    var started := w.(invoked := w.invoked + [Invocation(t.id, true)]);
    forall i | 0 <= i < |started.invoked| ensures InvocationOk(started, i) {
      if i < |w.invoked| { assert InvocationOk(w, i); }
    }
    forall id | id in started.actions.rows ensures IntentOk(started, id) { assert IntentOk(w, id); }
  }

  lemma InvokeKeepsInv(w: World, e: Executor, p: Proposal, t: T.Trace, digests: Digests)
    requires Inv(w) && !e.Absent? && T.ValidPayload(t.payload) && Stored(w.traces, t)
    requires forall i :: 0 <= i < |w.invoked| ==> w.invoked[i].traceId != t.id
    ensures
      var s := Execute(w, e, p, t, digests).world;
      Advances(w, s) && |w.invoked| < |s.invoked| && s.invoked[|w.invoked|] == Invocation(t.id, true)
    decreases e, if e.Nested? then |e.calls| + 1 else 0
  {
    var started := w.(invoked := w.invoked + [Invocation(t.id, true)]);
    InvocationKeepsInv(w, t);
    match e
    case Custom(effects, reply) =>
      RunKeepsTraces(w.traces, effects);
      MoreTracesKeepInv(started, T.Run(w.traces, effects));
    case Nested(calls, reply) =>
      NestedKeepsInv(started, e, |calls|, digests);
      AdvancesTransitive(w, started, RunNested(started, e, |calls|, digests));
    case Enqueuing(availableAt, _) =>
      EnqueueKeepsInv(started, t, p, availableAt, digests);
  }

  lemma AdvancesTransitive(a: World, b: World, c: World)
    requires Advances(a, b) && Advances(b, c)
    ensures Advances(a, c)
  {
  }

  lemma NestedKeepsInv(w: World, e: Executor, k: nat, digests: Digests)
    requires Inv(w) && e.Nested? && k <= |e.calls|
    ensures Advances(w, RunNested(w, e, k, digests))
    decreases e, k
  {
    if k > 0 {
      var before := RunNested(w, e, k - 1, digests);
      NestedKeepsInv(w, e, k - 1, digests);
      RunCallKeepsInv(before, e.calls[k - 1], digests);
      AdvancesTransitive(w, before, RunCall(before, e.calls[k - 1], digests).world);
    }
  }

  lemma FaultedKeepsTraces(db: T.Db, op: T.Op, s: T.Step, fault: Fault)
    requires T.Inv(db) && s.db == T.Apply(db, op)
    ensures T.Inv(Faulted(db, s, fault).db) && KeepsTraces(db, Faulted(db, s, fault).db)
  {
    StepKeepsTraces(db, op);
  }

  lemma RecordOutcomeKeepsInv(w: World, c: Call, t: T.Trace, outcome: T.Outcome, digests: Digests)
    requires Inv(w) && T.ValidPayload(t.payload)
    ensures
      var s := RecordOutcome(w, c, t, outcome, digests).world;
      Advances(w, s) && s.actions == w.actions
  {
    if c.outcomeSink.Some? {
      var record := T.OutcomeRecord(outcome);
      var saved := Faulted(w.traces, T.SaveOther(w.traces, record), c.outcomeSink.value);
      FaultedKeepsTraces(w.traces, T.OpSaveOther(record), T.SaveOther(w.traces, record), c.outcomeSink.value);
      MoreTracesKeepInv(w, saved.db);
      var w1 := w.(traces := saved.db);
      var next := T.AttachOutcome(t, outcome, digests.trace);
      if saved.result.Ok? && next.Ok? {
        FaultedKeepsTraces(saved.db, T.OpSave(next.value), T.Save(saved.db, next.value), c.outcomeTraceFault);
        MoreTracesKeepInv(w1, Faulted(saved.db, T.Save(saved.db, next.value), c.outcomeTraceFault).db);
      }
    }
  }

  lemma ActOnKeepsInv(w: World, c: Call, p: Proposal, t: T.Trace, digests: Digests)
    requires Inv(w) && T.ValidPayload(t.payload)
    ensures Advances(w, ActOn(w, c, p, t, digests).world)
    decreases c, 0
  {
    var saved := Faulted(w.traces, T.Save(w.traces, t), c.traceFault);
    FaultedKeepsTraces(w.traces, T.OpSave(t), T.Save(w.traces, t), c.traceFault);
    MoreTracesKeepInv(w, saved.db);
    var w1 := w.(traces := saved.db);
    if saved.result.Ok? && t.id !in w.traces.index && !c.executor.Absent? {
      NotYetInvoked(w, t.id);
      InvokeKeepsInv(w1, c.executor, p, t, digests);
      var e := Execute(w1, c.executor, p, t, digests);
      if e.reply.Returned? {
        RecordOutcomeKeepsInv(e.world, c, t, e.reply.outcome, digests);
      }
    }
  }

  /** An id that is not indexed has never been given to an executor. */
  lemma NotYetInvoked(w: World, id: string)
    requires Inv(w) && id !in w.traces.index
    ensures forall i :: 0 <= i < |w.invoked| ==> w.invoked[i].traceId != id
  {
    forall i | 0 <= i < |w.invoked| ensures w.invoked[i].traceId != id {
      assert InvocationOk(w, i);
      assert T.LinkOk(w.traces, w.invoked[i].traceId);
    }
  }

  lemma RunCallKeepsInv(w: World, c: Call, digests: Digests)
    requires Inv(w)
    ensures Advances(w, RunCall(w, c, digests).world)
    decreases c, 1
  {
    var plan := PlanOf(c, digests);
    if plan.Act? {
      PlannedTraceIsValid(c, digests);
      ActOnKeepsInv(w, c, plan.proposal, plan.trace, digests);
    }
  }

  /** Each field of a captured context, in the terms of the request, the proposal and the view. */
  ghost predicate ContextSays(x: T.Context, r: Request, a: Access.Authorization, view: V.View, p: Proposal) {
    && x.requester == r.query.requester && x.agent == r.agent && x.action == r.query.action && x.allowed
    && (forall id :: id in x.policyIds <==> id in a.matched)
    && (forall id :: id in x.memoryIds <==> exists e :: e in view.entries && e.memory.id == id)
    && x.asOf == r.query.asOf && x.knownAt == r.query.knownAt && x.decisionAt == r.decisionAt
    && x.alternatives == p.alternatives && x.reasonCodes == p.reasonCodes + {"policy_allowed"}
    && x.tool == p.tool && x.callId == p.callId && x.inputHash == p.inputHash
  }

  /** The trace of a plan captures the request, the proposal, and what the policies let through. */
  lemma PlannedTraceIsValid(c: Call, digests: Digests)
    requires PlanOf(c, digests).Act?
    ensures
      var (q, t, p) := (c.request.query, PlanOf(c, digests).trace, PlanOf(c, digests).proposal);
      var a := Access.Authorize(c.policies, q);
      var view := V.Project(Access.AdmittedBy(c.memories, a.scope), V.Query(q.asOf, q.knownAt, {}, {}));
      && c.decision == Proposed(p) && p.action == q.action
      && a.decision.Allow? && view.Ok?
      && T.ValidPayload(t.payload) && t.id == digests.trace(t.payload)
      && t.payload == T.Payload(CapturedContext(c, a, view.value, p), None, None, 1, c.request.decisionAt)
      && ContextSays(t.payload.context, c.request, a, view.value, p)
  {
  }

  lemma ApplyKeepsInv(w: World, op: Op, digests: Digests)
    requires Inv(w)
    ensures Inv(Apply(w, op, digests))
  {
    match op
    case OpRun(call) => RunCallKeepsInv(w, call, digests);
    case OpStore(op) =>
      StepKeepsTraces(w.traces, op);
      MoreTracesKeepInv(w, T.Apply(w.traces, op));
    case OpEnqueue(t, p, availableAt) =>
      if T.ValidPayload(t.payload) { EnqueueKeepsInv(w, t, p, availableAt, digests); }
    case OpWork(work) =>
      if !work.OpEnqueue? { WorkKeepsInv(w, work); }
  }

  lemma {:induction false} RunKeepsInv(w: World, ops: seq<Op>, digests: Digests)
    requires Inv(w)
    ensures Inv(Run(w, ops, digests))
    decreases |ops|
  {
    if ops != [] {
      ApplyKeepsInv(w, ops[0], digests);
      RunKeepsInv(Apply(w, ops[0], digests), ops[1..], digests);
    }
  }

  // ---------------------------------------------------------------- theorems

  lemma EmptyInv()
    ensures Inv(EMPTY_WORLD)
  {
  }

  /**
   * Over any sequence of runs, enqueues, store transactions and worker transactions, whatever
   * fails: an executor is invoked at most once for each trace id, and only when the store already
   * holds that trace; and the trace stays.
   */
  lemma ExecutedAtMostOnceAfterItsTrace(ops: seq<Op>, digests: Digests, i: nat)
    requires i < |Run(EMPTY_WORLD, ops, digests).invoked|
    ensures
      var w := Run(EMPTY_WORLD, ops, digests);
      && w.invoked[i].stored && T.IsTrace(w.traces, w.invoked[i].traceId)
      && forall j :: 0 <= j < |w.invoked| && j != i ==> w.invoked[j].traceId != w.invoked[i].traceId
  {
    EmptyInv();
    RunKeepsInv(EMPTY_WORLD, ops, digests);
    var w := Run(EMPTY_WORLD, ops, digests);
    assert InvocationOk(w, i);
    forall j | 0 <= j < |w.invoked| && j != i ensures w.invoked[j].traceId != w.invoked[i].traceId {
      assert AtMostOnce(w);
    }
  }

  /**
   * Each intent belongs to exactly one trace: a stored allow trace with the same requester, agent,
   * action, tool, call id and input hash; and no other intent belongs to that trace.
   */
  lemma IntentsBelongToOneTrace(ops: seq<Op>, digests: Digests, id: nat)
    requires id in Run(EMPTY_WORLD, ops, digests).actions.rows
    ensures
      var w := Run(EMPTY_WORLD, ops, digests);
      var row := w.actions.rows[id];
      && T.IsTrace(w.traces, row.identity.traceId)
      && SameDispatch(row, w.traces.records[row.identity.traceId].trace)
      && forall other :: other in w.actions.rows && w.actions.rows[other].identity.traceId == row.identity.traceId ==>
           other == id
  {
    EmptyInv();
    RunKeepsInv(EMPTY_WORLD, ops, digests);
    var w := Run(EMPTY_WORLD, ops, digests);
    assert IntentOk(w, id);
    assert T.LinkOk(w.traces, w.actions.rows[id].identity.traceId);
    RowsAreOfOneTrace(w, id);
  }

  /** The validator of `DecisionProposal`. */
  predicate ValidProposal(p: Proposal) { p.action != "" && (p.callId.Some? ==> p.tool.Some?) }

  /**
   * A valid request and a valid proposal always build a trace, unless a captured record bears the
   * provisional id: an allowed request has matched a policy, and its times are in order.
   */
  lemma ValidRequestsBuildTraces(c: Call, a: Access.Authorization, view: V.View, p: Proposal, derive: T.Deriver)
    requires ValidRequest(c.request) && ValidProposal(p)
    requires a == Access.Authorize(c.policies, c.request.query) && a.decision.Allow?
    ensures
      var captured := CapturedContext(c, a, view, p);
      T.BuildTrace(captured, derive).Ok? <==> T.PENDING_ID !in captured.policyIds + captured.memoryIds
  {
    var captured := CapturedContext(c, a, view, p);
    AllowedHasMatched(c.policies, c.request.query);
    assert a.matched[0] in captured.policyIds;
    assert T.Trace(T.PENDING_ID, T.Payload(captured, None, None, 1, captured.decisionAt)).References()
      == captured.policyIds + captured.memoryIds;
  }

  lemma AllowedHasMatched(policies: seq<V.Version>, q: Access.Request)
    requires Access.Authorize(policies, q).decision.Allow?
    ensures Access.Authorize(policies, q).matched != []
  {
  }

  /**
   * The trace of a run captures exactly the authorized view of the requester, and policies that
   * are in force for the requester and action.
   */
  lemma TraceCapturesAuthorizedView(c: Call, digests: Digests, history: seq<V.Version>)
    requires c.memories == history && c.policies == Access.PoliciesIn(history) && PlanOf(c, digests).Act?
    ensures
      var view := Access.AuthorizedProject(history, c.request.query);
      var captured := PlanOf(c, digests).trace.payload.context;
      && captured.allowed && view.Ok?
      && captured.memoryIds == (set e | e in view.value.entries :: e.memory.id)
      && captured.policyIds != {}
      && forall id :: id in captured.policyIds ==> PolicyInForce(c.policies, c.request.query, id)
  {
    PlannedTraceIsValid(c, digests);
    var q := c.request.query;
    AllowedSeesView(history, q);
    MatchedAreInForce(c.policies, q);
  }

  /** An allowed request is shown what its scope admits. */
  lemma AllowedSeesView(history: seq<V.Version>, q: Access.Request)
    requires Access.Authorize(Access.PoliciesIn(history), q).decision.Allow?
    ensures
      var scope := Access.Authorize(Access.PoliciesIn(history), q).scope;
      Access.AuthorizedProject(history, q)
        == V.Project(Access.AdmittedBy(history, scope), V.Query(q.asOf, q.knownAt, {}, {}))
  {
  }

  lemma MatchedAreInForce(policies: seq<V.Version>, q: Access.Request)
    ensures forall id :: id in Access.Authorize(policies, q).matched ==> PolicyInForce(policies, q, id)
  {
    forall id | id in Access.Authorize(policies, q).matched ensures PolicyInForce(policies, q, id) {
      MatchedIsInForce(policies, q, id);
    }
  }

  /** Some policy of this id in the policy view applies to the request. */
  ghost predicate PolicyInForce(policies: seq<V.Version>, q: Access.Request, id: string) {
    var view := V.Project(policies, Access.PolicyQuery(q));
    view.Ok? && exists v :: v in view.value.entries && Access.Applies(v, q) && v.memory.id == id
  }

  lemma MatchedIsInForce(policies: seq<V.Version>, q: Access.Request, id: string)
    requires id in Access.Authorize(policies, q).matched
    ensures PolicyInForce(policies, q, id)
  {
    var view := V.Project(policies, Access.PolicyQuery(q));
    var entries := view.value.entries;
    Access.RulesOfEntries(entries, q);
    var rules := Access.SortRules(Access.ApplicableRules(entries, q).value);
    assert Access.Authorize(policies, q).matched == Access.PolicyIds(rules);
    var i :| 0 <= i < |rules| && Access.PolicyIds(rules)[i] == id;
    assert rules[i] in rules;
  }

  /**
   * A failed action or outcome never costs the trace: whenever a run reports anything after its
   * trace was saved, the trace is stored. A run that reports its outcome traced has stored the
   * outcome, and a successor of its trace that names it.
   */
  lemma ReportedTraceIsStored(ops: seq<Op>, c: Call, digests: Digests)
    requires PlanOf(c, digests).Act?
    ensures
      var w := Run(EMPTY_WORLD, ops, digests);
      var (s, t) := (RunCall(w, c, digests), PlanOf(c, digests).trace);
      && (s.result != Err(TracePersistence) ==> Stored(s.world.traces, t))
      && (s.result == Ok(OutcomeTraced) ==>
            && (c.executor.Custom? || c.executor.Nested?) && c.executor.reply.Returned?
            && OutcomeRecorded(s.world.traces, t, c.executor.reply.outcome))
  {
    EmptyInv();
    RunKeepsInv(EMPTY_WORLD, ops, digests);
    PlannedTraceIsValid(c, digests);
    var (w, plan) := (Run(EMPTY_WORLD, ops, digests), PlanOf(c, digests));
    ActedTraceIsStored(w, c, plan.proposal, plan.trace, digests);
  }

  /** Trace `id` supersedes trace `previous` and names the outcome. */
  ghost predicate Links(db: T.Db, id: string, previous: string, outcomeId: string) {
    T.IsTrace(db, id) && db.records[id].trace.payload.supersedes == Some(previous)
    && db.records[id].trace.payload.outcomeId == Some(outcomeId)
  }

  ghost predicate OutcomeRecorded(db: T.Db, t: T.Trace, outcome: T.Outcome) {
    outcome.id in db.records && exists id :: Links(db, id, t.id, outcome.id)
  }

  lemma ActedTraceIsStored(w: World, c: Call, p: Proposal, t: T.Trace, digests: Digests)
    requires Inv(w) && T.ValidPayload(t.payload) && t.payload.outcomeId.None?
    ensures
      var s := ActOn(w, c, p, t, digests);
      && (s.result != Err(TracePersistence) ==> Stored(s.world.traces, t))
      && (s.result == Ok(OutcomeTraced) ==>
            && (c.executor.Custom? || c.executor.Nested?) && c.executor.reply.Returned?
            && OutcomeRecorded(s.world.traces, t, c.executor.reply.outcome))
  {
    var saved := Faulted(w.traces, T.Save(w.traces, t), c.traceFault);
    FaultedKeepsTraces(w.traces, T.OpSave(t), T.Save(w.traces, t), c.traceFault);
    MoreTracesKeepInv(w, saved.db);
    var w1 := w.(traces := saved.db);
    if saved.result.Ok? && t.id !in w.traces.index && !c.executor.Absent? {
      NotYetInvoked(w, t.id);
      InvokeKeepsInv(w1, c.executor, p, t, digests);
      var e := Execute(w1, c.executor, p, t, digests);
      if e.reply.Returned? {
        OutcomeIsLinked(e.world, c, t, e.reply.outcome, digests);
      }
    }
  }

  lemma OutcomeIsLinked(w: World, c: Call, t: T.Trace, outcome: T.Outcome, digests: Digests)
    requires Inv(w) && T.ValidPayload(t.payload) && t.payload.outcomeId.None? && Stored(w.traces, t)
    ensures
      var s := RecordOutcome(w, c, t, outcome, digests);
      && Stored(s.world.traces, t)
      && (s.result == Ok(OutcomeTraced) ==> OutcomeRecorded(s.world.traces, t, outcome))
  {
    if c.outcomeSink.Some? {
      var record := T.OutcomeRecord(outcome);
      var saved := Faulted(w.traces, T.SaveOther(w.traces, record), c.outcomeSink.value);
      FaultedKeepsTraces(w.traces, T.OpSaveOther(record), T.SaveOther(w.traces, record), c.outcomeSink.value);
      var next := T.AttachOutcome(t, outcome, digests.trace);
      if saved.result.Ok? && next.Ok? {
        var linked := Faulted(saved.db, T.Save(saved.db, next.value), c.outcomeTraceFault);
        FaultedKeepsTraces(saved.db, T.OpSave(next.value), T.Save(saved.db, next.value), c.outcomeTraceFault);
        assert linked.result.Ok? ==> Links(linked.db, next.value.id, t.id, outcome.id);
      }
    }
  }

  /** One call with the plain `enqueue` as executor, and the same call with a wrapper that returns nothing. */
  predicate PlainAndWrapped(plain: Call, wrapped: Call) {
    plain.executor.Enqueuing? && !plain.executor.wrapped
    && wrapped == plain.(executor := Enqueuing(plain.executor.availableAt, true))
  }

  /**
   * A wrapped enqueue leaves exactly one intent for its trace when the run completes. With the plain
   * `enqueue` as executor no run completes: where the wrapped one would, it raises, with the same
   * stores and so with that intent stored.
   */
  lemma EnqueueLeavesIntent(ops: seq<Op>, plain: Call, wrapped: Call, digests: Digests)
    requires PlainAndWrapped(plain, wrapped) && PlanOf(wrapped, digests).Act?
    ensures
      var w := Run(EMPTY_WORLD, ops, digests);
      var (p, s) := (RunCall(w, plain, digests), RunCall(w, wrapped, digests));
      && p.world == s.world
      && p.result == (if s.result == Ok(ActionCompleted) then Err(ActionExecution) else s.result)
      && (s.result == Ok(ActionCompleted) ==>
            exists k :: OnlyIntentOf(p.world.actions.rows, k, PlanOf(wrapped, digests).trace.id))
  {
    PlainRun(Run(EMPTY_WORLD, ops, digests), plain, wrapped, digests);
    if RunCall(Run(EMPTY_WORLD, ops, digests), wrapped, digests).result == Ok(ActionCompleted) {
      CompletedEnqueueHasIntent(ops, wrapped, digests);
    }
  }

  lemma PlainRun(w: World, plain: Call, wrapped: Call, digests: Digests)
    requires PlainAndWrapped(plain, wrapped) && PlanOf(wrapped, digests).Act?
    ensures
      var (p, s) := (RunCall(w, plain, digests), RunCall(w, wrapped, digests));
      p.world == s.world && p.result == if s.result == Ok(ActionCompleted) then Err(ActionExecution) else s.result
  {
    SamePlan(plain, wrapped, digests);
    PlainDiffersInReply(w, plain, wrapped, PlanOf(wrapped, digests).proposal, PlanOf(wrapped, digests).trace, digests);
  }

  /** A plan does not depend on the executor. */
  lemma SamePlan(a: Call, b: Call, digests: Digests)
    requires b == a.(executor := b.executor)
    ensures PlanOf(a, digests) == PlanOf(b, digests)
  {
    var (q, auth) := (a.request.query, Access.Authorize(a.policies, a.request.query));
    if auth.decision.Allow? {
      match V.Project(Access.AdmittedBy(a.memories, auth.scope), V.Query(q.asOf, q.knownAt, {}, {}))
      case Err(_) =>
      case Ok(view) =>
        if a.decision.Proposed? { SameContext(a, b, auth, view, a.decision.proposal); }
    }
  }

  lemma SameContext(a: Call, b: Call, auth: Access.Authorization, view: V.View, p: Proposal)
    requires b == a.(executor := b.executor)
    ensures CapturedContext(a, auth, view, p) == CapturedContext(b, auth, view, p)
  {
  }

  lemma PlainDiffersInReply(w: World, plain: Call, wrapped: Call, p: Proposal, t: T.Trace, digests: Digests)
    requires PlainAndWrapped(plain, wrapped)
    ensures
      var (a, b) := (ActOn(w, plain, p, t, digests), ActOn(w, wrapped, p, t, digests));
      a.world == b.world && a.result == if b.result == Ok(ActionCompleted) then Err(ActionExecution) else b.result
  {
  }

  lemma CompletedEnqueueHasIntent(ops: seq<Op>, c: Call, digests: Digests)
    requires PlanOf(c, digests).Act? && c.executor.Enqueuing?
    requires RunCall(Run(EMPTY_WORLD, ops, digests), c, digests).result == Ok(ActionCompleted)
    ensures
      var w := RunCall(Run(EMPTY_WORLD, ops, digests), c, digests).world;
      exists id :: OnlyIntentOf(w.actions.rows, id, PlanOf(c, digests).trace.id)
  {
    EmptyInv();
    RunKeepsInv(EMPTY_WORLD, ops, digests);
    var w := Run(EMPTY_WORLD, ops, digests);
    RunCallKeepsInv(w, c, digests);
    var id := EnqueuedByRun(w, c, digests);
    RowsAreOfOneTrace(RunCall(w, c, digests).world, id);
  }

  lemma EnqueuedByRun(w: World, c: Call, digests: Digests) returns (id: nat)
    requires PlanOf(c, digests).Act? && c.executor.Enqueuing?
    requires RunCall(w, c, digests).result == Ok(ActionCompleted)
    ensures
      var rows := RunCall(w, c, digests).world.actions.rows;
      id in rows && rows[id].identity.traceId == PlanOf(c, digests).trace.id
  {
    id := EnqueuedByAct(w, c, PlanOf(c, digests).proposal, PlanOf(c, digests).trace, digests);
  }

  lemma EnqueuedByAct(w: World, c: Call, p: Proposal, t: T.Trace, digests: Digests) returns (id: nat)
    requires c.executor.Enqueuing? && ActOn(w, c, p, t, digests).result == Ok(ActionCompleted)
    ensures
      var rows := ActOn(w, c, p, t, digests).world.actions.rows;
      id in rows && rows[id].identity.traceId == t.id
  {
    var w1 := w.(traces := Faulted(w.traces, T.Save(w.traces, t), c.traceFault).db);
    var w2 := w1.(invoked := w1.invoked + [Invocation(t.id, Stored(w1.traces, t))]);
    id := EnqueuedHasIntent(w2, t, p, c.executor.availableAt, digests);
  }

  lemma RowsAreOfOneTrace(w: World, id: nat)
    requires Inv(w) && id in w.actions.rows
    ensures OnlyIntentOf(w.actions.rows, id, w.actions.rows[id].identity.traceId)
  {
    var rows := w.actions.rows;
    forall other | other in rows && rows[other].identity.traceId == rows[id].identity.traceId ensures other == id {
      assert OneIntent(rows, other, id);
    }
  }

  ghost predicate OnlyIntentOf(rows: map<nat, AR.Row>, id: nat, traceId: string) {
    && id in rows && rows[id].identity.traceId == traceId
    && forall other :: other in rows && rows[other].identity.traceId == traceId ==> other == id
  }

  lemma EnqueuedHasIntent(w: World, t: T.Trace, p: Proposal, availableAt: Option<Instant>, digests: Digests)
    returns (id: nat)
    requires EnqueueIntent(w, t, p, availableAt, digests).ok
    ensures
      var rows := EnqueueIntent(w, t, p, availableAt, digests).world.actions.rows;
      id in rows && rows[id].identity.traceId == t.id
  {
    id := BuildIntent(t, p, availableAt, digests).value.id;
  }

  /** A proposal with a tool always matches the trace that was built from it. */
  lemma BuiltFromProposalMatches(c: Call, digests: Digests, availableAt: Option<Instant>)
    requires PlanOf(c, digests).Act?
    ensures
      var (p, t) := (PlanOf(c, digests).proposal, PlanOf(c, digests).trace);
      BuildIntent(t, p, availableAt, digests).Some? <==>
        p.tool.Some? && (availableAt.Some? ==> c.request.decisionAt <= availableAt.value)
  {
    PlannedTraceIsValid(c, digests);
  }
}
