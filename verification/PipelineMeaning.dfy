/** Why a run stops, what it reports, and what an enqueued intent says. */
module PipelineMeaning {
  import opened Base
  import MemoryRecords
  import T = DecisionTraces
  import TA = TraceAnswers
  import A = ActionProtocol
  import Q = QueueTheorems
  import V = MemoryView
  import Access = AccessControl
  import opened Orchestration
  import opened OrchestrationTheorems

  // --------------------------------------------------------------- the plan

  predicate Allowed(c: Call) { Access.Authorize(c.policies, c.request.query).decision.Allow? }

  /** The memory view of a run: what the scope admits, on the timelines of the request. */
  function MemoriesOf(c: Call): Result<V.View, MemoryRecords.MemoryError> {
    var q := c.request.query;
    V.Project(Access.AdmittedBy(c.memories, Access.Authorize(c.policies, q).scope), V.Query(q.asOf, q.knownAt, {}, {}))
  }

  predicate NoContext(c: Call) {
    MemoriesOf(c).Ok? && c.request.requireContext && |MemoriesOf(c).value.entries| == 0
  }

  /** The callback proposed exactly the authorized action. */
  predicate Proposes(c: Call) { c.decision.Proposed? && c.decision.proposal.action == c.request.query.action }

  /** Everything up to the trace went through. */
  predicate Ready(c: Call) { Allowed(c) && MemoriesOf(c).Ok? && !NoContext(c) && Proposes(c) }

  /**
   * A run stops before any store exactly for its first obstacle: a denial, an ambiguous memory
   * history, a required context that is missing, a proposal that is malformed or for another action,
   * or a trace that cannot be built. Otherwise it acts on the proposal it was given.
   */
  lemma StopsExactlyWhen(c: Call, digests: Digests)
    ensures
      var plan := PlanOf(c, digests);
      && (plan == Stop(Denied) <==> !Allowed(c))
      && (plan == Refuse(AmbiguousMemory) <==> Allowed(c) && MemoriesOf(c).Err?)
      && (plan == Stop(NoAuthorizedContext) <==> Allowed(c) && NoContext(c))
      && (plan == Refuse(InvalidProposal) <==> Allowed(c) && MemoriesOf(c).Ok? && !NoContext(c) && !Proposes(c))
      && (plan.Act? || plan == Refuse(InvalidTrace) <==> Ready(c))
      && (plan.Act? ==> plan.proposal == c.decision.proposal)
  {
    if Allowed(c) {
      if MemoriesOf(c).Ok? {
        if NoContext(c) { WithoutContext(c, digests); } else { WithContext(c, digests); }
      } else {
        Ambiguous(c, digests);
      }
    } else {
      NotAllowed(c, digests);
    }
  }

  lemma NotAllowed(c: Call, digests: Digests)
    requires !Allowed(c)
    ensures PlanOf(c, digests) == Stop(Denied)
  {
  }

  lemma Ambiguous(c: Call, digests: Digests)
    requires Allowed(c) && MemoriesOf(c).Err?
    ensures PlanOf(c, digests) == Refuse(AmbiguousMemory)
  {
  }

  lemma WithoutContext(c: Call, digests: Digests)
    requires Allowed(c) && NoContext(c)
    ensures PlanOf(c, digests) == Stop(NoAuthorizedContext)
  {
  }

  lemma WithContext(c: Call, digests: Digests)
    requires Allowed(c) && MemoriesOf(c).Ok? && !NoContext(c)
    ensures
      var plan := PlanOf(c, digests);
      && (plan == Refuse(InvalidProposal) <==> !Proposes(c))
      && (plan.Act? || plan == Refuse(InvalidTrace) <==> Proposes(c))
      && (plan.Act? ==> plan.proposal == c.decision.proposal)
  {
  }

  /** What the trace contract asks of a request, a proposal and what is captured. */
  predicate Traceable(r: Request, p: Proposal, matched: seq<string>, entries: seq<V.Version>) {
    && r.agent != "" && r.query.requester != "" && r.query.action != ""
    && r.query.asOf <= r.decisionAt && (r.query.knownAt.Some? ==> r.query.knownAt.value <= r.decisionAt)
    && (p.tool.None? ==> p.callId.None?)
    && T.PENDING_ID !in matched && forall e :: e in entries ==> e.memory.id != T.PENDING_ID
  }

  /** A run that is ready acts exactly when the trace contract is met. */
  lemma ActsExactlyWhen(c: Call, digests: Digests)
    ensures PlanOf(c, digests).Act? <==>
      Ready(c)
      && Traceable(c.request, c.decision.proposal, Access.Authorize(c.policies, c.request.query).matched,
                   MemoriesOf(c).value.entries)
  {
    StopsExactlyWhen(c, digests);
    if Ready(c) {
      ReadyActs(c, digests, Access.Authorize(c.policies, c.request.query), MemoriesOf(c).value);
    }
  }

  lemma ReadyActs(c: Call, digests: Digests, a: Access.Authorization, view: V.View)
    requires Ready(c) && a == Access.Authorize(c.policies, c.request.query) && MemoriesOf(c) == Ok(view)
    ensures PlanOf(c, digests).Act? <==> Traceable(c.request, c.decision.proposal, a.matched, view.entries)
  {
    AllowedHasMatched(c.policies, c.request.query);
    BuildsTraceExactlyWhen(c, a, view, c.decision.proposal, digests.trace);
  }

  lemma BuildsTraceExactlyWhen(c: Call, a: Access.Authorization, view: V.View, p: Proposal, derive: T.Deriver)
    requires a.decision.Allow? && a.matched != [] && p.action == c.request.query.action
    ensures T.BuildTrace(CapturedContext(c, a, view, p), derive).Ok? <==> Traceable(c.request, p, a.matched, view.entries)
  {
    var x := CapturedContext(c, a, view, p);
    assert a.matched[0] in x.policyIds;
    assert T.Trace(T.PENDING_ID, T.Payload(x, None, None, 1, x.decisionAt)).References() == x.policyIds + x.memoryIds;
  }

  // ---------------------------------------------------------------- the report

  /** The trace is stored already. */
  predicate Repeated(w: World, t: T.Trace) { t.id in w.traces.records && w.traces.records[t.id] == T.TraceRecord(t) }

  /** The trace can be stored now. */
  predicate New(w: World, t: T.Trace) { t.id !in w.traces.records && t.References() <= w.traces.records.Keys }

  /**
   * What a run that acts reports, in every reachable world. A trace that cannot be stored, or a store
   * that fails, ends it; a repeated trace is reported and nothing is executed; the executor is invoked
   * exactly for a new trace; a missing executor, its failure, its empty answer and a missing outcome
   * store are each reported as such.
   */
  lemma ReportsExactlyWhen(ops: seq<Op>, c: Call, digests: Digests)
    requires PlanOf(c, digests).Act?
    ensures ReportMeans(Run(EMPTY_WORLD, ops, digests), c, PlanOf(c, digests).trace, RunCall(Run(EMPTY_WORLD, ops, digests), c, digests))
  {
    EmptyInv();
    RunKeepsInv(EMPTY_WORLD, ops, digests);
    PlannedTraceIsValid(c, digests);
    var w := Run(EMPTY_WORLD, ops, digests);
    ActMeans(w, c, PlanOf(c, digests).proposal, PlanOf(c, digests).trace, digests);
  }

  ghost predicate ReportMeans(w: World, c: Call, t: T.Trace, s: RunStep) {
    var (works, acts) := (c.traceFault.NoFault?, c.traceFault.NoFault? && New(w, t) && !c.executor.Absent?);
    && (s.result == Err(TracePersistence) <==> !(works && (New(w, t) || Repeated(w, t))))
    && (s.result == Ok(AlreadyTraced) <==> works && Repeated(w, t))
    && (s.result == Ok(AlreadyTraced) || c.traceFault.BeforeCommit? ==> s.world == w)
    && (c.traceFault.AfterCommit? && New(w, t) ==> Repeated(s.world, t) && s.world.invoked == w.invoked)
    && (s.result == Ok(TracePersisted) <==> works && New(w, t) && c.executor.Absent?)
    && (acts <==> |s.world.invoked| > |w.invoked|)
    && (acts ==> s.world.invoked[|w.invoked|] == Invocation(t.id, true))
    && (acts && (c.executor.Custom? || c.executor.Nested?) ==>
          && (s.result == Err(ActionExecution) <==> c.executor.reply.Raises? || c.executor.reply.NotAnOutcome?)
          && (s.result == Ok(ActionCompleted) <==> c.executor.reply.NoOutcome?)
          && (c.executor.reply.Returned? && c.outcomeSink.None? ==> s.result == Err(OutcomePersistence)))
    && (!acts ==> s.world.actions == w.actions)
  }

  lemma ActMeans(w: World, c: Call, p: Proposal, t: T.Trace, digests: Digests)
    requires Inv(w) && T.ValidPayload(t.payload) && t.payload.version == 1 && t.payload.supersedes.None?
    ensures ReportMeans(w, c, t, ActOn(w, c, p, t, digests))
  {
    FirstSaves(w.traces, t);
    if c.traceFault.NoFault? && New(w, t) && !c.executor.Absent? {
      var w1 := w.(traces := T.Save(w.traces, t).db);
      StepKeepsTraces(w.traces, T.OpSave(t));
      MoreTracesKeepInv(w, w1.traces);
      NotYetInvoked(w, t.id);
      ExecutionMeans(w1, c, p, t, digests);
    }
  }

  lemma ExecutionMeans(w: World, c: Call, p: Proposal, t: T.Trace, digests: Digests)
    requires Inv(w) && T.ValidPayload(t.payload) && Stored(w.traces, t) && !c.executor.Absent?
    requires forall i :: 0 <= i < |w.invoked| ==> w.invoked[i].traceId != t.id
    ensures
      var s := AfterExecution(Execute(w, c.executor, p, t, digests), c, t, digests);
      && |s.world.invoked| > |w.invoked| && s.world.invoked[|w.invoked|] == Invocation(t.id, true)
      && (c.executor.Custom? || c.executor.Nested? ==>
            && (s.result == Err(ActionExecution) <==> c.executor.reply.Raises? || c.executor.reply.NotAnOutcome?)
            && (s.result == Ok(ActionCompleted) <==> c.executor.reply.NoOutcome?)
            && (c.executor.reply.Returned? && c.outcomeSink.None? ==> s.result == Err(OutcomePersistence)))
      && s.result != Err(TracePersistence) && s.result != Ok(AlreadyTraced) && s.result != Ok(TracePersisted)
  {
    InvokeKeepsInv(w, c.executor, p, t, digests);
    var e := Execute(w, c.executor, p, t, digests);
    if e.reply.Returned? {
      RecordOutcomeKeepsInv(e.world, c, t, e.reply.outcome, digests);
    }
  }

  /** The link from a trace to its outcome. */
  function Link(t: T.Trace, outcome: T.Outcome, digests: Digests): T.Trace {
    var payload := T.Payload(t.payload.context, Some(outcome.id), Some(t.id), t.payload.version + 1, outcome.observedAt);
    T.Trace(digests.trace(payload), payload)
  }

  /**
   * An outcome is reported as traced exactly when no store fails, its id is free and its references
   * are stored, it is not earlier than the decision, no captured id is the provisional one, the id of
   * the link is free, and the trace has no successor yet. Then the outcome and the link are all that is added.
   */
  lemma OutcomeTracedExactlyWhen(w: World, c: Call, t: T.Trace, outcome: T.Outcome, digests: Digests)
    requires Inv(w) && T.ValidPayload(t.payload) && t.payload.outcomeId.None? && Repeated(w, t)
    ensures
      var (s, next) := (RecordOutcome(w, c, t, outcome, digests), Link(t, outcome, digests));
      && (s.result == Ok(OutcomeTraced) <==>
            && c.outcomeSink == Some(NoFault) && c.outcomeTraceFault.NoFault?
            && outcome.id !in w.traces.records && outcome.references <= w.traces.records.Keys
            && t.payload.context.decisionAt <= outcome.observedAt && T.PENDING_ID !in next.References()
            && next.id !in w.traces.records && next.id != outcome.id && !TA.Superseded(w.traces, t.id))
      && (s.result == Ok(OutcomeTraced) || s.result == Err(OutcomePersistence))
      && (s.result == Ok(OutcomeTraced) ==>
            s.world.traces.records == w.traces.records[outcome.id := T.OutcomeRecord(outcome)][next.id := T.TraceRecord(next)])
      && s.world.actions == w.actions && s.world.invoked == w.invoked
  {
    var record := T.OutcomeRecord(outcome);
    if c.outcomeSink == Some(NoFault) && T.SaveOther(w.traces, record).result.Ok? {
      var db := T.SaveOther(w.traces, record).db;
      T.ApplyKeepsInv(w.traces, T.OpSaveOther(record));
      LinkSaves(w.traces, db, t, outcome, digests);
    }
  }

  lemma LinkSaves(before: T.Db, db: T.Db, t: T.Trace, outcome: T.Outcome, digests: Digests)
    requires T.Inv(before) && T.Inv(db) && T.ValidPayload(t.payload) && t.payload.outcomeId.None?
    requires t.id in before.records && before.records[t.id] == T.TraceRecord(t)
    requires outcome.id !in before.records && db == before.(records := before.records[outcome.id := T.OutcomeRecord(outcome)])
    ensures
      var (s, next) := (T.Save(db, Link(t, outcome, digests)), Link(t, outcome, digests));
      && (s.result.Ok? <==> next.id !in before.records && next.id != outcome.id && !TA.Superseded(before, t.id))
      && (s.result.Ok? ==> s.db.records == db.records[next.id := T.TraceRecord(next)])
  {
    var next := Link(t, outcome, digests);
    assert T.RecordOk(before, t.id) && T.IsTrace(before, t.id) && T.LinkOk(before, t.id);
    assert next.References() <= db.records.Keys;
    if next.id in db.records {
      if next.id in before.records { assert T.RecordOk(before, next.id); }
    } else {
      TA.ClashMeans(db, next);
      assert forall k :: T.IsTrace(db, k) <==> T.IsTrace(before, k);
      assert forall k :: T.IsTrace(before, k) ==> db.records[k] == before.records[k];
    }
  }

  function Stores(effects: seq<T.Op>): (ops: seq<Op>)
    ensures |ops| == |effects| && forall i :: 0 <= i < |ops| ==> ops[i] == OpStore(effects[i])
  {
    seq(|effects|, i requires 0 <= i < |effects| => OpStore(effects[i]))
  }

  /** An executor that uses the store does so step by step, in their order, after its own invocation. */
  lemma EffectsInOrder(w: World, e: Executor, p: Proposal, t: T.Trace, digests: Digests)
    requires e.Custom?
    ensures
      var s := Execute(w, e, p, t, digests);
      && s.world == Run(w.(invoked := w.invoked + [Invocation(t.id, Repeated(w, t))]), Stores(e.effects), digests)
      && s.reply == e.reply
  {
    StoresRun(w.(invoked := w.invoked + [Invocation(t.id, Repeated(w, t))]), e.effects, digests);
  }

  lemma {:induction false} StoresRun(w: World, effects: seq<T.Op>, digests: Digests)
    ensures Run(w, Stores(effects), digests) == w.(traces := T.Run(w.traces, effects))
    decreases |effects|
  {
    if effects == [] {
      assert Stores(effects) == [];
    } else {
      StoresRun(w.(traces := T.Apply(w.traces, effects[0])), effects[1..], digests);
      assert Stores(effects)[1..] == Stores(effects[1..]);
    }
  }

  /** The first `k` runs, one after the other. */
  function Runs(calls: seq<Call>, k: nat): (ops: seq<Op>)
    requires k <= |calls|
    ensures |ops| == k && forall i :: 0 <= i < k ==> ops[i] == OpRun(calls[i])
  {
    if k == 0 then [] else Runs(calls, k - 1) + [OpRun(calls[k - 1])]
  }

  /** An executor that runs the pipeline again does so call by call, in their order, after its own invocation. */
  lemma NestedRunsInOrder(w: World, e: Executor, p: Proposal, t: T.Trace, digests: Digests)
    requires e.Nested?
    ensures
      var s := Execute(w, e, p, t, digests);
      && s.world == Run(w.(invoked := w.invoked + [Invocation(t.id, Repeated(w, t))]), Runs(e.calls, |e.calls|), digests)
      && s.reply == e.reply
  {
    CallsInOrder(w.(invoked := w.invoked + [Invocation(t.id, Repeated(w, t))]), e, |e.calls|, digests);
  }

  lemma {:induction false} CallsInOrder(w: World, e: Executor, k: nat, digests: Digests)
    requires e.Nested? && k <= |e.calls|
    ensures RunNested(w, e, k, digests) == Run(w, Runs(e.calls, k), digests)
  {
    if k > 0 {
      CallsInOrder(w, e, k - 1, digests);
      CallIsStep(w, e, k, digests, Runs(e.calls, k - 1));
    }
  }

  lemma CallIsStep(w: World, e: Executor, k: nat, digests: Digests, before: seq<Op>)
    requires e.Nested? && 0 < k <= |e.calls| && RunNested(w, e, k - 1, digests) == Run(w, before, digests)
    ensures RunNested(w, e, k, digests) == Run(w, before + [OpRun(e.calls[k - 1])], digests)
  {
    RunSnoc(w, before, OpRun(e.calls[k - 1]), digests);
    AppliesCall(RunNested(w, e, k - 1, digests), e.calls[k - 1], digests);
  }

  lemma AppliesCall(w: World, c: Call, digests: Digests)
    ensures Apply(w, OpRun(c), digests) == RunCall(w, c, digests).world
  {
  }

  lemma {:induction false} RunSnoc(w: World, ops: seq<Op>, op: Op, digests: Digests)
    ensures Run(w, ops + [op], digests) == Apply(Run(w, ops, digests), op, digests)
    decreases |ops|
  {
    if ops == [] {
      assert [] + [op] == [op] && [op][1..] == [];
    } else {
      assert (ops + [op])[1..] == ops[1..] + [op] && (ops + [op])[0] == ops[0];
      RunSnoc(Apply(w, ops[0], digests), ops[1..], op, digests);
    }
  }

  /** A first trace is inserted exactly when it is new. */
  lemma FirstSaves(db: T.Db, t: T.Trace)
    requires T.Inv(db) && t.payload.version == 1 && t.payload.supersedes.None?
    ensures
      var s := T.Save(db, t);
      && (s.result == Ok(true) <==> t.id !in db.records && t.References() <= db.records.Keys)
      && (s.result == Ok(false) <==> t.id in db.records && db.records[t.id] == T.TraceRecord(t))
      && (s.result.Ok? ==> (t.id in db.index <==> s.result == Ok(false)))
      && (s.result != Ok(true) ==> s.db == db)
  {
    assert t.id in db.records ==> T.RecordOk(db, t.id);
    if t.id !in db.records {
      TA.ClashMeans(db, t);
    }
  }

  // -------------------------------------------------------------- the intent

  /** An intent in the terms of its trace. */
  predicate IntentSays(i: Intent, t: T.Trace, availableAt: Option<Instant>, digests: Digests) {
    var (c, x) := (t.payload.context, i.identity);
    && x.traceId == t.id && x.requester == c.requester && x.agent == c.agent && x.action == c.action
    && c.tool == Some(x.dispatch.tool) && x.dispatch.callId == c.callId && x.dispatch.inputHash == c.inputHash
    && x.createdAt == t.payload.createdAt
    && i.availableAt == (if availableAt.Some? then availableAt.value else c.decisionAt)
    && (i.id, x.dispatch.key) == digests.intent(
         IntentPayload(t.id, c.requester, c.agent, c.action, x.dispatch.tool, c.callId, c.inputHash))
  }

  /**
   * An intent is built exactly from an allow trace with a tool and a proposal with the same action,
   * tool, call id and input hash, for a time not before the trace; it says what the trace says, and
   * its id and key are the digest of that.
   */
  lemma BuildsExactlyWhen(t: T.Trace, p: Proposal, availableAt: Option<Instant>, digests: Digests)
    ensures
      var (r, c) := (BuildIntent(t, p, availableAt, digests), t.payload.context);
      && (r.Some? <==>
            && c.allowed && c.tool.Some?
            && p.action == c.action && p.tool == c.tool && p.callId == c.callId && p.inputHash == c.inputHash
            && t.payload.createdAt <= if availableAt.Some? then availableAt.value else c.decisionAt)
      && (r.Some? ==> IntentSays(r.value, t, availableAt, digests))
  {
  }

  /**
   * Over every run, an enqueue that is accepted stores its trace, and either finds its intent stored
   * already or leaves it waiting from the time it asked for; a refused one changes nothing.
   */
  lemma EnqueueMeans(ops: seq<Op>, t: T.Trace, p: Proposal, availableAt: Option<Instant>, digests: Digests)
    requires T.ValidPayload(t.payload)
    ensures
      var w := Run(EMPTY_WORLD, ops, digests);
      var s := EnqueueIntent(w, t, p, availableAt, digests);
      && (!s.ok ==> s.world == w)
      && (s.ok ==>
            && BuildIntent(t, p, availableAt, digests).Some?
            && var i := BuildIntent(t, p, availableAt, digests).value;
               && Repeated(s.world, t) && i.id in s.world.actions.rows
               && s.world.actions.rows[i.id].identity == i.identity
               && (if i.id in w.actions.rows then s.world.actions == w.actions
                   else Q.Waiting(s.world.actions.rows[i.id], i.identity, i.availableAt)))
  {
    EmptyInv();
    RunKeepsInv(EMPTY_WORLD, ops, digests);
    EnqueueKeepsInv(Run(EMPTY_WORLD, ops, digests), t, p, availableAt, digests);
    if EnqueueIntent(Run(EMPTY_WORLD, ops, digests), t, p, availableAt, digests).ok {
      EnqueuedOnce(Run(EMPTY_WORLD, ops, digests), t, p, availableAt, digests);
    }
  }

  lemma EnqueuedOnce(w: World, t: T.Trace, p: Proposal, availableAt: Option<Instant>, digests: Digests)
    requires EnqueueIntent(w, t, p, availableAt, digests).ok
    ensures
      var s := EnqueueIntent(w, t, p, availableAt, digests);
      var i := BuildIntent(t, p, availableAt, digests).value;
      && Repeated(s.world, t) && i.id in s.world.actions.rows
      && s.world.actions.rows[i.id].identity == i.identity
      && (if i.id in w.actions.rows then s.world.actions == w.actions
          else Q.Waiting(s.world.actions.rows[i.id], i.identity, i.availableAt))
  {
    var i := BuildIntent(t, p, availableAt, digests).value;
    if i.id in w.actions.rows { assert A.Owns(w.actions.rows, i.id, i.identity, i.id); }
  }
}
