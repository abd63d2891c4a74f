/** The audited pipeline as an object over the trace store and the outbox (orchestration.py). */
module Orchestrator {
  import opened Base
  import T = DecisionTraces
  import TraceTables
  import ActionTables
  import V = MemoryView
  import Access = AccessControl
  import opened Orchestration

  class Pipeline {
    const traces: TraceTables.TraceDatabase
    const outbox: ActionTables.ActionDatabase
    const digests: Digests
    /** What executors were invoked for. */
    var invoked: seq<Invocation>

    ghost function State(): World
      reads this, traces, outbox
    {
      World(traces.Tables(), outbox.Tables(), invoked)
    }

    ghost predicate Valid()
      reads this, traces, outbox
    {
      traces.Valid() && outbox.Valid()
    }

    constructor (digests: Digests)
      ensures Valid() && fresh(traces) && fresh(outbox) && this.digests == digests && State() == EMPTY_WORLD
    {
      traces := new TraceTables.TraceDatabase();
      outbox := new ActionTables.ActionDatabase();
      this.digests := digests;
      invoked := [];
    }

    /** `enqueue`: a refused intent rolls its trace back. */
    method Enqueue(t: T.Trace, p: Proposal, availableAt: Option<Instant>) returns (ok: bool)
      requires Valid() && T.ValidPayload(t.payload)
      modifies traces, outbox
      ensures Valid() && EnqueueStep(State(), ok) == EnqueueIntent(old(State()), t, p, availableAt, digests)
    {
      var intent := BuildIntent(t, p, availableAt, digests);
      if intent.None? {
        return false;
      }
      var (records, index) := (traces.records, traces.index);
      var saved := traces.Save(t);
      if saved.Err? {
        return false;
      }
      var row := outbox.Enqueue(intent.value.id, intent.value.identity, intent.value.availableAt);
      if row.Err? {
        traces.records, traces.index := records, index;
        return false;
      }
      ok := true;
    }

    /** What authorizing, projecting, deciding and building come to. */
    method MakePlan(c: Call) returns (plan: Plan)
      ensures plan == PlanOf(c, digests)
    {
      var q := c.request.query;
      var a := Access.AuthorizeRequest(c.policies, q);
      if !a.decision.Allow? {
        return Stop(Denied);
      }
      var view := V.ProjectHistory(Access.AdmittedBy(c.memories, a.scope), V.Query(q.asOf, q.knownAt, {}, {}));
      if view.Err? {
        return Refuse(AmbiguousMemory);
      }
      if c.request.requireContext && view.value.entries == [] {
        return Stop(NoAuthorizedContext);
      }
      if c.decision.NotAProposal? || c.decision.proposal.action != q.action {
        return Refuse(InvalidProposal);
      }
      var p := c.decision.proposal;
      var built := T.BuildTrace(CapturedContext(c, a, view.value, p), digests.trace);
      plan := if built.Err? then Refuse(InvalidTrace) else Act(p, built.value);
    }

    /** A trace save that may fail before or after its transaction commits. */
    method SaveTrace(t: T.Trace, fault: Fault) returns (r: Result<bool, T.TraceError>)
      requires traces.Valid() && T.ValidPayload(t.payload)
      modifies traces
      ensures traces.Valid()
      ensures T.Step(traces.Tables(), r) == Faulted(old(traces.Tables()), T.Save(old(traces.Tables()), t), fault)
    {
      if fault.BeforeCommit? {
        return Err(T.ValueError);
      }
      r := traces.Save(t);
      if fault.AfterCommit? {
        r := Err(T.ValueError);
      }
    }

    method SaveOutcome(outcome: T.Outcome, fault: Fault) returns (r: Result<bool, T.TraceError>)
      requires traces.Valid()
      modifies traces
      ensures traces.Valid()
      ensures
        var before := old(traces.Tables());
        T.Step(traces.Tables(), r) == Faulted(before, T.SaveOther(before, T.OutcomeRecord(outcome)), fault)
    {
      if fault.BeforeCommit? {
        return Err(T.ValueError);
      }
      r := traces.SaveOther(T.OutcomeRecord(outcome));
      if fault.AfterCommit? {
        r := Err(T.ValueError);
      }
    }

    /** An executor's own transactions on the record store. */
    method Perform(effects: seq<T.Op>)
      requires traces.Valid()
      modifies traces
      ensures traces.Valid() && traces.Tables() == T.Run(old(traces.Tables()), effects)
    {
      for i := 0 to |effects|
        invariant traces.Valid()
        invariant T.Run(traces.Tables(), effects[i..]) == T.Run(old(traces.Tables()), effects)
      {
        var op := effects[i];
        assert effects[i..][0] == op && effects[i..][1..] == effects[i + 1..];
        match op {
          case OpSave(t) =>
            if T.ValidPayload(t.payload) {
              var saved := traces.Save(t);
            }
          case OpSaveOther(record) =>
            var saved := traces.SaveOther(record);
          case OpDelete(id) =>
            var deleted := traces.Delete(id);
        }
      }
    }

    method Invoke(e: Executor, p: Proposal, t: T.Trace) returns (reply: Reply)
      requires Valid() && !e.Absent? && T.ValidPayload(t.payload)
      modifies this`invoked, traces, outbox
      decreases e, 1
      ensures Valid() && ExecuteStep(State(), reply) == Execute(old(State()), e, p, t, digests)
    {
      var stored := t.id in traces.records && traces.records[t.id] == T.TraceRecord(t);
      invoked := invoked + [Invocation(t.id, stored)];
      if e.Custom? {
        Perform(e.effects);
        return e.reply;
      }
      if e.Nested? {
        RunAll(e);
        return e.reply;
      }
      var ok := Enqueue(t, p, e.availableAt);
      reply := EnqueueReply(ok, e.wrapped);
    }

    /** The runs that an executor starts. */
    method RunAll(e: Executor)
      requires Valid() && e.Nested?
      modifies this`invoked, traces, outbox
      decreases e, 0
      ensures Valid() && State() == RunNested(old(State()), e, |e.calls|, digests)
    {
      for i := 0 to |e.calls|
        invariant Valid() && State() == RunNested(old(State()), e, i, digests)
      {
        var answer := Run(e.calls[i]);
      }
    }

    /** Save the outcome, then the trace version that links it. */
    method LinkOutcome(c: Call, t: T.Trace, outcome: T.Outcome) returns (r: Result<Status, RunError>)
      requires Valid() && T.ValidPayload(t.payload)
      modifies traces
      ensures Valid() && RunStep(State(), r) == RecordOutcome(old(State()), c, t, outcome, digests)
    {
      if c.outcomeSink.None? {
        return Err(OutcomePersistence);
      }
      var saved := SaveOutcome(outcome, c.outcomeSink.value);
      if saved.Err? {
        return Err(OutcomePersistence);
      }
      var next := T.AttachOutcome(t, outcome, digests.trace);
      if next.Err? {
        return Err(OutcomePersistence);
      }
      var linked := SaveTrace(next.value, c.outcomeTraceFault);
      r := if linked.Ok? then Ok(OutcomeTraced) else Err(OutcomePersistence);
    }

    /** `run`. */
    method Run(c: Call) returns (r: Result<Status, RunError>)
      requires Valid()
      modifies this`invoked, traces, outbox
      decreases c, 1
      ensures Valid() && RunStep(State(), r) == RunCall(old(State()), c, digests)
    {
      var plan := MakePlan(c);
      if plan.Stop? {
        return Ok(plan.status);
      }
      if plan.Refuse? {
        return Err(plan.error);
      }
      var t := plan.trace;
      assert T.ValidPayload(t.payload);
      var alreadyTraced := t.id in traces.index;
      var saved := SaveTrace(t, c.traceFault);
      if saved.Err? {
        return Err(TracePersistence);
      }
      if alreadyTraced {
        return Ok(AlreadyTraced);
      }
      if c.executor.Absent? {
        return Ok(TracePersisted);
      }
      r := ExecuteAndRecord(c, plan.proposal, t);
    }

    method ExecuteAndRecord(c: Call, p: Proposal, t: T.Trace) returns (r: Result<Status, RunError>)
      requires Valid() && !c.executor.Absent? && T.ValidPayload(t.payload)
      modifies this`invoked, traces, outbox
      decreases c, 0
      ensures Valid()
      ensures RunStep(State(), r) == AfterExecution(Execute(old(State()), c.executor, p, t, digests), c, t, digests)
    {
      var reply := Invoke(c.executor, p, t);
      match reply {
        case Raises => r := Err(ActionExecution);
        case NotAnOutcome => r := Err(ActionExecution);
        case NoOutcome => r := Ok(ActionCompleted);
        case Returned(outcome) => r := LinkOutcome(c, t, outcome);
      }
    }
  }
}
