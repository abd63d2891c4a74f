/** Exactly when the trace store changes, and what the builder writes. */
module TraceAnswers {
  import opened Base
  import opened DecisionTraces

  /** A stored trace supersedes the given one. */
  ghost predicate Superseded(db: Db, id: string) {
    exists k :: IsTrace(db, k) && db.records[k].trace.payload.supersedes == Some(id)
  }

  /**
   * A trace is inserted exactly when its id is free, its references are stored, it starts a chain or
   * follows its predecessor, and that predecessor has no successor yet. Repeating a stored trace is
   * accepted without a change, every other save is refused without one.
   */
  lemma SavesExactlyWhen(ops: seq<Op>, t: Trace)
    ensures
      var db := Run(EMPTY_DB, ops);
      var s := Save(db, t);
      && (s.result == Ok(true) <==>
            && t.id !in db.records && t.References() <= db.records.Keys && IsNextLink(db, t)
            && (t.payload.supersedes.Some? ==> !Superseded(db, t.payload.supersedes.value)))
      && (s.result == Ok(false) <==> t.id in db.records && db.records[t.id] == TraceRecord(t))
      && (s.result == Ok(true) ==>
            && s.db.records == db.records[t.id := TraceRecord(t)]
            && s.db.index == db.index[t.id := IndexRow(t.payload.version, t.payload.supersedes)])
      && (s.result != Ok(true) ==> s.db == db)
  {
    var db := Run(EMPTY_DB, ops);
    RunKeepsInv(EMPTY_DB, ops);
    if t.id !in db.records {
      ClashMeans(db, t);
    }
  }

  /** Over every run, each refusal of a trace has its own cause. */
  lemma RefusalsMean(ops: seq<Op>, t: Trace)
    ensures
      var db := Run(EMPTY_DB, ops);
      var (r, stored) := (Save(db, t).result, t.References() <= db.records.Keys);
      && (r == Err(DuplicateRecord) <==>
            if t.id in db.records then db.records[t.id] != TraceRecord(t)
            else stored && IsNextLink(db, t) && t.payload.supersedes.Some? && Superseded(db, t.payload.supersedes.value))
      && (r == Err(MissingReference) <==> t.id !in db.records && !stored)
      && (r == Err(InvalidProgression) <==> t.id !in db.records && stored && !IsNextLink(db, t))
      && (r.Ok? || r.error in {DuplicateRecord, MissingReference, InvalidProgression})
  {
    var db := Run(EMPTY_DB, ops);
    RunKeepsInv(EMPTY_DB, ops);
    if t.id !in db.records {
      ClashMeans(db, t);
    }
  }

  lemma ClashMeans(db: Db, t: Trace)
    requires Inv(db) && t.id !in db.records
    ensures IndexClash(db.index, t) <==> t.payload.supersedes.Some? && Superseded(db, t.payload.supersedes.value)
  {
    if k :| k in db.index && t.payload.supersedes.Some? && db.index[k].supersedes == t.payload.supersedes {
      assert RecordOk(db, k) && IsTrace(db, k) && LinkOk(db, k);
    }
    forall k | IsTrace(db, k) ensures k in db.index && db.index[k].supersedes == db.records[k].trace.payload.supersedes {
      assert LinkOk(db, k);
    }
  }

  /** Any other record is saved exactly under a free id with stored references. */
  lemma SavesOtherExactlyWhen(db: Db, record: Record)
    requires !record.TraceRecord?
    ensures
      var s := SaveOther(db, record);
      && (s.result.Ok? <==> record.Id() !in db.records && record.References() <= db.records.Keys)
      && s.db == (if s.result.Ok? then db.(records := db.records[record.Id() := record]) else db)
      && (s.result.Err? ==>
            s.result.error == if record.References() <= db.records.Keys then DuplicateRecord else MissingReference)
  {
  }

  /** An unforced delete removes exactly the stored records that are no trace and that no other record names. */
  lemma DeletesExactlyWhen(ops: seq<Op>, id: string)
    ensures
      var db := Run(EMPTY_DB, ops);
      var s := Delete(db, id);
      && (s.result.Ok? <==>
            && id in db.records && !IsTrace(db, id)
            && forall other :: other in db.records && other != id ==> id !in db.records[other].References())
      && s.db == (if s.result.Ok? then db.(records := db.records - {id}) else db)
      && (s.result.Err? ==> s.result.error == if id in db.records then ReferencedRecord else RecordNotFound)
  {
    var db := Run(EMPTY_DB, ops);
    RunKeepsInv(EMPTY_DB, ops);
    assert id in db.records ==> RecordOk(db, id);
  }

  /**
   * A new link keeps the captured context of its trace, names the outcome and the trace, is one
   * version later, dated by the outcome, and bears the id derived from all this.
   */
  lemma LinkSays(t: Trace, outcome: Outcome, derive: Deriver)
    requires t.payload.outcomeId.None? && AttachOutcome(t, outcome, derive).Ok?
    ensures
      var next := AttachOutcome(t, outcome, derive).value;
      && next.payload.context == t.payload.context
      && next.payload.outcomeId == Some(outcome.id) && next.payload.supersedes == Some(t.id)
      && next.payload.version == t.payload.version + 1 && next.payload.createdAt == outcome.observedAt
      && next.id == derive(next.payload)
  {
  }
}
