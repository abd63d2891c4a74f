/** The trace store as a mutable database (decision_trace_store.py). */
module TraceTables {
  import opened Base
  import T = DecisionTraces

  class TraceDatabase {
    var records: map<string, T.Record>
    var index: map<string, T.IndexRow>

    ghost function Tables(): T.Db
      reads this
    {
      T.Db(records, index)
    }

    ghost predicate Valid()
      reads this
    {
      T.Inv(Tables())
    }

    constructor ()
      ensures Valid() && Tables() == T.EMPTY_DB
    {
      records, index := map[], map[];
    }

    method Exists(id: string) returns (found: bool)
      requires Valid()
      ensures found <==> T.IsTrace(Tables(), id)
    {
      assert id in records ==> T.RecordOk(Tables(), id);
      found := id in index;
    }

    /** `save`: whether the trace was inserted. */
    method Save(trace: T.Trace) returns (r: Result<bool, T.TraceError>)
      requires Valid() && T.ValidPayload(trace.payload)
      modifies this
      ensures Valid() && T.Step(Tables(), r) == T.Save(old(Tables()), trace)
    {
      T.SaveKeepsInv(Tables(), trace);
      if trace.id in records {
        if records[trace.id] == T.TraceRecord(trace) {
          return Ok(false);
        }
        return Err(T.DuplicateRecord);
      }
      if !(trace.References() <= records.Keys) {
        return Err(T.MissingReference);
      }
      var error := ValidateProgression(trace);
      if error.Some? {
        return Err(error.value);
      }
      if T.IndexClash(index, trace) {
        return Err(T.DuplicateRecord);
      }
      records := records[trace.id := T.TraceRecord(trace)];
      index := index[trace.id := T.IndexRow(trace.payload.version, trace.payload.supersedes)];
      r := Ok(true);
    }

    /** `_validate_progression`. */
    method ValidateProgression(trace: T.Trace) returns (error: Option<T.TraceError>)
      ensures error == T.ProgressionError(Tables(), trace)
      ensures error.None? <==> T.IsNextLink(Tables(), trace)
    {
      var p := trace.payload;
      if p.version == 1 {
        return if p.supersedes.Some? then Some(T.InvalidProgression) else None;
      }
      if p.supersedes.None? {
        return Some(T.InvalidProgression);
      }
      if p.supersedes.value !in records {
        return Some(T.RecordNotFound);
      }
      var previous := records[p.supersedes.value];
      if !previous.TraceRecord? || p.version != previous.trace.payload.version + 1 || p.outcomeId.None?
        || p.context != previous.trace.payload.context
      {
        return Some(T.InvalidProgression);
      }
      error := None;
    }

    method SaveOther(record: T.Record) returns (r: Result<bool, T.TraceError>)
      requires Valid()
      modifies this`records
      ensures Valid() && T.Step(Tables(), r) == T.SaveOther(old(Tables()), record)
    {
      T.ApplyKeepsInv(Tables(), T.OpSaveOther(record));
      if record.TraceRecord? {
        return Err(T.ValueError);
      }
      if !(record.References() <= records.Keys) {
        return Err(T.MissingReference);
      }
      if record.Id() in records {
        return Err(T.DuplicateRecord);
      }
      records := records[record.Id() := record];
      r := Ok(true);
    }

    method Delete(id: string) returns (r: Result<bool, T.TraceError>)
      requires Valid()
      modifies this`records
      ensures Valid() && T.Step(Tables(), r) == T.Delete(old(Tables()), id)
    {
      T.ApplyKeepsInv(Tables(), T.OpDelete(id));
      if id !in records {
        return Err(T.RecordNotFound);
      }
      if T.Referenced(T.Db(records, index), id) || id in index {
        return Err(T.ReferencedRecord);
      }
      records := records - {id};
      r := Ok(true);
    }
  }
}
