/** The record store as one mutable database. */
module RecordTables {
  import opened Base
  import opened MemoryRecords
  import S = RecordStore
  import opened RecordInvariants

  class RecordDatabase {
    var records: map<string, S.Row>
    var versions: seq<S.VersionRow>
    var heads: map<string, S.Head>
    /** The number of insertions so far, the serial of the next row. */
    var inserted: nat

    ghost function Tables(): S.Db
      reads this
    {
      S.Db(records, versions, heads, inserted)
    }

    ghost predicate Valid()
      reads this
    {
      Inv(Tables())
    }

    constructor ()
      ensures Valid() && Tables() == S.EMPTY_DB
    {
      records, versions, heads, inserted := map[], [], map[], 0;
    }

    method Insert(record: S.Record, now: Instant)
      modifies this`records, this`inserted
      ensures Tables() == S.InsertRecord(old(Tables()), record, now)
    {
      records := records[record.Id() := S.Row(record, now, inserted)];
      inserted := inserted + 1;
    }

    /** `_commit_memory_object`: compare the head, then append a version and move the head. */
    method CommitMemory(
      memory: Memory, previousId: Option<string>,
      expectedHead: Option<string>, expectedVersion: Option<nat>, now: Instant
    ) returns (error: Option<MemoryError>)
      requires Valid()
      modifies this
      ensures Valid()
      ensures S.Step(Tables(), error)
        == S.Commit(old(Tables()), memory, previousId, expectedHead, expectedVersion, now)
    {
      CommitKeepsInv(Tables(), memory, previousId, expectedHead, expectedVersion, now);
      ghost var before := Tables();
      assert ChainOk(before, memory.key);
      var head: Option<S.Head> := None;
      if memory.key in heads {
        head := Some(heads[memory.key]);
      }
      var db := S.Db(records, versions, heads, inserted);
      if head.Some? && head.value.id == memory.id {
        HeadIsStored(before, memory.key);
        if records[memory.id].record != S.MemoryRecord(memory) || head.value.version != memory.version {
          return Some(AmbiguousHistory);
        }
        return None;
      }
      if expectedHead != S.HeadId(head) {
        return Some(VersionConflict);
      }
      if expectedVersion.Some? && (head.None? || head.value.version != expectedVersion.value) {
        return Some(VersionConflict);
      }
      var progression := S.ProgressionError(db, memory, previousId, head);
      if progression.Some? {
        return progression;
      }
      if !S.ReferencesExist(db, S.MemoryRecord(memory)) {
        return Some(MissingReference);
      }
      if S.KeyClash(db, memory) {
        return Some(AmbiguousHistory);
      }
      Insert(S.MemoryRecord(memory), now);
      versions := versions + [S.VersionRow(memory.id, memory.key, memory.version)];
      heads := heads[memory.key := S.Head(memory.id, memory.version)];
      return None;
    }

    method Save(record: S.Record, now: Instant) returns (error: Option<MemoryError>)
      requires Valid()
      modifies this
      ensures Valid() && S.Step(Tables(), error) == S.Save(old(Tables()), record, now)
    {
      if record.MemoryRecord? {
        if record.memory.version != 1 || record.memory.supersedes != {} {
          return Some(UnsafeWrite);
        }
        error := CommitMemory(record.memory, None, None, None, now);
        return error;
      }
      SaveOtherKeepsInv(Tables(), record, now);
      if !(record.References() <= records.Keys) {
        return Some(MissingReference);
      }
      if record.Id() in records {
        return Some(DuplicateRecord);
      }
      Insert(record, now);
      return None;
    }

    /** `delete` without `force`: collect the dependants, then remove the row. */
    method Delete(id: string) returns (error: Option<MemoryError>)
      requires Valid()
      modifies this`records
      ensures Valid() && S.Step(Tables(), error) == S.Delete(old(Tables()), id)
    {
      DeleteKeepsInv(Tables(), id);
      if id !in records {
        return Some(RecordNotFound);
      }
      if S.Indexed(S.Db(records, versions, heads, inserted), id) {
        return Some(ReferencedRecord);
      }
      var unseen := records.Keys;
      var dependants: set<string> := {};
      while unseen != {}
        invariant unseen <= records.Keys
        invariant dependants == set k | k in records && k !in unseen && k != id && id in records[k].record.References()
        decreases unseen
      {
        var k :| k in unseen;
        unseen := unseen - {k};
        if k != id && id in records[k].record.References() {
          dependants := dependants + {k};
        }
      }
      if dependants != {} {
        var k :| k in dependants;
        assert S.Referenced(Tables(), id);
        return Some(ReferencedRecord);
      }
      assert !S.Referenced(Tables(), id) by {
        assert forall k :: k in records && k != id && id in records[k].record.References() ==> k in dependants;
      }
      records := records - {id};
      return None;
    }
  }

  /** A head names a stored record. */
  lemma HeadIsStored(db: S.Db, key: string)
    requires Inv(db) && key in db.heads
    ensures db.heads[key].id in db.records
  {
    var rows := S.RowsOf(db.versions, key);
    assert ChainOk(db, key);
    assert LinkOk(db, rows, |rows| - 1);
  }
}
