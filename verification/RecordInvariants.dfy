/** What every interleaving of saves, memory commits and deletes keeps. */
module RecordInvariants {
  import opened Base
  import opened MemoryRecords
  import opened RecordStore

  // ------------------------------------------------------------- invariants

  /** A record refers only to stored records that were inserted before it. */
  ghost predicate RecordOk(db: Db, id: string)
    requires id in db.records
  {
    var row := db.records[id];
    && row.record.Id() == id && row.serial < db.inserted
    && forall r :: r in row.record.References() ==> r in db.records && db.records[r].serial < row.serial
  }

  /** An index row names the memory record that it indexes. */
  ghost predicate IndexOk(db: Db, v: VersionRow) {
    var m := Load(db, v);
    m.Some? && m.value.id == v.memoryId && m.value.key == v.key && m.value.version == v.version
  }

  /** Member `n` of a chain has version `n + 1`, supersedes exactly member `n - 1`, and shares its type. */
  ghost predicate LinkOk(db: Db, rows: seq<VersionRow>, n: nat)
    requires n < |rows|
  {
    && rows[n].version == n + 1
    && var m := Load(db, rows[n]);
       && m.Some?
       && m.value.supersedes == (if n == 0 then {} else {rows[n - 1].memoryId})
       && Load(db, rows[0]).Some? && m.value.mtype == Load(db, rows[0]).value.mtype
  }

  ghost predicate ChainOk(db: Db, key: string) {
    var rows := RowsOf(db.versions, key);
    && (forall n {:trigger LinkOk(db, rows, n)} :: 0 <= n < |rows| ==> LinkOk(db, rows, n))
    && HeadOf(db, key) == if rows == [] then None else Some(Head(rows[|rows| - 1].memoryId, |rows|))
  }

  ghost predicate Inv(db: Db) {
    && (forall id {:trigger RecordOk(db, id)} :: id in db.records ==> RecordOk(db, id))
    && (forall v {:trigger IndexOk(db, v)} :: v in db.versions ==> IndexOk(db, v))
    && (forall key {:trigger ChainOk(db, key)} :: ChainOk(db, key))
  }

  lemma {:induction false} RowsOfMembers(versions: seq<VersionRow>, key: string)
    ensures forall v :: v in RowsOf(versions, key) <==> v in versions && v.key == key
  {
    if versions != [] {
      RowsOfMembers(versions[..|versions| - 1], key);
      assert versions == versions[..|versions| - 1] + [versions[|versions| - 1]];
    }
  }

  // ------------------------------------------------------ one step keeps Inv

  lemma InsertKeepsRecords(db: Db, record: Record, now: Instant)
    requires Inv(db) && ReferencesExist(db, record) && record.Id() !in db.records
    ensures
      var db' := InsertRecord(db, record, now);
      forall id :: id in db'.records ==> RecordOk(db', id)
  {
    var db' := InsertRecord(db, record, now);
    forall r | r in db.records ensures db.records[r].serial < db.inserted { assert RecordOk(db, r); }
    forall id | id in db'.records ensures RecordOk(db', id) {
      if id != record.Id() { assert RecordOk(db, id); }
    }
  }

  /** Chains read the same in a state that keeps every indexed record. */
  lemma ChainsStay(db: Db, db': Db)
    requires Inv(db) && db'.versions == db.versions && db'.heads == db.heads
    requires forall v :: v in db.versions ==> Load(db', v) == Load(db, v)
    ensures forall v :: v in db'.versions ==> IndexOk(db', v)
    ensures forall key :: ChainOk(db', key)
  {
    forall v | v in db'.versions ensures IndexOk(db', v) { assert IndexOk(db, v); }
    forall key ensures ChainOk(db', key) {
      var rows := RowsOf(db.versions, key);
      RowsOfMembers(db.versions, key);
      assert ChainOk(db, key);
      forall n | 0 <= n < |rows| ensures LinkOk(db', rows, n) { assert LinkOk(db, rows, n); }
    }
  }

  lemma SaveOtherKeepsInv(db: Db, record: Record, now: Instant)
    requires Inv(db) && record.OtherRecord?
    ensures Inv(Save(db, record, now).db)
  {
    var db' := Save(db, record, now).db;
    if db' != db {
      InsertKeepsRecords(db, record, now);
      ChainsStay(db, db');
    }
  }

  lemma DeleteKeepsInv(db: Db, id: string)
    requires Inv(db)
    ensures Inv(Delete(db, id).db)
  {
    var db' := Delete(db, id).db;
    if db' != db {
      ChainsStay(db, db');
      forall k | k in db'.records ensures RecordOk(db', k) { assert RecordOk(db, k); }
    }
  }

  /** The state after a commit that moved a head. */
  ghost predicate Extends(db: Db, memory: Memory, db': Db) {
    && db'.versions == db.versions + [VersionRow(memory.id, memory.key, memory.version)]
    && db'.heads == db.heads[memory.key := Head(memory.id, memory.version)]
    && memory.id !in db.records
    && memory.id in db'.records && db'.records[memory.id].record == MemoryRecord(memory)
    && (forall id :: id in db.records ==> id in db'.records && db'.records[id] == db.records[id])
  }

  lemma ExtendsKeepsChain(db: Db, memory: Memory, db': Db, key: string)
    requires Inv(db) && Extends(db, memory, db')
    requires memory.key == key ==>
      match HeadOf(db, key)
      case None => memory.version == 1 && memory.supersedes == {}
      case Some(h) => memory.version == h.version + 1 && memory.supersedes == {h.id}
                      && h.id in db.records && db.records[h.id].record.MemoryRecord?
                      && db.records[h.id].record.memory.mtype == memory.mtype
    ensures ChainOk(db', key)
  {
    var v := VersionRow(memory.id, memory.key, memory.version);
    assert db'.versions[..|db.versions|] == db.versions;
    var rows, rows' := RowsOf(db.versions, key), RowsOf(db'.versions, key);
    assert rows' == rows + if memory.key == key then [v] else [];
    RowsOfMembers(db.versions, key);
    assert ChainOk(db, key);
    forall n | 0 <= n < |rows'| ensures LinkOk(db', rows', n) {
      if n < |rows| {
        assert LinkOk(db, rows, n) && rows[n] in db.versions;
      } else if n > 0 {
        assert LinkOk(db, rows, n - 1) && rows[0] in db.versions;
      }
    }
  }

  lemma CommitKeepsInv(
    db: Db, memory: Memory, previousId: Option<string>,
    expectedHead: Option<string>, expectedVersion: Option<nat>, now: Instant)
    requires Inv(db)
    ensures Inv(Commit(db, memory, previousId, expectedHead, expectedVersion, now).db)
  {
    var db' := Commit(db, memory, previousId, expectedHead, expectedVersion, now).db;
    if db' != db {
      InsertKeepsRecords(db, MemoryRecord(memory), now);
      forall id | id in db'.records ensures RecordOk(db', id) {
        assert RecordOk(InsertRecord(db, MemoryRecord(memory), now), id);
      }
      forall v | v in db'.versions ensures IndexOk(db', v) {
        if v in db.versions { assert IndexOk(db, v); }
      }
      forall key ensures ChainOk(db', key) { ExtendsKeepsChain(db, memory, db', key); }
    }
  }

  lemma ApplyKeepsInv(db: Db, op: Op)
    requires Inv(db)
    ensures Inv(Apply(db, op))
  {
    match op
    case OpCommit(memory, previousId, expectedHead, expectedVersion, now) =>
      CommitKeepsInv(db, memory, previousId, expectedHead, expectedVersion, now);
    case OpSave(record, now) =>
      if record.MemoryRecord? { CommitKeepsInv(db, record.memory, None, None, None, now); }
      else { SaveOtherKeepsInv(db, record, now); }
    case OpDelete(id) => DeleteKeepsInv(db, id);
  }

  lemma {:induction false} RunKeepsInv(db: Db, ops: seq<Op>)
    requires Inv(db)
    ensures Inv(Run(db, ops))
    decreases |ops|
  {
    if ops != [] {
      ApplyKeepsInv(db, ops[0]);
      RunKeepsInv(Apply(db, ops[0]), ops[1..]);
    }
  }
}
