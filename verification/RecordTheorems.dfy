/** The guarantees of the record store, over every run of saves, commits and unforced deletes. */
module RecordTheorems {
  import opened Base
  import opened MemoryRecords
  import opened RecordStore
  import opened RecordInvariants

  // ------------------------------------------------------------ memory chains

  lemma MemberFacts(db: Db, key: string, n: nat)
    requires Inv(db) && n < |RowsOf(db.versions, key)|
    ensures
      var rows := RowsOf(db.versions, key);
      && LinkOk(db, rows, n) && rows[n] in db.versions && rows[n].key == key && IndexOk(db, rows[n])
  {
    RowsOfMembers(db.versions, key);
    var rows := RowsOf(db.versions, key);
    assert ChainOk(db, key);
    assert rows[n] in rows;
    assert LinkOk(db, rows, n) && IndexOk(db, rows[n]);
  }

  /** Member `n` of the chain of a key, as a reader finds it. */
  ghost predicate Member(db: Db, rows: seq<VersionRow>, n: nat, key: string)
    requires n < |rows|
  {
    var m, first := Load(db, rows[n]), Load(db, rows[0]);
    && m.Some? && first.Some? && m.value.mtype == first.value.mtype
    && m.value.id == rows[n].memoryId && m.value.key == key
    && m.value.version == rows[n].version == n + 1
    && m.value.supersedes == (if n == 0 then {} else {rows[n - 1].memoryId})
  }

  /**
   * The committed versions of a key are exactly 1, 2, ... up to the version of its head. Each is
   * a stored memory of the key that supersedes exactly the one before, and all have one type.
   */
  lemma ChainsAreLinear(ops: seq<Op>, key: string)
    ensures
      var db := Run(EMPTY_DB, ops);
      var rows := RowsOf(db.versions, key);
      && (forall v :: v in rows <==> v in db.versions && v.key == key)
      && (forall n {:trigger Member(db, rows, n, key)} :: 0 <= n < |rows| ==> Member(db, rows, n, key))
      && HeadOf(db, key) == if rows == [] then None else Some(Head(rows[|rows| - 1].memoryId, |rows|))
  {
    var db := Run(EMPTY_DB, ops);
    RunKeepsInv(EMPTY_DB, ops);
    var rows := RowsOf(db.versions, key);
    RowsOfMembers(db.versions, key);
    assert ChainOk(db, key);
    forall n | 0 <= n < |rows| ensures Member(db, rows, n, key) {
      MemberFacts(db, key, n);
    }
  }

  /** A later state keeps every chain as a beginning of what it is then. */
  ghost predicate Grown(db: Db, db': Db, key: string) {
    && RowsOf(db.versions, key) <= RowsOf(db'.versions, key)
    && forall v :: v in RowsOf(db.versions, key) ==> Load(db', v) == Load(db, v)
  }

  lemma StepKeepsIndexed(db: Db, op: Op, v: VersionRow)
    requires Inv(db) && v in db.versions
    ensures Load(Apply(db, op), v) == Load(db, v)
  {
    assert IndexOk(db, v);
    if op.OpDelete? && v.memoryId == op.id {
      var i :| 0 <= i < |db.versions| && db.versions[i] == v;
      assert Indexed(db, op.id);
    }
  }

  lemma StepAppends(db: Db, op: Op)
    ensures
      var db' := Apply(db, op);
      db'.versions == db.versions || exists v :: db'.versions == db.versions + [v]
  {
  }

  lemma StepGrows(db: Db, op: Op, key: string)
    requires Inv(db)
    ensures Grown(db, Apply(db, op), key)
  {
    RowsOfMembers(db.versions, key);
    forall v | v in RowsOf(db.versions, key) ensures Load(Apply(db, op), v) == Load(db, v) {
      StepKeepsIndexed(db, op, v);
    }
    StepAppends(db, op);
    var versions := Apply(db, op).versions;
    assert |versions| > |db.versions| ==> versions[..|versions| - 1] == db.versions;
  }

  lemma {:induction false} RunGrows(db: Db, ops: seq<Op>, key: string)
    requires Inv(db)
    ensures Grown(db, Run(db, ops), key)
    decreases |ops|
  {
    if ops != [] {
      var mid := Apply(db, ops[0]);
      StepGrows(db, ops[0], key);
      ApplyKeepsInv(db, ops[0]);
      RunGrows(mid, ops[1..], key);
      assert forall v :: v in RowsOf(db.versions, key) ==> v in RowsOf(mid.versions, key);
    }
  }

  /**
   * A writer that read a head which has been replaced since cannot change anything: the head never
   * comes back, so whatever it commits against the old head leaves all tables as they are.
   */
  lemma StaleWriterChangesNothing(
    before: seq<Op>, between: seq<Op>, memory: Memory, previousId: Option<string>,
    expectedVersion: Option<nat>, now: Instant)
    requires
      HeadOf(Run(Run(EMPTY_DB, before), between), memory.key) != HeadOf(Run(EMPTY_DB, before), memory.key)
    ensures
      var read := Run(EMPTY_DB, before);
      var db := Run(read, between);
      var s := Commit(db, memory, previousId, HeadId(HeadOf(read, memory.key)), expectedVersion, now);
      && s.db == db
      && (HeadId(HeadOf(db, memory.key)) != Some(memory.id) ==> s.error == Some(VersionConflict))
  {
    var read := Run(EMPTY_DB, before);
    var db := Run(read, between);
    RunKeepsInv(EMPTY_DB, before);
    RunKeepsInv(read, between);
    RunGrows(read, between, memory.key);
    HeadNeverReturns(read, db, memory.key);
  }

  lemma HeadNeverReturns(read: Db, db: Db, key: string)
    requires Inv(read) && Inv(db) && Grown(read, db, key) && HeadOf(db, key) != HeadOf(read, key)
    ensures HeadId(HeadOf(db, key)) != HeadId(HeadOf(read, key))
  {
    assert ChainOk(read, key) && ChainOk(db, key);
    var rows, rows' := RowsOf(read.versions, key), RowsOf(db.versions, key);
    if rows != [] {
      MemberFacts(db, key, |rows| - 1);
      MemberFacts(db, key, |rows'| - 1);
      assert rows[|rows| - 1] == rows'[|rows| - 1];
    }
  }

  // --------------------------------------------------- consolidate and commit

  ghost predicate Committed(db: Db, m: Memory) {
    exists v :: v in db.versions && Load(db, v) == Some(m)
  }

  /** The full history of a key, in any order, possibly with repetitions and with other keys. */
  ghost predicate FullHistory(db: Db, history: seq<Memory>, key: string) {
    forall m: Memory :: m.key == key ==> (m in history <==> Committed(db, m))
  }

  /** Every relevant memory is the member of the chain that its version says. */
  ghost predicate OnChain(db: Db, relevant: seq<Memory>, rows: seq<VersionRow>) {
    forall m :: m in relevant ==> 1 <= m.version <= |rows| && Load(db, rows[m.version - 1]) == Some(m)
  }

  lemma RelevantOnChain(db: Db, history: seq<Memory>, key: string)
    requires Inv(db) && FullHistory(db, history, key)
    ensures OnChain(db, Relevant(history, key), RowsOf(db.versions, key))
  {
    RelevantMembers(history, key);
    forall m | m in Relevant(history, key)
      ensures 1 <= m.version <= |RowsOf(db.versions, key)|
      ensures Load(db, RowsOf(db.versions, key)[m.version - 1]) == Some(m)
    {
      CommittedIsMember(db, key, m);
    }
  }

  lemma HeadIsRelevant(db: Db, history: seq<Memory>, key: string) returns (m: Memory)
    requires Inv(db) && FullHistory(db, history, key) && RowsOf(db.versions, key) != []
    ensures m in Relevant(history, key) && m.version == |RowsOf(db.versions, key)|
    ensures HeadOf(db, key) == Some(Head(m.id, m.version)) && m.key == key
    ensures m.id in db.records && db.records[m.id].record == MemoryRecord(m)
  {
    var rows := RowsOf(db.versions, key);
    MemberFacts(db, key, |rows| - 1);
    assert ChainOk(db, key);
    m := Load(db, rows[|rows| - 1]).value;
    assert Committed(db, m);
    RelevantMembers(history, key);
  }

  lemma LatestOnChain(db: Db, relevant: seq<Memory>, rows: seq<VersionRow>, top: Memory)
    requires OnChain(db, relevant, rows) && top in relevant && top.version == |rows|
    ensures !Ambiguous(relevant) && Latest(relevant) == Some(top)
  {
    Distinct(relevant);
  }

  /** The latest version that consolidation finds in the full history is the head. */
  lemma LatestIsHead(db: Db, history: seq<Memory>, key: string)
    requires Inv(db) && FullHistory(db, history, key)
    ensures !Ambiguous(Relevant(history, key))
    ensures
      var latest := Latest(Relevant(history, key));
      match HeadOf(db, key)
      case None => latest.None?
      case Some(h) => latest.Some? && h.id in db.records && db.records[h.id].record == MemoryRecord(latest.value)
                      && latest.value.id == h.id && latest.value.version == h.version && latest.value.key == key
  {
    RelevantOnChain(db, history, key);
    if RowsOf(db.versions, key) == [] {
      assert ChainOk(db, key);
      assert Relevant(history, key) != [] ==> Relevant(history, key)[0] in Relevant(history, key);
    } else {
      var top := HeadIsRelevant(db, history, key);
      LatestOnChain(db, Relevant(history, key), RowsOf(db.versions, key), top);
    }
  }

  lemma CommittedIsMember(db: Db, key: string, m: Memory)
    requires Inv(db) && Committed(db, m) && m.key == key
    ensures 1 <= m.version <= |RowsOf(db.versions, key)|
    ensures Load(db, RowsOf(db.versions, key)[m.version - 1]) == Some(m)
  {
    RowsOfMembers(db.versions, key);
    var rows := RowsOf(db.versions, key);
    var v :| v in db.versions && Load(db, v) == Some(m);
    assert IndexOk(db, v);
    var n :| 0 <= n < |rows| && rows[n] == v;
    MemberFacts(db, key, n);
  }

  /**
   * A version consolidated from the full history of its key and committed against the head of that
   * history passes every progression check. It is committed exactly when its references are stored
   * and its id is free, and is then the new head of its chain; a refusal changes nothing.
   */
  lemma ConsolidatedVersionCommits(
    ops: seq<Op>, mutation: Mutation, history: seq<Memory>, derive: Deriver, checkVersion: bool, now: Instant)
    requires FullHistory(Run(EMPTY_DB, ops), history, mutation.key)
    ensures
      var db := Run(EMPTY_DB, ops);
      var r := Consolidate(mutation, history, derive);
      var head := HeadOf(db, mutation.key);
      && r != Err(AmbiguousHistory)
      && (r.Ok? ==>
            && ProgressionError(db, r.value.memory, r.value.previousId, head).None?
            && CommitsWhenFree(db, r.value,
                               if checkVersion && head.Some? then Some(head.value.version) else None, now))
  {
    var db := Run(EMPTY_DB, ops);
    RunKeepsInv(EMPTY_DB, ops);
    LatestIsHead(db, history, mutation.key);
    var head := HeadOf(db, mutation.key);
    var r := Consolidate(mutation, history, derive);
    if r.Ok? {
      if r.value.memory.id !in db.records { NextVersionIsFree(db, r.value.memory); }
      NextVersionPasses(db, r.value, if checkVersion && head.Some? then Some(head.value.version) else None, now);
    }
  }

  /** The commit against the current head succeeds exactly with stored references under a free id. */
  ghost predicate CommitsWhenFree(db: Db, c: Consolidation, expectedVersion: Option<nat>, now: Instant) {
    var s := Commit(db, c.memory, c.previousId, HeadId(HeadOf(db, c.memory.key)), expectedVersion, now);
    && (s.error.None? <==> ReferencesExist(db, MemoryRecord(c.memory)) && c.memory.id !in db.records)
    && (s.error.Some? ==>
          && s.db == db
          && s.error == Some(if ReferencesExist(db, MemoryRecord(c.memory)) then AmbiguousHistory else MissingReference))
    && (s.error.None? ==> Extends(db, c.memory, s.db))
  }

  lemma NextVersionPasses(db: Db, c: Consolidation, expectedVersion: Option<nat>, now: Instant)
    requires KeyClash(db, c.memory) <==> c.memory.id in db.records
    requires HeadId(HeadOf(db, c.memory.key)) != Some(c.memory.id)
    requires ProgressionError(db, c.memory, c.previousId, HeadOf(db, c.memory.key)).None?
    requires expectedVersion.Some? ==>
      HeadOf(db, c.memory.key).Some? && expectedVersion.value == HeadOf(db, c.memory.key).value.version
    ensures CommitsWhenFree(db, c, expectedVersion, now)
  {
  }

  lemma NextVersionIsFree(db: Db, memory: Memory)
    requires Inv(db) && memory.id !in db.records
    requires memory.version == match HeadOf(db, memory.key) case None => 1 case Some(h) => h.version + 1
    ensures !KeyClash(db, memory)
  {
    var rows := RowsOf(db.versions, memory.key);
    assert ChainOk(db, memory.key);
    RowsOfMembers(db.versions, memory.key);
    forall i | 0 <= i < |db.versions|
      ensures db.versions[i].memoryId != memory.id
      ensures !(db.versions[i].key == memory.key && db.versions[i].version == memory.version)
    {
      var v := db.versions[i];
      assert IndexOk(db, v);
      if v.key == memory.key {
        var n :| 0 <= n < |rows| && rows[n] == v;
        assert LinkOk(db, rows, n);
      }
    }
  }

  // ---------------------------------------------------------------- provenance

  /** Every reference of every stored record is stored. */
  lemma ProvenanceIsClosed(ops: seq<Op>, id: string, r: string)
    requires id in Run(EMPTY_DB, ops).records && r in Run(EMPTY_DB, ops).records[id].record.References()
    ensures r in Run(EMPTY_DB, ops).records && r != id
  {
    RunKeepsInv(EMPTY_DB, ops);
    assert RecordOk(Run(EMPTY_DB, ops), id);
  }

  /** Each member of the path refers to the next. */
  ghost predicate Follows(db: Db, path: seq<string>) {
    && (forall i :: 0 <= i < |path| ==> path[i] in db.records)
    && forall i :: 0 <= i < |path| - 1 ==> path[i + 1] in db.records[path[i]].record.References()
  }

  /** Following references meets no record twice, and ends. */
  lemma ReferencesAreWellFounded(ops: seq<Op>, path: seq<string>)
    requires Follows(Run(EMPTY_DB, ops), path)
    ensures forall i, j :: 0 <= i < j < |path| ==> path[i] != path[j]
    ensures |path| <= Run(EMPTY_DB, ops).inserted <= |ops|
  {
    var db := Run(EMPTY_DB, ops);
    RunKeepsInv(EMPTY_DB, ops);
    InsertsAtMostOnePerStep(EMPTY_DB, ops);
    forall i, j | 0 <= i < j < |path| ensures path[i] != path[j] { SerialsFall(db, path, i, j); }
    if path != [] {
      SerialsFall(db, path, 0, |path| - 1);
      assert RecordOk(db, path[0]);
    }
  }

  lemma {:induction false} SerialsFall(db: Db, path: seq<string>, i: nat, j: nat)
    requires Inv(db) && Follows(db, path) && i <= j < |path|
    ensures db.records[path[j]].serial + (j - i) <= db.records[path[i]].serial
    decreases j
  {
    if i < j {
      SerialsFall(db, path, i, j - 1);
      assert RecordOk(db, path[j - 1]);
      assert path[j - 1 + 1] == path[j];
    }
  }

  lemma {:induction false} InsertsAtMostOnePerStep(db: Db, ops: seq<Op>)
    ensures Run(db, ops).inserted <= db.inserted + |ops|
    decreases |ops|
  {
    if ops != [] {
      InsertsAtMostOnePerStep(Apply(db, ops[0]), ops[1..]);
    }
  }
}
