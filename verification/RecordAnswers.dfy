/** Exactly when a commit, a save and a delete change the record store, and to what, over every run. */
module RecordAnswers {
  import opened Base
  import opened TextOrder
  import opened MemoryRecords
  import opened RecordStore
  import opened RecordInvariants
  import opened RecordTheorems

  /** The version continues the chain of its key as the writer expects it. */
  predicate Continues(
    db: Db, memory: Memory, previousId: Option<string>, expectedHead: Option<string>, expectedVersion: Option<nat>)
  {
    if memory.key !in db.heads then
      && expectedHead.None? && expectedVersion.None? && previousId.None?
      && memory.version == 1 && memory.supersedes == {}
    else
      var h := db.heads[memory.key];
      && expectedHead == Some(h.id) && (expectedVersion.Some? ==> expectedVersion.value == h.version)
      && previousId == Some(h.id) && memory.supersedes == {h.id} && memory.version == h.version + 1
      && h.id in db.records && db.records[h.id].record.MemoryRecord?
      && db.records[h.id].record.memory.mtype == memory.mtype
  }

  /** The store after a commit: one record, one index row, and the head moved. */
  predicate CommittedTo(db: Db, memory: Memory, now: Instant, db': Db) {
    && db'.records == db.records[memory.id := Row(MemoryRecord(memory), now, db.inserted)]
    && db'.versions == db.versions + [VersionRow(memory.id, memory.key, memory.version)]
    && db'.heads == db.heads[memory.key := Head(memory.id, memory.version)]
    && db'.inserted == db.inserted + 1
  }

  /**
   * A commit changes the store exactly when the version continues its chain as expected, its id is
   * free and its references are stored. It is accepted without a change exactly when it repeats the
   * stored head. Every other commit is refused and changes nothing.
   */
  lemma CommitsExactlyWhen(
    ops: seq<Op>, memory: Memory, previousId: Option<string>,
    expectedHead: Option<string>, expectedVersion: Option<nat>, now: Instant)
    ensures
      var db := Run(EMPTY_DB, ops);
      var s := Commit(db, memory, previousId, expectedHead, expectedVersion, now);
      && (s.db != db <==>
            && Continues(db, memory, previousId, expectedHead, expectedVersion)
            && memory.id !in db.records && memory.References() <= db.records.Keys)
      && (s.db != db ==> s.error.None? && CommittedTo(db, memory, now, s.db))
      && (s.db == db ==>
            (s.error.None? <==>
               && memory.key in db.heads && db.heads[memory.key] == Head(memory.id, memory.version)
               && memory.id in db.records && db.records[memory.id].record == MemoryRecord(memory)))
  {
    var db := Run(EMPTY_DB, ops);
    RunKeepsInv(EMPTY_DB, ops);
    CommitByFields(db, memory, previousId, expectedHead, expectedVersion, now);
  }

  lemma CommitByFields(
    db: Db, memory: Memory, previousId: Option<string>,
    expectedHead: Option<string>, expectedVersion: Option<nat>, now: Instant)
    requires Inv(db)
    ensures
      var s := Commit(db, memory, previousId, expectedHead, expectedVersion, now);
      && (s.db != db <==>
            && Continues(db, memory, previousId, expectedHead, expectedVersion)
            && memory.id !in db.records && memory.References() <= db.records.Keys)
      && (s.db != db ==> s.error.None? && CommittedTo(db, memory, now, s.db))
      && (s.db == db ==>
            (s.error.None? <==>
               && memory.key in db.heads && db.heads[memory.key] == Head(memory.id, memory.version)
               && memory.id in db.records && db.records[memory.id].record == MemoryRecord(memory)))
  {
    HeadIsMember(db, memory.key);
    if Continues(db, memory, previousId, expectedHead, expectedVersion) && memory.id !in db.records {
      NextVersionIsFree(db, memory);
    }
  }

  /** The head of the key is not the one that the writer expects. */
  predicate Stale(db: Db, memory: Memory, expectedHead: Option<string>, expectedVersion: Option<nat>) {
    if memory.key !in db.heads then expectedHead.Some? || expectedVersion.Some?
    else
      var h := db.heads[memory.key];
      expectedHead != Some(h.id) || (expectedVersion.Some? && expectedVersion.value != h.version)
  }

  /**
   * Over every run, each refusal of a commit has its own cause: a stored head of this id that is
   * another memory, or an id that is taken; a head that is not the expected one; a version that does
   * not continue the chain; or a reference that is not stored.
   */
  lemma CommitRefusalsMean(
    ops: seq<Op>, memory: Memory, previousId: Option<string>,
    expectedHead: Option<string>, expectedVersion: Option<nat>, now: Instant)
    ensures
      var db := Run(EMPTY_DB, ops);
      var error := Commit(db, memory, previousId, expectedHead, expectedVersion, now).error;
      var again := memory.key in db.heads && db.heads[memory.key].id == memory.id;
      var (stale, next) := (Stale(db, memory, expectedHead, expectedVersion),
                            Continues(db, memory, previousId, expectedHead, expectedVersion));
      && (error == Some(VersionConflict) <==> !again && stale)
      && (error == Some(InvalidProgression) <==> !again && !stale && !next)
      && (error == Some(MissingReference) <==> !again && next && !(memory.References() <= db.records.Keys))
      && (error == Some(AmbiguousHistory) <==>
            if again then
              db.heads[memory.key].version != memory.version
              || memory.id !in db.records || db.records[memory.id].record != MemoryRecord(memory)
            else next && memory.References() <= db.records.Keys && memory.id in db.records)
      && (error.None? || error.value in {VersionConflict, InvalidProgression, MissingReference, AmbiguousHistory})
  {
    var db := Run(EMPTY_DB, ops);
    RunKeepsInv(EMPTY_DB, ops);
    HeadIsMember(db, memory.key);
    if Continues(db, memory, previousId, expectedHead, expectedVersion) && memory.id !in db.records {
      NextVersionIsFree(db, memory);
    }
  }

  /** A save refuses later memory versions as unsafe, and other records for a missing reference or a taken id. */
  lemma SaveRefusalsMean(db: Db, record: Record, now: Instant)
    ensures
      var error := Save(db, record, now).error;
      && (record.OtherRecord? ==>
            && (error == Some(MissingReference) <==> !(record.References() <= db.records.Keys))
            && (error == Some(DuplicateRecord) <==> record.References() <= db.records.Keys && record.Id() in db.records))
      && (error == Some(UnsafeWrite) <==>
            record.MemoryRecord? && (record.memory.version != 1 || record.memory.supersedes != {}))
  {
  }

  /** A head is a stored memory of its key. */
  lemma HeadIsMember(db: Db, key: string)
    requires Inv(db)
    ensures key in db.heads ==>
      var h := db.heads[key];
      && h.id in db.records && db.records[h.id].record.MemoryRecord?
      && db.records[h.id].record.memory.key == key && db.records[h.id].record.memory.version == h.version
  {
    assert ChainOk(db, key);
    var rows := RowsOf(db.versions, key);
    if key in db.heads {
      MemberFacts(db, key, |rows| - 1);
    }
  }

  /**
   * A save of any other record succeeds exactly when its references are stored and its id is free. A
   * save of a memory succeeds exactly when it is a first version that starts its chain, or repeats it.
   */
  lemma SavesExactlyWhen(ops: seq<Op>, record: Record, now: Instant)
    ensures
      var db := Run(EMPTY_DB, ops);
      var s := Save(db, record, now);
      var free := record.Id() !in db.records && record.References() <= db.records.Keys;
      && (s.error.Some? ==> s.db == db)
      && (record.OtherRecord? ==>
            && (s.error.None? <==> free)
            && (free ==> s.db == db.(records := db.records[record.Id() := Row(record, now, db.inserted)],
                                     inserted := db.inserted + 1)))
      && (record.MemoryRecord? ==>
            var m := record.memory;
            && (s.db != db <==> m.version == 1 && m.supersedes == {} && m.key !in db.heads && free)
            && (s.db != db ==> s.error.None? && CommittedTo(db, m, now, s.db))
            && (s.db == db && s.error.None? ==>
                  m.key in db.heads && db.heads[m.key] == Head(m.id, 1) && m.id in db.records
                  && db.records[m.id].record == record))
  {
    var db := Run(EMPTY_DB, ops);
    RunKeepsInv(EMPTY_DB, ops);
    if record.MemoryRecord? {
      CommitByFields(db, record.memory, None, None, None, now);
    }
  }

  /** An unforced delete removes a record exactly when no version row and no other record names it. */
  lemma DeletesExactlyWhen(db: Db, id: string)
    ensures
      var s := Delete(db, id);
      && (s.error.None? <==>
            && id in db.records && (forall v :: v in db.versions ==> v.memoryId != id)
            && forall other :: other in db.records && other != id ==> id !in db.records[other].record.References())
      && s.db == (if s.error.None? then db.(records := db.records - {id}) else db)
      && (s.error.Some? ==> s.error.value == if id in db.records then ReferencedRecord else RecordNotFound)
  {
    if v :| v in db.versions && v.memoryId == id {
      var i :| 0 <= i < |db.versions| && db.versions[i] == v;
      assert Indexed(db, id);
    }
    if i :| 0 <= i < |db.versions| && db.versions[i].memoryId == id {
      assert db.versions[i] in db.versions;
    }
  }

  // ------------------------------------------------------------ consolidation

  /** What a mutation asks for, and nothing else. */
  predicate Carries(m: Memory, mutation: Mutation) {
    && m.key == mutation.key && m.mtype == mutation.mtype && m.content == mutation.content
    && m.sources == mutation.sources && m.contradicts == mutation.contradicts
    && m.confidence == mutation.confidence && m.importance == mutation.importance
    && m.validFrom == mutation.effectiveAt && m.validUntil == mutation.validUntil
    && m.createdAt == mutation.effectiveAt && m.updatedAt == mutation.effectiveAt
    && (mutation.kind.Upsert? <==> m.status.Active?)
    && (mutation.kind.Dispute? <==> m.status.Disputed?)
    && (mutation.kind.Revoke? <==> m.status.Revoked?)
  }

  /** A record of the history with the highest version of the key. */
  ghost predicate IsLast(history: seq<Memory>, key: string, p: Memory) {
    p in history && p.key == key && forall m :: m in history && m.key == key ==> m.version <= p.version
  }

  /**
   * Every successful consolidation carries the mutation, and follows the last version of the key in
   * the history, or starts the key when the history has none.
   */
  lemma ConsolidationCarries(mutation: Mutation, history: seq<Memory>, derive: Deriver)
    ensures
      var r := Consolidate(mutation, history, derive);
      r.Ok? ==>
        var m := r.value.memory;
        && Carries(m, mutation)
        && if exists p :: p in history && p.key == mutation.key then
             exists p :: && IsLast(history, mutation.key, p) && r.value.previousId == Some(p.id)
                         && m.version == p.version + 1 && m.supersedes == {p.id} && m.mtype == p.mtype
                         && m.id == derive(mutation, Some(p))
           else
             && mutation.kind.Upsert? && r.value.previousId.None? && m.version == 1 && m.supersedes == {}
             && m.id == derive(mutation, None)
  {
    RelevantMembers(history, mutation.key);
    var relevant := Relevant(history, mutation.key);
    assert relevant != [] ==> relevant[0] in relevant;
    if Latest(relevant).Some? {
      assert IsLast(history, mutation.key, Latest(relevant).value);
    }
  }

  /**
   * A valid mutation is refused exactly when two records claim one version of the key, when it
   * disputes or revokes a key without history, when it changes the type of the last version, or when
   * the derived id is blank, refers to itself, or the predecessor is contradicted at the same time.
   */
  lemma ConsolidationRefuses(mutation: Mutation, history: seq<Memory>, derive: Deriver)
    requires ValidMutation(mutation)
    requires forall a, b :: a in history && b in history && a.key == b.key == mutation.key && a.version == b.version ==> a == b
    requires forall m :: m in history ==> m.version >= 1
    ensures
      var r := Consolidate(mutation, history, derive);
      match r
      case Ok(_) => true
      case Err(e) =>
        if !exists p :: p in history && p.key == mutation.key then
          if mutation.kind.Upsert? then e == ValueError && BadId(derive(mutation, None), mutation, {})
          else e == MissingHistory
        else
          exists p :: IsLast(history, mutation.key, p) &&
            if p.mtype != mutation.mtype then e == TypeChange
            else e == ValueError && BadId(derive(mutation, Some(p)), mutation, {p.id})
  {
    RelevantMembers(history, mutation.key);
    var relevant := Relevant(history, mutation.key);
    assert relevant != [] ==> relevant[0] in relevant;
    Distinct(relevant);
    if Latest(relevant).Some? {
      assert IsLast(history, mutation.key, Latest(relevant).value);
    }
  }

  /** No memory of this id may refer to these predecessors and to what the mutation names. */
  predicate BadId(id: string, mutation: Mutation, supersedes: set<string>) {
    id == "" || id in mutation.sources + supersedes + mutation.contradicts || !(supersedes !! mutation.contradicts)
  }

  // ------------------------------------------------------------ simple resolver

  /** The later version, of one version the later update, of one update the greater id. */
  predicate Over(a: Memory, b: Memory) {
    || a.version > b.version
    || (a.version == b.version
        && (a.updatedAt > b.updatedAt || (a.updatedAt == b.updatedAt && Less(b.id, a.id))))
  }

  predicate Effective(m: Memory, key: string, at: Instant) { m.key == key && m.validFrom <= at }

  /** Number `i` is the first of the highest memories of the key that are effective. */
  ghost predicate Highest(memories: seq<Memory>, key: string, at: Instant, i: nat) {
    && i < |memories| && Effective(memories[i], key, at)
    && forall j :: 0 <= j < |memories| && Effective(memories[j], key, at) ==>
         !Over(memories[j], memories[i]) && (j < i ==> Over(memories[i], memories[j]))
  }

  /**
   * The resolver looks at the highest effective memory of the key alone: it is the answer when it is
   * active and not past its end, and otherwise there is none.
   */
  lemma ResolvesHighest(memories: seq<Memory>, key: string, at: Instant)
    ensures
      if exists m :: m in memories && Effective(m, key, at) then
        exists i: nat :: Highest(memories, key, at, i)
          && var m := memories[i];
             ResolveActive(memories, key, at)
             == if m.status.Active? && (m.validUntil.Some? ==> at < m.validUntil.value) then Some(m) else None
      else ResolveActive(memories, key, at) == None
  {
    EffectiveMembers(memories, key, at);
    if EffectiveOf(memories, key, at) != [] {
      var i := GreatestIsHighest(memories, key, at);
    } else {
      forall m | m in memories ensures !Effective(m, key, at) { assert m !in EffectiveOf(memories, key, at); }
    }
  }

  lemma {:induction false} EffectiveMembers(memories: seq<Memory>, key: string, at: Instant)
    ensures forall m :: m in EffectiveOf(memories, key, at) <==> m in memories && Effective(m, key, at)
  {
    if memories != [] {
      EffectiveMembers(memories[..|memories| - 1], key, at);
      assert memories == memories[..|memories| - 1] + [memories[|memories| - 1]];
    }
  }

  lemma {:induction false} GreatestIsHighest(memories: seq<Memory>, key: string, at: Instant) returns (i: nat)
    requires EffectiveOf(memories, key, at) != []
    ensures Highest(memories, key, at, i) && Greatest(EffectiveOf(memories, key, at)) == memories[i]
  {
    var (front, m) := (memories[..|memories| - 1], memories[|memories| - 1]);
    assert memories == front + [m];
    var before := EffectiveOf(front, key, at);
    EffectiveMembers(front, key, at);
    if before != [] {
      i := GreatestIsHighest(front, key, at);
    } else {
      forall j | 0 <= j < |front| ensures !Effective(front[j], key, at) {
        assert front[j] in front && front[j] !in before;
      }
    }
    if Effective(m, key, at) {
      assert (before + [m])[..|before|] == before;
      if before == [] || Over(m, Greatest(before)) {
        if before != [] { OverAll(front, key, at, i, m); }
        LessTotal(m.id, m.id);
        i := |front|;
      }
    }
  }

  lemma OverAll(front: seq<Memory>, key: string, at: Instant, i: nat, m: Memory)
    requires Highest(front, key, at, i) && Over(m, front[i])
    ensures forall j :: 0 <= j < |front| && Effective(front[j], key, at) ==> Over(m, front[j]) && !Over(front[j], m)
  {
    forall j | 0 <= j < |front| && Effective(front[j], key, at) ensures Over(m, front[j]) && !Over(front[j], m) {
      OverOrders(m, front[i], front[j]);
    }
  }

  lemma OverOrders(a: Memory, b: Memory, c: Memory)
    requires Over(a, b) && !Over(c, b)
    ensures Over(a, c) && !Over(c, a)
  {
    LessTotal(b.id, c.id);
    LessTotal(a.id, c.id);
    if Less(b.id, a.id) && Less(c.id, b.id) {
      LessTransitive(c.id, b.id, a.id);
    }
  }
}
