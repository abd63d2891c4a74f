/**
 * Records, memory version index and memory heads, and the transactions on them, as functions
 * (storage.py). Class `RecordDatabase` holds the same tables as mutable fields.
 */
module RecordStore {
  import opened Base
  import opened MemoryRecords

  /** A protocol record: a memory version, or any other record with the ids it refers to. */
  datatype Record = MemoryRecord(memory: Memory) | OtherRecord(recordId: string, refs: set<string>)
  {
    function Id(): string { if MemoryRecord? then memory.id else recordId }
    function References(): set<string> { if MemoryRecord? then memory.References() else refs }
  }

  /** A row of `records`; `serial` counts insertions, `insertedAt` is the knowledge time. */
  datatype Row = Row(record: Record, insertedAt: Instant, serial: nat)

  datatype VersionRow = VersionRow(memoryId: string, key: string, version: nat)

  datatype Head = Head(id: string, version: nat)

  datatype Db = Db(records: map<string, Row>, versions: seq<VersionRow>, heads: map<string, Head>, inserted: nat)

  const EMPTY_DB := Db(map[], [], map[], 0)

  datatype Step = Step(db: Db, error: Option<MemoryError>)

  function Refuse(db: Db, error: MemoryError): Step { Step(db, Some(error)) }

  predicate ReferencesExist(db: Db, record: Record) {
    record.References() <= db.records.Keys
  }

  function InsertRecord(db: Db, record: Record, now: Instant): Db {
    db.(records := db.records[record.Id() := Row(record, now, db.inserted)], inserted := db.inserted + 1)
  }

  // ------------------------------------------------------------ memory commit

  /** `_validate_memory_progression`: the error it raises, if any. */
  function ProgressionError(db: Db, memory: Memory, previousId: Option<string>, head: Option<Head>): Option<MemoryError> {
    match head
    case None =>
      if memory.version != 1 || memory.supersedes != {} || previousId.Some? then Some(InvalidProgression) else None
    case Some(h) =>
      if previousId != Some(h.id) then Some(InvalidProgression)
      else if memory.version != h.version + 1 then Some(InvalidProgression)
      else if memory.supersedes != {h.id} then Some(InvalidProgression)
      else if h.id !in db.records then Some(RecordNotFound)
      else if !db.records[h.id].record.MemoryRecord? then Some(AmbiguousHistory)
      else if db.records[h.id].record.memory.key != memory.key then Some(AmbiguousHistory)
      else if db.records[h.id].record.memory.mtype != memory.mtype then Some(InvalidProgression)
      else None
  }

  /** The primary and unique keys of `records` and `memory_versions`. */
  predicate KeyClash(db: Db, memory: Memory) {
    memory.id in db.records
    || exists i | 0 <= i < |db.versions| ::
         db.versions[i].memoryId == memory.id
         || (db.versions[i].key == memory.key && db.versions[i].version == memory.version)
  }

  function HeadOf(db: Db, key: string): Option<Head> {
    if key in db.heads then Some(db.heads[key]) else None
  }

  function HeadId(head: Option<Head>): Option<string> {
    if head.Some? then Some(head.value.id) else None
  }

  /** `_commit_memory_object`. */
  function Commit(
    db: Db, memory: Memory, previousId: Option<string>,
    expectedHead: Option<string>, expectedVersion: Option<nat>, now: Instant
  ): Step {
    var head := HeadOf(db, memory.key);
    if HeadId(head) == Some(memory.id) then
      if memory.id !in db.records then Refuse(db, RecordNotFound)
      else if db.records[memory.id].record != MemoryRecord(memory) || head.value.version != memory.version
      then Refuse(db, AmbiguousHistory)
      else Step(db, None)
    else if expectedHead != HeadId(head) then Refuse(db, VersionConflict)
    else if expectedVersion.Some? && (head.None? || head.value.version != expectedVersion.value)
    then Refuse(db, VersionConflict)
    else if ProgressionError(db, memory, previousId, head).Some?
    then Refuse(db, ProgressionError(db, memory, previousId, head).value)
    else if !ReferencesExist(db, MemoryRecord(memory)) then Refuse(db, MissingReference)
    else if KeyClash(db, memory) then Refuse(db, AmbiguousHistory)
    else
      var inserted := InsertRecord(db, MemoryRecord(memory), now);
      Step(inserted.(versions := db.versions + [VersionRow(memory.id, memory.key, memory.version)],
                     heads := db.heads[memory.key := Head(memory.id, memory.version)]), None)
  }

  /** `save`: a first memory version, or any other record. */
  function Save(db: Db, record: Record, now: Instant): Step {
    if record.MemoryRecord? then
      if record.memory.version != 1 || record.memory.supersedes != {} then Refuse(db, UnsafeWrite)
      else Commit(db, record.memory, None, None, None, now)
    else if !ReferencesExist(db, record) then Refuse(db, MissingReference)
    else if record.Id() in db.records then Refuse(db, DuplicateRecord)
    else Step(InsertRecord(db, record, now), None)
  }

  predicate Indexed(db: Db, id: string) {
    exists i | 0 <= i < |db.versions| :: db.versions[i].memoryId == id
  }

  predicate Referenced(db: Db, id: string) {
    exists other | other in db.records :: other != id && id in db.records[other].record.References()
  }

  /** `delete` without `force`. */
  function Delete(db: Db, id: string): Step {
    if id !in db.records then Refuse(db, RecordNotFound)
    else if Indexed(db, id) then Refuse(db, ReferencedRecord)
    else if Referenced(db, id) then Refuse(db, ReferencedRecord)
    else Step(db.(records := db.records - {id}), None)
  }

  // -------------------------------------------------------------------- runs

  datatype Op =
    | OpCommit(memory: Memory, previousId: Option<string>, expectedHead: Option<string>,
               expectedVersion: Option<nat>, now: Instant)
    | OpSave(record: Record, savedAt: Instant)
    | OpDelete(id: string)

  function Apply(db: Db, op: Op): Db {
    match op
    case OpCommit(memory, previousId, expectedHead, expectedVersion, now) =>
      Commit(db, memory, previousId, expectedHead, expectedVersion, now).db
    case OpSave(record, now) => Save(db, record, now).db
    case OpDelete(id) => Delete(db, id).db
  }

  function Run(db: Db, ops: seq<Op>): Db
    decreases |ops|
  {
    if ops == [] then db else Run(Apply(db, ops[0]), ops[1..])
  }

  // ------------------------------------------------------------------ chains

  /** The indexed memory behind a version row. */
  function Load(db: Db, v: VersionRow): Option<Memory> {
    if v.memoryId in db.records && db.records[v.memoryId].record.MemoryRecord?
    then Some(db.records[v.memoryId].record.memory) else None
  }

  /** The version rows of one key, in the order of their commits. */
  function RowsOf(versions: seq<VersionRow>, key: string): seq<VersionRow> {
    if versions == [] then []
    else
      var v := versions[|versions| - 1];
      RowsOf(versions[..|versions| - 1], key) + if v.key == key then [v] else []
  }
}
