/** Memory versions (memory.py) and the construction of the next one (consolidation.py). */
module MemoryRecords {
  import opened Base
  import opened TextOrder

  datatype MemoryType =
    Fact | Preference | Goal | Constraint | Inference | Skill | FailurePattern | BehavioralRule | AccessPolicy

  datatype MemoryStatus = Active | Outdated | Disputed | Revoked

  datatype Effect = Allow | Deny

  datatype Resource = ExactKey(key: string) | KeyPrefix(prefix: string) | OfType(typeName: string)

  /** A content that validates as an access policy, or any other content. */
  datatype Content =
    | Policy(subject: string, action: string, resource: Resource, effect: Effect)
    | Other(json: string)

  /** Reference lists are normalised to sorted lists without repetition, hence sets. */
  datatype Memory = Memory(
    id: string,
    key: string,
    mtype: MemoryType,
    content: Content,
    sources: set<string>,
    confidence: real,
    importance: real,
    validFrom: Instant,
    validUntil: Option<Instant>,
    status: MemoryStatus,
    supersedes: set<string>,
    contradicts: set<string>,
    createdAt: Instant,
    updatedAt: Instant,
    version: nat)
  {
    function References(): set<string> { sources + supersedes + contradicts }

    predicate IsActiveAt(at: Instant) {
      status.Active? && validFrom <= at && (validUntil.Some? ==> at < validUntil.value)
    }
  }

  /** `MemoryObject.validate_memory_contract` and its field constraints. */
  predicate ValidMemory(m: Memory) {
    && m.id != "" && m.key != "" && m.version >= 1
    && 0.0 <= m.confidence <= 1.0 && 0.0 <= m.importance <= 1.0
    && (m.validUntil.Some? ==> m.validFrom < m.validUntil.value)
    && m.createdAt <= m.updatedAt
    && m.id !in m.References()
    && m.supersedes !! m.contradicts
    && (m.version == 1 <==> m.supersedes == {})
    && (m.mtype.Fact? && m.status.Active? ==> m.sources != {})
  }

  // -------------------------------------------------------- simple resolver

  function EffectiveOf(memories: seq<Memory>, key: string, at: Instant): seq<Memory> {
    if memories == [] then []
    else
      var rest := EffectiveOf(memories[..|memories| - 1], key, at);
      var m := memories[|memories| - 1];
      if m.key == key && m.validFrom <= at then rest + [m] else rest
  }

  /** `(version, updated_at, id)`, as `max` compares it. */
  predicate Outranks(a: Memory, b: Memory) {
    || a.version > b.version
    || (a.version == b.version && a.updatedAt > b.updatedAt)
    || (a.version == b.version && a.updatedAt == b.updatedAt && Less(b.id, a.id))
  }

  /** Python's `max`: the first of the greatest elements. */
  function Greatest(memories: seq<Memory>): (g: Memory)
    requires memories != []
    ensures g in memories && forall m :: m in memories ==> m.version <= g.version
  {
    if |memories| == 1 then memories[0]
    else
      var g := Greatest(memories[..|memories| - 1]);
      var m := memories[|memories| - 1];
      if Outranks(m, g) then m else g
  }

  /** `resolve_active_memory`. */
  function ResolveActive(memories: seq<Memory>, key: string, at: Instant): Option<Memory> {
    var effective := EffectiveOf(memories, key, at);
    if effective == [] then None
    else
      var g := Greatest(effective);
      if g.IsActiveAt(at) then Some(g) else None
  }

  // ------------------------------------------------------------ consolidation

  datatype MemoryError =
    | ValueError
    | MissingHistory
    | TypeChange
    | AmbiguousHistory
    | RecordNotFound
    | DuplicateRecord
    | MissingReference
    | ReferencedRecord
    | VersionConflict
    | InvalidProgression
    | UnsafeWrite

  datatype MutationKind = Upsert | Dispute | Revoke

  datatype Mutation = Mutation(
    kind: MutationKind, key: string, mtype: MemoryType, content: Content, sources: set<string>,
    confidence: real, importance: real, effectiveAt: Instant, validUntil: Option<Instant>, contradicts: set<string>)

  /** `MemoryMutation.validate_temporal_window` and its field constraints. */
  predicate ValidMutation(m: Mutation) {
    && m.key != "" && m.sources != {}
    && 0.0 <= m.confidence <= 1.0 && 0.0 <= m.importance <= 1.0
    && (m.validUntil.Some? ==> m.effectiveAt < m.validUntil.value)
  }

  /** The digest of `canonical_payload`; nothing is assumed of it. */
  type Deriver = (Mutation, Option<Memory>) -> string

  datatype Consolidation = Consolidation(memory: Memory, previousId: Option<string>)

  function Relevant(history: seq<Memory>, key: string): seq<Memory> {
    if history == [] then []
    else
      var rest := Relevant(history[..|history| - 1], key);
      var m := history[|history| - 1];
      if m.key == key then rest + [m] else rest
  }

  /** Two different records claim one version. */
  predicate Ambiguous(history: seq<Memory>) {
    exists i, j | 0 <= i < j < |history| ::
      history[i].version == history[j].version && history[i].id != history[j].id
  }

  /** The highest version; the last record given for it. */
  function Latest(history: seq<Memory>): (latest: Option<Memory>)
    ensures latest.None? <==> history == []
    ensures latest.Some? ==>
      latest.value in history && forall m :: m in history ==> m.version <= latest.value.version
  {
    if history == [] then None
    else
      var before := Latest(history[..|history| - 1]);
      var m := history[|history| - 1];
      if before.Some? && m.version < before.value.version then before else Some(m)
  }

  function NextMemory(mutation: Mutation, previous: Option<Memory>, derive: Deriver): Memory {
    Memory(
      derive(mutation, previous), mutation.key, mutation.mtype, mutation.content, mutation.sources,
      mutation.confidence, mutation.importance, mutation.effectiveAt, mutation.validUntil,
      match mutation.kind case Upsert => Active case Dispute => Disputed case Revoke => Revoked,
      if previous.Some? then {previous.value.id} else {}, mutation.contradicts,
      mutation.effectiveAt, mutation.effectiveAt,
      if previous.Some? then previous.value.version + 1 else 1)
  }

  /** `ConsolidationEngine.consolidate` once the previous version is known. */
  function Build(mutation: Mutation, previous: Option<Memory>, derive: Deriver): Result<Consolidation, MemoryError> {
    if previous.None? && !mutation.kind.Upsert? then Err(MissingHistory)
    else if previous.Some? && previous.value.mtype != mutation.mtype then Err(TypeChange)
    else
      var memory := NextMemory(mutation, previous, derive);
      if ValidMemory(memory)
      then Ok(Consolidation(memory, if previous.Some? then Some(previous.value.id) else None))
      else Err(ValueError)
  }

  function Consolidate(mutation: Mutation, history: seq<Memory>, derive: Deriver): Result<Consolidation, MemoryError> {
    var relevant := Relevant(history, mutation.key);
    if Ambiguous(relevant) then Err(AmbiguousHistory) else Build(mutation, Latest(relevant), derive)
  }

  /** The dictionary that `_latest` fills: the last record given for each version. */
  ghost predicate Indexes(byVersion: map<nat, Memory>, history: seq<Memory>) {
    && (forall m :: m in history ==> m.version in byVersion && byVersion[m.version].id == m.id)
    && (forall v :: v in byVersion ==> byVersion[v] in history && byVersion[v].version == v)
    && (history != [] ==>
          && Latest(history).value.version in byVersion
          && byVersion[Latest(history).value.version] == Latest(history).value)
  }

  lemma IndexGrows(byVersion: map<nat, Memory>, history: seq<Memory>, m: Memory)
    requires Indexes(byVersion, history) && (m.version in byVersion ==> byVersion[m.version].id == m.id)
    ensures Indexes(byVersion[m.version := m], history + [m])
  {
    assert (history + [m])[..|history|] == history;
  }

  lemma IndexAnswers(byVersion: map<nat, Memory>, history: seq<Memory>, top: nat)
    requires Indexes(byVersion, history) && top in byVersion && forall v :: v in byVersion ==> v <= top
    ensures !Ambiguous(history) && Latest(history) == Some(byVersion[top])
  {
    assert byVersion[top] in history;
  }

  /** `_latest`, as a loop over the given history. */
  method FindLatest(history: seq<Memory>) returns (r: Result<Option<Memory>, MemoryError>)
    ensures r == if Ambiguous(history) then Err(AmbiguousHistory) else Ok(Latest(history))
  {
    var byVersion: map<nat, Memory> := map[];
    for i := 0 to |history|
      invariant Indexes(byVersion, history[..i])
    {
      var m := history[i];
      assert history[..i + 1] == history[..i] + [m];
      if m.version in byVersion && byVersion[m.version].id != m.id {
        var j :| 0 <= j < i && history[..i][j] == byVersion[m.version];
        assert history[j].version == history[i].version;
        return Err(AmbiguousHistory);
      }
      IndexGrows(byVersion, history[..i], m);
      byVersion := byVersion[m.version := m];
    }
    assert history[..|history|] == history;
    assert history == [] || byVersion != map[];
    if byVersion == map[] {
      return Ok(None);
    }
    var top := MaxKey(byVersion.Keys);
    IndexAnswers(byVersion, history, top);
    r := Ok(Some(byVersion[top]));
  }

  method MaxKey(keys: set<nat>) returns (top: nat)
    requires keys != {}
    ensures top in keys && forall k :: k in keys ==> k <= top
  {
    top :| top in keys;
    var rest := keys - {top};
    while rest != {}
      invariant rest <= keys && top in keys
      invariant forall k :: k in keys && k !in rest ==> k <= top
      decreases rest
    {
      var k :| k in rest;
      rest := rest - {k};
      if k > top { top := k; }
    }
  }

  method ConsolidateHistory(mutation: Mutation, history: seq<Memory>, derive: Deriver)
    returns (r: Result<Consolidation, MemoryError>)
    requires ValidMutation(mutation)
    ensures r == Consolidate(mutation, history, derive)
  {
    var relevant := Relevant(history, mutation.key);
    var latest := FindLatest(relevant);
    if latest.Err? {
      return Err(latest.error);
    }
    r := Build(mutation, latest.value, derive);
  }

  // --------------------------------------------- order and repetition do not matter

  lemma {:induction false} RelevantMembers(history: seq<Memory>, key: string)
    ensures forall m :: m in Relevant(history, key) <==> m in history && m.key == key
  {
    if history != [] {
      RelevantMembers(history[..|history| - 1], key);
      assert history == history[..|history| - 1] + [history[|history| - 1]];
    }
  }

  /**
   * A history in which no two records of the key share a version consolidates to the same result
   * whatever its order, repetitions, and records of other keys.
   */
  lemma ConsolidationIgnoresOrder(mutation: Mutation, h1: seq<Memory>, h2: seq<Memory>, derive: Deriver)
    requires forall m: Memory :: m.key == mutation.key ==> (m in h1 <==> m in h2)
    requires forall a, b :: a in h1 && b in h1 && a.key == b.key == mutation.key && a.version == b.version ==> a == b
    ensures Consolidate(mutation, h1, derive) == Consolidate(mutation, h2, derive)
    ensures Consolidate(mutation, h1, derive) != Err(AmbiguousHistory)
  {
    RelevantMembers(h1, mutation.key);
    RelevantMembers(h2, mutation.key);
    var r1, r2 := Relevant(h1, mutation.key), Relevant(h2, mutation.key);
    assert r1 != [] ==> r1[0] in r2;
    assert r2 != [] ==> r2[0] in r1;
    assert forall m :: m in r2 ==> m in r1;
    Distinct(r1);
    Distinct(r2);
    assert Latest(r1) == Latest(r2) by {
      if r1 != [] {
        var a, b := Latest(r1).value, Latest(r2).value;
        assert a in r2 && b in r1;
      }
    }
  }

  lemma Distinct(history: seq<Memory>)
    requires forall a, b :: a in history && b in history && a.version == b.version ==> a == b
    ensures !Ambiguous(history)
  {
  }
}
