/** What the projection guarantees, for every history and over every run of commits. */
module ViewTheorems {
  import opened Base
  import opened TextOrder
  import opened MemoryRecords
  import S = RecordStore
  import opened RecordInvariants
  import RecordTheorems
  import opened MemoryView

  // -------------------------------------------------------- the simple specification

  function RejectionsOfKey(rejections: seq<Rejection>, key: string): seq<Rejection> {
    if rejections == [] then []
    else
      var last := rejections[|rejections| - 1];
      RejectionsOfKey(rejections[..|rejections| - 1], key) + (if last.key == key then [last] else [])
  }

  /** `g` is the candidate of the key with the highest version. */
  ghost predicate IsGovernor(history: seq<Version>, q: Query, key: string, g: Version) {
    && g in history && GateOf(g, q).Candidate? && g.memory.key == key
    && forall v :: v in history && GateOf(v, q).Candidate? && v.memory.key == key ==>
         v.memory.version <= g.memory.version
  }

  lemma {:induction false} CandidateMembers(history: seq<Version>, q: Query)
    ensures forall v :: v in Candidates(history, q) <==> v in history && GateOf(v, q).Candidate?
  {
    if history != [] {
      CandidateMembers(history[..|history| - 1], q);
      assert history == history[..|history| - 1] + [history[|history| - 1]];
    }
  }

  lemma EntryDecides(a: seq<Version>, g: Option<Version>, q: Query, last: string, key: string)
    requires g.Some? ==> g.value.memory.key == last
    ensures OfKey(a + EntryFor(g, q), key) == if last == key then OfKey(a, key) + EntryFor(g, q) else OfKey(a, key)
  {
    if EntryFor(g, q) == [] {
      assert a + EntryFor(g, q) == a;
    } else {
      assert (a + [g.value])[..|a|] == a;
    }
  }

  lemma RejectionDecides(a: seq<Rejection>, g: Option<Version>, q: Query, last: string, key: string)
    requires g.Some? ==> g.value.memory.key == last
    ensures RejectionsOfKey(a + RejectionFor(g, q), key)
      == if last == key then RejectionsOfKey(a, key) + RejectionFor(g, q) else RejectionsOfKey(a, key)
  {
    var r := RejectionFor(g, q);
    if r == [] {
      assert a + r == a;
    } else {
      assert (a + [r[0]])[..|a|] == a && a + r == a + [r[0]];
    }
  }

  lemma {:induction false} DecisionsOfKey(c: seq<Version>, q: Query, keys: seq<string>, key: string)
    requires Sorted(keys)
    ensures OfKey(Entries(c, q, keys), key) == if key in keys then EntryFor(GovernorOf(c, key), q) else []
    ensures RejectionsOfKey(Rejections(c, q, keys), key)
      == if key in keys then RejectionFor(GovernorOf(c, key), q) else []
  {
    if keys != [] {
      var (front, last) := (keys[..|keys| - 1], keys[|keys| - 1]);
      DecisionsOfKey(c, q, front, key);
      assert keys == front + [last];
      forall k | k in front ensures k != last { LessTotal(k, last); }
      NoKeyNoGroup(c, last);
      EntryDecides(Entries(c, q, front), GovernorOf(c, last), q, last, key);
      RejectionDecides(Rejections(c, q, front), GovernorOf(c, last), q, last, key);
    }
  }

  /** The lists of the view hold for a key what its governor decides. */
  lemma GovernorDecides(history: seq<Version>, q: Query, key: string) returns (g: Option<Version>)
    ensures g == GovernorOf(Candidates(history, q), key)
    ensures OfKey(ViewOf(history, q).entries, key) == EntryFor(g, q)
    ensures RejectionsOfKey(ViewOf(history, q).rejections, key) == RejectionFor(g, q)
    ensures g.Some? ==> IsGovernor(history, q, key, g.value)
    ensures g.None? ==> forall v :: v in history && v.memory.key == key ==> !GateOf(v, q).Candidate?
  {
    var c := Candidates(history, q);
    g := GovernorOf(c, key);
    CandidateMembers(history, q);
    NoKeyNoGroup(c, key);
    DecisionsOfKey(c, q, KeyList(c), key);
    if g.None? {
      assert forall v :: v in c ==> v.memory.key != key;
    }
  }

  /**
   * Each key with candidates yields exactly one entry or exactly one rejection, decided by its
   * highest candidate version and by nothing else; a key without candidates yields neither.
   */
  lemma EachKeyIsDecidedOnce(history: seq<Version>, q: Query, key: string)
    ensures
      var view := ViewOf(history, q);
      var entries := OfKey(view.entries, key);
      var rejections := RejectionsOfKey(view.rejections, key);
      if exists v :: v in history && GateOf(v, q).Candidate? && v.memory.key == key then
        exists g :: IsGovernor(history, q, key, g) &&
          match Judge(g.memory, q)
          case Admitted => entries == [g] && rejections == []
          case Rejected(reason) => entries == [] && rejections == [RejectionOf(g.memory, reason)]
      else entries == [] && rejections == []
  {
    var g := GovernorDecides(history, q, key);
  }

  lemma {:induction false} GatesPartition(history: seq<Version>, q: Query)
    ensures CountOf(history, q, FilteredOut) + CountOf(history, q, NotKnown) + CountOf(history, q, NotYet)
      + |Candidates(history, q)| == |history|
  {
    if history != [] {
      GatesPartition(history[..|history| - 1], q);
    }
  }

  lemma {:induction false} OneDecisionPerKey(c: seq<Version>, q: Query, keys: seq<string>)
    requires forall k :: k in keys ==> k in KeysOf(c)
    ensures |Entries(c, q, keys)| + |Rejections(c, q, keys)| == |keys|
  {
    if keys != [] {
      assert keys[|keys| - 1] in keys;
      NoKeyNoGroup(c, keys[|keys| - 1]);
      OneDecisionPerKey(c, q, keys[..|keys| - 1]);
    }
  }

  /** The sizes of the groups of some keys add up. */
  function GroupSizes(c: seq<Version>, keys: seq<string>): nat {
    if keys == [] then 0 else GroupSizes(c, keys[..|keys| - 1]) + |OfKey(c, keys[|keys| - 1])|
  }

  lemma {:induction false} SupersededIsRest(c: seq<Version>, keys: seq<string>)
    requires forall k :: k in keys ==> k in KeysOf(c)
    ensures Superseded(c, keys) + |keys| == GroupSizes(c, keys)
  {
    if keys != [] {
      assert keys[|keys| - 1] in keys;
      NoKeyNoGroup(c, keys[|keys| - 1]);
      SupersededIsRest(c, keys[..|keys| - 1]);
    }
  }

  lemma {:induction false} OneMoreInItsGroup(c: seq<Version>, v: Version, keys: seq<string>)
    requires Sorted(keys)
    ensures GroupSizes(c + [v], keys) == GroupSizes(c, keys) + (if v.memory.key in keys then 1 else 0)
  {
    if keys != [] {
      var (front, last) := (keys[..|keys| - 1], keys[|keys| - 1]);
      OneMoreInItsGroup(c, v, front);
      assert keys == front + [last];
      forall k | k in front ensures k != last { LessTotal(k, last); }
      assert (c + [v])[..|c|] == c;
    }
  }

  lemma {:induction false} EveryCandidateInAGroup(c: seq<Version>, keys: seq<string>)
    requires Sorted(keys) && forall v :: v in c ==> v.memory.key in keys
    ensures GroupSizes(c, keys) == |c|
  {
    if c == [] {
      EmptyGroups(keys);
    } else {
      var (front, last) := (c[..|c| - 1], c[|c| - 1]);
      assert c == front + [last];
      EveryCandidateInAGroup(front, keys);
      OneMoreInItsGroup(front, last, keys);
    }
  }

  lemma {:induction false} EmptyGroups(keys: seq<string>)
    ensures GroupSizes([], keys) == 0
  {
    if keys != [] { EmptyGroups(keys[..|keys| - 1]); }
  }

  /** Every version of the history is counted once, or decides its key. */
  lemma CountsPartitionHistory(history: seq<Version>, q: Query)
    ensures
      var view := ViewOf(history, q);
      && view.counts.filtered + view.counts.notKnown + view.counts.notYet + view.counts.superseded
         + |view.entries| + |view.rejections| == |history|
      && view.counts.nonActive + view.counts.expired == |view.rejections|
  {
    var c := Candidates(history, q);
    var keys := KeyList(c);
    GatesPartition(history, q);
    OneDecisionPerKey(c, q, keys);
    SupersededIsRest(c, keys);
    EveryCandidateInAGroup(c, keys);
  }

  // --------------------------------------------------------------- listings

  /** `ORDER BY memory_key, version, memory_id`. */
  predicate RowBefore(a: S.VersionRow, b: S.VersionRow) {
    || Less(a.key, b.key)
    || (a.key == b.key && a.version < b.version)
    || (a.key == b.key && a.version == b.version && Less(a.memoryId, b.memoryId))
  }

  function InsertRow(rows: seq<S.VersionRow>, v: S.VersionRow): seq<S.VersionRow> {
    if rows == [] || RowBefore(v, rows[0]) then [v] + rows else [rows[0]] + InsertRow(rows[1..], v)
  }

  /** The rows in the order of the query. */
  function SortRows(rows: seq<S.VersionRow>): seq<S.VersionRow> {
    if rows == [] then [] else InsertRow(SortRows(rows[..|rows| - 1]), rows[|rows| - 1])
  }

  ghost predicate AllLoad(db: S.Db) {
    forall v :: v in db.versions ==> S.Load(db, v).Some?
  }

  /** The join of an index row with its record. */
  function Join(db: S.Db, v: S.VersionRow): Version
    requires S.Load(db, v).Some?
  {
    Version(S.Load(db, v).value, db.records[v.memoryId].insertedAt)
  }

  lemma {:induction false} InsertedRow(rows: seq<S.VersionRow>, v: S.VersionRow) returns (i: nat)
    ensures i <= |rows| && InsertRow(rows, v) == rows[..i] + [v] + rows[i..]
  {
    if rows == [] || RowBefore(v, rows[0]) {
      i := 0;
    } else {
      var j := InsertedRow(rows[1..], v);
      i := j + 1;
      assert rows[..i] == [rows[0]] + rows[1..][..j];
    }
  }

  lemma {:induction false} SortKeepsRows(rows: seq<S.VersionRow>)
    ensures |SortRows(rows)| == |rows|
    ensures forall v :: v in SortRows(rows) <==> v in rows
  {
    if rows != [] {
      var (front, last) := (rows[..|rows| - 1], rows[|rows| - 1]);
      SortKeepsRows(front);
      var sorted := SortRows(front);
      var i := InsertedRow(sorted, last);
      assert rows == front + [last] && sorted == sorted[..i] + sorted[i..];
    }
  }

  /** `list_committed_memory_versions`. */
  ghost function Listing(db: S.Db): (l: seq<Version>)
    requires AllLoad(db)
    ensures |l| == |db.versions|
  {
    SortKeepsRows(db.versions);
    var rows := SortRows(db.versions);
    seq(|rows|, i requires 0 <= i < |rows| && S.Load(db, rows[i]).Some? => Join(db, rows[i]))
  }

  lemma InvLoads(db: S.Db)
    requires Inv(db)
    ensures AllLoad(db)
  {
    forall v | v in db.versions ensures S.Load(db, v).Some? { assert IndexOk(db, v); }
  }

  lemma ListingMembers(db: S.Db)
    requires Inv(db)
    ensures AllLoad(db)
    ensures forall w :: w in Listing(db) <==> exists v :: v in db.versions && Join(db, v) == w
  {
    InvLoads(db);
    SortKeepsRows(db.versions);
    var rows := SortRows(db.versions);
    forall v | v in db.versions ensures Join(db, v) in Listing(db) {
      var i :| 0 <= i < |rows| && rows[i] == v;
      assert Listing(db)[i] == Join(db, v);
    }
  }

  /** Two listed versions of one key and number are the same version. */
  lemma ListedOnce(db: S.Db, a: Version, b: Version)
    requires Inv(db) && AllLoad(db) && a in Listing(db) && b in Listing(db)
    requires a.memory.key == b.memory.key && a.memory.version == b.memory.version
    ensures a == b
  {
    ListingMembers(db);
    var v :| v in db.versions && Join(db, v) == a;
    var w :| w in db.versions && Join(db, w) == b;
    assert IndexOk(db, v) && IndexOk(db, w);
    RecordTheorems.CommittedIsMember(db, a.memory.key, a.memory);
    RecordTheorems.CommittedIsMember(db, b.memory.key, b.memory);
  }

  // ------------------------------------------------------ agreement with the resolver

  function Memories(history: seq<Version>): seq<Memory> {
    seq(|history|, i requires 0 <= i < |history| => history[i].memory)
  }

  lemma {:induction false} EffectiveMembers(memories: seq<Memory>, key: string, at: Instant)
    ensures forall m :: m in EffectiveOf(memories, key, at) <==>
      m in memories && m.key == key && m.validFrom <= at
  {
    if memories != [] {
      EffectiveMembers(memories[..|memories| - 1], key, at);
      assert memories == memories[..|memories| - 1] + [memories[|memories| - 1]];
    }
  }

  /** With no cutoff and no filter, the candidates of a key are its effective memories. */
  lemma EffectiveAreCandidates(history: seq<Version>, key: string, at: Instant)
    ensures
      var effective := EffectiveOf(Memories(history), key, at);
      && (forall v :: v in history && GateOf(v, Query(at, None, {}, {})).Candidate? && v.memory.key == key ==>
            v.memory in effective)
      && (forall m :: m in effective ==>
            exists v :: v in history && v.memory == m && m.key == key && GateOf(v, Query(at, None, {}, {})).Candidate?)
      && (effective != [] ==>
            exists v :: v in history && v.memory.key == key && GateOf(v, Query(at, None, {}, {})).Candidate?)
  {
    var memories := Memories(history);
    EffectiveMembers(memories, key, at);
    forall v | v in history ensures v.memory in memories {
      var i :| 0 <= i < |history| && history[i] == v;
      assert memories[i] == v.memory;
    }
    forall m | m in memories ensures exists v :: v in history && v.memory == m {
      var i :| 0 <= i < |memories| && memories[i] == m;
      assert history[i] in history;
    }
    var effective := EffectiveOf(memories, key, at);
    assert effective != [] ==> effective[0] in effective;
  }

  lemma GovernorIsGreatest(db: S.Db, key: string, at: Instant, g: Version)
    requires Inv(db) && AllLoad(db) && IsGovernor(Listing(db), Query(at, None, {}, {}), key, g)
    ensures
      var effective := EffectiveOf(Memories(Listing(db)), key, at);
      effective != [] && Greatest(effective) == g.memory
  {
    var history, q := Listing(db), Query(at, None, {}, {});
    EffectiveAreCandidates(history, key, at);
    var effective := EffectiveOf(Memories(history), key, at);
    assert g.memory in effective;
    var m := Greatest(effective);
    var v :| v in history && v.memory == m && m.key == key && GateOf(v, q).Candidate?;
    ListedOnce(db, g, v);
  }

  /**
   * On committed histories, with no cutoff and no filter, the view admits for each key exactly
   * the version that the simple resolver finds.
   */
  lemma ViewAgreesWithResolver(ops: seq<S.Op>, key: string, at: Instant)
    ensures
      var db := S.Run(S.EMPTY_DB, ops);
      && AllLoad(db)
      && var entries := OfKey(ViewOf(Listing(db), Query(at, None, {}, {})).entries, key);
         match ResolveActive(Memories(Listing(db)), key, at)
         case None => entries == []
         case Some(m) => |entries| == 1 && entries[0].memory == m
  {
    var db := S.Run(S.EMPTY_DB, ops);
    RunKeepsInv(S.EMPTY_DB, ops);
    InvLoads(db);
    ResolverAgrees(db, key, at);
  }

  lemma ResolverAgrees(db: S.Db, key: string, at: Instant)
    requires Inv(db) && AllLoad(db)
    ensures
      var entries := OfKey(ViewOf(Listing(db), Query(at, None, {}, {})).entries, key);
      match ResolveActive(Memories(Listing(db)), key, at)
      case None => entries == []
      case Some(m) => |entries| == 1 && entries[0].memory == m
  {
    var history, q := Listing(db), Query(at, None, {}, {});
    var g := GovernorDecides(history, q, key);
    if g.Some? {
      GovernorIsGreatest(db, key, at, g.value);
    } else {
      EffectiveAreCandidates(history, key, at);
    }
    SameVerdict(Memories(history), key, at, g);
  }

  /** The hard gates of the view and of the resolver agree on an effective governor. */
  lemma SameVerdict(memories: seq<Memory>, key: string, at: Instant, g: Option<Version>)
    requires
      var effective := EffectiveOf(memories, key, at);
      if effective == [] then g.None?
      else g.Some? && g.value.memory == Greatest(effective) && g.value.memory.validFrom <= at
    ensures
      var entries := EntryFor(g, Query(at, None, {}, {}));
      match ResolveActive(memories, key, at)
      case None => entries == []
      case Some(m) => |entries| == 1 && entries[0].memory == m
  {
  }

  // ------------------------------------------------------- reproducible past views

  lemma {:induction false} CandidatesConcat(a: seq<Version>, b: seq<Version>, q: Query)
    ensures Candidates(a + b, q) == Candidates(a, q) + Candidates(b, q)
    ensures forall g :: CountOf(a + b, q, g) == CountOf(a, q, g) + CountOf(b, q, g)
  {
    if b == [] {
      assert a + b == a;
    } else {
      var (front, last) := (b[..|b| - 1], b[|b| - 1]);
      CandidatesConcat(a, front, q);
      assert (a + b)[..|a + b| - 1] == a + front && (a + b)[|a + b| - 1] == last;
    }
  }

  /** One version that is no candidate, put anywhere, changes one exclusion count. */
  lemma ExcludedVersionOnlyCounts(a: seq<Version>, x: Version, b: seq<Version>, q: Query)
    requires !GateOf(x, q).Candidate?
    ensures Candidates(a + [x] + b, q) == Candidates(a + b, q)
    ensures forall g :: CountOf(a + [x] + b, q, g) == CountOf(a + b, q, g) + (if GateOf(x, q) == g then 1 else 0)
  {
    CandidatesConcat(a, [x], q);
    CandidatesConcat(a + [x], b, q);
    CandidatesConcat(a, b, q);
    assert [x][..0] == [];
    assert Candidates([x], q) == [];
    assert forall g :: CountOf([x], q, g) == if GateOf(x, q) == g then 1 else 0;
  }

  /** The commit that `op` may make is stamped after `cutoff`. */
  predicate StampedAfter(op: S.Op, cutoff: Instant) {
    match op
    case OpCommit(_, _, _, _, now) => now > cutoff
    case OpSave(record, now) => record.MemoryRecord? ==> now > cutoff
    case OpDelete(_) => true
  }

  lemma StepKeepsJoin(db: S.Db, op: S.Op, v: S.VersionRow)
    requires Inv(db) && v in db.versions
    ensures S.Load(db, v).Some? && S.Load(S.Apply(db, op), v).Some? && Join(S.Apply(db, op), v) == Join(db, v)
  {
    assert IndexOk(db, v);
    RecordTheorems.StepKeepsIndexed(db, op, v);
  }

  /** A step appends at most one index row, and stamps it. */
  lemma StepStamps(db: S.Db, op: S.Op, cutoff: Instant) returns (v: S.VersionRow)
    requires Inv(db) && StampedAfter(op, cutoff) && S.Apply(db, op).versions != db.versions
    ensures S.Apply(db, op).versions == db.versions + [v]
    ensures v.memoryId in S.Apply(db, op).records && S.Apply(db, op).records[v.memoryId].insertedAt > cutoff
  {
    v := S.Apply(db, op).versions[|db.versions|];
  }

  /** The listing of a state that keeps the joined rows of `db` and has one index row more. */
  lemma ListingInserts(db: S.Db, db': S.Db, v: S.VersionRow) returns (i: nat)
    requires AllLoad(db) && AllLoad(db') && db'.versions == db.versions + [v]
    requires forall w :: w in db.versions ==> Join(db', w) == Join(db, w)
    ensures i <= |Listing(db)| && Listing(db') == Listing(db)[..i] + [Join(db', v)] + Listing(db)[i..]
  {
    SortKeepsRows(db.versions);
    assert db'.versions[..|db.versions|] == db.versions;
    var rows := SortRows(db.versions);
    i := InsertedRow(rows, v);
    var rows' := SortRows(db'.versions);
    assert rows' == rows[..i] + [v] + rows[i..];
    var l, l' := Listing(db), Listing(db');
    assert |l'| == |l| + 1;
    forall k | 0 <= k < |l| ensures l[k] == l'[if k < i then k else k + 1] {
      assert rows[k] in db.versions && rows'[if k < i then k else k + 1] == rows[k];
    }
    assert rows'[i] == v;
    Spliced(l, l', i, Join(db', v));
  }

  lemma Spliced(l: seq<Version>, l': seq<Version>, i: nat, x: Version)
    requires i <= |l| && |l'| == |l| + 1 && l'[i] == x
    requires forall k :: 0 <= k < |l| ==> l[k] == l'[if k < i then k else k + 1]
    ensures l' == l[..i] + [x] + l[i..]
  {
    assert forall k :: i < k < |l'| ==> l'[k] == l[k - 1];
  }

  /** One step leaves the listing as it is, or puts one version stamped by the step into it. */
  lemma StepExtendsListing(db: S.Db, op: S.Op, cutoff: Instant)
    requires Inv(db) && StampedAfter(op, cutoff)
    ensures
      var db' := S.Apply(db, op);
      && AllLoad(db) && AllLoad(db')
      && (if db'.versions == db.versions then Listing(db') == Listing(db)
          else
            |db'.versions| == |db.versions| + 1
            && exists i: nat, x: Version :: i <= |Listing(db)| && x.committedAt > cutoff
                 && Listing(db') == Listing(db)[..i] + [x] + Listing(db)[i..])
  {
    var db' := S.Apply(db, op);
    InvLoads(db);
    ApplyKeepsInv(db, op);
    InvLoads(db');
    forall v | v in db.versions ensures Join(db', v) == Join(db, v) {
      StepKeepsJoin(db, op, v);
    }
    if db'.versions == db.versions {
      SortKeepsRows(db.versions);
      var rows := SortRows(db.versions);
      assert forall k :: 0 <= k < |rows| ==> rows[k] in db.versions && Listing(db')[k] == Listing(db)[k];
    } else {
      var v := StepStamps(db, op, cutoff);
      var i := ListingInserts(db, db', v);
    }
  }

  /** What later knowledge may change in a view of the past. */
  ghost predicate SamePast(now: View, later: View, added: int) {
    && later.entries == now.entries && later.rejections == now.rejections
    && later.counts.filtered + later.counts.notKnown == now.counts.filtered + now.counts.notKnown + added
    && later.counts.filtered >= now.counts.filtered && later.counts.notKnown >= now.counts.notKnown
    && later.counts.(filtered := now.counts.filtered, notKnown := now.counts.notKnown) == now.counts
  }

  lemma StepKeepsPast(db: S.Db, op: S.Op, q: Query)
    requires Inv(db) && q.knownAt.Some? && StampedAfter(op, q.knownAt.value)
    ensures
      var db' := S.Apply(db, op);
      && AllLoad(db) && AllLoad(db')
      && SamePast(ViewOf(Listing(db), q), ViewOf(Listing(db'), q), |db'.versions| - |db.versions|)
  {
    StepExtendsListing(db, op, q.knownAt.value);
    var (l, l') := (Listing(db), Listing(S.Apply(db, op)));
    if l' != l {
      var i: nat, x: Version :| i <= |l| && x.committedAt > q.knownAt.value && l' == l[..i] + [x] + l[i..];
      assert l == l[..i] + l[i..];
      ExcludedVersionOnlyCounts(l[..i], x, l[i..], q);
    }
  }

  lemma {:induction false} RunKeepsPast(db: S.Db, ops: seq<S.Op>, q: Query)
    requires Inv(db) && q.knownAt.Some? && forall op :: op in ops ==> StampedAfter(op, q.knownAt.value)
    ensures
      var db' := S.Run(db, ops);
      && AllLoad(db) && AllLoad(db')
      && SamePast(ViewOf(Listing(db), q), ViewOf(Listing(db'), q), |db'.versions| - |db.versions|)
    decreases |ops|
  {
    InvLoads(db);
    if ops != [] {
      StepKeepsPast(db, ops[0], q);
      ApplyKeepsInv(db, ops[0]);
      RunKeepsPast(S.Apply(db, ops[0]), ops[1..], q);
    }
  }

  /**
   * Views of the past are reproducible: commits stamped after the knowledge cutoff, however many,
   * leave entries and rejections as they were, and move only the filtered and not-known counts, by
   * exactly the number of added versions.
   */
  lemma PastViewsAreReproducible(before: seq<S.Op>, after: seq<S.Op>, q: Query)
    requires q.knownAt.Some? && forall op :: op in after ==> StampedAfter(op, q.knownAt.value)
    ensures
      var past := S.Run(S.EMPTY_DB, before);
      var now := S.Run(past, after);
      && AllLoad(past) && AllLoad(now)
      && Project(Listing(past), q).Ok? && Project(Listing(now), q).Ok?
      && SamePast(Project(Listing(past), q).value, Project(Listing(now), q).value, |now.versions| - |past.versions|)
  {
    var past := S.Run(S.EMPTY_DB, before);
    RunKeepsInv(S.EMPTY_DB, before);
    RunKeepsPast(past, after, q);
    RunKeepsInv(past, after);
    CommittedIsUnambiguous(past);
    CommittedIsUnambiguous(S.Run(past, after));
  }

  lemma CommittedIsUnambiguous(db: S.Db)
    requires Inv(db) && AllLoad(db)
    ensures !AmbiguousVersions(Listing(db))
  {
    var l := Listing(db);
    forall i, j | 0 <= i < j < |l| && l[i].memory.key == l[j].memory.key && l[i].memory.version == l[j].memory.version
      ensures l[i].memory.id == l[j].memory.id
    {
      ListedOnce(db, l[i], l[j]);
    }
  }
}
