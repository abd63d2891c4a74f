/** What a view says, in terms of the versions and the query alone. */
module ViewMeaning {
  import opened Base
  import opened TextOrder
  import opened MemoryRecords
  import S = RecordStore
  import opened RecordInvariants
  import RecordTheorems
  import RecordAnswers
  import opened MemoryView
  import opened ViewTheorems

  // --------------------------------------------------------- cutoff and filter

  predicate Wanted(v: Version, q: Query) {
    (q.keys == {} || v.memory.key in q.keys) && (q.types == {} || v.memory.mtype in q.types)
  }

  predicate KnownBy(v: Version, q: Query) { q.knownAt.Some? ==> v.committedAt <= q.knownAt.value }

  /** The versions that the filters let through and that were known by the cutoff. */
  function Visible(history: seq<Version>, q: Query): seq<Version> {
    if history == [] then []
    else
      var (rest, v) := (Visible(history[..|history| - 1], q), history[|history| - 1]);
      if Wanted(v, q) && KnownBy(v, q) then rest + [v] else rest
  }

  function Unrestricted(asOf: Instant): Query { Query(asOf, None, {}, {}) }

  lemma CandidatesSnoc(history: seq<Version>, v: Version, q: Query)
    ensures Candidates(history + [v], q)
      == if GateOf(v, q).Candidate? then Candidates(history, q) + [v] else Candidates(history, q)
  {
    assert (history + [v])[..|history|] == history;
  }

  lemma {:induction false} CandidatesAreVisible(history: seq<Version>, q: Query)
    ensures Candidates(history, q) == Candidates(Visible(history, q), Unrestricted(q.asOf))
  {
    if history != [] {
      var (front, v) := (history[..|history| - 1], history[|history| - 1]);
      CandidatesAreVisible(front, q);
      assert history == front + [v];
      CandidatesSnoc(front, v, q);
      CandidatesSnoc(Visible(front, q), v, Unrestricted(q.asOf));
    }
  }

  lemma {:induction false} EntriesReadAsOf(c: seq<Version>, q: Query, q': Query, keys: seq<string>)
    requires q.asOf == q'.asOf
    ensures Entries(c, q, keys) == Entries(c, q', keys)
  {
    if keys != [] {
      EntriesReadAsOf(c, q, q', keys[..|keys| - 1]);
      DecisionReadsAsOf(GovernorOf(c, keys[|keys| - 1]), q, q');
    }
  }

  lemma {:induction false} RejectionsReadAsOf(c: seq<Version>, q: Query, q': Query, keys: seq<string>)
    requires q.asOf == q'.asOf
    ensures Rejections(c, q, keys) == Rejections(c, q', keys)
  {
    if keys != [] {
      RejectionsReadAsOf(c, q, q', keys[..|keys| - 1]);
      DecisionReadsAsOf(GovernorOf(c, keys[|keys| - 1]), q, q');
    }
  }

  lemma DecisionReadsAsOf(g: Option<Version>, q: Query, q': Query)
    requires q.asOf == q'.asOf
    ensures EntryFor(g, q) == EntryFor(g, q') && RejectionFor(g, q) == RejectionFor(g, q')
  {
  }

  /**
   * Filters and cutoff only choose versions: the view has the entries and rejections of the plain
   * projection of the versions that pass the filters and were committed by the cutoff.
   */
  lemma FiltersChooseVersions(history: seq<Version>, q: Query)
    ensures
      var (view, plain) := (ViewOf(history, q), ViewOf(Visible(history, q), Unrestricted(q.asOf)));
      view.entries == plain.entries && view.rejections == plain.rejections
  {
    CandidatesAreVisible(history, q);
    EntriesReadAsOf(Candidates(history, q), q, Unrestricted(q.asOf), KeyList(Candidates(history, q)));
    RejectionsReadAsOf(Candidates(history, q), q, Unrestricted(q.asOf), KeyList(Candidates(history, q)));
  }

  lemma {:induction false} LateCutoffHidesNothing(history: seq<Version>, q: Query)
    requires forall v :: v in history ==> KnownBy(v, q)
    ensures Visible(history, q) == Visible(history, q.(knownAt := None))
  {
    if history != [] {
      assert history[|history| - 1] in history;
      LateCutoffHidesNothing(history[..|history| - 1], q);
    }
  }

  /** Over every run, a cutoff that is not before any commit changes no entry and no rejection. */
  lemma LateCutoffIsNoCutoff(ops: seq<S.Op>, q: Query)
    requires
      var db := S.Run(S.EMPTY_DB, ops);
      forall v :: v in db.versions && v.memoryId in db.records ==>
        q.knownAt.Some? ==> db.records[v.memoryId].insertedAt <= q.knownAt.value
    ensures
      var db := S.Run(S.EMPTY_DB, ops);
      && AllLoad(db)
      && var (view, free) := (ViewOf(Listing(db), q), ViewOf(Listing(db), q.(knownAt := None)));
         view.entries == free.entries && view.rejections == free.rejections
  {
    var db := S.Run(S.EMPTY_DB, ops);
    RunKeepsInv(S.EMPTY_DB, ops);
    ListingMembers(db);
    LateCutoffHidesNothing(Listing(db), q);
    FiltersChooseVersions(Listing(db), q);
    FiltersChooseVersions(Listing(db), q.(knownAt := None));
  }

  // ----------------------------------------------------------------- counters

  function Number(history: seq<Version>, p: Version -> bool): nat {
    if history == [] then 0 else Number(history[..|history| - 1], p) + (if p(history[|history| - 1]) then 1 else 0)
  }

  lemma {:induction false} CountsAreNumbers(history: seq<Version>, q: Query)
    ensures CountOf(history, q, FilteredOut) == Number(history, v => !Wanted(v, q))
    ensures CountOf(history, q, NotKnown) == Number(history, v => Wanted(v, q) && !KnownBy(v, q))
    ensures CountOf(history, q, NotYet) == Number(history, v => Wanted(v, q) && KnownBy(v, q) && v.memory.validFrom > q.asOf)
  {
    if history != [] { CountsAreNumbers(history[..|history| - 1], q); }
  }

  /** Each exclusion counter is the number of the versions that it names. */
  lemma CountersSayWhatTheyCount(history: seq<Version>, q: Query)
    ensures
      var counts := ViewOf(history, q).counts;
      && counts.filtered == Number(history, v => !Wanted(v, q))
      && counts.notKnown == Number(history, v => Wanted(v, q) && !KnownBy(v, q))
      && counts.notYet == Number(history, v => Wanted(v, q) && KnownBy(v, q) && v.memory.validFrom > q.asOf)
  {
    CountsAreNumbers(history, q);
  }

  function Gated(rejections: seq<Rejection>, expired: bool): nat {
    if rejections == [] then 0
    else
      Gated(rejections[..|rejections| - 1], expired)
      + (if rejections[|rejections| - 1].reason.Expired? == expired then 1 else 0)
  }

  lemma {:induction false} GatesAreNumbers(rejections: seq<Rejection>)
    ensures NonActive(rejections) == Gated(rejections, false) && |rejections| - NonActive(rejections) == Gated(rejections, true)
  {
    if rejections != [] { GatesAreNumbers(rejections[..|rejections| - 1]); }
  }

  /** The two gate counters are the numbers of rejections of their reason. */
  lemma GateCountersSayWhatTheyCount(history: seq<Version>, q: Query)
    ensures
      var view := ViewOf(history, q);
      view.counts.nonActive == Gated(view.rejections, false) && view.counts.expired == Gated(view.rejections, true)
  {
    GatesAreNumbers(ViewOf(history, q).rejections);
  }

  // ---------------------------------------------------------------- decisions

  /** The version takes part in the decision on its key. */
  predicate InPlay(v: Version, q: Query) { Wanted(v, q) && KnownBy(v, q) && v.memory.validFrom <= q.asOf }

  /** The later version, of one version the later commit, of one commit the greater id. */
  predicate Over(a: Version, b: Version) {
    || a.memory.version > b.memory.version
    || (a.memory.version == b.memory.version
        && (a.committedAt > b.committedAt || (a.committedAt == b.committedAt && Less(b.memory.id, a.memory.id))))
  }

  /** Number `i` of the history is the first of the highest versions in play of the key. */
  ghost predicate Highest(history: seq<Version>, q: Query, key: string, i: nat) {
    && i < |history| && InPlay(history[i], q) && history[i].memory.key == key
    && forall j :: 0 <= j < |history| && InPlay(history[j], q) && history[j].memory.key == key ==>
         !Over(history[j], history[i]) && (j < i ==> Over(history[i], history[j]))
  }

  /** What the view lists of a key whose governing version is `g`. */
  predicate DecidedBy(g: Version, q: Query, entries: seq<Version>, rejections: seq<Rejection>) {
    var m := g.memory;
    if m.status.Active? && (m.validUntil.Some? ==> q.asOf < m.validUntil.value) then entries == [g] && rejections == []
    else
      && entries == [] && |rejections| == 1
      && var r := rejections[0];
         && r.key == m.key && r.id == m.id && r.version == m.version && r.status == m.status
         && (if m.status.Active? then r.reason.Expired? else r.reason == StatusGate(m.status))
  }

  /**
   * A key with a version in play is decided by its highest one alone: listed when that is active and
   * not expired, and otherwise rejected once, with its status or as expired. Other keys are not listed.
   */
  lemma HighestDecides(history: seq<Version>, q: Query, key: string)
    ensures
      var view := ViewOf(history, q);
      var (entries, rejections) := (OfKey(view.entries, key), RejectionsOfKey(view.rejections, key));
      if exists v :: v in history && InPlay(v, q) && v.memory.key == key
      then exists i: nat :: Highest(history, q, key, i) && DecidedBy(history[i], q, entries, rejections)
      else entries == [] && rejections == []
  {
    var g := GovernorDecides(history, q, key);
    forall v ensures InPlay(v, q) <==> GateOf(v, q).Candidate? { }
    if g.Some? {
      var i := GovernorIsHighest(history, q, key);
      GovernorListed(g.value, q);
    }
  }

  lemma {:induction false} GovernorIsHighest(history: seq<Version>, q: Query, key: string) returns (i: nat)
    requires GovernorOf(Candidates(history, q), key).Some?
    ensures Highest(history, q, key, i) && GovernorOf(Candidates(history, q), key) == Some(history[i])
  {
    var front := history[..|history| - 1];
    if GovernorOf(Candidates(front, q), key).Some? {
      var before := GovernorIsHighest(front, q, key);
      i := NextHighest(history, q, key, before);
    } else {
      FirstIsHighest(history, q, key);
      i := |front|;
    }
  }

  lemma NextHighest(history: seq<Version>, q: Query, key: string, before: nat) returns (i: nat)
    requires history != [] && Highest(history[..|history| - 1], q, key, before)
    requires GovernorOf(Candidates(history[..|history| - 1], q), key) == Some(history[before])
    ensures Highest(history, q, key, i) && GovernorOf(Candidates(history, q), key) == Some(history[i])
  {
    var v := history[|history| - 1];
    GovernorStep(history, q, key);
    if InPlay(v, q) && v.memory.key == key && Over(v, history[before]) {
      OverAll(history, q, key, before, v);
      LastIsHighest(history, q, key);
      i := |history| - 1;
    } else {
      HighestStays(history, q, key, before);
      i := before;
    }
  }

  lemma FirstIsHighest(history: seq<Version>, q: Query, key: string)
    requires GovernorOf(Candidates(history, q), key).Some?
    requires history != [] && GovernorOf(Candidates(history[..|history| - 1], q), key).None?
    ensures Highest(history, q, key, |history| - 1)
    ensures GovernorOf(Candidates(history, q), key) == Some(history[|history| - 1])
  {
    var front := history[..|history| - 1];
    GovernorStep(history, q, key);
    NoneInPlay(front, q, key);
    assert forall j :: 0 <= j < |front| ==> front[j] == history[j];
    LastIsHighest(history, q, key);
  }

  /** The governor after one more version. */
  lemma GovernorStep(history: seq<Version>, q: Query, key: string)
    requires history != []
    ensures
      var (front, v) := (history[..|history| - 1], history[|history| - 1]);
      var before := GovernorOf(Candidates(front, q), key);
      GovernorOf(Candidates(history, q), key)
      == if InPlay(v, q) && v.memory.key == key && (before.None? || Over(v, before.value)) then Some(v) else before
  {
    var (front, v) := (history[..|history| - 1], history[|history| - 1]);
    assert history == front + [v];
    CandidatesSnoc(front, v, q);
    if v.memory.key == key {
      GovernorSnoc(Candidates(front, q), v);
    } else {
      OtherGovernor(Candidates(front, q), v, key);
    }
  }

  lemma HighestStays(history: seq<Version>, q: Query, key: string, i: nat)
    requires history != [] && Highest(history[..|history| - 1], q, key, i)
    requires
      var v := history[|history| - 1];
      !(InPlay(v, q) && v.memory.key == key && Over(v, history[i]))
    ensures Highest(history, q, key, i)
  {
    var front := history[..|history| - 1];
    assert forall j :: 0 <= j < |front| ==> front[j] == history[j];
  }

  lemma LastIsHighest(history: seq<Version>, q: Query, key: string)
    requires
      && history != []
      && var v := history[|history| - 1];
         && InPlay(v, q) && v.memory.key == key
         && forall j :: 0 <= j < |history| - 1 && InPlay(history[j], q) && history[j].memory.key == key ==>
              Over(v, history[j]) && !Over(history[j], v)
    ensures Highest(history, q, key, |history| - 1)
  {
    var v := history[|history| - 1];
    LessTotal(v.memory.id, v.memory.id);
  }

  lemma NoneInPlay(history: seq<Version>, q: Query, key: string)
    requires GovernorOf(Candidates(history, q), key).None?
    ensures forall j :: 0 <= j < |history| ==> !(InPlay(history[j], q) && history[j].memory.key == key)
  {
    NoKeyNoGroup(Candidates(history, q), key);
    CandidateMembers(history, q);
    forall j | 0 <= j < |history| && InPlay(history[j], q) ensures history[j].memory.key != key {
      assert history[j] in history && GateOf(history[j], q).Candidate?;
    }
  }

  lemma GovernorSnoc(c: seq<Version>, v: Version)
    ensures
      var before := GovernorOf(c, v.memory.key);
      GovernorOf(c + [v], v.memory.key) == Some(if before.None? || Over(v, before.value) then v else before.value)
  {
    assert (c + [v])[..|c|] == c;
    var group := OfKey(c, v.memory.key);
    assert OfKey(c + [v], v.memory.key) == group + [v];
    assert (group + [v])[..|group|] == group;
  }

  lemma OtherGovernor(c: seq<Version>, v: Version, key: string)
    requires v.memory.key != key
    ensures GovernorOf(c + [v], key) == GovernorOf(c, key)
  {
    assert (c + [v])[..|c|] == c;
    assert OfKey(c + [v], key) == OfKey(c, key);
  }

  /** What is over the highest is over all others. */
  lemma OverAll(history: seq<Version>, q: Query, key: string, i: nat, v: Version)
    requires history != [] && Highest(history[..|history| - 1], q, key, i) && Over(v, history[i])
    ensures forall j :: 0 <= j < |history| - 1 && InPlay(history[j], q) && history[j].memory.key == key ==>
      Over(v, history[j]) && !Over(history[j], v)
  {
    forall j | 0 <= j < |history| - 1 && InPlay(history[j], q) && history[j].memory.key == key
      ensures Over(v, history[j]) && !Over(history[j], v)
    {
      assert history[..|history| - 1][j] == history[j];
      OverOrders(v, history[i], history[j]);
    }
  }

  lemma OverOrders(a: Version, b: Version, c: Version)
    requires Over(a, b) && !Over(c, b)
    ensures Over(a, c) && !Over(c, a)
  {
    LessTotal(b.memory.id, c.memory.id);
    LessTotal(a.memory.id, c.memory.id);
    if Less(b.memory.id, a.memory.id) && Less(c.memory.id, b.memory.id) {
      LessTransitive(c.memory.id, b.memory.id, a.memory.id);
    }
  }

  lemma GovernorListed(g: Version, q: Query)
    ensures DecidedBy(g, q, EntryFor(Some(g), q), RejectionFor(Some(g), q))
  {
  }

  /** A version in play above all others of its key decides it. */
  lemma TopDecides(history: seq<Version>, q: Query, v: Version)
    requires v in history && InPlay(v, q)
    requires forall w :: w in history && w.memory.key == v.memory.key ==>
      w.memory.version <= v.memory.version && (w.memory.version == v.memory.version ==> w == v)
    ensures
      var view := ViewOf(history, q);
      DecidedBy(v, q, OfKey(view.entries, v.memory.key), RejectionsOfKey(view.rejections, v.memory.key))
  {
    HighestDecides(history, q, v.memory.key);
    var j :| 0 <= j < |history| && history[j] == v;
  }

  predicate EntriesByKey(entries: seq<Version>) {
    forall i, j :: 0 <= i < j < |entries| ==> Less(entries[i].memory.key, entries[j].memory.key)
  }

  predicate RejectionsByKey(rejections: seq<Rejection>) {
    forall i, j :: 0 <= i < j < |rejections| ==> Less(rejections[i].key, rejections[j].key)
  }

  lemma {:induction false} EntriesInOrder(c: seq<Version>, q: Query, keys: seq<string>)
    requires Sorted(keys)
    ensures EntriesByKey(Entries(c, q, keys)) && forall e :: e in Entries(c, q, keys) ==> e.memory.key in keys
  {
    if keys != [] {
      var (front, last) := (keys[..|keys| - 1], keys[|keys| - 1]);
      assert keys == front + [last];
      EntriesInOrder(c, q, front);
      NoKeyNoGroup(c, last);
      EntryAfter(Entries(c, q, front), GovernorOf(c, last), q, front, last);
    }
  }

  lemma EntryAfter(es: seq<Version>, g: Option<Version>, q: Query, front: seq<string>, last: string)
    requires EntriesByKey(es) && (forall e :: e in es ==> e.memory.key in front) && Sorted(front + [last])
    requires g.Some? ==> g.value.memory.key == last
    ensures
      var all := es + EntryFor(g, q);
      EntriesByKey(all) && forall e :: e in all ==> e.memory.key in front + [last]
  {
    forall i | 0 <= i < |es| ensures Less(es[i].memory.key, last) {
      assert es[i] in es;
      var k :| 0 <= k < |front| && front[k] == es[i].memory.key;
      assert (front + [last])[k] == front[k] && (front + [last])[|front|] == last;
    }
  }

  lemma {:induction false} RejectionsInOrder(c: seq<Version>, q: Query, keys: seq<string>)
    requires Sorted(keys)
    ensures RejectionsByKey(Rejections(c, q, keys)) && forall r :: r in Rejections(c, q, keys) ==> r.key in keys
  {
    if keys != [] {
      var (front, last) := (keys[..|keys| - 1], keys[|keys| - 1]);
      assert keys == front + [last];
      RejectionsInOrder(c, q, front);
      NoKeyNoGroup(c, last);
      RejectionAfter(Rejections(c, q, front), GovernorOf(c, last), q, front, last);
    }
  }

  lemma RejectionAfter(rs: seq<Rejection>, g: Option<Version>, q: Query, front: seq<string>, last: string)
    requires RejectionsByKey(rs) && (forall r :: r in rs ==> r.key in front) && Sorted(front + [last])
    requires g.Some? ==> g.value.memory.key == last
    ensures
      var all := rs + RejectionFor(g, q);
      RejectionsByKey(all) && forall r :: r in all ==> r.key in front + [last]
  {
    forall i | 0 <= i < |rs| ensures Less(rs[i].key, last) {
      assert rs[i] in rs;
      var k :| 0 <= k < |front| && front[k] == rs[i].key;
      assert (front + [last])[k] == front[k] && (front + [last])[|front|] == last;
    }
  }

  /** Entries and rejections are listed by key, each key at most once in each. */
  lemma ListsAreByKey(history: seq<Version>, q: Query)
    ensures EntriesByKey(ViewOf(history, q).entries) && RejectionsByKey(ViewOf(history, q).rejections)
  {
    EntriesInOrder(Candidates(history, q), q, KeyList(Candidates(history, q)));
    RejectionsInOrder(Candidates(history, q), q, KeyList(Candidates(history, q)));
  }

  // ------------------------------------------------------ committed mutations

  lemma CommitIsListed(db: S.Db, memory: Memory, now: Instant, db': S.Db)
    requires Inv(db) && Inv(db') && RecordAnswers.CommittedTo(db, memory, now, db') && memory.id !in db.records
    ensures AllLoad(db') && Version(memory, now) in Listing(db')
    ensures forall v :: v in Listing(db') && v.memory.key == memory.key ==> v.memory.version <= memory.version
    ensures forall v :: v in Listing(db') && v.memory.key == memory.key && v.memory.version == memory.version ==>
      v == Version(memory, now)
  {
    ListingMembers(db');
    var row := S.VersionRow(memory.id, memory.key, memory.version);
    assert row in db'.versions && Join(db', row) == Version(memory, now);
    forall v | v in Listing(db') && v.memory.key == memory.key
      ensures v.memory.version <= memory.version
      ensures v.memory.version == memory.version ==> v == Version(memory, now)
    {
      var w :| w in db'.versions && Join(db', w) == v;
      RecordTheorems.CommittedIsMember(db', memory.key, v.memory);
      assert ChainOk(db', memory.key);
      if v.memory.version == memory.version { ListedOnce(db', v, Version(memory, now)); }
    }
  }

  /** A query that can see the memory: wanted, known by then, and already effective. */
  predicate Sees(q: Query, m: Memory, now: Instant) { InPlay(Version(m, now), q) }

  /**
   * Over every run, after a consolidated version has been committed, every query that can see it is
   * answered by it: a revoke or dispute leaves no entry of the key and one rejection with its status;
   * an upsert is the entry of the key inside its window, and rejected as expired after it.
   */
  lemma CommittedMutationDecides(
    ops: seq<S.Op>, mutation: Mutation, history: seq<Memory>, derive: Deriver, expectedHead: Option<string>,
    expectedVersion: Option<nat>, now: Instant, q: Query)
    requires Consolidate(mutation, history, derive).Ok?
    requires
      var (db, c) := (S.Run(S.EMPTY_DB, ops), Consolidate(mutation, history, derive).value);
      && S.Commit(db, c.memory, c.previousId, expectedHead, expectedVersion, now).db != db
      && Sees(q, c.memory, now)
    ensures
      var (db, c) := (S.Run(S.EMPTY_DB, ops), Consolidate(mutation, history, derive).value);
      var db' := S.Commit(db, c.memory, c.previousId, expectedHead, expectedVersion, now).db;
      && AllLoad(db')
      && var view := ViewOf(Listing(db'), q);
         var (entries, rejections) := (OfKey(view.entries, mutation.key), RejectionsOfKey(view.rejections, mutation.key));
         match mutation.kind
         case Revoke => entries == [] && |rejections| == 1 && rejections[0].status.Revoked? && rejections[0].id == c.memory.id
         case Dispute => entries == [] && |rejections| == 1 && rejections[0].status.Disputed? && rejections[0].id == c.memory.id
         case Upsert =>
           if mutation.validUntil.Some? && q.asOf >= mutation.validUntil.value
           then entries == [] && |rejections| == 1 && rejections[0].reason.Expired? && rejections[0].id == c.memory.id
           else entries == [Version(c.memory, now)] && rejections == []
  {
    var (db, c) := (S.Run(S.EMPTY_DB, ops), Consolidate(mutation, history, derive).value);
    var db' := S.Commit(db, c.memory, c.previousId, expectedHead, expectedVersion, now).db;
    RunKeepsInv(S.EMPTY_DB, ops);
    CommitKeepsInv(db, c.memory, c.previousId, expectedHead, expectedVersion, now);
    RecordAnswers.CommitByFields(db, c.memory, c.previousId, expectedHead, expectedVersion, now);
    RecordAnswers.ConsolidationCarries(mutation, history, derive);
    CommitIsListed(db, c.memory, now, db');
    TopDecides(Listing(db'), q, Version(c.memory, now));
  }
}
