/** The restricted read adapter: an SQL prefilter followed by the exact rule check (sqlite_access_control.py). */
module AccessTables {
  import opened Base
  import opened TextOrder
  import opened MemoryRecords
  import S = RecordStore
  import opened RecordInvariants
  import RecordTables
  import opened MemoryView
  import opened ViewTheorems
  import opened AccessControl
  import opened AccessTheorems

  // ------------------------------------------------------------- SQLite LIKE

  /** LIKE folds the case of ASCII letters only. */
  function Fold(c: char): char {
    if 'A' <= c <= 'Z' then ((c as int) + 32) as char else c
  }

  /** `text LIKE pattern`: `%` stands for any text, `_` for any one character. */
  predicate Like(pattern: string, text: string)
    decreases |pattern| + |text|
  {
    if pattern == "" then text == ""
    else if pattern[0] == '%' then Like(pattern[1..], text) || (text != "" && Like(pattern, text[1..]))
    else text != "" && (pattern[0] == '_' || Fold(pattern[0]) == Fold(text[0])) && Like(pattern[1..], text[1..])
  }

  lemma {:induction false} PercentMatchesAll(text: string)
    ensures Like("%", text)
    decreases |text|
  {
    if text != "" { PercentMatchesAll(text[1..]); }
  }

  /** Every key with a prefix matches the pattern, whatever wildcards the prefix holds. */
  lemma {:induction false} PrefixIsLike(prefix: string, key: string)
    requires StartsWith(key, prefix)
    ensures Like(prefix + "%", key)
  {
    if prefix == "" {
      PercentMatchesAll(key);
      assert prefix + "%" == "%";
    } else {
      PrefixIsLike(prefix[1..], key[1..]);
      var pattern := prefix + "%";
      assert pattern[1..] == prefix[1..] + "%";
    }
  }

  predicate Literal(text: string) { forall i :: 0 <= i < |text| ==> text[i] != '%' && text[i] != '_' }

  predicate FoldedPrefix(key: string, prefix: string) {
    |prefix| <= |key| && forall i :: 0 <= i < |prefix| ==> Fold(prefix[i]) == Fold(key[i])
  }

  /** For a prefix without wildcards, the pattern admits exactly the prefix up to ASCII case. */
  lemma {:induction false} LiteralLike(prefix: string, key: string)
    requires Literal(prefix)
    ensures Like(prefix + "%", key) <==> FoldedPrefix(key, prefix)
  {
    if prefix == "" {
      PercentMatchesAll(key);
      assert prefix + "%" == "%";
    } else {
      var pattern := prefix + "%";
      assert pattern[1..] == prefix[1..] + "%";
      if key != "" {
        LiteralLike(prefix[1..], key[1..]);
        assert FoldedPrefix(key, prefix) <==> Fold(prefix[0]) == Fold(key[0]) && FoldedPrefix(key[1..], prefix[1..]) by {
          FoldedHead(key, prefix);
        }
      }
    }
  }

  lemma FoldedHead(key: string, prefix: string)
    requires key != "" && prefix != ""
    ensures FoldedPrefix(key, prefix) <==> Fold(prefix[0]) == Fold(key[0]) && FoldedPrefix(key[1..], prefix[1..])
  {
    if FoldedPrefix(key[1..], prefix[1..]) && Fold(prefix[0]) == Fold(key[0]) {
      forall i | 0 <= i < |prefix| ensures Fold(prefix[i]) == Fold(key[i]) {
        if i > 0 { assert prefix[1..][i - 1] == prefix[i] && key[1..][i - 1] == key[i]; }
      }
    }
  }

  /** The pattern admits keys without the prefix, so the exact check is needed after it. */
  lemma PrefilterAloneIsTooWide()
    ensures Like("a_%", "Abc") && !StartsWith("Abc", "a_")
  {
    var (p, k) := ("a_%", "Abc");
    assert p[1..] == "_%" && k[1..] == "bc" && p[1..][1..] == "%" && k[1..][1..] == "c";
    PercentMatchesAll("c");
    assert Like("_%", "bc");
    assert k[0] == 'A' && "a_"[0] == 'a';
  }

  // --------------------------------------------------------------- the query

  datatype Clause = KeyIn(keys: seq<string>) | KeyLike(pattern: string) | TypeIn(types: seq<MemoryType>)

  predicate Satisfies(c: Clause, key: string, mtype: MemoryType) {
    match c
    case KeyIn(keys) => key in keys
    case KeyLike(pattern) => Like(pattern, key)
    case TypeIn(types) => mtype in types
  }

  /** The WHERE clause. */
  predicate Where(parts: seq<Clause>, key: string, mtype: MemoryType) {
    !mtype.AccessPolicy? && (parts == [] || exists i | 0 <= i < |parts| :: Satisfies(parts[i], key, mtype))
  }

  method BuildParts(scope: Scope) returns (parts: seq<Clause>)
    ensures forall key, mtype :: Allows(scope, key, mtype) ==> Where(parts, key, mtype)
    ensures parts == [] <==> scope.keys == [] && scope.prefixes == [] && scope.types == []
  {
    parts := [];
    if scope.keys != [] {
      parts := parts + [KeyIn(scope.keys)];
    }
    var first := |parts|;
    for i := 0 to |scope.prefixes|
      invariant |parts| == first + i && (scope.keys != [] ==> first == 1 && parts[0] == KeyIn(scope.keys))
      invariant forall j :: 0 <= j < i ==> parts[first + j] == KeyLike(scope.prefixes[j] + "%")
    {
      parts := parts + [KeyLike(scope.prefixes[i] + "%")];
    }
    if scope.types != [] {
      parts := parts + [TypeIn(scope.types)];
    }
    forall key, mtype | Allows(scope, key, mtype) ensures Where(parts, key, mtype) {
      PrefilterLosesNothing(scope, parts, first, key, mtype);
    }
  }

  /** One part for each selector of the scope. */
  ghost predicate PartsOf(scope: Scope, parts: seq<Clause>, first: nat) {
    && (scope.keys != [] ==> 0 < |parts| && parts[0] == KeyIn(scope.keys))
    && first + |scope.prefixes| <= |parts|
    && (forall j :: 0 <= j < |scope.prefixes| ==> parts[first + j] == KeyLike(scope.prefixes[j] + "%"))
    && (scope.types != [] ==> parts != [] && parts[|parts| - 1] == TypeIn(scope.types))
    && (scope.keys == [] && scope.prefixes == [] && scope.types == [] ==> parts == [])
  }

  /** The prefilter keeps every row that the scope allows. */
  lemma PrefilterLosesNothing(scope: Scope, parts: seq<Clause>, first: nat, key: string, mtype: MemoryType)
    requires PartsOf(scope, parts, first) && Allows(scope, key, mtype)
    ensures Where(parts, key, mtype)
  {
    if key in scope.keys {
      assert Satisfies(parts[0], key, mtype);
    } else if i :| 0 <= i < |scope.prefixes| && StartsWith(key, scope.prefixes[i]) {
      PrefixIsLike(scope.prefixes[i], key);
      assert Satisfies(parts[first + i], key, mtype);
    } else if mtype in scope.types {
      assert Satisfies(parts[|parts| - 1], key, mtype);
    }
  }

  function TypeOf(db: S.Db, v: S.VersionRow): MemoryType
    requires S.Load(db, v).Some?
  {
    S.Load(db, v).value.mtype
  }

  /** The rows that the query selects, in the given order. */
  function Fetch(db: S.Db, rows: seq<S.VersionRow>, parts: seq<Clause>): (fetched: seq<S.VersionRow>)
    requires forall v :: v in rows ==> S.Load(db, v).Some?
    ensures forall v :: v in fetched ==> v in rows
  {
    if rows == [] then []
    else
      var last := rows[|rows| - 1];
      assert rows == rows[..|rows| - 1] + [last];
      var rest := Fetch(db, rows[..|rows| - 1], parts);
      if Where(parts, last.key, TypeOf(db, last)) then rest + [last] else rest
  }

  function Joined(db: S.Db, rows: seq<S.VersionRow>): (l: seq<Version>)
    requires forall v :: v in rows ==> S.Load(db, v).Some?
    ensures |l| == |rows| && forall i :: 0 <= i < |rows| ==> l[i] == Join(db, rows[i])
  {
    seq(|rows|, i requires 0 <= i < |rows| && rows[i] in rows => Join(db, rows[i]))
  }

  lemma JoinedSnoc(db: S.Db, rows: seq<S.VersionRow>, v: S.VersionRow)
    requires (forall w :: w in rows ==> S.Load(db, w).Some?) && S.Load(db, v).Some?
    ensures Joined(db, rows + [v]) == Joined(db, rows) + [Join(db, v)]
  {
  }

  lemma AdmittedSnoc(history: seq<Version>, v: Version, scope: Scope)
    ensures AdmittedBy(history + [v], scope)
      == if Allows(scope, v.memory.key, v.memory.mtype) then AdmittedBy(history, scope) + [v] else AdmittedBy(history, scope)
  {
    assert (history + [v])[..|history|] == history;
  }

  /** Checking the fetched rows only, or every row, admits the same versions. */
  lemma {:induction false} FetchedSuffice(db: S.Db, rows: seq<S.VersionRow>, parts: seq<Clause>, scope: Scope)
    requires forall v :: v in rows ==> S.Load(db, v).Some? && IndexOk(db, v)
    requires forall key, mtype :: Allows(scope, key, mtype) ==> Where(parts, key, mtype)
    ensures AdmittedBy(Joined(db, Fetch(db, rows, parts)), scope) == AdmittedBy(Joined(db, rows), scope)
  {
    if rows != [] {
      var (front, last) := (rows[..|rows| - 1], rows[|rows| - 1]);
      assert rows == front + [last] && IndexOk(db, last);
      FetchedSuffice(db, front, parts, scope);
      JoinedSnoc(db, front, last);
      AdmittedSnoc(Joined(db, front), Join(db, last), scope);
      var fetched := Fetch(db, front, parts);
      JoinedSnoc(db, fetched, last);
      AdmittedSnoc(Joined(db, fetched), Join(db, last), scope);
    }
  }

  // --------------------------------------------------------------- the order

  /** `ORDER BY memory_key, version`. */
  predicate VersionBefore(a: Version, b: Version) {
    Less(a.memory.key, b.memory.key) || (a.memory.key == b.memory.key && a.memory.version < b.memory.version)
  }

  ghost predicate InOrder(versions: seq<Version>) {
    forall i, j :: 0 <= i < j < |versions| ==> VersionBefore(versions[i], versions[j])
  }

  ghost predicate RowsInOrder(rows: seq<S.VersionRow>) {
    forall i, j :: 0 <= i < j < |rows| ==> !RowBefore(rows[j], rows[i])
  }

  lemma RowOrder(a: S.VersionRow, b: S.VersionRow, c: S.VersionRow)
    ensures !(RowBefore(a, b) && RowBefore(b, a))
    ensures RowBefore(a, b) && !RowBefore(c, b) ==> RowBefore(a, c)
  {
    LessTotal(a.key, b.key);
    LessTotal(a.memoryId, b.memoryId);
    LessTotal(b.key, c.key);
    LessTotal(b.memoryId, c.memoryId);
    if Less(a.key, b.key) && Less(b.key, c.key) { LessTransitive(a.key, b.key, c.key); }
    if Less(a.memoryId, b.memoryId) && Less(b.memoryId, c.memoryId) { LessTransitive(a.memoryId, b.memoryId, c.memoryId); }
  }

  lemma {:induction false} InsertKeepsOrder(rows: seq<S.VersionRow>, v: S.VersionRow)
    requires RowsInOrder(rows)
    ensures RowsInOrder(InsertRow(rows, v)) && forall w :: w in InsertRow(rows, v) <==> w in rows || w == v
  {
    if rows != [] {
      var head := rows[0];
      assert rows == [head] + rows[1..];
      if RowBefore(v, head) {
        forall w | w in rows ensures !RowBefore(w, v) {
          RowOrder(v, head, w);
          RowOrder(v, w, v);
        }
      } else {
        InsertKeepsOrder(rows[1..], v);
        assert forall w :: w in rows[1..] ==> !RowBefore(w, head);
      }
    }
  }

  lemma {:induction false} SortedRowsInOrder(rows: seq<S.VersionRow>)
    ensures RowsInOrder(SortRows(rows))
  {
    if rows != [] {
      SortedRowsInOrder(rows[..|rows| - 1]);
      InsertKeepsOrder(SortRows(rows[..|rows| - 1]), rows[|rows| - 1]);
    }
  }

  /** The listing is the join of the sorted rows, strictly ordered by key and version. */
  lemma ListingInOrder(db: S.Db)
    requires Inv(db)
    ensures AllLoad(db) && (forall v :: v in SortRows(db.versions) ==> v in db.versions && IndexOk(db, v))
    ensures Listing(db) == Joined(db, SortRows(db.versions))
    ensures InOrder(Listing(db))
  {
    InvLoads(db);
    SortKeepsRows(db.versions);
    SortedRowsInOrder(db.versions);
    IndexedOnce(db);
    SortKeepsDistinct(db.versions);
    var rows := SortRows(db.versions);
    assert forall v :: v in rows ==> IndexOk(db, v);
    var l := Listing(db);
    forall i, j | 0 <= i < j < |l| ensures VersionBefore(l[i], l[j]) {
      assert rows[i] in rows && rows[j] in rows && l[i] == Join(db, rows[i]) && l[j] == Join(db, rows[j]);
      LessTotal(rows[i].key, rows[j].key);
    }
  }

  /** No two positions hold the same key and version. */
  ghost predicate DistinctRows(rows: seq<S.VersionRow>) {
    forall i, j :: 0 <= i < j < |rows| ==> !(rows[i].key == rows[j].key && rows[i].version == rows[j].version)
  }

  lemma {:induction false} RowsOfPrefix(versions: seq<S.VersionRow>, n: nat, key: string)
    requires n <= |versions|
    ensures S.RowsOf(versions[..n], key) <= S.RowsOf(versions, key)
  {
    if n < |versions| {
      var front := versions[..|versions| - 1];
      RowsOfPrefix(front, n, key);
      assert front[..n] == versions[..n];
    } else {
      assert versions[..n] == versions;
    }
  }

  /** A row is found in its chain at the position that its version says. */
  lemma PlaceInChain(db: S.Db, n: nat)
    requires Inv(db) && n < |db.versions|
    ensures |S.RowsOf(db.versions[..n], db.versions[n].key)| + 1 == db.versions[n].version
  {
    var v := db.versions[n];
    var before := db.versions[..n];
    RowsOfPrefix(db.versions, n + 1, v.key);
    assert db.versions[..n + 1][..n] == before;
    var rows := S.RowsOf(db.versions, v.key);
    assert rows[|S.RowsOf(before, v.key)|] == v;
    assert ChainOk(db, v.key);
    assert LinkOk(db, rows, |S.RowsOf(before, v.key)|);
  }

  lemma IndexedOnce(db: S.Db)
    requires Inv(db)
    ensures DistinctRows(db.versions)
  {
    forall i, j | 0 <= i < j < |db.versions| && db.versions[i].key == db.versions[j].key
      ensures db.versions[i].version != db.versions[j].version
    {
      var key := db.versions[i].key;
      PlaceInChain(db, i);
      PlaceInChain(db, j);
      assert db.versions[..j][..i + 1] == db.versions[..i + 1] && db.versions[..i + 1][..i] == db.versions[..i];
      RowsOfPrefix(db.versions[..j], i + 1, key);
    }
  }

  lemma {:induction false} SortKeepsDistinct(rows: seq<S.VersionRow>)
    requires DistinctRows(rows)
    ensures DistinctRows(SortRows(rows))
  {
    if rows != [] {
      var (front, last) := (rows[..|rows| - 1], rows[|rows| - 1]);
      SortKeepsDistinct(front);
      SortKeepsRows(front);
      var sorted := SortRows(front);
      var i := InsertedRow(sorted, last);
      forall k | 0 <= k < |sorted| ensures !(sorted[k].key == last.key && sorted[k].version == last.version) {
        assert sorted[k] in sorted && sorted[k] in front;
      }
      SplicedDistinct(sorted, i, last);
    }
  }

  lemma SplicedDistinct(rows: seq<S.VersionRow>, i: nat, v: S.VersionRow)
    requires DistinctRows(rows) && i <= |rows|
    requires forall k :: 0 <= k < |rows| ==> !(rows[k].key == v.key && rows[k].version == v.version)
    ensures DistinctRows(rows[..i] + [v] + rows[i..])
  {
    var all := rows[..i] + [v] + rows[i..];
    assert forall k :: 0 <= k < |all| && k != i ==> all[k] == rows[if k < i then k else k - 1];
  }

  lemma {:induction false} AdmittedInOrder(history: seq<Version>, scope: Scope)
    requires InOrder(history)
    ensures InOrder(AdmittedBy(history, scope)) && forall v :: v in AdmittedBy(history, scope) ==> v in history
  {
    if history != [] {
      var (front, last) := (history[..|history| - 1], history[|history| - 1]);
      AdmittedInOrder(front, scope);
      assert history == front + [last];
      forall v | v in front ensures VersionBefore(v, last) {
        var i :| 0 <= i < |front| && front[i] == v;
        assert history[i] == v;
      }
      assert forall k :: 0 <= k < |AdmittedBy(front, scope)| ==> AdmittedBy(front, scope)[k] in front;
    }
  }

  class AuthorizedStore {
    const store: RecordTables.RecordDatabase
    /** The ids of the payloads loaded by the last read. */
    var lastLoaded: seq<string>

    constructor (store: RecordTables.RecordDatabase)
      ensures this.store == store && lastLoaded == []
    {
      this.store := store;
      lastLoaded := [];
    }

    /** `list_authorized_memory_versions`: denied payloads are never loaded. */
    method ListAuthorized(scope: Scope) returns (committed: seq<Version>)
      requires store.Valid()
      modifies this`lastLoaded
      ensures AllLoad(store.Tables()) && committed == AdmittedBy(Listing(store.Tables()), scope)
      ensures InOrder(committed) && lastLoaded == IdsOf(committed)
    {
      ListingInOrder(store.Tables());
      AdmittedInOrder(Listing(store.Tables()), scope);
      var parts := BuildParts(scope);
      var db := S.Db(store.records, store.versions, store.heads, store.inserted);
      var rows := Fetch(db, SortRows(db.versions), parts);
      FetchedSuffice(db, SortRows(db.versions), parts, scope);
      committed := LoadAdmitted(db, rows, scope);
    }

    /** The loop over the fetched rows. */
    method LoadAdmitted(db: S.Db, rows: seq<S.VersionRow>, scope: Scope) returns (committed: seq<Version>)
      requires forall v :: v in rows ==> S.Load(db, v).Some? && IndexOk(db, v)
      modifies this`lastLoaded
      ensures committed == AdmittedBy(Joined(db, rows), scope) && lastLoaded == IdsOf(committed)
    {
      lastLoaded, committed := [], [];
      for i := 0 to |rows|
        invariant committed == AdmittedBy(Joined(db, rows[..i]), scope) && lastLoaded == IdsOf(committed)
      {
        var row := rows[i];
        assert row in rows && IndexOk(db, row);
        AdmitRow(db, rows, i, scope);
        if Allows(scope, row.key, TypeOf(db, row)) {
          var record := db.records[row.memoryId];
          var m := record.record.memory;
          assert m.key == row.key && m.version == row.version && m.mtype == TypeOf(db, row);
          lastLoaded := lastLoaded + [m.id];
          committed := committed + [Version(m, record.insertedAt)];
        }
      }
      assert rows[..|rows|] == rows;
    }

    /** `SQLiteAccessPolicyStore.list_committed_memory_versions`. */
    method ListPolicies() returns (committed: seq<Version>)
      requires store.Valid()
      ensures AllLoad(store.Tables()) && committed == PoliciesIn(Listing(store.Tables()))
    {
      ListingInOrder(store.Tables());
      var db := S.Db(store.records, store.versions, store.heads, store.inserted);
      var rows := SortRows(db.versions);
      committed := [];
      for i := 0 to |rows|
        invariant committed == PoliciesIn(Joined(db, rows[..i]))
      {
        var row := rows[i];
        assert row in rows;
        assert rows[..i + 1] == rows[..i] + [row];
        JoinedSnoc(db, rows[..i], row);
        PoliciesSnoc(Joined(db, rows[..i]), Join(db, row));
        if TypeOf(db, row).AccessPolicy? {
          committed := committed + [Join(db, row)];
        }
      }
      assert rows[..|rows|] == rows;
    }

    /** `AuthorizedMemoryViewEngine.project` over this adapter. */
    method ProjectAuthorized(q: Request) returns (r: Result<View, MemoryError>)
      requires store.Valid()
      modifies this`lastLoaded
      ensures AllLoad(store.Tables()) && r == AuthorizedProject(Listing(store.Tables()), q)
    {
      var policies := ListPolicies();
      var a := AuthorizeRequest(policies, q);
      if !HasPotentialAllow(a.scope) {
        return Ok(EMPTY_VIEW);
      }
      var committed := ListAuthorized(a.scope);
      r := ProjectHistory(committed, Query(q.asOf, q.knownAt, {}, {}));
    }
  }

  function IdsOf(versions: seq<Version>): seq<string> {
    if versions == [] then [] else IdsOf(versions[..|versions| - 1]) + [versions[|versions| - 1].memory.id]
  }

  lemma IdsSnoc(versions: seq<Version>, v: Version)
    ensures IdsOf(versions + [v]) == IdsOf(versions) + [v.memory.id]
  {
    assert (versions + [v])[..|versions|] == versions;
  }

  /** One round of `list_authorized_memory_versions`. */
  lemma AdmitRow(db: S.Db, rows: seq<S.VersionRow>, i: nat, scope: Scope)
    requires i < |rows| && (forall v :: v in rows ==> S.Load(db, v).Some?) && IndexOk(db, rows[i])
    ensures
      var (before, after) := (AdmittedBy(Joined(db, rows[..i]), scope), AdmittedBy(Joined(db, rows[..i + 1]), scope));
      if Allows(scope, rows[i].key, TypeOf(db, rows[i])) then
        && after == before + [Join(db, rows[i])]
        && IdsOf(after) == IdsOf(before) + [rows[i].memoryId]
      else after == before
  {
    var row := rows[i];
    assert row in rows;
    assert rows[..i + 1] == rows[..i] + [row];
    JoinedSnoc(db, rows[..i], row);
    AdmittedSnoc(Joined(db, rows[..i]), Join(db, row), scope);
    IdsSnoc(AdmittedBy(Joined(db, rows[..i]), scope), Join(db, row));
  }

  lemma PoliciesSnoc(history: seq<Version>, v: Version)
    ensures PoliciesIn(history + [v])
      == if v.memory.mtype.AccessPolicy? then PoliciesIn(history) + [v] else PoliciesIn(history)
  {
    assert (history + [v])[..|history|] == history;
  }
}
