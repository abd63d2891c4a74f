/** The bitemporal projection of committed memory versions (memory_view.py). */
module MemoryView {
  import opened Base
  import opened TextOrder
  import opened MemoryRecords

  /** A committed version with its knowledge time. */
  datatype Version = Version(memory: Memory, committedAt: Instant)

  datatype Query = Query(asOf: Instant, knownAt: Option<Instant>, keys: set<string>, types: set<MemoryType>)

  datatype Reason = StatusGate(status: MemoryStatus) | Expired

  datatype Rejection = Rejection(key: string, id: string, version: nat, reason: Reason, status: MemoryStatus)

  datatype Counts = Counts(
    filtered: nat, notKnown: nat, notYet: nat, superseded: nat, nonActive: nat, expired: nat)

  datatype View = View(entries: seq<Version>, rejections: seq<Rejection>, counts: Counts)

  // ------------------------------------------------------------- candidates

  datatype Gate = FilteredOut | NotKnown | NotYet | Candidate

  /** The first exclusion that applies to a version. */
  function GateOf(v: Version, q: Query): Gate {
    if q.keys != {} && v.memory.key !in q.keys then FilteredOut
    else if q.types != {} && v.memory.mtype !in q.types then FilteredOut
    else if q.knownAt.Some? && v.committedAt > q.knownAt.value then NotKnown
    else if v.memory.validFrom > q.asOf then NotYet
    else Candidate
  }

  function CountOf(history: seq<Version>, q: Query, gate: Gate): nat {
    if history == [] then 0
    else CountOf(history[..|history| - 1], q, gate) + (if GateOf(history[|history| - 1], q) == gate then 1 else 0)
  }

  function Candidates(history: seq<Version>, q: Query): seq<Version> {
    if history == [] then []
    else
      var v := history[|history| - 1];
      Candidates(history[..|history| - 1], q) + (if GateOf(v, q).Candidate? then [v] else [])
  }

  // --------------------------------------------------------- group and decide

  function OfKey(versions: seq<Version>, key: string): seq<Version> {
    if versions == [] then []
    else
      var v := versions[|versions| - 1];
      OfKey(versions[..|versions| - 1], key) + (if v.memory.key == key then [v] else [])
  }

  ghost function KeysOf(versions: seq<Version>): set<string> {
    set v | v in versions :: v.memory.key
  }

  /** `(version, committed_at, id)`, as `max` compares it. */
  predicate Governs(a: Version, b: Version) {
    || a.memory.version > b.memory.version
    || (a.memory.version == b.memory.version && a.committedAt > b.committedAt)
    || (a.memory.version == b.memory.version && a.committedAt == b.committedAt && Less(b.memory.id, a.memory.id))
  }

  function Governing(versions: seq<Version>): (g: Version)
    requires versions != []
    ensures g in versions && forall v :: v in versions ==> v.memory.version <= g.memory.version
  {
    if |versions| == 1 then versions[0]
    else
      var g := Governing(versions[..|versions| - 1]);
      var v := versions[|versions| - 1];
      if Governs(v, g) then v else g
  }

  datatype Verdict = Admitted | Rejected(reason: Reason)

  /** The hard gates. */
  function Judge(m: Memory, q: Query): Verdict {
    if !m.status.Active? then Rejected(StatusGate(m.status))
    else if m.validUntil.Some? && q.asOf >= m.validUntil.value then Rejected(Expired)
    else Admitted
  }

  function RejectionOf(m: Memory, reason: Reason): Rejection {
    Rejection(m.key, m.id, m.version, reason, m.status)
  }

  /** The governing version of a key, if the key has candidates. */
  function GovernorOf(candidates: seq<Version>, key: string): Option<Version> {
    var group := OfKey(candidates, key);
    if group == [] then None else Some(Governing(group))
  }

  /** What the decision on one key adds to the lists of the view. */
  function EntryFor(g: Option<Version>, q: Query): seq<Version> {
    if g.Some? && Judge(g.value.memory, q).Admitted? then [g.value] else []
  }

  function RejectionFor(g: Option<Version>, q: Query): seq<Rejection> {
    if g.Some? && Judge(g.value.memory, q).Rejected?
    then [RejectionOf(g.value.memory, Judge(g.value.memory, q).reason)] else []
  }

  function Entries(candidates: seq<Version>, q: Query, keys: seq<string>): seq<Version> {
    if keys == [] then []
    else Entries(candidates, q, keys[..|keys| - 1]) + EntryFor(GovernorOf(candidates, keys[|keys| - 1]), q)
  }

  function Rejections(candidates: seq<Version>, q: Query, keys: seq<string>): seq<Rejection> {
    if keys == [] then []
    else Rejections(candidates, q, keys[..|keys| - 1]) + RejectionFor(GovernorOf(candidates, keys[|keys| - 1]), q)
  }

  function Superseded(candidates: seq<Version>, keys: seq<string>): nat {
    if keys == [] then 0
    else
      var group := OfKey(candidates, keys[|keys| - 1]);
      Superseded(candidates, keys[..|keys| - 1]) + (if group == [] then 0 else |group| - 1)
  }

  function NonActive(rejections: seq<Rejection>): (n: nat)
    ensures n <= |rejections|
  {
    if rejections == [] then 0
    else
      var last := rejections[|rejections| - 1];
      NonActive(rejections[..|rejections| - 1]) + (if last.reason.StatusGate? then 1 else 0)
  }

  /** The keys of some versions, in order. */
  function KeyList(versions: seq<Version>): (keys: seq<string>)
    ensures SortedListOf(keys, KeysOf(versions))
  {
    if versions == [] then []
    else InsertKey(KeyList(versions[..|versions| - 1]), versions[|versions| - 1].memory.key)
  }

  // -------------------------------------------------------------- projection

  /** `_validate_history` raises: two different nodes claim one version of a key. */
  predicate AmbiguousVersions(history: seq<Version>) {
    exists i, j | 0 <= i < j < |history| ::
      && history[i].memory.key == history[j].memory.key
      && history[i].memory.version == history[j].memory.version
      && history[i].memory.id != history[j].memory.id
  }

  function ViewOf(history: seq<Version>, q: Query): View {
    var c := Candidates(history, q);
    var keys := KeyList(c);
    var rejections := Rejections(c, q, keys);
    View(Entries(c, q, keys), rejections,
         Counts(CountOf(history, q, FilteredOut), CountOf(history, q, NotKnown), CountOf(history, q, NotYet),
                Superseded(c, keys), NonActive(rejections), |rejections| - NonActive(rejections)))
  }

  /** `MemoryViewEngine.project`. */
  function Project(history: seq<Version>, q: Query): Result<View, MemoryError> {
    if AmbiguousVersions(history) then Err(AmbiguousHistory) else Ok(ViewOf(history, q))
  }

  /** `_validate_history`. */
  method ValidateHistory(history: seq<Version>) returns (ok: bool)
    ensures ok <==> !AmbiguousVersions(history)
  {
    var seen: map<(string, nat), string> := map[];
    for i := 0 to |history|
      invariant forall j :: 0 <= j < i ==>
        (history[j].memory.key, history[j].memory.version) in seen
        && seen[(history[j].memory.key, history[j].memory.version)] == history[j].memory.id
      invariant forall slot :: slot in seen ==>
        exists j :: 0 <= j < i && (history[j].memory.key, history[j].memory.version) == slot
    {
      var m := history[i].memory;
      if (m.key, m.version) in seen && seen[(m.key, m.version)] != m.id {
        return false;
      }
      seen := seen[(m.key, m.version) := m.id];
    }
    ok := true;
  }

  /** The grouping dictionary holds exactly the candidates, by key. */
  ghost predicate Groups(grouped: map<string, seq<Version>>, candidates: seq<Version>) {
    && (forall k :: k in grouped <==> k in KeysOf(candidates))
    && forall k :: k in grouped ==> grouped[k] == OfKey(candidates, k)
  }

  lemma {:induction false} NoKeyNoGroup(versions: seq<Version>, key: string)
    ensures OfKey(versions, key) == [] <==> key !in KeysOf(versions)
    ensures forall v :: v in OfKey(versions, key) <==> v in versions && v.memory.key == key
  {
    if versions != [] {
      NoKeyNoGroup(versions[..|versions| - 1], key);
      assert versions == versions[..|versions| - 1] + [versions[|versions| - 1]];
    }
  }

  lemma GroupsGrow(grouped: map<string, seq<Version>>, candidates: seq<Version>, v: Version)
    requires Groups(grouped, candidates)
    ensures
      var k := v.memory.key;
      Groups(grouped[k := (if k in grouped then grouped[k] else []) + [v]], candidates + [v])
  {
    var all := candidates + [v];
    assert all[..|candidates|] == candidates;
    NoKeyNoGroup(candidates, v.memory.key);
    assert KeysOf(all) == KeysOf(candidates) + {v.memory.key} by {
      assert forall w :: w in all <==> w in candidates || w == v;
    }
  }

  /** One round of the first loop. */
  lemma GateStep(history: seq<Version>, i: nat, q: Query)
    requires i < |history|
    ensures
      var (before, after, gate) := (history[..i], history[..i + 1], GateOf(history[i], q));
      && Candidates(after, q)
        == (if gate.Candidate? then Candidates(before, q) + [history[i]] else Candidates(before, q))
      && forall g :: CountOf(after, q, g) == CountOf(before, q, g) + (if gate == g then 1 else 0)
  {
    assert history[..i + 1][..i] == history[..i];
  }

  /** The first loop of `project`: count the exclusions and group the candidates by key. */
  method GroupCandidates(history: seq<Version>, q: Query)
    returns (grouped: map<string, seq<Version>>, filtered: nat, notKnown: nat, notYet: nat)
    ensures Groups(grouped, Candidates(history, q))
    ensures filtered == CountOf(history, q, FilteredOut)
    ensures notKnown == CountOf(history, q, NotKnown) && notYet == CountOf(history, q, NotYet)
  {
    grouped, filtered, notKnown, notYet := map[], 0, 0, 0;
    for i := 0 to |history|
      invariant Groups(grouped, Candidates(history[..i], q))
      invariant filtered == CountOf(history[..i], q, FilteredOut)
      invariant notKnown == CountOf(history[..i], q, NotKnown) && notYet == CountOf(history[..i], q, NotYet)
    {
      var v := history[i];
      GateStep(history, i, q);
      if (q.keys != {} && v.memory.key !in q.keys) || (q.types != {} && v.memory.mtype !in q.types) {
        filtered := filtered + 1;
      } else if q.knownAt.Some? && v.committedAt > q.knownAt.value {
        notKnown := notKnown + 1;
      } else if v.memory.validFrom > q.asOf {
        notYet := notYet + 1;
      } else {
        GroupsGrow(grouped, Candidates(history[..i], q), v);
        var k := v.memory.key;
        grouped := grouped[k := (if k in grouped then grouped[k] else []) + [v]];
      }
    }
    assert history[..|history|] == history;
  }

  /** One round of the second loop. */
  lemma KeyStep(c: seq<Version>, q: Query, keys: seq<string>, i: nat)
    requires i < |keys| && OfKey(c, keys[i]) != []
    ensures
      var (before, after, group) := (keys[..i], keys[..i + 1], OfKey(c, keys[i]));
      var g := Governing(group);
      var verdict := Judge(g.memory, q);
      && (match verdict
          case Admitted =>
            Entries(c, q, after) == Entries(c, q, before) + [g] && Rejections(c, q, after) == Rejections(c, q, before)
          case Rejected(reason) =>
            && Entries(c, q, after) == Entries(c, q, before)
            && Rejections(c, q, after) == Rejections(c, q, before) + [RejectionOf(g.memory, reason)])
      && Superseded(c, after) == Superseded(c, before) + |group| - 1
  {
    assert keys[..i + 1][..i] == keys[..i];
  }

  lemma NonActiveStep(rejections: seq<Rejection>, r: Rejection)
    ensures NonActive(rejections + [r]) == NonActive(rejections) + (if r.reason.StatusGate? then 1 else 0)
  {
    assert (rejections + [r])[..|rejections|] == rejections;
  }

  /** The second loop of `project`: decide each key by its governing version. */
  method DecideKeys(grouped: map<string, seq<Version>>, keys: seq<string>, q: Query, ghost c: seq<Version>)
    returns (entries: seq<Version>, rejections: seq<Rejection>, superseded: nat, nonActive: nat, expired: nat)
    requires Groups(grouped, c) && forall k :: k in keys ==> k in grouped
    ensures entries == Entries(c, q, keys) && rejections == Rejections(c, q, keys)
    ensures superseded == Superseded(c, keys)
    ensures nonActive == NonActive(rejections) && expired == |rejections| - nonActive
  {
    entries, rejections := [], [];
    superseded, nonActive, expired := 0, 0, 0;
    for i := 0 to |keys|
      invariant entries == Entries(c, q, keys[..i]) && rejections == Rejections(c, q, keys[..i])
      invariant superseded == Superseded(c, keys[..i])
      invariant nonActive == NonActive(rejections) && expired == |rejections| - nonActive
    {
      assert keys[i] in keys;
      NoKeyNoGroup(c, keys[i]);
      KeyStep(c, q, keys, i);
      var group := grouped[keys[i]];
      var governing := Governing(group);
      var m := governing.memory;
      superseded := superseded + |group| - 1;
      if !m.status.Active? {
        nonActive := nonActive + 1;
        NonActiveStep(rejections, RejectionOf(m, StatusGate(m.status)));
        rejections := rejections + [RejectionOf(m, StatusGate(m.status))];
      } else if m.validUntil.Some? && q.asOf >= m.validUntil.value {
        expired := expired + 1;
        NonActiveStep(rejections, RejectionOf(m, Expired));
        rejections := rejections + [RejectionOf(m, Expired)];
      } else {
        entries := entries + [governing];
      }
    }
    assert keys[..|keys|] == keys;
  }

  /** `project`. */
  method ProjectHistory(history: seq<Version>, q: Query) returns (r: Result<View, MemoryError>)
    ensures r == Project(history, q)
  {
    var ok := ValidateHistory(history);
    if !ok {
      return Err(AmbiguousHistory);
    }
    var grouped, filtered, notKnown, notYet := GroupCandidates(history, q);
    var keys := SortKeys(grouped.Keys);
    SortedListIsUnique(keys, KeyList(Candidates(history, q)));
    var entries, rejections, superseded, nonActive, expired := DecideKeys(grouped, keys, q, Candidates(history, q));
    r := Ok(View(entries, rejections, Counts(filtered, notKnown, notYet, superseded, nonActive, expired)));
  }
}
