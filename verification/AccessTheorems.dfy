/** The restricted view against the full projection, over every run of the record store. */
module AccessTheorems {
  import opened Base
  import opened TextOrder
  import opened MemoryRecords
  import S = RecordStore
  import opened RecordInvariants
  import RecordTheorems
  import opened MemoryView
  import opened ViewTheorems
  import opened AccessControl

  // --------------------------------------------------------- keeping some keys

  function OnlyKeys(versions: seq<Version>, keys: set<string>): seq<Version> {
    if versions == [] then []
    else
      var (rest, v) := (OnlyKeys(versions[..|versions| - 1], keys), versions[|versions| - 1]);
      if v.memory.key in keys then rest + [v] else rest
  }

  function OnlyRejections(rejections: seq<Rejection>, keys: set<string>): seq<Rejection> {
    if rejections == [] then []
    else
      var (rest, r) := (OnlyRejections(rejections[..|rejections| - 1], keys), rejections[|rejections| - 1]);
      if r.key in keys then rest + [r] else rest
  }

  function OnlyIn(list: seq<string>, keys: set<string>): seq<string> {
    if list == [] then []
    else
      var (rest, last) := (OnlyIn(list[..|list| - 1], keys), list[|list| - 1]);
      if last in keys then rest + [last] else rest
  }

  lemma {:induction false} OnlyInMembers(list: seq<string>, keys: set<string>)
    requires Sorted(list)
    ensures Sorted(OnlyIn(list, keys)) && forall k :: k in OnlyIn(list, keys) <==> k in list && k in keys
  {
    if list != [] {
      var (front, last) := (list[..|list| - 1], list[|list| - 1]);
      OnlyInMembers(front, keys);
      assert list == front + [last];
      assert forall k :: k in OnlyIn(front, keys) ==> k in front && Less(k, last);
    }
  }

  /** The kept keys are of a type that the wide query takes; the narrow query takes every type. */
  ghost predicate SameGates(history: seq<Version>, wide: Query, narrow: Query, keys: set<string>) {
    forall v :: v in history && v.memory.key in keys ==> GateOf(v, wide) == GateOf(v, narrow)
  }

  lemma CandidatesSnoc(history: seq<Version>, v: Version, q: Query)
    ensures Candidates(history + [v], q)
      == if GateOf(v, q).Candidate? then Candidates(history, q) + [v] else Candidates(history, q)
  {
    assert (history + [v])[..|history|] == history;
  }

  lemma OnlyKeysSnoc(versions: seq<Version>, v: Version, keys: set<string>)
    ensures OnlyKeys(versions + [v], keys)
      == if v.memory.key in keys then OnlyKeys(versions, keys) + [v] else OnlyKeys(versions, keys)
  {
    assert (versions + [v])[..|versions|] == versions;
  }

  lemma OfKeySnoc(versions: seq<Version>, v: Version, key: string)
    ensures OfKey(versions + [v], key)
      == if v.memory.key == key then OfKey(versions, key) + [v] else OfKey(versions, key)
  {
    assert (versions + [v])[..|versions|] == versions;
  }

  lemma {:induction false} CandidatesOfKept(history: seq<Version>, wide: Query, narrow: Query, keys: set<string>)
    requires SameGates(history, wide, narrow, keys)
    ensures Candidates(OnlyKeys(history, keys), narrow) == OnlyKeys(Candidates(history, wide), keys)
  {
    if history != [] {
      var (front, v) := (history[..|history| - 1], history[|history| - 1]);
      assert history == front + [v] && v in history;
      CandidatesOfKept(front, wide, narrow, keys);
      KeepCandidate(front, v, wide, narrow, keys);
    }
  }

  lemma KeepCandidate(front: seq<Version>, v: Version, wide: Query, narrow: Query, keys: set<string>)
    requires v.memory.key in keys ==> GateOf(v, wide) == GateOf(v, narrow)
    requires Candidates(OnlyKeys(front, keys), narrow) == OnlyKeys(Candidates(front, wide), keys)
    ensures Candidates(OnlyKeys(front + [v], keys), narrow) == OnlyKeys(Candidates(front + [v], wide), keys)
  {
    CandidatesSnoc(front, v, wide);
    OnlyKeysSnoc(front, v, keys);
    if v.memory.key in keys {
      CandidatesSnoc(OnlyKeys(front, keys), v, narrow);
    }
    if GateOf(v, wide).Candidate? {
      OnlyKeysSnoc(Candidates(front, wide), v, keys);
    }
  }

  lemma {:induction false} GroupOfKept(versions: seq<Version>, keys: set<string>, key: string)
    ensures OfKey(OnlyKeys(versions, keys), key) == if key in keys then OfKey(versions, key) else []
  {
    if versions != [] {
      var (front, v) := (versions[..|versions| - 1], versions[|versions| - 1]);
      GroupOfKept(front, keys, key);
      assert versions == front + [v];
      OfKeySnoc(front, v, key);
      OnlyKeysSnoc(front, v, keys);
      if v.memory.key in keys {
        OfKeySnoc(OnlyKeys(front, keys), v, key);
      }
    }
  }

  lemma {:induction false} OnlyKeysMembers(versions: seq<Version>, keys: set<string>)
    ensures forall v :: v in OnlyKeys(versions, keys) <==> v in versions && v.memory.key in keys
  {
    if versions != [] {
      OnlyKeysMembers(versions[..|versions| - 1], keys);
      assert versions == versions[..|versions| - 1] + [versions[|versions| - 1]];
    }
  }

  lemma KeyListOfKept(versions: seq<Version>, keys: set<string>)
    ensures KeyList(OnlyKeys(versions, keys)) == OnlyIn(KeyList(versions), keys)
  {
    OnlyKeysMembers(versions, keys);
    OnlyInMembers(KeyList(versions), keys);
    SortedListIsUnique(KeyList(OnlyKeys(versions, keys)), OnlyIn(KeyList(versions), keys));
  }

  lemma KeepEntry(a: seq<Version>, g: Option<Version>, q: Query, last: string, keys: set<string>)
    requires g.Some? ==> g.value.memory.key == last
    ensures OnlyKeys(a + EntryFor(g, q), keys)
      == if last in keys then OnlyKeys(a, keys) + EntryFor(g, q) else OnlyKeys(a, keys)
  {
    if EntryFor(g, q) == [] {
      assert a + EntryFor(g, q) == a;
    } else {
      OnlyKeysSnoc(a, g.value, keys);
    }
    assert OnlyKeys(a, keys) + [] == OnlyKeys(a, keys);
  }

  lemma KeepRejection(a: seq<Rejection>, g: Option<Version>, q: Query, last: string, keys: set<string>)
    requires g.Some? ==> g.value.memory.key == last
    ensures OnlyRejections(a + RejectionFor(g, q), keys)
      == if last in keys then OnlyRejections(a, keys) + RejectionFor(g, q) else OnlyRejections(a, keys)
  {
    var r := RejectionFor(g, q);
    if r == [] {
      assert a + r == a;
    } else {
      assert (a + [r[0]])[..|a|] == a && a + r == a + [r[0]];
    }
    assert OnlyRejections(a, keys) + [] == OnlyRejections(a, keys);
  }

  lemma {:induction false} EntriesOfKept(c: seq<Version>, wide: Query, narrow: Query, list: seq<string>, keys: set<string>)
    requires wide.asOf == narrow.asOf
    ensures Entries(OnlyKeys(c, keys), narrow, OnlyIn(list, keys)) == OnlyKeys(Entries(c, wide, list), keys)
  {
    if list != [] {
      var (front, last) := (list[..|list| - 1], list[|list| - 1]);
      EntriesOfKept(c, wide, narrow, front, keys);
      GovernorOfKept(c, keys, last);
      var g := GovernorOf(c, last);
      KeepEntry(Entries(c, wide, front), g, wide, last, keys);
      if last in keys {
        AdmitSnoc(OnlyKeys(c, keys), narrow, OnlyIn(front, keys), last);
        assert EntryFor(g, narrow) == EntryFor(g, wide);
      }
    }
  }

  lemma {:induction false} RejectionsOfKept(c: seq<Version>, wide: Query, narrow: Query, list: seq<string>, keys: set<string>)
    requires wide.asOf == narrow.asOf
    ensures Rejections(OnlyKeys(c, keys), narrow, OnlyIn(list, keys)) == OnlyRejections(Rejections(c, wide, list), keys)
  {
    if list != [] {
      var (front, last) := (list[..|list| - 1], list[|list| - 1]);
      RejectionsOfKept(c, wide, narrow, front, keys);
      assert list == front + [last];
      OnlyInSnoc(front, last, keys);
      RejectSnoc(c, wide, front, last);
      var (all, kept) := (Rejections(c, wide, front), OnlyIn(front, keys));
      GovernorOfKept(c, keys, last);
      RejectKept(OnlyKeys(c, keys), GovernorOf(c, last), wide, narrow, all, kept, last, keys);
    }
  }

  lemma OnlyInSnoc(front: seq<string>, last: string, keys: set<string>)
    ensures OnlyIn(front + [last], keys) == if last in keys then OnlyIn(front, keys) + [last] else OnlyIn(front, keys)
  {
    assert (front + [last])[..|front|] == front;
  }

  /** One key more, among the kept ones or not; `g` is its governor. */
  lemma RejectKept(
    k: seq<Version>, g: Option<Version>, wide: Query, narrow: Query, all: seq<Rejection>, kept: seq<string>,
    last: string, keys: set<string>)
    requires wide.asOf == narrow.asOf && Rejections(k, narrow, kept) == OnlyRejections(all, keys)
    requires (g.Some? ==> g.value.memory.key == last) && (last in keys ==> GovernorOf(k, last) == g)
    ensures Rejections(k, narrow, if last in keys then kept + [last] else kept)
      == OnlyRejections(all + RejectionFor(g, wide), keys)
  {
    KeepRejection(all, g, wide, last, keys);
    if last in keys {
      RejectSnoc(k, narrow, kept, last);
      assert RejectionFor(g, narrow) == RejectionFor(g, wide);
    }
  }

  lemma GovernorOfKept(c: seq<Version>, keys: set<string>, key: string)
    ensures GovernorOf(c, key).Some? ==> GovernorOf(c, key).value.memory.key == key
    ensures key in keys ==> GovernorOf(OnlyKeys(c, keys), key) == GovernorOf(c, key)
  {
    NoKeyNoGroup(c, key);
    GroupOfKept(c, keys, key);
  }

  lemma AdmitSnoc(c: seq<Version>, q: Query, keys: seq<string>, last: string)
    ensures Entries(c, q, keys + [last]) == Entries(c, q, keys) + EntryFor(GovernorOf(c, last), q)
  {
    assert (keys + [last])[..|keys|] == keys;
  }

  lemma RejectSnoc(c: seq<Version>, q: Query, keys: seq<string>, last: string)
    ensures Rejections(c, q, keys + [last]) == Rejections(c, q, keys) + RejectionFor(GovernorOf(c, last), q)
  {
    assert (keys + [last])[..|keys|] == keys;
  }

  /** Projecting what is left of a history is keeping what is wanted of its projection. */
  lemma ProjectionOfKept(history: seq<Version>, wide: Query, narrow: Query, keys: set<string>)
    requires SameGates(history, wide, narrow, keys) && wide.asOf == narrow.asOf
    ensures
      var (full, view) := (ViewOf(history, wide), ViewOf(OnlyKeys(history, keys), narrow));
      view.entries == OnlyKeys(full.entries, keys) && view.rejections == OnlyRejections(full.rejections, keys)
  {
    CandidatesOfKept(history, wide, narrow, keys);
    var c := Candidates(history, wide);
    KeyListOfKept(c, keys);
    EntriesOfKept(c, wide, narrow, KeyList(c), keys);
    RejectionsOfKept(c, wide, narrow, KeyList(c), keys);
  }

  // ------------------------------------------------------------ type constancy

  /** All listed versions of a key are of one type. */
  ghost predicate TypesConstant(history: seq<Version>) {
    forall v, w :: v in history && w in history && v.memory.key == w.memory.key ==> v.memory.mtype == w.memory.mtype
  }

  lemma ListedTypesConstant(db: S.Db)
    requires Inv(db) && AllLoad(db)
    ensures TypesConstant(Listing(db))
  {
    ListingMembers(db);
    forall a, b | a in Listing(db) && b in Listing(db) && a.memory.key == b.memory.key
      ensures a.memory.mtype == b.memory.mtype
    {
      var v :| v in db.versions && Join(db, v) == a;
      var w :| w in db.versions && Join(db, w) == b;
      TypeOfFirst(db, v);
      TypeOfFirst(db, w);
    }
  }

  lemma TypeOfFirst(db: S.Db, v: S.VersionRow)
    requires Inv(db) && AllLoad(db) && v in db.versions
    ensures
      var rows := S.RowsOf(db.versions, S.Load(db, v).value.key);
      && rows != [] && S.Load(db, rows[0]).Some?
      && S.Load(db, v).value.mtype == S.Load(db, rows[0]).value.mtype
  {
    assert IndexOk(db, v);
    RowsOfMembers(db.versions, v.key);
    var rows := S.RowsOf(db.versions, v.key);
    var n :| 0 <= n < |rows| && rows[n] == v;
    RecordTheorems.MemberFacts(db, v.key, n);
  }

  // ------------------------------------------------------------- the agreement

  const NON_POLICY: set<MemoryType> :=
    {Fact, Preference, Goal, Constraint, Inference, Skill, FailurePattern, BehavioralRule}

  ghost function AllowedKeys(history: seq<Version>, scope: Scope): set<string> {
    set v | v in history && Allows(scope, v.memory.key, v.memory.mtype) :: v.memory.key
  }

  lemma {:induction false} AdmittedAreKept(history: seq<Version>, scope: Scope, keys: set<string>)
    requires forall v :: v in history ==> (v.memory.key in keys <==> Allows(scope, v.memory.key, v.memory.mtype))
    ensures AdmittedBy(history, scope) == OnlyKeys(history, keys)
  {
    if history != [] {
      assert history[|history| - 1] in history;
      AdmittedAreKept(history[..|history| - 1], scope, keys);
    }
  }

  lemma {:induction false} KeepNoEntry(versions: seq<Version>)
    ensures OnlyKeys(versions, {}) == []
  {
    if versions != [] { KeepNoEntry(versions[..|versions| - 1]); }
  }

  lemma {:induction false} KeepNoRejection(rejections: seq<Rejection>)
    ensures OnlyRejections(rejections, {}) == []
  {
    if rejections != [] { KeepNoRejection(rejections[..|rejections| - 1]); }
  }

  ghost predicate Agrees(view: View, full: View, keys: set<string>) {
    view.entries == OnlyKeys(full.entries, keys) && view.rejections == OnlyRejections(full.rejections, keys)
  }

  /** A scope without an allow rule: the empty view, and no key is allowed. */
  lemma ShortCutAgrees(history: seq<Version>, scope: Scope, full: View)
    requires !HasPotentialAllow(scope)
    ensures Agrees(EMPTY_VIEW, full, AllowedKeys(history, scope))
  {
    forall k, t ensures !Allows(scope, k, t) { NoPotentialAllowAllowsNothing(scope, k, t); }
    assert AllowedKeys(history, scope) == {};
    KeepNoEntry(full.entries);
    KeepNoRejection(full.rejections);
  }

  lemma AdmittedAgree(history: seq<Version>, scope: Scope, wide: Query, narrow: Query)
    requires TypesConstant(history) && !AmbiguousVersions(history)
    requires narrow == Query(wide.asOf, wide.knownAt, {}, {}) && wide == narrow.(types := NON_POLICY)
    ensures !AmbiguousVersions(AdmittedBy(history, scope))
    ensures Agrees(ViewOf(AdmittedBy(history, scope), narrow), ViewOf(history, wide), AllowedKeys(history, scope))
  {
    var keys := AllowedKeys(history, scope);
    AdmittedAreKept(history, scope, keys);
    forall v | v in history && v.memory.key in keys ensures GateOf(v, wide) == GateOf(v, narrow) {
      assert v.memory.mtype in NON_POLICY;
    }
    ProjectionOfKept(history, wide, narrow, keys);
    KeptIsUnambiguous(history, keys);
  }

  lemma AgreesOnHistory(history: seq<Version>, q: Request)
    requires TypesConstant(history) && !AmbiguousVersions(history)
    ensures
      var scope := Authorize(PoliciesIn(history), q).scope;
      var view := AuthorizedProject(history, q);
      var full := ViewOf(history, Query(q.asOf, q.knownAt, {}, NON_POLICY));
      view.Ok? && Agrees(view.value, full, AllowedKeys(history, scope))
  {
    var scope := Authorize(PoliciesIn(history), q).scope;
    var wide := Query(q.asOf, q.knownAt, {}, NON_POLICY);
    if HasPotentialAllow(scope) {
      AdmittedAgree(history, scope, wide, Query(q.asOf, q.knownAt, {}, {}));
    } else {
      ShortCutAgrees(history, scope, ViewOf(history, wide));
    }
  }

  lemma {:induction false} KeptIndex(history: seq<Version>, keys: set<string>) returns (f: seq<nat>)
    ensures |f| == |OnlyKeys(history, keys)|
    ensures forall i :: 0 <= i < |f| ==> f[i] < |history| && OnlyKeys(history, keys)[i] == history[f[i]]
    ensures forall i, j :: 0 <= i < j < |f| ==> f[i] < f[j]
  {
    if history == [] {
      f := [];
    } else {
      f := KeptIndex(history[..|history| - 1], keys);
      if history[|history| - 1].memory.key in keys {
        f := f + [|history| - 1];
      }
    }
  }

  lemma KeptIsUnambiguous(history: seq<Version>, keys: set<string>)
    requires !AmbiguousVersions(history)
    ensures !AmbiguousVersions(OnlyKeys(history, keys))
  {
    var f := KeptIndex(history, keys);
    var kept := OnlyKeys(history, keys);
    forall i, j | 0 <= i < j < |kept| && kept[i].memory.key == kept[j].memory.key
      && kept[i].memory.version == kept[j].memory.version
      ensures kept[i].memory.id == kept[j].memory.id
    {
      assert history[f[i]] == kept[i] && history[f[j]] == kept[j] && f[i] < f[j];
    }
  }

  /**
   * Over every run of the store, the authorized view lists exactly what the full projection of all
   * but policies lists for the allowed keys, in the same order, on the short cut too.
   */
  lemma RestrictedViewAgrees(ops: seq<S.Op>, q: Request)
    ensures
      var db := S.Run(S.EMPTY_DB, ops);
      && AllLoad(db)
      && var history := Listing(db);
         var scope := Authorize(PoliciesIn(history), q).scope;
         var full := Project(history, Query(q.asOf, q.knownAt, {}, NON_POLICY));
         var view := AuthorizedProject(history, q);
         view.Ok? && full.Ok? && Agrees(view.value, full.value, AllowedKeys(history, scope))
  {
    var db := S.Run(S.EMPTY_DB, ops);
    RunKeepsInv(S.EMPTY_DB, ops);
    InvLoads(db);
    ListedTypesConstant(db);
    CommittedIsUnambiguous(db);
    AgreesOnHistory(Listing(db), q);
  }

  // -------------------------------------------------------- who may see what

  /** An applicable policy of the view with the given effect that matches the key. */
  ghost predicate Speaks(v: Version, q: Request, effect: Effect, key: string, mtype: MemoryType) {
    Applies(v, q) && v.memory.content.effect == effect && Matches(RuleOf(v.memory), key, mtype)
  }

  /** A matching allow policy that is strictly more specific than every matching deny policy. */
  ghost predicate PolicyPrevails(entries: seq<Version>, a: Version, q: Request, key: string, mtype: MemoryType) {
    && a in entries && Speaks(a, q, Allow, key, mtype)
    && forall d :: d in entries && Speaks(d, q, Deny, key, mtype) ==> MoreSpecific(RuleOf(a.memory), RuleOf(d.memory))
  }

  ghost predicate WellFormed(entries: seq<Version>) {
    forall v :: v in entries ==> v.memory.mtype.AccessPolicy? && v.memory.content.Policy?
  }

  /**
   * The policies of the requester and action that are in force decide: a key is allowed exactly
   * when the policy view is unambiguous and well formed and holds a matching allow that is strictly
   * more specific than every matching deny.
   */
  lemma AuthorizedExactlyWhen(policies: seq<Version>, q: Request, key: string, mtype: MemoryType)
    ensures
      var view := Project(policies, PolicyQuery(q));
      Allows(Authorize(policies, q).scope, key, mtype) <==>
        && !mtype.AccessPolicy?
        && Requested(ScopeOf(q, []), key, mtype)
        && view.Ok? && WellFormed(view.value.entries)
        && exists a :: PolicyPrevails(view.value.entries, a, q, key, mtype)
  {
    var scope := Authorize(policies, q).scope;
    AllowsExactlyWhen(scope, key, mtype);
    AuthorizedRules(policies, q);
    var view := Project(policies, PolicyQuery(q));
    if view.Ok? && WellFormed(view.value.entries) {
      RulesSpeak(view.value.entries, scope.rules, q, key, mtype);
    }
  }

  /** An applicable policy of the given effect is in force. */
  ghost predicate InForce(entries: seq<Version>, q: Request, effect: Effect) {
    exists v :: v in entries && Applies(v, q) && v.memory.content.effect == effect
  }

  /** The reason code of the audit trace says exactly what was found among the policies. */
  lemma ReasonExactlyWhen(policies: seq<Version>, q: Request)
    ensures
      var view := Project(policies, PolicyQuery(q));
      var a := Authorize(policies, q);
      && (a.decision.Allow? <==> a.reason.PolicyAllowed?)
      && (a.reason.PolicyHistoryAmbiguous? <==> AmbiguousVersions(policies))
      && (a.reason.MalformedPolicy? <==> view.Ok? && !WellFormed(view.value.entries))
      && (a.reason.PolicyAllowed? <==>
            view.Ok? && WellFormed(view.value.entries) && InForce(view.value.entries, q, Allow))
      && (a.reason.ExplicitDeny? <==>
            && view.Ok? && WellFormed(view.value.entries)
            && !InForce(view.value.entries, q, Allow) && InForce(view.value.entries, q, Deny))
  {
    AuthorizedRules(policies, q);
    var (view, scope) := (Project(policies, PolicyQuery(q)), Authorize(policies, q).scope);
    if view.Ok? && WellFormed(view.value.entries) {
      RuleOfEffect(view.value.entries, scope.rules, q, Allow);
      RuleOfEffect(view.value.entries, scope.rules, q, Deny);
      DecidedFrom(policies, q);
    } else if view.Ok? {
      RulesOfEntries(view.value.entries, q);
    }
  }

  lemma DecidedFrom(policies: seq<Version>, q: Request)
    requires Project(policies, PolicyQuery(q)).Ok? && WellFormed(Project(policies, PolicyQuery(q)).value.entries)
    ensures Authorize(policies, q) == Decided(q, Authorize(policies, q).scope.rules)
  {
    RulesOfEntries(Project(policies, PolicyQuery(q)).value.entries, q);
  }

  lemma RuleOfEffect(entries: seq<Version>, rules: seq<Rule>, q: Request, effect: Effect)
    requires RulesOf(entries, rules, q)
    ensures InForce(entries, q, effect) <==> exists i :: 0 <= i < |rules| && rules[i].effect == effect
  {
    forall i | 0 <= i < |rules| && rules[i].effect == effect ensures InForce(entries, q, effect) {
      assert rules[i] in rules;
    }
    if InForce(entries, q, effect) {
      var v :| v in entries && Applies(v, q) && v.memory.content.effect == effect;
      assert RuleOf(v.memory) in rules;
    }
  }

  ghost predicate RulesOf(entries: seq<Version>, rules: seq<Rule>, q: Request) {
    forall r :: r in rules <==> exists v :: v in entries && Applies(v, q) && RuleOf(v.memory) == r
  }

  /** The rules of the scope come from the policies in force; there are none when one is malformed. */
  lemma AuthorizedRules(policies: seq<Version>, q: Request)
    ensures
      var scope := Authorize(policies, q).scope;
      var view := Project(policies, PolicyQuery(q));
      && scope == ScopeOf(q, scope.rules)
      && if view.Ok? && WellFormed(view.value.entries) then RulesOf(view.value.entries, scope.rules, q)
         else scope.rules == []
  {
    var view := Project(policies, PolicyQuery(q));
    if view.Ok? {
      RulesOfEntries(view.value.entries, q);
    }
  }

  lemma RulesSpeak(entries: seq<Version>, rules: seq<Rule>, q: Request, key: string, mtype: MemoryType)
    requires RulesOf(entries, rules, q)
    ensures (exists a :: Prevails(rules, a, key, mtype)) <==> exists v :: PolicyPrevails(entries, v, q, key, mtype)
  {
    forall a | Prevails(rules, a, key, mtype) ensures exists v :: PolicyPrevails(entries, v, q, key, mtype) {
      var v := PolicyBehind(entries, rules, q, key, mtype, a);
    }
    forall v | PolicyPrevails(entries, v, q, key, mtype) ensures Prevails(rules, RuleOf(v.memory), key, mtype) {
      forall d | d in rules && d.effect.Deny? && Matches(d, key, mtype) ensures MoreSpecific(RuleOf(v.memory), d) {
        var w :| w in entries && Applies(w, q) && RuleOf(w.memory) == d;
        assert Speaks(w, q, Deny, key, mtype);
      }
    }
  }

  lemma PolicyBehind(
    entries: seq<Version>, rules: seq<Rule>, q: Request, key: string, mtype: MemoryType, a: Rule) returns (v: Version)
    requires RulesOf(entries, rules, q) && Prevails(rules, a, key, mtype)
    ensures PolicyPrevails(entries, v, q, key, mtype)
  {
    v :| v in entries && Applies(v, q) && RuleOf(v.memory) == a;
    forall d | d in entries && Speaks(d, q, Deny, key, mtype) ensures MoreSpecific(RuleOf(v.memory), RuleOf(d.memory)) {
      assert RuleOf(d.memory) in rules;
    }
  }

  // ----------------------------------------------------------- non-disclosure

  /** Whatever memory the operation may commit is no policy, and hidden from the scope. */
  predicate CommitsHidden(op: S.Op, scope: Scope) {
    match op
    case OpCommit(m, _, _, _, _) => !m.mtype.AccessPolicy? && !Allows(scope, m.key, m.mtype)
    case OpSave(record, _) =>
      record.MemoryRecord? ==> !record.memory.mtype.AccessPolicy? && !Allows(scope, record.memory.key, record.memory.mtype)
    case OpDelete(_) => true
  }

  lemma {:induction false} FiltersConcat(a: seq<Version>, b: seq<Version>, scope: Scope)
    ensures AdmittedBy(a + b, scope) == AdmittedBy(a, scope) + AdmittedBy(b, scope)
    ensures PoliciesIn(a + b) == PoliciesIn(a) + PoliciesIn(b)
  {
    if b == [] {
      assert a + b == a;
    } else {
      var (front, last) := (b[..|b| - 1], b[|b| - 1]);
      FiltersConcat(a, front, scope);
      assert (a + b)[..|a + b| - 1] == a + front && (a + b)[|a + b| - 1] == last;
    }
  }

  lemma HiddenVersionIsFiltered(a: seq<Version>, x: Version, b: seq<Version>, scope: Scope)
    requires !x.memory.mtype.AccessPolicy? && !Allows(scope, x.memory.key, x.memory.mtype)
    ensures AdmittedBy(a + [x] + b, scope) == AdmittedBy(a + b, scope)
    ensures PoliciesIn(a + [x] + b) == PoliciesIn(a + b)
  {
    FiltersConcat(a, [x], scope);
    FiltersConcat(a + [x], b, scope);
    FiltersConcat(a, b, scope);
    assert [x][..0] == [];
    assert AdmittedBy([x], scope) == [] && PoliciesIn([x]) == [];
  }

  /** What a requester's scope lets through, and the policies that define the scope. */
  ghost predicate SameForReader(h: seq<Version>, h': seq<Version>, scope: Scope) {
    AdmittedBy(h', scope) == AdmittedBy(h, scope) && PoliciesIn(h') == PoliciesIn(h)
  }

  /** The row that a hidden step adds. */
  lemma HiddenRow(db: S.Db, op: S.Op, scope: Scope) returns (v: S.VersionRow)
    requires Inv(db) && CommitsHidden(op, scope) && S.Apply(db, op).versions != db.versions
    ensures S.Apply(db, op).versions == db.versions + [v]
    ensures
      var m := S.Load(S.Apply(db, op), v);
      m.Some? && !m.value.mtype.AccessPolicy? && !Allows(scope, m.value.key, m.value.mtype)
  {
    v := S.Apply(db, op).versions[|db.versions|];
  }

  lemma HiddenStep(db: S.Db, op: S.Op, scope: Scope)
    requires Inv(db) && CommitsHidden(op, scope)
    ensures
      var db' := S.Apply(db, op);
      AllLoad(db) && AllLoad(db') && SameForReader(Listing(db), Listing(db'), scope)
  {
    var db' := S.Apply(db, op);
    InvLoads(db);
    ApplyKeepsInv(db, op);
    InvLoads(db');
    if db'.versions == db.versions {
      var stamp := match op case OpCommit(_, _, _, _, now) => now case OpSave(_, now) => now case OpDelete(_) => 0;
      StepExtendsListing(db, op, stamp - 1);
    } else {
      var v := HiddenRow(db, op, scope);
      forall w | w in db.versions ensures Join(db', w) == Join(db, w) { StepKeepsJoin(db, op, w); }
      var i := ListingInserts(db, db', v);
      var l := Listing(db);
      assert l == l[..i] + l[i..];
      HiddenVersionIsFiltered(l[..i], Join(db', v), l[i..], scope);
    }
  }

  lemma {:induction false} HiddenRun(db: S.Db, ops: seq<S.Op>, scope: Scope)
    requires Inv(db) && forall op :: op in ops ==> CommitsHidden(op, scope)
    ensures
      var db' := S.Run(db, ops);
      AllLoad(db) && AllLoad(db') && SameForReader(Listing(db), Listing(db'), scope)
    decreases |ops|
  {
    InvLoads(db);
    if ops != [] {
      HiddenStep(db, ops[0], scope);
      ApplyKeepsInv(db, ops[0]);
      HiddenRun(S.Apply(db, ops[0]), ops[1..], scope);
    }
  }

  /**
   * Non-disclosure: whatever is committed, saved and deleted under keys that a requester is not
   * allowed, the authorized view does not change at all, not even in a counter.
   */
  lemma HiddenCommitsAreInvisible(before: seq<S.Op>, after: seq<S.Op>, q: Request)
    requires
      var past := S.Run(S.EMPTY_DB, before);
      AllLoad(past) ==>
        forall op :: op in after ==> CommitsHidden(op, Authorize(PoliciesIn(Listing(past)), q).scope)
    ensures
      var past := S.Run(S.EMPTY_DB, before);
      var now := S.Run(past, after);
      AllLoad(past) && AllLoad(now) && AuthorizedProject(Listing(now), q) == AuthorizedProject(Listing(past), q)
  {
    var past := S.Run(S.EMPTY_DB, before);
    RunKeepsInv(S.EMPTY_DB, before);
    InvLoads(past);
    HiddenRun(past, after, Authorize(PoliciesIn(Listing(past)), q).scope);
  }

  /** Without type constancy the agreement fails: here a fact became a goal, and facts are allowed. */
  lemma AgreementNeedsTypeConstancy(history: seq<Version>, scope: Scope, at: Instant)
    requires |history| == 2 && history[0].memory.key == history[1].memory.key
    requires history[0].memory.version < history[1].memory.version
    requires history[0].memory.mtype == Fact && history[1].memory.mtype == Goal
    requires history[0].memory.IsActiveAt(at) && history[1].memory.IsActiveAt(at)
    requires scope == Scope([], [], [], [Rule("p", OfType("fact"), Allow)])
    ensures !Agrees(ViewOf(AdmittedBy(history, scope), Query(at, None, {}, {})),
                    ViewOf(history, Query(at, None, {}, NON_POLICY)),
                    AllowedKeys(history, scope))
  {
    FactRuleAllows(scope, history[0].memory.key);
    AdmitsFirst(history, scope);
    LastGoverns(AdmittedBy(history, scope), at, {});
    LastGoverns(history, at, NON_POLICY);
    Differs(ViewOf(AdmittedBy(history, scope), Query(at, None, {}, {})), ViewOf(history, Query(at, None, {}, NON_POLICY)),
            AllowedKeys(history, scope), history[0], history[1]);
  }

  /** An active last version of the wanted types decides a history of one or two versions. */
  lemma LastGoverns(history: seq<Version>, at: Instant, types: set<MemoryType>)
    requires 1 <= |history| <= 2 && history[0].memory.key == history[|history| - 1].memory.key
    requires |history| == 2 ==> history[0].memory.version < history[1].memory.version
    requires history[|history| - 1].memory.IsActiveAt(at)
    requires types == {} || history[|history| - 1].memory.mtype in types
    ensures OfKey(ViewOf(history, Query(at, None, {}, types)).entries, history[0].memory.key) == [history[|history| - 1]]
  {
    GovernsAlone(history, Query(at, None, {}, types), history[|history| - 1]);
  }

  lemma GovernsAlone(history: seq<Version>, q: Query, g: Version)
    requires IsGovernor(history, q, g.memory.key, g) && Judge(g.memory, q).Admitted?
    requires forall v :: v in history && v.memory.version == g.memory.version ==> v == g
    ensures OfKey(ViewOf(history, q).entries, g.memory.key) == [g]
  {
    var found := GovernorDecides(history, q, g.memory.key);
  }

  lemma Differs(view: View, full: View, keys: set<string>, v: Version, w: Version)
    requires v != w && v.memory.key in keys
    requires OfKey(view.entries, v.memory.key) == [v] && OfKey(full.entries, v.memory.key) == [w]
    ensures !Agrees(view, full, keys)
  {
    GroupOfKept(full.entries, keys, v.memory.key);
  }

  /** A rule for facts allows facts and no goals, when everything is requested. */
  lemma FactRuleAllows(scope: Scope, key: string)
    requires scope.keys == scope.prefixes == [] && scope.types == []
    requires |scope.rules| == 1 && scope.rules[0] == Rule("p", OfType("fact"), Allow)
    ensures Allows(scope, key, Fact) && !Allows(scope, key, Goal)
  {
    assert Prevails(scope.rules, scope.rules[0], key, Fact);
    AllowsExactlyWhen(scope, key, Fact);
    AllowsExactlyWhen(scope, key, Goal);
  }

  lemma AdmitsFirst(history: seq<Version>, scope: Scope)
    requires |history| == 2
    requires Allows(scope, history[0].memory.key, history[0].memory.mtype)
    requires !Allows(scope, history[1].memory.key, history[1].memory.mtype)
    ensures AdmittedBy(history, scope) == [history[0]] && history[0].memory.key in AllowedKeys(history, scope)
  {
    var front := history[..1];
    assert front[..0] == [] && AdmittedBy(front, scope) == [history[0]];
    assert history[0] in history;
  }
}
