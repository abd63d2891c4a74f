/** Who may see what, in terms of the resources that rules and policies name. */
module AccessMeaning {
  import opened Base
  import opened TextOrder
  import opened MemoryRecords
  import opened MemoryView
  import opened AccessControl
  import AT = AccessTheorems

  /** Which resources are named with which effect. */
  type Naming = (Resource, Effect) -> bool

  predicate NamesExactly(has: Naming, key: string) { has(ExactKey(key), Allow) || has(ExactKey(key), Deny) }

  ghost predicate NamesPrefix(has: Naming, key: string) {
    exists p :: p <= key && (has(KeyPrefix(p), Allow) || has(KeyPrefix(p), Deny))
  }

  /** An allowed beginning of the key that is longer than every denied beginning. */
  ghost predicate LongestAllowed(has: Naming, key: string, p: string) {
    p <= key && has(KeyPrefix(p), Allow) && forall d :: d <= key && has(KeyPrefix(d), Deny) ==> |d| < |p|
  }

  /**
   * The exact key decides when it is named; otherwise the longest named beginning of the key;
   * otherwise the memory type. Where both effects are named, denial decides.
   */
  ghost predicate Permits(has: Naming, key: string, mtype: MemoryType) {
    if NamesExactly(has, key) then has(ExactKey(key), Allow) && !has(ExactKey(key), Deny)
    else if NamesPrefix(has, key) then exists p :: LongestAllowed(has, key, p)
    else has(OfType(TypeText(mtype)), Allow) && !has(OfType(TypeText(mtype)), Deny)
  }

  /** Nothing specific is requested, or the key, a beginning of it, or the type is. */
  predicate Selected(keys: seq<string>, prefixes: seq<string>, types: seq<MemoryType>, key: string, mtype: MemoryType) {
    || (|keys| == 0 && |prefixes| == 0 && |types| == 0)
    || key in keys || mtype in types || exists p | p in prefixes :: p <= key
  }

  lemma TypeNames()
    ensures TypeText(Fact) == "fact" && TypeText(Preference) == "preference" && TypeText(Goal) == "goal"
    ensures TypeText(Constraint) == "constraint" && TypeText(Inference) == "inference" && TypeText(Skill) == "skill"
    ensures TypeText(FailurePattern) == "failure_pattern" && TypeText(BehavioralRule) == "behavioral_rule"
    ensures TypeText(AccessPolicy) == "access_policy"
  {
  }

  ghost function RulesName(rules: seq<Rule>): Naming {
    (resource, effect) => exists r :: r in rules && r.resource == resource && r.effect == effect
  }

  lemma SelectedIsRequested(scope: Scope, key: string, mtype: MemoryType)
    ensures Requested(scope, key, mtype) <==> Selected(scope.keys, scope.prefixes, scope.types, key, mtype)
  {
    if p :| p in scope.prefixes && p <= key {
      var i :| 0 <= i < |scope.prefixes| && scope.prefixes[i] == p;
      assert StartsWith(key, scope.prefixes[i]);
    }
    if i :| 0 <= i < |scope.prefixes| && StartsWith(key, scope.prefixes[i]) {
      assert scope.prefixes[i] in scope.prefixes && scope.prefixes[i] <= key;
    }
  }

  /**
   * A scope allows a key exactly when the memory is no policy, the key is selected, and the rules
   * permit it: the exact key before every prefix, a longer prefix before a shorter one, any prefix
   * before the type, and denial before permission.
   */
  lemma AllowsByResources(scope: Scope, key: string, mtype: MemoryType)
    ensures Allows(scope, key, mtype) <==>
      && mtype != AccessPolicy && Selected(scope.keys, scope.prefixes, scope.types, key, mtype)
      && Permits(RulesName(scope.rules), key, mtype)
  {
    SelectedIsRequested(scope, key, mtype);
    AllowsExactlyWhen(scope, key, mtype);
    forall a | Prevails(scope.rules, a, key, mtype) ensures Permits(RulesName(scope.rules), key, mtype) {
      PrevailingPermits(scope.rules, a, key, mtype);
    }
    if Permits(RulesName(scope.rules), key, mtype) {
      var a := PermittedPrevails(scope.rules, key, mtype);
    }
  }

  lemma PrevailingPermits(rules: seq<Rule>, a: Rule, key: string, mtype: MemoryType)
    requires Prevails(rules, a, key, mtype)
    ensures Permits(RulesName(rules), key, mtype)
  {
    var has := RulesName(rules);
    assert has(a.resource, Allow);
    match a.resource
    case ExactKey(_) => assert !has(ExactKey(key), Deny);
    case KeyPrefix(p) =>
      PrefixPrevails(rules, a, key, mtype);
      assert NamesPrefix(has, key);
    case OfType(_) =>
      TypePrevails(rules, a, key, mtype);
      if !NamesExactly(has, key) && NamesPrefix(has, key) {
        var p :| p <= key && (has(KeyPrefix(p), Allow) || has(KeyPrefix(p), Deny));
        assert LongestAllowed(has, key, p);
      }
  }

  lemma PrefixPrevails(rules: seq<Rule>, a: Rule, key: string, mtype: MemoryType)
    requires Prevails(rules, a, key, mtype) && a.resource.KeyPrefix?
    ensures !RulesName(rules)(ExactKey(key), Deny)
    ensures LongestAllowed(RulesName(rules), key, a.resource.prefix)
  {
  }

  lemma TypePrevails(rules: seq<Rule>, a: Rule, key: string, mtype: MemoryType)
    requires Prevails(rules, a, key, mtype) && a.resource.OfType?
    ensures !RulesName(rules)(ExactKey(key), Deny)
    ensures forall d :: d <= key ==> !RulesName(rules)(KeyPrefix(d), Deny)
    ensures !RulesName(rules)(OfType(TypeText(mtype)), Deny)
  {
  }

  lemma PermittedPrevails(rules: seq<Rule>, key: string, mtype: MemoryType) returns (a: Rule)
    requires Permits(RulesName(rules), key, mtype)
    ensures Prevails(rules, a, key, mtype)
  {
    var has := RulesName(rules);
    if NamesExactly(has, key) {
      a := Named(rules, ExactKey(key), Allow);
      ExactAllowPrevails(rules, a, key, mtype);
    } else if NamesPrefix(has, key) {
      var p :| LongestAllowed(has, key, p);
      a := Named(rules, KeyPrefix(p), Allow);
      LongestAllowPrevails(rules, a, key, mtype);
    } else {
      a := Named(rules, OfType(TypeText(mtype)), Allow);
      TypeAllowPrevails(rules, a, key, mtype);
    }
  }

  lemma Named(rules: seq<Rule>, resource: Resource, effect: Effect) returns (a: Rule)
    requires RulesName(rules)(resource, effect)
    ensures a in rules && a.resource == resource && a.effect == effect
  {
    a :| a in rules && a.resource == resource && a.effect == effect;
  }

  lemma ExactAllowPrevails(rules: seq<Rule>, a: Rule, key: string, mtype: MemoryType)
    requires a in rules && a.resource == ExactKey(key) && a.effect == Allow && !RulesName(rules)(ExactKey(key), Deny)
    ensures Prevails(rules, a, key, mtype)
  {
    forall d | d in rules && d.effect.Deny? && Matches(d, key, mtype) ensures MoreSpecific(a, d) {
      assert RulesName(rules)(d.resource, Deny);
    }
  }

  lemma LongestAllowPrevails(rules: seq<Rule>, a: Rule, key: string, mtype: MemoryType)
    requires a in rules && a.resource.KeyPrefix? && a.effect == Allow && !RulesName(rules)(ExactKey(key), Deny)
    requires LongestAllowed(RulesName(rules), key, a.resource.prefix)
    ensures Prevails(rules, a, key, mtype)
  {
    forall d | d in rules && d.effect.Deny? && Matches(d, key, mtype) ensures MoreSpecific(a, d) {
      assert RulesName(rules)(d.resource, Deny);
    }
  }

  lemma TypeAllowPrevails(rules: seq<Rule>, a: Rule, key: string, mtype: MemoryType)
    requires a in rules && a.resource == OfType(TypeText(mtype)) && a.effect == Allow
    requires !NamesExactly(RulesName(rules), key) && !NamesPrefix(RulesName(rules), key)
    requires !RulesName(rules)(OfType(TypeText(mtype)), Deny)
    ensures Prevails(rules, a, key, mtype)
  {
    forall d | d in rules && d.effect.Deny? ensures RulesName(rules)(d.resource, Deny) { }
  }

  // ------------------------------------------------------ policies in force

  /** The policy view of a request: policies only, on the request's two timelines. */
  function PolicyView(policies: seq<Version>, q: Request): Result<View, MemoryError> {
    Project(policies, Query(q.asOf, q.knownAt, {}, {AccessPolicy}))
  }

  predicate Says(v: Version, q: Request, resource: Resource, effect: Effect) {
    v.memory.mtype == AccessPolicy && v.memory.content == Policy(q.requester, q.action, resource, effect)
  }

  /** What the policies in force for the requester and the action name. */
  ghost function PoliciesName(entries: seq<Version>, q: Request): Naming {
    (resource, effect) => exists v :: v in entries && Says(v, q, resource, effect)
  }

  ghost predicate AllPolicies(entries: seq<Version>) {
    forall v :: v in entries ==> v.memory.mtype == AccessPolicy && v.memory.content.Policy?
  }

  /**
   * A request may see a key exactly when the memory is no policy, the key is selected, the policy
   * view is unambiguous and holds well-formed policies only, and those in force for the requester
   * and the action permit the key.
   */
  lemma AuthorizedByPolicies(policies: seq<Version>, q: Request, key: string, mtype: MemoryType)
    ensures
      var view := PolicyView(policies, q);
      Allows(Authorize(policies, q).scope, key, mtype) <==>
        && mtype != AccessPolicy && Selected(q.keys, q.prefixes, q.types, key, mtype)
        && view.Ok? && AllPolicies(view.value.entries)
        && Permits(PoliciesName(view.value.entries, q), key, mtype)
  {
    var (view, scope) := (PolicyView(policies, q), Authorize(policies, q).scope);
    assert PolicyQuery(q) == Query(q.asOf, q.knownAt, {}, {AccessPolicy});
    AllowsByResources(scope, key, mtype);
    AT.AuthorizedRules(policies, q);
    if view.Ok? && AllPolicies(view.value.entries) {
      SameNames(view.value.entries, scope.rules, q);
      SamePermits(RulesName(scope.rules), PoliciesName(view.value.entries, q), key, mtype);
    } else {
      NoRulesPermitNothing(scope.rules, key, mtype);
    }
  }

  lemma SameNames(entries: seq<Version>, rules: seq<Rule>, q: Request)
    requires AT.RulesOf(entries, rules, q)
    ensures forall resource, effect :: RulesName(rules)(resource, effect) <==> PoliciesName(entries, q)(resource, effect)
  {
    forall resource, effect ensures RulesName(rules)(resource, effect) <==> PoliciesName(entries, q)(resource, effect) {
      if RulesName(rules)(resource, effect) {
        var r := Named(rules, resource, effect);
        var v :| v in entries && Applies(v, q) && RuleOf(v.memory) == r;
        assert Says(v, q, resource, effect);
      }
      if v :| v in entries && Says(v, q, resource, effect) {
        assert RuleOf(v.memory) in rules;
      }
    }
  }

  lemma SamePermits(a: Naming, b: Naming, key: string, mtype: MemoryType)
    requires forall resource, effect :: a(resource, effect) <==> b(resource, effect)
    ensures Permits(a, key, mtype) <==> Permits(b, key, mtype)
  {
    assert NamesPrefix(a, key) <==> NamesPrefix(b, key);
    assert forall p :: LongestAllowed(a, key, p) <==> LongestAllowed(b, key, p);
  }

  lemma NoRulesPermitNothing(rules: seq<Rule>, key: string, mtype: MemoryType)
    requires rules == []
    ensures !Permits(RulesName(rules), key, mtype)
  {
  }

  // ------------------------------------------------------------ audit and rows

  ghost predicate Ascending(ids: seq<string>) {
    forall i, j :: 0 <= i < j < |ids| ==> !Less(ids[j], ids[i])
  }

  /**
   * The audit trace lists, in order of id, exactly the policies in force for the requester and the
   * action, or none when the policy view is ambiguous or malformed.
   */
  lemma MatchedAreInForce(policies: seq<Version>, q: Request)
    ensures
      var (view, matched) := (PolicyView(policies, q), Authorize(policies, q).matched);
      && Ascending(matched)
      && if view.Ok? && AllPolicies(view.value.entries) then
           forall id :: id in matched <==>
             exists v :: v in view.value.entries && Applies(v, q) && v.memory.id == id
         else matched == []
  {
    var view := PolicyView(policies, q);
    assert PolicyQuery(q) == Query(q.asOf, q.knownAt, {}, {AccessPolicy});
    AT.AuthorizedRules(policies, q);
    MatchedIsSorted(policies, q);
    if view.Ok? && AllPolicies(view.value.entries) {
      IdsInForce(view.value.entries, Authorize(policies, q).scope.rules, q);
    }
  }

  lemma IdsInForce(entries: seq<Version>, rules: seq<Rule>, q: Request)
    requires AT.RulesOf(entries, rules, q)
    ensures forall id :: id in PolicyIds(rules) <==> exists v :: v in entries && Applies(v, q) && v.memory.id == id
  {
    IdsOfRules(rules);
    forall v | v in entries && Applies(v, q) ensures v.memory.id in PolicyIds(rules) {
      assert RuleOf(v.memory) in rules;
    }
  }

  lemma MatchedIsSorted(policies: seq<Version>, q: Request)
    ensures
      var a := Authorize(policies, q);
      a.matched == PolicyIds(a.scope.rules) && RulesAscend(a.scope.rules)
  {
    var view := Project(policies, PolicyQuery(q));
    if view.Ok? && ApplicableRules(view.value.entries, q).Some? {
      SortedRulesAscend(ApplicableRules(view.value.entries, q).value);
    }
  }

  lemma IdsOfRules(rules: seq<Rule>)
    ensures forall id :: id in PolicyIds(rules) <==> exists r :: r in rules && r.policyId == id
  {
    forall r | r in rules ensures r.policyId in PolicyIds(rules) {
      var i :| 0 <= i < |rules| && rules[i] == r;
      assert PolicyIds(rules)[i] == r.policyId;
    }
  }

  ghost predicate RulesAscend(rules: seq<Rule>) {
    forall i, j :: 0 <= i < j < |rules| ==> !Less(rules[j].policyId, rules[i].policyId)
  }

  lemma {:induction false} InsertKeepsAscent(rules: seq<Rule>, rule: Rule)
    requires RulesAscend(rules)
    ensures RulesAscend(InsertRule(rules, rule))
  {
    if rules != [] {
      var head := rules[0];
      assert head in rules && forall r :: r in rules[1..] ==> r in rules && !Less(r.policyId, head.policyId);
      if Less(rule.policyId, head.policyId) {
        LessTotal(head.policyId, head.policyId);
        forall r | r in rules ensures !Less(r.policyId, rule.policyId) { AfterBoth(rule.policyId, head.policyId, r.policyId); }
      } else {
        InsertKeepsAscent(rules[1..], rule);
        assert forall r :: r in InsertRule(rules[1..], rule) ==> !Less(r.policyId, head.policyId);
      }
    }
  }

  lemma AfterBoth(a: string, b: string, c: string)
    requires Less(a, b) && !Less(c, b)
    ensures !Less(c, a)
  {
    LessTotal(a, c);
    if Less(c, a) { LessTransitive(c, a, b); }
  }

  lemma {:induction false} SortedRulesAscend(rules: seq<Rule>)
    ensures RulesAscend(SortRules(rules))
  {
    if rules != [] {
      SortedRulesAscend(rules[..|rules| - 1]);
      InsertKeepsAscent(SortRules(rules[..|rules| - 1]), rules[|rules| - 1]);
    }
  }

  /** The restricted reader gets the allowed versions, the policy reader the policies, and neither more. */
  lemma {:induction false} ReadersGetTheirRows(history: seq<Version>, scope: Scope)
    ensures forall v :: v in AdmittedBy(history, scope) <==> v in history && Allows(scope, v.memory.key, v.memory.mtype)
    ensures forall v :: v in PoliciesIn(history) <==> v in history && v.memory.mtype == AccessPolicy
  {
    if history != [] {
      ReadersGetTheirRows(history[..|history| - 1], scope);
      assert history == history[..|history| - 1] + [history[|history| - 1]];
    }
  }
}
