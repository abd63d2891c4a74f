/** Deny-by-default authorization and the restricted view (access_control.py). */
module AccessControl {
  import opened Base
  import opened TextOrder
  import opened MemoryRecords
  import opened MemoryView

  datatype Rule = Rule(policyId: string, resource: Resource, effect: Effect)

  datatype Scope = Scope(keys: seq<string>, prefixes: seq<string>, types: seq<MemoryType>, rules: seq<Rule>)

  datatype Request = Request(
    requester: string, action: string, asOf: Instant, knownAt: Option<Instant>,
    keys: seq<string>, prefixes: seq<string>, types: seq<MemoryType>)

  datatype Reason = PolicyAllowed | DefaultDeny | ExplicitDeny | PolicyHistoryAmbiguous | MalformedPolicy

  /** The scope, and what the privileged trace says. */
  datatype Authorization = Authorization(scope: Scope, decision: Effect, reason: Reason, matched: seq<string>)

  // ------------------------------------------------------------------ scopes

  predicate StartsWith(text: string, prefix: string) { prefix <= text }

  function TypeText(t: MemoryType): string {
    match t
    case Fact => "fact"
    case Preference => "preference"
    case Goal => "goal"
    case Constraint => "constraint"
    case Inference => "inference"
    case Skill => "skill"
    case FailurePattern => "failure_pattern"
    case BehavioralRule => "behavioral_rule"
    case AccessPolicy => "access_policy"
  }

  predicate Matches(rule: Rule, key: string, mtype: MemoryType) {
    match rule.resource
    case ExactKey(k) => key == k
    case KeyPrefix(prefix) => StartsWith(key, prefix)
    case OfType(name) => TypeText(mtype) == name
  }

  function Specificity(rule: Rule): (nat, nat) {
    match rule.resource
    case ExactKey(k) => (3, |k|)
    case KeyPrefix(prefix) => (2, |prefix|)
    case OfType(_) => (1, 0)
  }

  predicate MoreSpecific(a: Rule, b: Rule) {
    var (x, y) := (Specificity(a), Specificity(b));
    x.0 > y.0 || (x.0 == y.0 && x.1 > y.1)
  }

  predicate Requested(scope: Scope, key: string, mtype: MemoryType) {
    || (scope.keys == [] && scope.prefixes == [] && scope.types == [])
    || key in scope.keys
    || (exists i | 0 <= i < |scope.prefixes| :: StartsWith(key, scope.prefixes[i]))
    || mtype in scope.types
  }

  /** The ranking tuple of `winning_rule`. */
  predicate Wins(a: Rule, b: Rule) {
    || MoreSpecific(a, b)
    || (Specificity(a) == Specificity(b) && a.effect.Deny? && b.effect.Allow?)
    || (Specificity(a) == Specificity(b) && a.effect == b.effect && Less(b.policyId, a.policyId))
  }

  function MatchingRules(rules: seq<Rule>, key: string, mtype: MemoryType): seq<Rule> {
    if rules == [] then []
    else
      var last := rules[|rules| - 1];
      MatchingRules(rules[..|rules| - 1], key, mtype) + (if Matches(last, key, mtype) then [last] else [])
  }

  /** Python's `max`: the first of the greatest rules. */
  function Strongest(rules: seq<Rule>): (w: Rule)
    requires rules != []
    ensures w in rules
    ensures forall r :: r in rules ==> !MoreSpecific(r, w)
    ensures forall r :: r in rules && Specificity(r) == Specificity(w) && r.effect.Deny? ==> w.effect.Deny?
  {
    if |rules| == 1 then rules[0]
    else
      var w := Strongest(rules[..|rules| - 1]);
      var last := rules[|rules| - 1];
      assert rules == rules[..|rules| - 1] + [last];
      if Wins(last, w) then last else w
  }

  function WinningRule(scope: Scope, key: string, mtype: MemoryType): Option<Rule> {
    var matching := MatchingRules(scope.rules, key, mtype);
    if matching == [] then None else Some(Strongest(matching))
  }

  predicate Allows(scope: Scope, key: string, mtype: MemoryType) {
    && !mtype.AccessPolicy?
    && Requested(scope, key, mtype)
    && WinningRule(scope, key, mtype).Some?
    && WinningRule(scope, key, mtype).value.effect.Allow?
  }

  predicate HasPotentialAllow(scope: Scope) {
    exists i | 0 <= i < |scope.rules| :: scope.rules[i].effect.Allow?
  }

  lemma {:induction false} MatchingMembers(rules: seq<Rule>, key: string, mtype: MemoryType)
    ensures forall r :: r in MatchingRules(rules, key, mtype) <==> r in rules && Matches(r, key, mtype)
  {
    if rules != [] {
      MatchingMembers(rules[..|rules| - 1], key, mtype);
      assert rules == rules[..|rules| - 1] + [rules[|rules| - 1]];
    }
  }

  /** A matching allow rule that is strictly more specific than every matching deny rule. */
  ghost predicate Prevails(rules: seq<Rule>, a: Rule, key: string, mtype: MemoryType) {
    && a in rules && a.effect.Allow? && Matches(a, key, mtype)
    && forall d :: d in rules && d.effect.Deny? && Matches(d, key, mtype) ==> MoreSpecific(a, d)
  }

  /** A scope allows a key exactly when the key is no policy, is requested, and an allow rule prevails. */
  lemma AllowsExactlyWhen(scope: Scope, key: string, mtype: MemoryType)
    ensures Allows(scope, key, mtype) <==>
      && !mtype.AccessPolicy?
      && Requested(scope, key, mtype)
      && exists a :: Prevails(scope.rules, a, key, mtype)
  {
    MatchingMembers(scope.rules, key, mtype);
    var winner := WinningRule(scope, key, mtype);
    forall a | a in scope.rules && Matches(a, key, mtype) ensures winner.Some? && !MoreSpecific(a, winner.value) {
      assert a in MatchingRules(scope.rules, key, mtype);
    }
    assert winner.Some? && winner.value.effect.Allow? ==> Prevails(scope.rules, winner.value, key, mtype);
  }

  /** A scope without an allow rule allows nothing, so the short cut skips nothing. */
  lemma NoPotentialAllowAllowsNothing(scope: Scope, key: string, mtype: MemoryType)
    requires !HasPotentialAllow(scope)
    ensures !Allows(scope, key, mtype)
  {
    AllowsExactlyWhen(scope, key, mtype);
  }

  // ----------------------------------------------------------- authorization

  /** The loop over the policy view: nothing when some entry is no policy. */
  function ApplicableRules(entries: seq<Version>, q: Request): Option<seq<Rule>> {
    if entries == [] then Some([])
    else
      var before := ApplicableRules(entries[..|entries| - 1], q);
      var m := entries[|entries| - 1].memory;
      if before.None? || !m.mtype.AccessPolicy? || !m.content.Policy? then None
      else if m.content.subject == q.requester && m.content.action == q.action
      then Some(before.value + [Rule(m.id, m.content.resource, m.content.effect)])
      else before
  }

  /** Puts a rule before the first one with a greater policy id, as a stable sort does. */
  function InsertRule(rules: seq<Rule>, rule: Rule): (r: seq<Rule>)
    ensures |r| == |rules| + 1 && forall x :: x in r <==> x in rules || x == rule
  {
    if rules == [] || Less(rule.policyId, rules[0].policyId) then [rule] + rules
    else
      assert forall x :: x in rules <==> x == rules[0] || x in rules[1..];
      [rules[0]] + InsertRule(rules[1..], rule)
  }

  function SortRules(rules: seq<Rule>): (r: seq<Rule>)
    ensures |r| == |rules| && forall x :: x in r <==> x in rules
  {
    if rules == [] then []
    else
      assert rules == rules[..|rules| - 1] + [rules[|rules| - 1]];
      InsertRule(SortRules(rules[..|rules| - 1]), rules[|rules| - 1])
  }

  function PolicyIds(rules: seq<Rule>): seq<string> {
    seq(|rules|, i requires 0 <= i < |rules| => rules[i].policyId)
  }

  function ScopeOf(q: Request, rules: seq<Rule>): Scope {
    Scope(q.keys, q.prefixes, q.types, rules)
  }

  function PolicyQuery(q: Request): Query {
    Query(q.asOf, q.knownAt, {}, {AccessPolicy})
  }

  function Decided(q: Request, rules: seq<Rule>): Authorization {
    var scope := ScopeOf(q, rules);
    if HasPotentialAllow(scope) then Authorization(scope, Allow, PolicyAllowed, PolicyIds(rules))
    else if exists i | 0 <= i < |rules| :: rules[i].effect.Deny?
    then Authorization(scope, Deny, ExplicitDeny, PolicyIds(rules))
    else Authorization(scope, Deny, DefaultDeny, PolicyIds(rules))
  }

  /** `AuthorizationEngine.authorize` on what the policy store lists. */
  function Authorize(policies: seq<Version>, q: Request): Authorization {
    var view := Project(policies, PolicyQuery(q));
    if view.Err? then Authorization(ScopeOf(q, []), Deny, PolicyHistoryAmbiguous, [])
    else
      match ApplicableRules(view.value.entries, q)
      case None => Authorization(ScopeOf(q, []), Deny, MalformedPolicy, [])
      case Some(rules) => Decided(q, SortRules(rules))
  }

  lemma {:induction false} MalformedStays(entries: seq<Version>, i: nat, q: Request)
    requires i <= |entries| && ApplicableRules(entries[..i], q).None?
    ensures ApplicableRules(entries, q).None?
    decreases |entries|
  {
    if i == |entries| {
      assert entries[..i] == entries;
    } else {
      assert entries[..|entries| - 1][..i] == entries[..i];
      MalformedStays(entries[..|entries| - 1], i, q);
    }
  }

  /** The loop of `authorize`. */
  method CollectRules(entries: seq<Version>, q: Request) returns (r: Option<seq<Rule>>)
    ensures r == ApplicableRules(entries, q)
  {
    var rules: seq<Rule> := [];
    for i := 0 to |entries|
      invariant ApplicableRules(entries[..i], q) == Some(rules)
    {
      var m := entries[i].memory;
      assert entries[..i + 1][..i] == entries[..i];
      if !m.mtype.AccessPolicy? || !m.content.Policy? {
        MalformedStays(entries, i + 1, q);
        return None;
      }
      if m.content.subject == q.requester && m.content.action == q.action {
        rules := rules + [Rule(m.id, m.content.resource, m.content.effect)];
      }
    }
    assert entries[..|entries|] == entries;
    r := Some(rules);
  }

  method AuthorizeRequest(policies: seq<Version>, q: Request) returns (a: Authorization)
    ensures a == Authorize(policies, q)
  {
    var view := ProjectHistory(policies, PolicyQuery(q));
    if view.Err? {
      return Authorization(ScopeOf(q, []), Deny, PolicyHistoryAmbiguous, []);
    }
    var rules := CollectRules(view.value.entries, q);
    if rules.None? {
      return Authorization(ScopeOf(q, []), Deny, MalformedPolicy, []);
    }
    a := Decided(q, SortRules(rules.value));
  }

  /** A policy among the entries that applies to the request. */
  predicate Applies(v: Version, q: Request) {
    && v.memory.mtype.AccessPolicy? && v.memory.content.Policy?
    && v.memory.content.subject == q.requester && v.memory.content.action == q.action
  }

  function RuleOf(m: Memory): Rule
    requires m.content.Policy?
  {
    Rule(m.id, m.content.resource, m.content.effect)
  }

  lemma {:induction false} RulesOfEntries(entries: seq<Version>, q: Request)
    ensures ApplicableRules(entries, q).None? <==>
      exists v :: v in entries && !(v.memory.mtype.AccessPolicy? && v.memory.content.Policy?)
    ensures ApplicableRules(entries, q).Some? ==>
      forall r :: r in ApplicableRules(entries, q).value <==>
        exists v :: v in entries && Applies(v, q) && RuleOf(v.memory) == r
  {
    if entries != [] {
      var (front, last) := (entries[..|entries| - 1], entries[|entries| - 1]);
      assert entries == front + [last];
      RulesOfEntries(front, q);
    }
  }

  // ----------------------------------------------------------- restricted view

  /** The listed versions that the scope admits. */
  function AdmittedBy(history: seq<Version>, scope: Scope): seq<Version> {
    if history == [] then []
    else
      var v := history[|history| - 1];
      AdmittedBy(history[..|history| - 1], scope)
        + (if Allows(scope, v.memory.key, v.memory.mtype) then [v] else [])
  }

  function PoliciesIn(history: seq<Version>): seq<Version> {
    if history == [] then []
    else
      var v := history[|history| - 1];
      PoliciesIn(history[..|history| - 1]) + (if v.memory.mtype.AccessPolicy? then [v] else [])
  }

  const EMPTY_VIEW := View([], [], Counts(0, 0, 0, 0, 0, 0))

  /** `AuthorizedMemoryViewEngine.project`, both stores being adapters of one history. */
  function AuthorizedProject(history: seq<Version>, q: Request): Result<View, MemoryError> {
    var scope := Authorize(PoliciesIn(history), q).scope;
    if !HasPotentialAllow(scope) then Ok(EMPTY_VIEW)
    else Project(AdmittedBy(history, scope), Query(q.asOf, q.knownAt, {}, {}))
  }
}
