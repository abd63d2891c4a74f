/** Recall of lessons: a filter of seven gates and a deterministic ranking (recall.py). */
module Recall {
  import opened Base
  import opened TextOrder

  // ----------------------------------------------------------------- records

  datatype ValidationStatus =
    Proposed | MachineReviewed | HumanApproved | RejectedLesson | ActiveLesson | Deprecated | ExpiredLesson

  datatype TrustLevel = Untrusted | Reported | Verified

  datatype AccessPolicy = Private | OwnerAndAgent | Relationship | Team | Organization | Public

  /** Owner, agent and tenant are in lower case already. */
  datatype Evidence = Evidence(
    id: string, trust: TrustLevel, policy: AccessPolicy,
    owner: Option<string>, agent: Option<string>, tenant: Option<string>)

  datatype Lesson = Lesson(
    id: string, createdAt: Instant, statement: string, domain: Option<string>, taskTypes: set<string>, tags: set<string>, reflections: seq<string>,
    confidence: real, status: ValidationStatus, effectiveFrom: Instant, expiresAt: Option<Instant>)

  datatype RefType = EvidenceRef | EventRef | DecisionRef | OutcomeRef | ReflectionRef | LessonRef

  /** A stored record; a reflection lists the evidence of its hypotheses one after another. */
  datatype Record =
    | EvidenceRecord(evidence: Evidence)
    | Reflection(sourceIds: seq<string>, evidenceIds: seq<string>)
    | LessonRecord(lesson: Lesson)
    | OtherRecord(refType: Option<RefType>)

  type Store = map<string, Record>

  datatype Risk = Low | Medium | High

  datatype Query = Query(
    agent: string, requester: string, tenant: Option<string>, domain: string, taskType: string, tags: set<string>,
    risk: Risk, maxItems: nat)

  /** The share that the age leaves, given as a function of the age. */
  type Recency = int -> real

  // ----------------------------------------------------------------- scoring

  function Jaccard(left: set<string>, right: set<string>): real {
    if left + right == {} then 0.0 else |left * right| as real / |left + right| as real
  }

  function ScopeScore(q: Query, l: Lesson): real {
    0.30 * (if l.domain == Some(q.domain) then 1.0 else 0.0)
    + 0.50 * (if q.taskType in l.taskTypes then 1.0 else 0.0)
    + 0.20 * Jaccard(q.tags, l.tags)
  }

  const SCOPE_GATE := 0.30

  function TrustScore(t: TrustLevel): real {
    match t case Untrusted => 0.0 case Reported => 0.5 case Verified => 1.0
  }

  function MinScore(r: Risk): real {
    match r case Low => 0.35 case Medium => 0.45 case High => 0.55
  }

  function TrustSum(evidence: seq<Evidence>): real {
    if evidence == [] then 0.0 else TrustSum(evidence[..|evidence| - 1]) + TrustScore(evidence[|evidence| - 1].trust)
  }

  function TrustMean(evidence: seq<Evidence>): real {
    if evidence == [] then 0.0 else TrustSum(evidence) / |evidence| as real
  }

  function Age(l: Lesson, now: Instant): int {
    if now >= l.effectiveFrom then now - l.effectiveFrom else 0
  }

  function FinalScore(q: Query, l: Lesson, evidence: seq<Evidence>, now: Instant, recency: Recency): real {
    0.55 * ScopeScore(q, l) + 0.20 * l.confidence + 0.15 * TrustMean(evidence) + 0.10 * recency(Age(l, now))
  }

  /** The score in millionths, rounded to the nearest and on a tie to the even one. */
  function Bucket(score: real): int {
    var millionths := score * 1000000.0;
    var floor := millionths.Floor;
    var rest := millionths - floor as real;
    if rest < 0.5 || (rest == 0.5 && floor % 2 == 0) then floor else floor + 1
  }

  /** `_access_allowed`. */
  predicate AccessAllowed(q: Query, e: Evidence) {
    && (e.tenant.Some? ==> e.tenant == q.tenant)
    && match e.policy
       case Public => true
       case Private => e.owner == Some(q.requester)
       case OwnerAndAgent => e.owner == Some(q.requester) || e.agent == Some(q.agent)
       case _ => false
  }

  // ----------------------------------------------------------- lesson context

  datatype Ref = Ref(id: string, refType: RefType)

  /** `_record_ref`. */
  function RecordRef(store: Store, id: string): Option<Ref> {
    if id !in store then None
    else match store[id]
      case EvidenceRecord(_) => Some(Ref(id, EvidenceRef))
      case Reflection(_, _) => Some(Ref(id, ReflectionRef))
      case LessonRecord(_) => Some(Ref(id, LessonRef))
      case OtherRecord(refType) => if refType.Some? then Some(Ref(id, refType.value)) else None
  }

  predicate IsReflection(store: Store, id: string) { id in store && store[id].Reflection? }

  predicate IsEvidence(store: Store, id: string) { id in store && store[id].EvidenceRecord? }

  function EvidenceAmong(store: Store, ids: seq<string>): seq<string> {
    if ids == [] then []
    else
      var (rest, last) := (EvidenceAmong(store, ids[..|ids| - 1]), ids[|ids| - 1]);
      if IsEvidence(store, last) then rest + [last] else rest
  }

  /** The evidence records that hypotheses of the reflections cite, with repetitions. */
  function CitedEvidence(store: Store, reflections: seq<string>): seq<string> {
    if reflections == [] then []
    else
      var (rest, last) := (CitedEvidence(store, reflections[..|reflections| - 1]), reflections[|reflections| - 1]);
      if IsReflection(store, last) then rest + EvidenceAmong(store, store[last].evidenceIds) else rest
  }

  lemma {:induction false} EvidenceAmongMembers(store: Store, ids: seq<string>)
    ensures forall id :: id in EvidenceAmong(store, ids) <==> id in ids && IsEvidence(store, id)
  {
    if ids != [] {
      EvidenceAmongMembers(store, ids[..|ids| - 1]);
      assert ids == ids[..|ids| - 1] + [ids[|ids| - 1]];
    }
  }

  /** Some reflection behind the lesson cites the evidence. */
  ghost predicate Cites(store: Store, reflections: seq<string>, id: string) {
    IsEvidence(store, id) && exists r :: r in reflections && IsReflection(store, r) && id in store[r].evidenceIds
  }

  lemma {:induction false} CitedEvidenceMembers(store: Store, reflections: seq<string>)
    ensures forall id :: id in CitedEvidence(store, reflections) <==> Cites(store, reflections, id)
  {
    if reflections != [] {
      var (front, last) := (reflections[..|reflections| - 1], reflections[|reflections| - 1]);
      CitedEvidenceMembers(store, front);
      assert reflections == front + [last];
      if IsReflection(store, last) { EvidenceAmongMembers(store, store[last].evidenceIds); }
    }
  }

  /** The evidence behind a lesson, each record once, by id. */
  function EvidenceOf(store: Store, l: Lesson): seq<Evidence> {
    CitedEvidenceMembers(store, l.reflections);
    Load(store, SortDistinct(CitedEvidence(store, l.reflections)))
  }

  function Load(store: Store, ids: seq<string>): (evidence: seq<Evidence>)
    requires forall id :: id in ids ==> IsEvidence(store, id)
  {
    if ids == [] then []
    else
      var last := ids[|ids| - 1];
      assert last in ids && IsEvidence(store, last);
      Load(store, ids[..|ids| - 1]) + [store[last].evidence]
  }

  function SourceRefs(store: Store, ids: seq<string>): seq<Ref> {
    if ids == [] then []
    else
      var (rest, r) := (SourceRefs(store, ids[..|ids| - 1]), RecordRef(store, ids[|ids| - 1]));
      if r.Some? then rest + [r.value] else rest
  }

  function ReflectionRefs(store: Store, reflections: seq<string>): seq<Ref> {
    if reflections == [] then []
    else
      var (rest, last) := (ReflectionRefs(store, reflections[..|reflections| - 1]), reflections[|reflections| - 1]);
      if IsReflection(store, last) then rest + ([Ref(last, ReflectionRef)] + SourceRefs(store, store[last].sourceIds))
      else rest
  }

  function EvidenceRefs(ids: seq<string>): seq<Ref> {
    if ids == [] then [] else EvidenceRefs(ids[..|ids| - 1]) + [Ref(ids[|ids| - 1], EvidenceRef)]
  }

  function AllRefs(store: Store, l: Lesson): seq<Ref> {
    [Ref(l.id, LessonRef)] + ReflectionRefs(store, l.reflections)
    + EvidenceRefs(SortDistinct(CitedEvidence(store, l.reflections)))
  }

  /** The first occurrences, in order. */
  function Dedup(refs: seq<Ref>): seq<Ref> {
    if refs == [] then []
    else
      var (rest, last) := (Dedup(refs[..|refs| - 1]), refs[|refs| - 1]);
      if last in rest then rest else rest + [last]
  }

  function ProvenanceOf(store: Store, l: Lesson): seq<Ref> { Dedup(AllRefs(store, l)) }

  // -------------------------------------------------------------------- gates

  /** The seven first-exclusion counters, or a candidate with its score. */
  datatype Gate =
    | ValidationRejected
    | NotYetEffective
    | Expired
    | DomainMismatch
    | InsufficientScope
    | AccessDenied
    | BelowRiskThreshold
    | Candidate(score: real)

  function GateOf(store: Store, q: Query, now: Instant, recency: Recency, l: Lesson): Gate {
    if !l.status.HumanApproved? && !l.status.ActiveLesson? then ValidationRejected
    else if l.effectiveFrom > now then NotYetEffective
    else if l.expiresAt.Some? && l.expiresAt.value <= now then Expired
    else if l.domain != Some(q.domain) then DomainMismatch
    else if ScopeScore(q, l) <= SCOPE_GATE then InsufficientScope
    else
      var evidence := EvidenceOf(store, l);
      if exists i | 0 <= i < |evidence| :: !AccessAllowed(q, evidence[i]) then AccessDenied
      else
        var score := FinalScore(q, l, evidence, now, recency);
        if score < MinScore(q.risk) then BelowRiskThreshold else Candidate(score)
  }

  datatype ReasonCode =
    | DomainMatch
    | ExactTaskTypeMatch
    | TagOverlap
    | ApprovedByHuman
    | IsActiveLesson
    | VerifiedEvidence
    | ReportedEvidence
    | RecentLesson
    | HighRiskThresholdPassed

  function When(condition: bool, code: ReasonCode): seq<ReasonCode> { if condition then [code] else [] }

  /** `_reason_codes`. */
  function ReasonCodes(q: Query, l: Lesson, evidence: seq<Evidence>, recency: real): seq<ReasonCode> {
    [DomainMatch]
    + When(q.taskType in l.taskTypes, ExactTaskTypeMatch)
    + When(Jaccard(q.tags, l.tags) > 0.0, TagOverlap)
    + [if l.status.HumanApproved? then ApprovedByHuman else IsActiveLesson]
    + When(exists i | 0 <= i < |evidence| :: evidence[i].trust.Verified?, VerifiedEvidence)
    + When(exists i | 0 <= i < |evidence| :: evidence[i].trust.Reported?, ReportedEvidence)
    + When(recency >= 0.5, RecentLesson)
    + When(q.risk.High?, HighRiskThresholdPassed)
  }

  /** The published parts of a score, in millionths. */
  datatype Breakdown = Breakdown(scope: int, confidence: int, trust: int, recency: int)

  /** A result; its score is its bucket in millionths. */
  datatype Ranked = Ranked(
    lessonId: string, statement: string, bucket: int, breakdown: Breakdown, codes: seq<ReasonCode>, provenance: seq<Ref>)

  /** What a result reports of a lesson that passes every gate. */
  function ResultOf(store: Store, q: Query, now: Instant, recency: Recency, l: Lesson): Ranked {
    var evidence := EvidenceOf(store, l);
    var share := recency(Age(l, now));
    Ranked(l.id, l.statement, Bucket(FinalScore(q, l, evidence, now, recency)),
           Breakdown(Bucket(ScopeScore(q, l)), Bucket(l.confidence), Bucket(TrustMean(evidence)), Bucket(share)),
           ReasonCodes(q, l, evidence, share), ProvenanceOf(store, l))
  }

  function CandidatesOf(store: Store, q: Query, now: Instant, recency: Recency, lessons: seq<Lesson>): seq<Ranked> {
    if lessons == [] then []
    else
      var (rest, l) := (CandidatesOf(store, q, now, recency, lessons[..|lessons| - 1]), lessons[|lessons| - 1]);
      if GateOf(store, q, now, recency, l).Candidate? then rest + [ResultOf(store, q, now, recency, l)] else rest
  }

  function CountOf(store: Store, q: Query, now: Instant, recency: Recency, lessons: seq<Lesson>, gate: Gate): nat {
    if lessons == [] then 0
    else
      CountOf(store, q, now, recency, lessons[..|lessons| - 1], gate)
      + (if GateOf(store, q, now, recency, lessons[|lessons| - 1]) == gate then 1 else 0)
  }

  // ------------------------------------------------------------------ ranking

  /** `(-bucket, lesson_id)`. */
  predicate Before(a: Ranked, b: Ranked) {
    a.bucket > b.bucket || (a.bucket == b.bucket && Less(a.lessonId, b.lessonId))
  }

  /** Puts a candidate before the first that comes after it, as a stable sort does. */
  function InsertRanked(sorted: seq<Ranked>, x: Ranked): (r: seq<Ranked>)
    ensures forall y :: y in r <==> y in sorted || y == x
    ensures |r| == |sorted| + 1
  {
    if sorted == [] || Before(x, sorted[0]) then [x] + sorted
    else
      assert forall y :: y in sorted <==> y == sorted[0] || y in sorted[1..];
      [sorted[0]] + InsertRanked(sorted[1..], x)
  }

  function SortRanked(candidates: seq<Ranked>): (r: seq<Ranked>)
    ensures |r| == |candidates| && forall y :: y in r <==> y in candidates
  {
    if candidates == [] then []
    else
      assert candidates == candidates[..|candidates| - 1] + [candidates[|candidates| - 1]];
      InsertRanked(SortRanked(candidates[..|candidates| - 1]), candidates[|candidates| - 1])
  }

  function Take(ranked: seq<Ranked>, n: nat): seq<Ranked> {
    if n < |ranked| then ranked[..n] else ranked
  }

  const EXCLUSIONS := {ValidationRejected, NotYetEffective, Expired, DomainMismatch, InsufficientScope, AccessDenied,
                       BelowRiskThreshold}

  datatype Execution = Execution(results: seq<Ranked>, counts: map<Gate, nat>)

  /** Every lesson of the store, once each. */
  ghost predicate Lists(store: Store, lessons: seq<Lesson>) {
    && (forall l :: l in lessons <==> l.id in store && store[l.id] == LessonRecord(l))
    && DistinctIds(lessons)
  }

  ghost predicate DistinctIds(lessons: seq<Lesson>) {
    forall i, j :: 0 <= i < j < |lessons| ==> lessons[i].id != lessons[j].id
  }

  /** The outcome of `recall_with_diagnostics` on the lessons as the store lists them. */
  function RecallOf(store: Store, q: Query, now: Instant, recency: Recency, lessons: seq<Lesson>): Execution {
    Execution(Take(SortRanked(CandidatesOf(store, q, now, recency, lessons)), q.maxItems),
              map e | e in EXCLUSIONS :: CountOf(store, q, now, recency, lessons, e))
  }

  // ------------------------------------------------------------------ methods

  /** The dictionary that `_lesson_context` fills holds exactly the evidence of the ids. */
  ghost predicate Holds(store: Store, byId: map<string, Evidence>, ids: set<string>) {
    byId.Keys == ids && forall id :: id in byId ==> IsEvidence(store, id) && byId[id] == store[id].evidence
  }

  /** The loop over the hypotheses of one reflection. */
  method AddEvidence(store: Store, ids: seq<string>, start: map<string, Evidence>) returns (byId: map<string, Evidence>)
    requires Holds(store, start, start.Keys)
    ensures Holds(store, byId, start.Keys + set id | id in EvidenceAmong(store, ids))
  {
    byId := start;
    for i := 0 to |ids|
      invariant Holds(store, byId, start.Keys + set id | id in EvidenceAmong(store, ids[..i]))
    {
      assert ids[..i + 1][..i] == ids[..i];
      if IsEvidence(store, ids[i]) {
        byId := byId[ids[i] := store[ids[i]].evidence];
      }
    }
    assert ids[..|ids|] == ids;
  }

  /** The loop over the reflections of the lesson. */
  method CollectEvidence(store: Store, reflections: seq<string>) returns (byId: map<string, Evidence>)
    ensures Holds(store, byId, set id | id in CitedEvidence(store, reflections))
  {
    byId := map[];
    for i := 0 to |reflections|
      invariant Holds(store, byId, set id | id in CitedEvidence(store, reflections[..i]))
    {
      assert reflections[..i + 1][..i] == reflections[..i];
      if IsReflection(store, reflections[i]) {
        byId := AddEvidence(store, store[reflections[i]].evidenceIds, byId);
      }
    }
    assert reflections[..|reflections|] == reflections;
  }

  /** The evidence part of `_lesson_context`: fill a dictionary, then sort its keys. */
  method LessonEvidence(store: Store, l: Lesson) returns (evidence: seq<Evidence>)
    ensures evidence == EvidenceOf(store, l)
  {
    var byId := CollectEvidence(store, l.reflections);
    CitedEvidenceMembers(store, l.reflections);
    var sorted := SortKeys(byId.Keys);
    SortedListIsUnique(sorted, SortDistinct(CitedEvidence(store, l.reflections)));
    evidence := LoadSorted(store, byId, sorted);
  }

  method LoadSorted(store: Store, byId: map<string, Evidence>, sorted: seq<string>) returns (evidence: seq<Evidence>)
    requires Holds(store, byId, byId.Keys) && forall id :: id in sorted ==> id in byId
    ensures forall id :: id in sorted ==> IsEvidence(store, id)
    ensures evidence == Load(store, sorted)
  {
    evidence := [];
    for i := 0 to |sorted|
      invariant evidence == Load(store, sorted[..i])
    {
      assert sorted[..i + 1][..i] == sorted[..i] && sorted[i] in sorted;
      evidence := evidence + [byId[sorted[i]]];
    }
    assert sorted[..|sorted|] == sorted;
  }

  /** `add_ref`, with the set of seen references. */
  method AddRef(provenance: seq<Ref>, seen: set<Ref>, r: Ref, ghost refs: seq<Ref>)
    returns (provenance': seq<Ref>, seen': set<Ref>)
    requires provenance == Dedup(refs) && seen == set x | x in provenance
    ensures provenance' == Dedup(refs + [r]) && seen' == set x | x in provenance'
  {
    assert (refs + [r])[..|refs|] == refs;
    if r in seen {
      return provenance, seen;
    }
    provenance', seen' := provenance + [r], seen + {r};
  }

  /** The loop over the sources of one reflection. */
  method AddSources(store: Store, ids: seq<string>, start: seq<Ref>, seenThen: set<Ref>, ghost refs: seq<Ref>)
    returns (provenance: seq<Ref>, seen: set<Ref>)
    requires start == Dedup(refs) && seenThen == set x | x in start
    ensures provenance == Dedup(refs + SourceRefs(store, ids)) && seen == set x | x in provenance
  {
    provenance, seen := start, seenThen;
    assert refs + SourceRefs(store, ids[..0]) == refs;
    for i := 0 to |ids|
      invariant provenance == Dedup(refs + SourceRefs(store, ids[..i])) && seen == set x | x in provenance
    {
      SourceSnoc(store, ids, i);
      var r := RecordRef(store, ids[i]);
      if r.Some? {
        ghost var before := refs + SourceRefs(store, ids[..i]);
        provenance, seen := AddRef(provenance, seen, r.value, before);
        assert before + [r.value] == refs + SourceRefs(store, ids[..i + 1]);
      }
    }
    assert ids[..|ids|] == ids;
  }

  lemma SourceSnoc(store: Store, ids: seq<string>, i: nat)
    requires i < |ids|
    ensures
      var (before, after) := (SourceRefs(store, ids[..i]), SourceRefs(store, ids[..i + 1]));
      match RecordRef(store, ids[i])
      case None => after == before
      case Some(r) => after == before + [r]
  {
    assert ids[..i + 1][..i] == ids[..i];
  }

  /** The references that one reflection contributes. */
  method AddReflection(store: Store, id: string, start: seq<Ref>, seenThen: set<Ref>, ghost refs: seq<Ref>)
    returns (provenance: seq<Ref>, seen: set<Ref>)
    requires IsReflection(store, id) && start == Dedup(refs) && seenThen == set x | x in start
    ensures provenance == Dedup(refs + ([Ref(id, ReflectionRef)] + SourceRefs(store, store[id].sourceIds)))
    ensures seen == set x | x in provenance
  {
    ghost var self := [Ref(id, ReflectionRef)];
    provenance, seen := AddRef(start, seenThen, Ref(id, ReflectionRef), refs);
    provenance, seen := AddSources(store, store[id].sourceIds, provenance, seen, refs + self);
    assert refs + self + SourceRefs(store, store[id].sourceIds) == refs + (self + SourceRefs(store, store[id].sourceIds));
  }

  method AddReflections(store: Store, l: Lesson) returns (provenance: seq<Ref>, seen: set<Ref>)
    ensures provenance == Dedup([Ref(l.id, LessonRef)] + ReflectionRefs(store, l.reflections))
    ensures seen == set x | x in provenance
  {
    ghost var first := [Ref(l.id, LessonRef)];
    assert first[..0] == [] && first + ReflectionRefs(store, l.reflections[..0]) == first;
    provenance := [Ref(l.id, LessonRef)];
    seen := {Ref(l.id, LessonRef)};
    for i := 0 to |l.reflections|
      invariant provenance == Dedup(first + ReflectionRefs(store, l.reflections[..i])) && seen == set x | x in provenance
    {
      var id := l.reflections[i];
      assert l.reflections[..i + 1][..i] == l.reflections[..i];
      if IsReflection(store, id) {
        ghost var refs := first + ReflectionRefs(store, l.reflections[..i]);
        provenance, seen := AddReflection(store, id, provenance, seen, refs);
        assert refs + ([Ref(id, ReflectionRef)] + SourceRefs(store, store[id].sourceIds))
            == first + ReflectionRefs(store, l.reflections[..i + 1]);
      }
    }
    assert l.reflections[..|l.reflections|] == l.reflections;
  }

  /** The provenance part of `_lesson_context`. */
  method LessonProvenance(store: Store, l: Lesson) returns (provenance: seq<Ref>)
    ensures provenance == ProvenanceOf(store, l)
  {
    ghost var refs := [Ref(l.id, LessonRef)] + ReflectionRefs(store, l.reflections);
    var seen: set<Ref>;
    provenance, seen := AddReflections(store, l);
    var ids := SortDistinct(CitedEvidence(store, l.reflections));
    assert refs + EvidenceRefs(ids[..0]) == refs;
    for i := 0 to |ids|
      invariant provenance == Dedup(refs + EvidenceRefs(ids[..i])) && seen == set x | x in provenance
    {
      assert ids[..i + 1][..i] == ids[..i];
      provenance, seen := AddRef(provenance, seen, Ref(ids[i], EvidenceRef), refs + EvidenceRefs(ids[..i]));
      assert refs + EvidenceRefs(ids[..i]) + [Ref(ids[i], EvidenceRef)] == refs + EvidenceRefs(ids[..i + 1]);
    }
    assert ids[..|ids|] == ids;
  }

  /** The gates for one lesson, and its result when it passes them all. */
  method JudgeLesson(store: Store, q: Query, now: Instant, recency: Recency, l: Lesson)
    returns (gate: Gate, result: Option<Ranked>)
    ensures gate == GateOf(store, q, now, recency, l)
    ensures result == if gate.Candidate? then Some(ResultOf(store, q, now, recency, l)) else None
  {
    result := None;
    if !l.status.HumanApproved? && !l.status.ActiveLesson? {
      return ValidationRejected, None;
    }
    if l.effectiveFrom > now {
      return NotYetEffective, None;
    }
    if l.expiresAt.Some? && l.expiresAt.value <= now {
      return Expired, None;
    }
    if l.domain != Some(q.domain) {
      return DomainMismatch, None;
    }
    var scope := ScopeScore(q, l);
    if scope <= SCOPE_GATE {
      return InsufficientScope, None;
    }
    var evidence := LessonEvidence(store, l);
    if exists i | 0 <= i < |evidence| :: !AccessAllowed(q, evidence[i]) {
      return AccessDenied, None;
    }
    var score := FinalScore(q, l, evidence, now, recency);
    if score < MinScore(q.risk) {
      return BelowRiskThreshold, None;
    }
    var provenance := LessonProvenance(store, l);
    var share := recency(Age(l, now));
    var breakdown := Breakdown(Bucket(scope), Bucket(l.confidence), Bucket(TrustMean(evidence)), Bucket(share));
    gate := Candidate(score);
    result := Some(Ranked(l.id, l.statement, Bucket(score), breakdown, ReasonCodes(q, l, evidence, share), provenance));
  }

  /** The counters after some lessons. */
  ghost predicate Tallied(
    counts: map<Gate, nat>, names: set<Gate>, store: Store, q: Query, now: Instant, recency: Recency, lessons: seq<Lesson>)
  {
    counts == map e | e in names :: CountOf(store, q, now, recency, lessons, e)
  }

  lemma TallyOne(
    counts: map<Gate, nat>, names: set<Gate>, store: Store, q: Query, now: Instant, recency: Recency,
    lessons: seq<Lesson>, i: nat)
    requires i < |lessons| && Tallied(counts, names, store, q, now, recency, lessons[..i])
    ensures
      var gate := GateOf(store, q, now, recency, lessons[i]);
      if gate in names
      then gate in counts && Tallied(counts[gate := counts[gate] + 1], names, store, q, now, recency, lessons[..i + 1])
      else Tallied(counts, names, store, q, now, recency, lessons[..i + 1])
  {
    assert lessons[..i + 1][..i] == lessons[..i];
  }

  /** The loop of `recall_with_diagnostics`; `names` are the keys of its counters. */
  method JudgeAll(
    store: Store, q: Query, now: Instant, recency: Recency, lessons: seq<Lesson>, names: set<Gate>)
    returns (candidates: seq<Ranked>, counts: map<Gate, nat>)
    requires forall g: Gate :: g in names <==> !g.Candidate?
    ensures candidates == CandidatesOf(store, q, now, recency, lessons)
    ensures Tallied(counts, names, store, q, now, recency, lessons)
  {
    counts, candidates := map e | e in names :: 0, [];
    for i := 0 to |lessons|
      invariant candidates == CandidatesOf(store, q, now, recency, lessons[..i])
      invariant Tallied(counts, names, store, q, now, recency, lessons[..i])
    {
      assert lessons[..i + 1][..i] == lessons[..i];
      var gate, result := JudgeLesson(store, q, now, recency, lessons[i]);
      TallyOne(counts, names, store, q, now, recency, lessons, i);
      if gate.Candidate? {
        candidates := candidates + [result.value];
      } else {
        counts := counts[gate := counts[gate] + 1];
      }
    }
    assert lessons[..|lessons|] == lessons;
  }
}
