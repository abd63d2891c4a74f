/** The gates, the score, the counters and the results of a recall, in the terms of the stored records. */
module RecallMeaning {
  import opened Base
  import opened TextOrder
  import opened Recall
  import opened RecallTheorems

  // ------------------------------------------------------------------- trust

  ghost function CitedIds(store: Store, l: Lesson): set<string> {
    set id | id in store && Cites(store, l.reflections, id)
  }

  /** The evidence records among `ids` with a trust level. */
  ghost function Trusted(store: Store, ids: set<string>, level: TrustLevel): set<string> {
    set id | id in ids && IsEvidence(store, id) && store[id].evidence.trust == level
  }

  lemma TrustIsCounted(store: Store, l: Lesson)
    ensures
      var (ids, evidence) := (CitedIds(store, l), EvidenceOf(store, l));
      && |evidence| == |ids|
      && TrustSum(evidence) == Weight(store, ids)
  {
    CitedEvidenceMembers(store, l.reflections);
    var sorted := SortDistinct(CitedEvidence(store, l.reflections));
    LoadMembers(store, sorted);
    TrustOfSorted(store, sorted);
    assert CitedIds(store, l) == Members(sorted);
  }

  ghost function Members(ids: seq<string>): set<string> { set id | id in ids }

  lemma {:induction false} TrustOfSorted(store: Store, ids: seq<string>)
    requires Sorted(ids) && forall id :: id in ids ==> IsEvidence(store, id)
    ensures |Members(ids)| == |ids|
    ensures TrustSum(Load(store, ids)) == Weight(store, Members(ids))
  {
    if ids != [] {
      var (front, last) := (ids[..|ids| - 1], ids[|ids| - 1]);
      LastIsNew(ids);
      assert forall id :: id in front ==> id in ids;
      TrustOfSorted(store, front);
      LoadSnoc(store, front, last);
      WeightSnoc(store, Members(front), last);
    }
  }

  lemma LastIsNew(ids: seq<string>)
    requires Sorted(ids) && ids != []
    ensures
      var (front, last) := (ids[..|ids| - 1], ids[|ids| - 1]);
      && ids == front + [last] && Sorted(front) && last in ids
      && last !in Members(front) && Members(ids) == Members(front) + {last}
  {
    var (front, last) := (ids[..|ids| - 1], ids[|ids| - 1]);
    assert ids == front + [last];
    LessTotal(last, last);
  }

  lemma LoadSnoc(store: Store, front: seq<string>, last: string)
    requires IsEvidence(store, last) && forall id :: id in front ==> IsEvidence(store, id)
    ensures TrustSum(Load(store, front + [last])) == TrustSum(Load(store, front)) + TrustScore(store[last].evidence.trust)
  {
    assert (front + [last])[..|front|] == front;
    var (before, after) := (Load(store, front), Load(store, front + [last]));
    assert after == before + [store[last].evidence];
    assert after[..|after| - 1] == before;
  }

  ghost function Weight(store: Store, ids: set<string>): real {
    |Trusted(store, ids, Verified)| as real + 0.5 * |Trusted(store, ids, Reported)| as real
  }

  lemma WeightSnoc(store: Store, ids: set<string>, last: string)
    requires last !in ids && IsEvidence(store, last)
    ensures Weight(store, ids + {last}) == Weight(store, ids) + TrustScore(store[last].evidence.trust)
  {
    TrustSnoc(store, ids, last, Verified);
    TrustSnoc(store, ids, last, Reported);
  }

  lemma TrustSnoc(store: Store, ids: set<string>, last: string, level: TrustLevel)
    requires last !in ids && IsEvidence(store, last)
    ensures |Trusted(store, ids + {last}, level)|
         == |Trusted(store, ids, level)| + if store[last].evidence.trust == level then 1 else 0
  {
    var (before, after) := (Trusted(store, ids, level), Trusted(store, ids + {last}, level));
    if store[last].evidence.trust == level {
      assert after == before + {last};
    } else {
      assert after == before;
    }
  }

  // ------------------------------------------------------------------- score

  /** The part of all tags that query and lesson share. */
  function TagShare(q: Query, l: Lesson): real {
    if q.tags == {} && l.tags == {} then 0.0 else |q.tags * l.tags| as real / |q.tags + l.tags| as real
  }

  ghost function TrustShare(store: Store, l: Lesson): real {
    var ids := CitedIds(store, l);
    if ids == {} then 0.0
    else (|Trusted(store, ids, Verified)| as real + 0.5 * |Trusted(store, ids, Reported)| as real) / |ids| as real
  }

  /** How well a lesson of the domain fits: 3 tenths for the domain, 5 for the task type, 2 for the tags. */
  function Fit(q: Query, l: Lesson): real {
    (if l.domain == Some(q.domain) then 0.3 else 0.0) + (if q.taskType in l.taskTypes then 0.5 else 0.0) + TagShare(q, l) / 5.0
  }

  function AgeAt(l: Lesson, now: Instant): nat {
    if l.effectiveFrom < now then now - l.effectiveFrom else 0
  }

  ghost function Score(store: Store, q: Query, now: Instant, recency: Recency, l: Lesson): real {
    0.55 * Fit(q, l) + l.confidence / 5.0 + 0.15 * TrustShare(store, l) + recency(AgeAt(l, now)) / 10.0
  }

  lemma FitIsScope(q: Query, l: Lesson)
    ensures ScopeScore(q, l) == Fit(q, l)
  {
  }

  /** Verified evidence counts fully, reported evidence by half, and each record once. */
  lemma TrustIsAverage(store: Store, l: Lesson)
    ensures TrustMean(EvidenceOf(store, l)) == TrustShare(store, l)
  {
    TrustIsCounted(store, l);
  }

  lemma ScoreSays(store: Store, q: Query, now: Instant, recency: Recency, l: Lesson)
    ensures FinalScore(q, l, EvidenceOf(store, l), now, recency) == Score(store, q, now, recency, l)
  {
    TrustIsAverage(store, l);
    FitIsScope(q, l);
  }

  // ------------------------------------------------------------------- gates

  predicate Approved(l: Lesson) { l.status in {HumanApproved, ActiveLesson} }

  predicate Current(l: Lesson, now: Instant) {
    l.effectiveFrom <= now && (l.expiresAt == None || now < l.expiresAt.value)
  }

  predicate Overlaps(q: Query, l: Lesson) { q.taskType in l.taskTypes || q.tags * l.tags != {} }

  /** Evidence of another tenant is hidden; public evidence is open, private evidence is its owner's, and no wider policy admits anybody. */
  predicate MayRead(q: Query, e: Evidence) {
    && (e.tenant == None || e.tenant == q.tenant)
    && (|| e.policy == Public
        || (e.owner == Some(q.requester) && e.policy in {Private, OwnerAndAgent})
        || (e.agent == Some(q.agent) && e.policy == OwnerAndAgent))
  }

  /** Some evidence behind the lesson is not for this requester. */
  ghost predicate Hidden(store: Store, q: Query, l: Lesson) {
    exists id :: Cites(store, l.reflections, id) && !MayRead(q, store[id].evidence)
  }

  /** The least score that a risk level asks for, in hundredths. */
  function LeastScore(r: Risk): int {
    if r == Low then 35 else if r == Medium then 45 else 55
  }

  /** The lesson fails at this gate and at none before it, or is a candidate with its score. */
  ghost predicate StopsAt(store: Store, q: Query, now: Instant, recency: Recency, l: Lesson, gate: Gate) {
    var (score, least) := (Score(store, q, now, recency, l), LeastScore(q.risk) as real / 100.0);
    var fits := Approved(l) && Current(l, now) && l.domain == Some(q.domain);
    match gate
    case ValidationRejected => !Approved(l)
    case NotYetEffective => Approved(l) && now < l.effectiveFrom
    case Expired => Approved(l) && l.effectiveFrom <= now && l.expiresAt != None && l.expiresAt.value <= now
    case DomainMismatch => Approved(l) && Current(l, now) && l.domain != Some(q.domain)
    case InsufficientScope => fits && !Overlaps(q, l)
    case AccessDenied => fits && Overlaps(q, l) && Hidden(store, q, l)
    case BelowRiskThreshold => fits && Overlaps(q, l) && !Hidden(store, q, l) && score < least
    case Candidate(s) => fits && Overlaps(q, l) && !Hidden(store, q, l) && score >= least && s == score
  }

  lemma GateExactlyWhen(store: Store, q: Query, now: Instant, recency: Recency, l: Lesson, gate: Gate)
    ensures GateOf(store, q, now, recency, l) == gate <==> StopsAt(store, q, now, recency, l, gate)
  {
    if l.domain == Some(q.domain) { ScopeGateMeansOverlap(q, l); }
    ScoreSays(store, q, now, recency, l);
    DeniedIsHidden(store, q, l);
  }

  lemma DeniedIsHidden(store: Store, q: Query, l: Lesson)
    ensures
      var evidence := EvidenceOf(store, l);
      (exists i | 0 <= i < |evidence| :: !AccessAllowed(q, evidence[i])) <==> Hidden(store, q, l)
  {
    EvidenceIsCited(store, l);
    var evidence := EvidenceOf(store, l);
    assert forall e :: AccessAllowed(q, e) <==> MayRead(q, e);
    forall i | 0 <= i < |evidence| && !AccessAllowed(q, evidence[i]) ensures Hidden(store, q, l) {
      assert evidence[i] in evidence;
    }
    if id :| Cites(store, l.reflections, id) && !MayRead(q, store[id].evidence) {
      assert store[id].evidence in evidence;
    }
  }

  // ---------------------------------------------------------------- counters

  /** The stored lessons that stop at a gate. */
  ghost function StoppedAt(store: Store, q: Query, now: Instant, recency: Recency, gate: Gate): set<string> {
    set id | id in store && store[id].LessonRecord? && store[id].lesson.id == id
             && StopsAt(store, q, now, recency, store[id].lesson, gate)
  }

  /** Each of the seven counters is the number of stored lessons that stop at its gate. */
  lemma CountersSayWhatTheyCount(store: Store, q: Query, now: Instant, recency: Recency, lessons: seq<Lesson>, gate: Gate)
    requires Lists(store, lessons)
    ensures
      var counts := RecallOf(store, q, now, recency, lessons).counts;
      && (gate in counts <==> !gate.Candidate?)
      && (gate in counts ==> counts[gate] == |StoppedAt(store, q, now, recency, gate)|)
  {
    var p := l => GateOf(store, q, now, recency, l) == gate;
    CountIsCountIf(store, q, now, recency, lessons, gate);
    CountIfIsCardinality(p, lessons);
    var passing := Passing(p, lessons);
    forall l: Lesson | l in passing ensures l.id in StoppedAt(store, q, now, recency, gate) {
      GateExactlyWhen(store, q, now, recency, l, gate);
    }
    forall id | id in StoppedAt(store, q, now, recency, gate) ensures store[id].lesson in passing && store[id].lesson.id == id {
      GateExactlyWhen(store, q, now, recency, store[id].lesson, gate);
    }
    SameSize(passing, StoppedAt(store, q, now, recency, gate), store);
  }

  lemma {:induction false} SameSize(lessons: set<Lesson>, ids: set<string>, store: Store)
    requires forall l :: l in lessons ==> l.id in ids && l.id in store && store[l.id] == LessonRecord(l)
    requires forall id :: id in ids ==> id in store && store[id].LessonRecord? && store[id].lesson in lessons && store[id].lesson.id == id
    ensures |lessons| == |ids|
    decreases lessons
  {
    if l :| l in lessons {
      SameSize(lessons - {l}, ids - {l.id}, store);
    } else {
      assert ids == {};
    }
  }

  // ----------------------------------------------------------------- results

  /** The nearest integer, and between two the even one. */
  ghost predicate Nearest(x: real, n: int) {
    && n as real - 0.5 <= x <= n as real + 0.5
    && (x == n as real - 0.5 || x == n as real + 0.5 ==> n % 2 == 0)
  }

  lemma BucketIsNearest(score: real)
    ensures Nearest(score * 1000000.0, Bucket(score))
  {
  }

  /** When a code applies to a lesson that passed the gates. */
  ghost predicate Applies(store: Store, q: Query, now: Instant, recency: Recency, l: Lesson, code: ReasonCode) {
    match code
    case DomainMatch => true
    case ExactTaskTypeMatch => q.taskType in l.taskTypes
    case TagOverlap => q.tags * l.tags != {}
    case ApprovedByHuman => l.status == HumanApproved
    case IsActiveLesson => l.status == ActiveLesson
    case VerifiedEvidence => Trusted(store, CitedIds(store, l), Verified) != {}
    case ReportedEvidence => Trusted(store, CitedIds(store, l), Reported) != {}
    case RecentLesson => recency(AgeAt(l, now)) >= 0.5
    case HighRiskThresholdPassed => q.risk == High
  }

  /** The place of a code in every list of codes. */
  function Position(code: ReasonCode): nat {
    match code
    case DomainMatch => 0
    case ExactTaskTypeMatch => 1
    case TagOverlap => 2
    case ApprovedByHuman => 3
    case IsActiveLesson => 4
    case VerifiedEvidence => 5
    case ReportedEvidence => 6
    case RecentLesson => 7
    case HighRiskThresholdPassed => 8
  }

  predicate Listed(codes: seq<ReasonCode>) {
    forall i, j :: 0 <= i < j < |codes| ==> Position(codes[i]) < Position(codes[j])
  }

  /** What a result says of its lesson: its rounded score and parts, and exactly the codes that apply, in order. */
  lemma ResultSays(store: Store, q: Query, now: Instant, recency: Recency, id: string, r: Ranked)
    requires Yields(store, q, now, recency, id, r)
    ensures
      var l := store[id].lesson;
      && r.lessonId == id && r.statement == l.statement
      && Nearest(Score(store, q, now, recency, l) * 1000000.0, r.bucket)
      && Nearest(Fit(q, l) * 1000000.0, r.breakdown.scope)
      && Nearest(l.confidence * 1000000.0, r.breakdown.confidence)
      && Nearest(TrustShare(store, l) * 1000000.0, r.breakdown.trust)
      && Nearest(recency(AgeAt(l, now)) * 1000000.0, r.breakdown.recency)
      && Listed(r.codes) && forall code :: code in r.codes <==> Applies(store, q, now, recency, l, code)
  {
    var l := store[id].lesson;
    var evidence := EvidenceOf(store, l);
    ScoreSays(store, q, now, recency, l);
    TrustIsAverage(store, l);
    FitIsScope(q, l);
    BucketIsNearest(Score(store, q, now, recency, l));
    BucketIsNearest(Fit(q, l));
    BucketIsNearest(l.confidence);
    BucketIsNearest(TrustShare(store, l));
    BucketIsNearest(recency(AgeAt(l, now)));
    GateExactlyWhen(store, q, now, recency, l, GateOf(store, q, now, recency, l));
    CodesApply(store, q, now, recency, l);
  }

  lemma CodesApply(store: Store, q: Query, now: Instant, recency: Recency, l: Lesson)
    requires Approved(l)
    ensures
      var codes := ReasonCodes(q, l, EvidenceOf(store, l), recency(AgeAt(l, now)));
      Listed(codes) && forall code :: code in codes <==> Applies(store, q, now, recency, l, code)
  {
    var flags := FlagsOf(q, l, EvidenceOf(store, l), recency(AgeAt(l, now)));
    CodesFollowFlags(q, l, EvidenceOf(store, l), recency(AgeAt(l, now)));
    CodesInOrder(flags);
    JaccardBounds(q.tags, l.tags);
    LevelAppears(store, l, Verified);
    LevelAppears(store, l, Reported);
    assert forall code :: Fires(flags, code) <==> Applies(store, q, now, recency, l, code);
  }

  datatype Flags = Flags(task: bool, tags: bool, human: bool, verified: bool, reported: bool, recent: bool, high: bool)

  function FlagsOf(q: Query, l: Lesson, evidence: seq<Evidence>, share: real): Flags {
    Flags(q.taskType in l.taskTypes, Jaccard(q.tags, l.tags) > 0.0, l.status.HumanApproved?,
          exists i | 0 <= i < |evidence| :: evidence[i].trust.Verified?,
          exists i | 0 <= i < |evidence| :: evidence[i].trust.Reported?, share >= 0.5, q.risk.High?)
  }

  predicate Fires(f: Flags, code: ReasonCode) {
    match code
    case DomainMatch => true
    case ExactTaskTypeMatch => f.task
    case TagOverlap => f.tags
    case ApprovedByHuman => f.human
    case IsActiveLesson => !f.human
    case VerifiedEvidence => f.verified
    case ReportedEvidence => f.reported
    case RecentLesson => f.recent
    case HighRiskThresholdPassed => f.high
  }

  function MatchCodes(f: Flags): seq<ReasonCode> {
    [DomainMatch] + When(f.task, ExactTaskTypeMatch) + When(f.tags, TagOverlap)
    + [if f.human then ApprovedByHuman else IsActiveLesson]
  }

  function CodesFor(f: Flags): seq<ReasonCode> {
    MatchCodes(f) + When(f.verified, VerifiedEvidence) + When(f.reported, ReportedEvidence)
    + When(f.recent, RecentLesson) + When(f.high, HighRiskThresholdPassed)
  }

  lemma CodesFollowFlags(q: Query, l: Lesson, evidence: seq<Evidence>, share: real)
    ensures ReasonCodes(q, l, evidence, share) == CodesFor(FlagsOf(q, l, evidence, share))
  {
  }

  lemma CodesInOrder(f: Flags)
    ensures Listed(CodesFor(f)) && forall code :: code in CodesFor(f) <==> Fires(f, code)
  {
    MatchCodesInOrder(f);
    var codes := AppendCode(MatchCodes(f), f.verified, VerifiedEvidence);
    codes := AppendCode(codes, f.reported, ReportedEvidence);
    codes := AppendCode(codes, f.recent, RecentLesson);
    codes := AppendCode(codes, f.high, HighRiskThresholdPassed);
  }

  lemma MatchCodesInOrder(f: Flags)
    ensures Listed(MatchCodes(f)) && forall code :: code in MatchCodes(f) <==> Position(code) < 5 && Fires(f, code)
  {
    var codes := AppendCode([DomainMatch], f.task, ExactTaskTypeMatch);
    codes := AppendCode(codes, f.tags, TagOverlap);
    codes := AppendCode(codes, true, if f.human then ApprovedByHuman else IsActiveLesson);
  }

  /** A later code keeps a list in order. */
  lemma AppendCode(codes: seq<ReasonCode>, condition: bool, code: ReasonCode) returns (more: seq<ReasonCode>)
    requires Listed(codes) && forall c :: c in codes ==> Position(c) < Position(code)
    ensures more == codes + When(condition, code) && Listed(more)
    ensures forall c :: c in more <==> c in codes || (condition && c == code)
  {
    more := codes + When(condition, code);
    assert forall i :: 0 <= i < |codes| ==> codes[i] in codes;
  }

  lemma LevelAppears(store: Store, l: Lesson, level: TrustLevel)
    ensures
      var evidence := EvidenceOf(store, l);
      (exists i | 0 <= i < |evidence| :: evidence[i].trust == level) <==> Trusted(store, CitedIds(store, l), level) != {}
  {
    EvidenceIsCited(store, l);
    var evidence := EvidenceOf(store, l);
    forall i | 0 <= i < |evidence| && evidence[i].trust == level ensures Trusted(store, CitedIds(store, l), level) != {} {
      assert evidence[i] in evidence;
      var id :| Cites(store, l.reflections, id) && store[id].evidence == evidence[i];
      assert id in Trusted(store, CitedIds(store, l), level);
    }
    if id :| id in Trusted(store, CitedIds(store, l), level) {
      assert store[id].evidence in evidence;
    }
  }

  /** The first has the higher score, or the same score and the lesser id. */
  predicate Ahead(a: Ranked, b: Ranked) {
    a.bucket >= b.bucket && (a.bucket == b.bucket ==> Less(a.lessonId, b.lessonId))
  }

  /** Results come with the highest score first, equal scores by id. */
  lemma RankedByScore(store: Store, q: Query, now: Instant, recency: Recency, lessons: seq<Lesson>, i: nat, j: nat)
    requires Lists(store, lessons) && i < j < |RecallOf(store, q, now, recency, lessons).results|
    ensures
      var results := RecallOf(store, q, now, recency, lessons).results;
      Ahead(results[i], results[j])
  {
    ResultsAreFirst(store, q, now, recency, lessons);
    assert Before(RecallOf(store, q, now, recency, lessons).results[i], RecallOf(store, q, now, recency, lessons).results[j]);
  }

  /** A lesson that passes every gate is left out only at the limit, behind every result. */
  lemma LeftOutIsBehind(store: Store, q: Query, now: Instant, recency: Recency, lessons: seq<Lesson>, id: string, c: Ranked)
    requires Lists(store, lessons) && Yields(store, q, now, recency, id, c)
    requires c !in RecallOf(store, q, now, recency, lessons).results
    ensures
      var results := RecallOf(store, q, now, recency, lessons).results;
      |results| == q.maxItems && forall r :: r in results ==> Ahead(r, c)
  {
    CandidatesOfStore(store, q, now, recency, lessons);
    var candidates := CandidatesOf(store, q, now, recency, lessons);
    assert c in candidates;
    RankingIsOrdered(store, q, now, recency, lessons);
    LastAreBehind(candidates, q.maxItems, c);
  }

  lemma LastAreBehind(candidates: seq<Ranked>, n: nat, c: Ranked)
    requires Ordered(SortRanked(candidates)) && c in candidates && c !in Take(SortRanked(candidates), n)
    ensures |Take(SortRanked(candidates), n)| == n
    ensures forall r :: r in Take(SortRanked(candidates), n) ==> Ahead(r, c)
  {
    if |candidates| <= n { AllAreTaken(candidates, n, c); }
    TakenAreFirst(SortRanked(candidates), n);
  }

  lemma AllAreTaken(candidates: seq<Ranked>, n: nat, c: Ranked)
    requires |candidates| <= n && c in candidates
    ensures c in Take(SortRanked(candidates), n)
  {
  }

  // --------------------------------------------------------------- provenance

  /** A stored record under its own kind; records of other kinds are not listed. */
  predicate NamesStored(store: Store, r: Ref) {
    && r.id in store
    && match store[r.id]
       case EvidenceRecord(_) => r.refType == EvidenceRef
       case Reflection(_, _) => r.refType == ReflectionRef
       case LessonRecord(_) => r.refType == LessonRef
       case OtherRecord(kind) => kind == Some(r.refType)
  }

  /** A reflection of the lesson, one of its sources, or evidence that it cites, under its own kind. */
  ghost predicate Behind(store: Store, l: Lesson, r: Ref) {
    exists id :: id in l.reflections && IsReflection(store, id) && NamesStored(store, r)
      && (r.id == id || r.id in store[id].sourceIds || (r.id in store[id].evidenceIds && store[r.id].EvidenceRecord?))
  }

  /**
   * The provenance of a stored lesson starts with the lesson, and lists, each once, exactly what lies
   * behind it.
   */
  lemma ProvenanceNamesStored(store: Store, l: Lesson, r: Ref)
    requires l.id in store && store[l.id].LessonRecord?
    ensures
      var p := ProvenanceOf(store, l);
      && |p| > 0 && p[0] == Ref(l.id, LessonRef) && NamesStored(store, p[0])
      && (r in p <==> r == p[0] || Behind(store, l, r))
      && forall i, j :: 0 <= i < j < |p| ==> p[i] != p[j]
  {
    ProvenanceExactlyWhen(store, l, r);
    StartsWithLesson(AllRefs(store, l));
    assert forall s :: RecordRef(store, s) == Some(r) <==> r.id == s && NamesStored(store, r);
  }

  lemma {:induction false} StartsWithLesson(refs: seq<Ref>)
    requires refs != []
    ensures |Dedup(refs)| > 0 && Dedup(refs)[0] == refs[0]
  {
    if |refs| > 1 {
      StartsWithLesson(refs[..|refs| - 1]);
    } else {
      assert refs[..0] == [];
    }
  }
}
