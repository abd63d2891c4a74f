/** Recall partitions the lessons and ranks the candidates deterministically. */
module RecallTheorems {
  import opened Base
  import opened TextOrder
  import opened Recall

  // ------------------------------------------------------------------- scores

  lemma JaccardBounds(left: set<string>, right: set<string>)
    ensures 0.0 <= Jaccard(left, right) <= 1.0
    ensures Jaccard(left, right) > 0.0 <==> left * right != {}
  {
    var (i, u) := (left * right, left + right);
    Subset(i, u);
    if u != {} {
      assert |u| > 0;
      Share(|i|, |u|);
      if i != {} { assert |i| > 0; }
    }
  }

  lemma Subset(a: set<string>, b: set<string>)
    requires a <= b
    ensures |a| <= |b|
  {
    assert b == a + (b - a);
  }

  lemma Share(part: nat, whole: nat)
    requires part <= whole && whole > 0
    ensures 0.0 <= part as real / whole as real <= 1.0
    ensures part as real / whole as real > 0.0 <==> part > 0
  {
  }

  lemma {:induction false} TrustBounds(evidence: seq<Evidence>)
    ensures 0.0 <= TrustSum(evidence) <= |evidence| as real
  {
    if evidence != [] { TrustBounds(evidence[..|evidence| - 1]); }
  }

  lemma TrustMeanBounds(evidence: seq<Evidence>)
    ensures 0.0 <= TrustMean(evidence) <= 1.0
  {
    TrustBounds(evidence);
    if evidence != [] { Quotient(TrustSum(evidence), |evidence| as real); }
  }

  lemma Quotient(x: real, n: real)
    requires 0.0 <= x <= n && n > 0.0
    ensures 0.0 <= x / n <= 1.0
  {
  }

  /** Rounding to millionths is off by at most half a millionth, and never reverses an order. */
  lemma BucketFollowsScore(a: real, b: real)
    ensures a * 1000000.0 - 0.5 <= Bucket(a) as real <= a * 1000000.0 + 0.5
    ensures a <= b ==> Bucket(a) <= Bucket(b)
  {
  }

  /** A candidate's score and what is published of it lie between 0 and 1. */
  lemma ScoresAreInRange(store: Store, q: Query, now: Instant, recency: Recency, l: Lesson)
    requires 0.0 <= l.confidence <= 1.0 && forall age :: 0.0 < recency(age) <= 1.0
    requires GateOf(store, q, now, recency, l).Candidate?
    ensures
      var score := GateOf(store, q, now, recency, l).score;
      && MinScore(q.risk) <= score <= 1.0
      && 0 <= Bucket(score) <= 1000000
  {
    var evidence := EvidenceOf(store, l);
    JaccardBounds(q.tags, l.tags);
    TrustMeanBounds(evidence);
    var score := FinalScore(q, l, evidence, now, recency);
    BucketFollowsScore(score, 1.0);
    BucketFollowsScore(0.0, score);
  }

  /**
   * Behind the domain gate, the scope gate admits exactly the lessons with the task type or a
   * common tag, so an explanation that claims shared tags without a task match is true.
   */
  lemma ScopeGateMeansOverlap(q: Query, l: Lesson)
    requires l.domain == Some(q.domain)
    ensures ScopeScore(q, l) > SCOPE_GATE <==> q.taskType in l.taskTypes || q.tags * l.tags != {}
  {
    JaccardBounds(q.tags, l.tags);
  }

  /** A lesson is a candidate exactly when it passes all seven gates. */
  lemma CandidateExactlyWhen(store: Store, q: Query, now: Instant, recency: Recency, l: Lesson)
    ensures GateOf(store, q, now, recency, l).Candidate? <==>
      && (l.status.HumanApproved? || l.status.ActiveLesson?)
      && l.effectiveFrom <= now && (l.expiresAt.Some? ==> now < l.expiresAt.value)
      && l.domain == Some(q.domain) && (q.taskType in l.taskTypes || q.tags * l.tags != {})
      && (forall id :: Cites(store, l.reflections, id) ==> AccessAllowed(q, store[id].evidence))
      && FinalScore(q, l, EvidenceOf(store, l), now, recency) >= MinScore(q.risk)
  {
    if l.domain == Some(q.domain) { ScopeGateMeansOverlap(q, l); }
    EvidenceIsCited(store, l);
    var evidence := EvidenceOf(store, l);
    if forall e :: e in evidence ==> AccessAllowed(q, e) {
      assert forall i :: 0 <= i < |evidence| ==> evidence[i] in evidence;
    }
  }

  lemma {:induction false} LoadMembers(store: Store, ids: seq<string>)
    requires forall id :: id in ids ==> IsEvidence(store, id)
    ensures |Load(store, ids)| == |ids|
    ensures forall i :: 0 <= i < |ids| ==> IsEvidence(store, ids[i]) && Load(store, ids)[i] == store[ids[i]].evidence
  {
    if ids != [] {
      var front := ids[..|ids| - 1];
      assert forall id :: id in front ==> id in ids && IsEvidence(store, id);
      LoadMembers(store, front);
      assert ids[|ids| - 1] in ids && IsEvidence(store, ids[|ids| - 1]);
    }
  }

  /** The evidence of a lesson is exactly what the hypotheses of its reflections cite. */
  lemma EvidenceIsCited(store: Store, l: Lesson)
    ensures forall e :: e in EvidenceOf(store, l) <==> exists id :: Cites(store, l.reflections, id) && store[id].evidence == e
  {
    CitedEvidenceMembers(store, l.reflections);
    var ids := SortDistinct(CitedEvidence(store, l.reflections));
    LoadMembers(store, ids);
    forall e | e in EvidenceOf(store, l) ensures exists id :: Cites(store, l.reflections, id) && store[id].evidence == e {
      var i :| 0 <= i < |ids| && Load(store, ids)[i] == e;
      assert ids[i] in ids && Cites(store, l.reflections, ids[i]);
    }
    forall id | Cites(store, l.reflections, id) ensures store[id].evidence in EvidenceOf(store, l) {
      assert id in ids;
      var i :| 0 <= i < |ids| && ids[i] == id;
      assert Load(store, ids)[i] == store[id].evidence;
    }
  }

  /** A candidate at a high risk level is a candidate, with the same score, at every lower level. */
  lemma LowerRiskAdmitsMore(store: Store, q: Query, risk: Risk, now: Instant, recency: Recency, l: Lesson)
    requires GateOf(store, q, now, recency, l).Candidate? && MinScore(risk) <= MinScore(q.risk)
    ensures GateOf(store, q.(risk := risk), now, recency, l) == GateOf(store, q, now, recency, l)
  {
    var q' := q.(risk := risk);
    assert forall e :: AccessAllowed(q', e) == AccessAllowed(q, e);
    assert ScopeScore(q', l) == ScopeScore(q, l);
  }

  // ---------------------------------------------------------------- partition

  function Sum(counts: map<Gate, nat>): nat
    requires counts.Keys == EXCLUSIONS
  {
    counts[ValidationRejected] + counts[NotYetEffective] + counts[Expired] + counts[DomainMismatch]
    + counts[InsufficientScope] + counts[AccessDenied] + counts[BelowRiskThreshold]
  }

  lemma {:induction false} GatesPartition(store: Store, q: Query, now: Instant, recency: Recency, lessons: seq<Lesson>)
    ensures
      CountOf(store, q, now, recency, lessons, ValidationRejected) + CountOf(store, q, now, recency, lessons, NotYetEffective)
      + CountOf(store, q, now, recency, lessons, Expired) + CountOf(store, q, now, recency, lessons, DomainMismatch)
      + CountOf(store, q, now, recency, lessons, InsufficientScope) + CountOf(store, q, now, recency, lessons, AccessDenied)
      + CountOf(store, q, now, recency, lessons, BelowRiskThreshold)
      + |CandidatesOf(store, q, now, recency, lessons)| == |lessons|
  {
    if lessons != [] {
      GatesPartition(store, q, now, recency, lessons[..|lessons| - 1]);
    }
  }

  /** Every lesson is in exactly one of the seven counters or is a candidate. */
  lemma RecallPartitions(store: Store, q: Query, now: Instant, recency: Recency, lessons: seq<Lesson>)
    ensures Sum(RecallOf(store, q, now, recency, lessons).counts)
      + |CandidatesOf(store, q, now, recency, lessons)| == |lessons|
  {
    GatesPartition(store, q, now, recency, lessons);
  }

  // ------------------------------------------------------------------ ranking

  ghost predicate Ordered(ranked: seq<Ranked>) {
    forall i, j :: 0 <= i < j < |ranked| ==> Before(ranked[i], ranked[j])
  }

  lemma BeforeOrders(a: Ranked, b: Ranked, c: Ranked)
    ensures !(Before(a, b) && Before(b, a)) && !Before(a, a)
    ensures a.lessonId != b.lessonId ==> Before(a, b) || Before(b, a)
    ensures Before(a, b) && Before(b, c) ==> Before(a, c)
  {
    LessTotal(a.lessonId, b.lessonId);
    LessTotal(a.lessonId, a.lessonId);
    if Less(a.lessonId, b.lessonId) && Less(b.lessonId, c.lessonId) {
      LessTransitive(a.lessonId, b.lessonId, c.lessonId);
    }
  }

  lemma {:induction false} InsertKeepsOrder(ranked: seq<Ranked>, x: Ranked)
    requires Ordered(ranked) && forall y :: y in ranked ==> y.lessonId != x.lessonId
    ensures Ordered(InsertRanked(ranked, x))
  {
    if ranked != [] {
      var head := ranked[0];
      assert head in ranked && forall y :: y in ranked[1..] ==> y in ranked && Before(head, y);
      if Before(x, head) {
        forall y | y in ranked ensures Before(x, y) { BeforeOrders(x, head, y); }
      } else {
        BeforeOrders(x, head, x);
        InsertKeepsOrder(ranked[1..], x);
        assert forall y :: y in InsertRanked(ranked[1..], x) ==> Before(head, y);
      }
    }
  }

  ghost predicate DistinctRanked(candidates: seq<Ranked>) {
    forall i, j :: 0 <= i < j < |candidates| ==> candidates[i].lessonId != candidates[j].lessonId
  }

  lemma {:induction false} SortOrders(candidates: seq<Ranked>)
    requires DistinctRanked(candidates)
    ensures Ordered(SortRanked(candidates))
  {
    if candidates != [] {
      var (front, last) := (candidates[..|candidates| - 1], candidates[|candidates| - 1]);
      SortOrders(front);
      forall y | y in SortRanked(front) ensures y.lessonId != last.lessonId { assert y in front; }
      InsertKeepsOrder(SortRanked(front), last);
    }
  }

  lemma {:induction false} OrderedIsUnique(a: seq<Ranked>, b: seq<Ranked>)
    requires Ordered(a) && Ordered(b) && forall y :: y in a <==> y in b
    ensures a == b
  {
    assert a != [] ==> a[0] in b;
    assert b != [] ==> b[0] in a;
    if a != [] {
      BeforeOrders(a[0], b[0], a[0]);
      assert a[0] == b[0];
      forall y ensures y in a[1..] <==> y in b[1..] {
        BeforeOrders(y, y, y);
        if y in a[1..] { assert y in b; }
        if y in b[1..] { assert y in a; }
      }
      OrderedIsUnique(a[1..], b[1..]);
    }
  }

  /** The lesson passes every gate, with this result. */
  ghost predicate Gives(store: Store, q: Query, now: Instant, recency: Recency, l: Lesson, r: Ranked) {
    GateOf(store, q, now, recency, l).Candidate? && r == ResultOf(store, q, now, recency, l)
  }

  lemma {:induction false} CandidateMembers(store: Store, q: Query, now: Instant, recency: Recency, lessons: seq<Lesson>)
    ensures forall r :: r in CandidatesOf(store, q, now, recency, lessons) <==>
      exists l :: l in lessons && Gives(store, q, now, recency, l, r)
  {
    if lessons != [] {
      var (front, last) := (lessons[..|lessons| - 1], lessons[|lessons| - 1]);
      CandidateMembers(store, q, now, recency, front);
      assert lessons == front + [last];
      forall r ensures r in CandidatesOf(store, q, now, recency, lessons) <==>
        r in CandidatesOf(store, q, now, recency, front) || Gives(store, q, now, recency, last, r) { }
    }
  }

  lemma {:induction false} CandidatesDistinct(store: Store, q: Query, now: Instant, recency: Recency, lessons: seq<Lesson>)
    requires DistinctIds(lessons)
    ensures DistinctRanked(CandidatesOf(store, q, now, recency, lessons))
  {
    if lessons != [] {
      var (n, front) := (|lessons| - 1, lessons[..|lessons| - 1]);
      CandidatesDistinct(store, q, now, recency, front);
      CandidateMembers(store, q, now, recency, front);
      var before := CandidatesOf(store, q, now, recency, front);
      forall k | 0 <= k < |before| ensures before[k].lessonId != lessons[n].id {
        assert before[k] in before;
        var l :| l in front && Gives(store, q, now, recency, l, before[k]);
        var i :| 0 <= i < |front| && front[i] == l;
      }
    }
  }

  lemma RankingIsOrdered(store: Store, q: Query, now: Instant, recency: Recency, lessons: seq<Lesson>)
    requires DistinctIds(lessons)
    ensures Ordered(SortRanked(CandidatesOf(store, q, now, recency, lessons)))
  {
    CandidatesDistinct(store, q, now, recency, lessons);
    SortOrders(CandidatesOf(store, q, now, recency, lessons));
  }

  /**
   * The results are the first `max_items` candidates by bucket descending, then id ascending: they
   * are in that order, every result is a candidate, a candidate is only left out when the limit is
   * reached, and then it comes after every result.
   */
  lemma ResultsAreFirst(store: Store, q: Query, now: Instant, recency: Recency, lessons: seq<Lesson>)
    requires Lists(store, lessons)
    ensures
      var results := RecallOf(store, q, now, recency, lessons).results;
      var candidates := CandidatesOf(store, q, now, recency, lessons);
      && Ordered(results) && |results| == (if q.maxItems < |candidates| then q.maxItems else |candidates|)
      && (forall r :: r in results ==> r in candidates)
      && (forall r, c :: r in results && c in candidates && c !in results ==> Before(r, c))
      && (forall r :: r in candidates <==> exists id :: Yields(store, q, now, recency, id, r))
  {
    RankingIsOrdered(store, q, now, recency, lessons);
    CandidatesOfStore(store, q, now, recency, lessons);
    TakenAreFirst(SortRanked(CandidatesOf(store, q, now, recency, lessons)), q.maxItems);
  }

  /** A stored lesson that passes every gate, and its result. */
  ghost predicate Yields(store: Store, q: Query, now: Instant, recency: Recency, id: string, r: Ranked) {
    && id in store && store[id].LessonRecord? && store[id].lesson.id == id
    && GateOf(store, q, now, recency, store[id].lesson).Candidate?
    && r == ResultOf(store, q, now, recency, store[id].lesson)
  }

  lemma CandidatesOfStore(store: Store, q: Query, now: Instant, recency: Recency, lessons: seq<Lesson>)
    requires Lists(store, lessons)
    ensures forall r :: r in CandidatesOf(store, q, now, recency, lessons) <==>
      exists id :: Yields(store, q, now, recency, id, r)
  {
    CandidateMembers(store, q, now, recency, lessons);
    forall r | r in CandidatesOf(store, q, now, recency, lessons) ensures exists id :: Yields(store, q, now, recency, id, r) {
      var l :| l in lessons && Gives(store, q, now, recency, l, r);
      assert Yields(store, q, now, recency, l.id, r);
    }
    forall id, r | Yields(store, q, now, recency, id, r) ensures r in CandidatesOf(store, q, now, recency, lessons) {
      assert store[id].lesson in lessons && Gives(store, q, now, recency, store[id].lesson, r);
    }
  }

  /** An explanation is true: a result without a task match shares tags, and its codes say so. */
  lemma CodesTellTheMatch(store: Store, q: Query, now: Instant, recency: Recency, id: string, r: Ranked)
    requires Yields(store, q, now, recency, id, r)
    ensures
      var l := store[id].lesson;
      && (ExactTaskTypeMatch in r.codes <==> q.taskType in l.taskTypes)
      && (TagOverlap in r.codes <==> q.tags * l.tags != {})
      && (ExactTaskTypeMatch in r.codes || TagOverlap in r.codes)
      && (VerifiedEvidence in r.codes <==>
            exists e :: Cites(store, l.reflections, e) && store[e].evidence.trust.Verified?)
  {
    var l := store[id].lesson;
    JaccardBounds(q.tags, l.tags);
    ScopeGateMeansOverlap(q, l);
    EvidenceIsCited(store, l);
    CodesOf(q, l, EvidenceOf(store, l), recency(Age(l, now)));
    SomeVerified(store, l);
  }

  lemma CodesOf(q: Query, l: Lesson, evidence: seq<Evidence>, share: real)
    ensures
      var codes := ReasonCodes(q, l, evidence, share);
      && (ExactTaskTypeMatch in codes <==> q.taskType in l.taskTypes)
      && (TagOverlap in codes <==> Jaccard(q.tags, l.tags) > 0.0)
      && (VerifiedEvidence in codes <==> exists i | 0 <= i < |evidence| :: evidence[i].trust.Verified?)
  {
  }

  lemma SomeVerified(store: Store, l: Lesson)
    ensures
      var evidence := EvidenceOf(store, l);
      (exists i | 0 <= i < |evidence| :: evidence[i].trust.Verified?) <==>
      (exists e :: Cites(store, l.reflections, e) && store[e].evidence.trust.Verified?)
  {
    EvidenceIsCited(store, l);
    var evidence := EvidenceOf(store, l);
    forall i | 0 <= i < |evidence| && evidence[i].trust.Verified?
      ensures exists e :: Cites(store, l.reflections, e) && store[e].evidence.trust.Verified?
    {
      assert evidence[i] in evidence;
    }
    forall e | Cites(store, l.reflections, e) && store[e].evidence.trust.Verified?
      ensures exists i | 0 <= i < |evidence| :: evidence[i].trust.Verified?
    {
      assert store[e].evidence in evidence;
      var i :| 0 <= i < |evidence| && evidence[i] == store[e].evidence;
      assert evidence[i].trust.Verified?;
    }
  }

  lemma TakenAreFirst(ranked: seq<Ranked>, n: nat)
    requires Ordered(ranked)
    ensures Ordered(Take(ranked, n)) && forall r :: r in Take(ranked, n) ==> r in ranked
    ensures forall r, c :: r in Take(ranked, n) && c in ranked && c !in Take(ranked, n) ==> Before(r, c)
  {
    var taken := Take(ranked, n);
    assert forall k :: 0 <= k < |taken| ==> ranked[k] == taken[k] && taken[k] in taken;
    forall r, c | r in taken && c in ranked && c !in taken ensures Before(r, c) {
      var i :| 0 <= i < |taken| && taken[i] == r;
      var j :| 0 <= j < |ranked| && ranked[j] == c;
      assert i < j;
    }
  }

  // ------------------------------------------------------- independence of order

  function CountIf(p: Lesson -> bool, lessons: seq<Lesson>): nat {
    if lessons == [] then 0
    else CountIf(p, lessons[..|lessons| - 1]) + (if p(lessons[|lessons| - 1]) then 1 else 0)
  }

  ghost function Passing(p: Lesson -> bool, lessons: seq<Lesson>): set<Lesson> {
    set l | l in lessons && p(l)
  }

  lemma PassingSnoc(p: Lesson -> bool, front: seq<Lesson>, last: Lesson)
    requires last !in front
    ensures |Passing(p, front + [last])| == |Passing(p, front)| + (if p(last) then 1 else 0)
  {
    assert forall l :: l in front + [last] <==> l in front || l == last;
    assert Passing(p, front + [last]) == Passing(p, front) + if p(last) then {last} else {};
  }

  lemma {:induction false} CountIfIsCardinality(p: Lesson -> bool, lessons: seq<Lesson>)
    requires DistinctIds(lessons)
    ensures CountIf(p, lessons) == |Passing(p, lessons)|
  {
    if lessons != [] {
      var (front, last) := (lessons[..|lessons| - 1], lessons[|lessons| - 1]);
      CountIfIsCardinality(p, front);
      assert lessons == front + [last];
      PassingSnoc(p, front, last);
    }
  }

  lemma {:induction false} CountIsCountIf(
    store: Store, q: Query, now: Instant, recency: Recency, lessons: seq<Lesson>, gate: Gate)
    ensures CountOf(store, q, now, recency, lessons, gate)
      == CountIf(l => GateOf(store, q, now, recency, l) == gate, lessons)
  {
    if lessons != [] {
      CountIsCountIf(store, q, now, recency, lessons[..|lessons| - 1], gate);
    }
  }

  lemma SameCounts(p: Lesson -> bool, a: seq<Lesson>, b: seq<Lesson>)
    requires DistinctIds(a) && DistinctIds(b) && forall l :: l in a <==> l in b
    ensures CountIf(p, a) == CountIf(p, b)
  {
    CountIfIsCardinality(p, a);
    CountIfIsCardinality(p, b);
    assert Passing(p, a) == Passing(p, b);
  }

  /** Recall does not depend on the order in which the store lists the lessons. */
  lemma RecallIgnoresStorageOrder(
    store: Store, q: Query, now: Instant, recency: Recency, a: seq<Lesson>, b: seq<Lesson>)
    requires Lists(store, a) && Lists(store, b)
    ensures RecallOf(store, q, now, recency, a) == RecallOf(store, q, now, recency, b)
  {
    RankingIsOrdered(store, q, now, recency, a);
    RankingIsOrdered(store, q, now, recency, b);
    SameCandidates(store, q, now, recency, a, b);
    SameCandidates(store, q, now, recency, b, a);
    OrderedIsUnique(SortRanked(CandidatesOf(store, q, now, recency, a)), SortRanked(CandidatesOf(store, q, now, recency, b)));
    forall gate ensures CountOf(store, q, now, recency, a, gate) == CountOf(store, q, now, recency, b, gate) {
      CountIsCountIf(store, q, now, recency, a, gate);
      CountIsCountIf(store, q, now, recency, b, gate);
      SameCounts(l => GateOf(store, q, now, recency, l) == gate, a, b);
    }
  }

  lemma SameCandidates(store: Store, q: Query, now: Instant, recency: Recency, a: seq<Lesson>, b: seq<Lesson>)
    requires forall l :: l in a ==> l in b
    ensures forall r :: r in CandidatesOf(store, q, now, recency, a) ==> r in CandidatesOf(store, q, now, recency, b)
  {
    CandidateMembers(store, q, now, recency, a);
    CandidateMembers(store, q, now, recency, b);
  }

  /** A larger limit only extends the results, and leaves the counters as they are. */
  lemma LargerLimitExtends(store: Store, q: Query, more: nat, now: Instant, recency: Recency, lessons: seq<Lesson>)
    requires q.maxItems <= more
    ensures
      var (a, b) := (RecallOf(store, q, now, recency, lessons), RecallOf(store, q.(maxItems := more), now, recency, lessons));
      a.results <= b.results && a.counts == b.counts
  {
    SameJudgement(store, q, q.(maxItems := more), now, recency, lessons);
  }

  lemma {:induction false} SameJudgement(
    store: Store, q: Query, q': Query, now: Instant, recency: Recency, lessons: seq<Lesson>)
    requires q' == q.(maxItems := q'.maxItems)
    ensures CandidatesOf(store, q', now, recency, lessons) == CandidatesOf(store, q, now, recency, lessons)
    ensures forall g :: CountOf(store, q', now, recency, lessons, g) == CountOf(store, q, now, recency, lessons, g)
  {
    if lessons != [] {
      var l := lessons[|lessons| - 1];
      assert forall e :: AccessAllowed(q', e) == AccessAllowed(q, e);
      assert ScopeScore(q', l) == ScopeScore(q, l);
      assert GateOf(store, q', now, recency, l) == GateOf(store, q, now, recency, l);
      assert ResultOf(store, q', now, recency, l) == ResultOf(store, q, now, recency, l);
      SameJudgement(store, q, q', now, recency, lessons[..|lessons| - 1]);
    }
  }

  // --------------------------------------------------------------- provenance

  lemma {:induction false} DedupMembers(refs: seq<Ref>)
    ensures forall r :: r in Dedup(refs) <==> r in refs
    ensures forall i, j :: 0 <= i < j < |Dedup(refs)| ==> Dedup(refs)[i] != Dedup(refs)[j]
  {
    if refs != [] {
      DedupMembers(refs[..|refs| - 1]);
      assert refs == refs[..|refs| - 1] + [refs[|refs| - 1]];
    }
  }

  /** The reference is a source of some reflection in the list, or the reflection itself. */
  ghost predicate FromReflection(store: Store, reflections: seq<string>, r: Ref) {
    exists id :: id in reflections && IsReflection(store, id)
      && (r == Ref(id, ReflectionRef) || exists s :: s in store[id].sourceIds && RecordRef(store, s) == Some(r))
  }

  lemma {:induction false} SourceRefMembers(store: Store, ids: seq<string>)
    ensures forall r :: r in SourceRefs(store, ids) <==> exists s :: s in ids && RecordRef(store, s) == Some(r)
  {
    if ids != [] {
      SourceRefMembers(store, ids[..|ids| - 1]);
      assert ids == ids[..|ids| - 1] + [ids[|ids| - 1]];
    }
  }

  lemma {:induction false} ReflectionRefMembers(store: Store, reflections: seq<string>)
    ensures forall r :: r in ReflectionRefs(store, reflections) <==> FromReflection(store, reflections, r)
  {
    if reflections != [] {
      var (front, last) := (reflections[..|reflections| - 1], reflections[|reflections| - 1]);
      ReflectionRefMembers(store, front);
      assert reflections == front + [last];
      if IsReflection(store, last) { SourceRefMembers(store, store[last].sourceIds); }
    }
  }

  /**
   * The provenance of a lesson lists, each once, exactly the lesson, its stored reflections and
   * their stored sources, and the evidence of their hypotheses.
   */
  lemma ProvenanceExactlyWhen(store: Store, l: Lesson, r: Ref)
    ensures r in ProvenanceOf(store, l) <==>
      || r == Ref(l.id, LessonRef)
      || FromReflection(store, l.reflections, r)
      || (r.refType.EvidenceRef? && Cites(store, l.reflections, r.id))
    ensures
      var p := ProvenanceOf(store, l);
      forall i, j :: 0 <= i < j < |p| ==> p[i] != p[j]
  {
    DedupMembers(AllRefs(store, l));
    ReflectionRefMembers(store, l.reflections);
    CitedEvidenceMembers(store, l.reflections);
    EvidenceRefMembers(SortDistinct(CitedEvidence(store, l.reflections)));
  }

  lemma {:induction false} EvidenceRefMembers(ids: seq<string>)
    ensures forall r :: r in EvidenceRefs(ids) <==> r.refType.EvidenceRef? && r.id in ids
  {
    if ids != [] {
      EvidenceRefMembers(ids[..|ids| - 1]);
      assert ids == ids[..|ids| - 1] + [ids[|ids| - 1]];
    }
  }
}
