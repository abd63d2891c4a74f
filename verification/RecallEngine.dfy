/** `recall_with_diagnostics` on a record store (recall.py). */
module RecallEngine {
  import opened Base
  import opened TextOrder
  import opened Recall
  import opened RecallTheorems

  /** A record is stored under its own id. */
  ghost predicate Keyed(store: Store) {
    forall id :: id in store && store[id].LessonRecord? ==> store[id].lesson.id == id
  }

  /** `ORDER BY created_at, id`. */
  predicate CreatedBefore(a: Lesson, b: Lesson) {
    a.createdAt < b.createdAt || (a.createdAt == b.createdAt && Less(a.id, b.id))
  }

  ghost predicate ByCreation(lessons: seq<Lesson>) {
    forall i, j :: 0 <= i < j < |lessons| ==> CreatedBefore(lessons[i], lessons[j])
  }

  function InsertLesson(lessons: seq<Lesson>, x: Lesson): (r: seq<Lesson>)
    ensures forall l :: l in r <==> l in lessons || l == x
  {
    if lessons == [] || CreatedBefore(x, lessons[0]) then [x] + lessons
    else
      assert forall l :: l in lessons <==> l == lessons[0] || l in lessons[1..];
      [lessons[0]] + InsertLesson(lessons[1..], x)
  }

  lemma CreationOrders(a: Lesson, b: Lesson, c: Lesson)
    ensures a.id != b.id ==> CreatedBefore(a, b) || CreatedBefore(b, a)
    ensures CreatedBefore(a, b) && CreatedBefore(b, c) ==> CreatedBefore(a, c)
    ensures !CreatedBefore(a, a)
  {
    LessTotal(a.id, b.id);
    LessTotal(a.id, a.id);
    if Less(a.id, b.id) && Less(b.id, c.id) { LessTransitive(a.id, b.id, c.id); }
  }

  lemma {:induction false} InsertKeepsCreation(lessons: seq<Lesson>, x: Lesson)
    requires ByCreation(lessons) && forall l :: l in lessons ==> l.id != x.id
    ensures ByCreation(InsertLesson(lessons, x))
  {
    if lessons != [] {
      var head := lessons[0];
      assert head in lessons && forall l :: l in lessons[1..] ==> l in lessons && CreatedBefore(head, l);
      if CreatedBefore(x, head) {
        forall l | l in lessons ensures CreatedBefore(x, l) { CreationOrders(x, head, l); }
      } else {
        CreationOrders(head, x, x);
        InsertKeepsCreation(lessons[1..], x);
        assert forall l :: l in InsertLesson(lessons[1..], x) ==> CreatedBefore(head, l);
      }
    }
  }

  /** The lessons under some ids. */
  ghost predicate ListsUnder(store: Store, ids: set<string>, lessons: seq<Lesson>) {
    forall l :: l in lessons <==> l.id in ids && l.id in store && store[l.id] == LessonRecord(l)
  }

  /** `store.list("lesson")`. */
  method ListLessons(store: Store) returns (lessons: seq<Lesson>)
    requires Keyed(store)
    ensures Lists(store, lessons) && ByCreation(lessons)
  {
    lessons := [];
    var rest := store.Keys;
    while rest != {}
      invariant rest <= store.Keys && ListsUnder(store, store.Keys - rest, lessons) && ByCreation(lessons)
      decreases rest
    {
      var id :| id in rest;
      rest := rest - {id};
      if store[id].LessonRecord? {
        InsertKeepsCreation(lessons, store[id].lesson);
        lessons := InsertLesson(lessons, store[id].lesson);
      }
    }
    CreationIsDistinct(store, lessons);
  }

  lemma CreationIsDistinct(store: Store, lessons: seq<Lesson>)
    requires ByCreation(lessons) && ListsUnder(store, store.Keys, lessons)
    ensures DistinctIds(lessons)
  {
    forall i, j | 0 <= i < j < |lessons| ensures lessons[i].id != lessons[j].id {
      assert lessons[i] in lessons && lessons[j] in lessons;
      CreationOrders(lessons[i], lessons[i], lessons[i]);
    }
  }

  /**
   * `recall_with_diagnostics`: what the store holds determines the answer, whatever listing of its
   * lessons is taken.
   */
  method RecallWithDiagnostics(store: Store, q: Query, now: Instant, recency: Recency)
    returns (r: Execution, ghost lessons: seq<Lesson>)
    requires Keyed(store)
    ensures Lists(store, lessons) && r == RecallOf(store, q, now, recency, lessons)
    ensures forall other :: Lists(store, other) ==> r == RecallOf(store, q, now, recency, other)
  {
    var listed := ListLessons(store);
    lessons := listed;
    var candidates, counts := JudgeAll(store, q, now, recency, listed, EXCLUSIONS);
    r := Execution(Take(SortRanked(candidates), q.maxItems), counts);
    forall other | Lists(store, other) ensures r == RecallOf(store, q, now, recency, other) {
      RecallIgnoresStorageOrder(store, q, now, recency, listed, other);
    }
  }
}
