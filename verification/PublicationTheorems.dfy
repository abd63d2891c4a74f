/** Publication is safe against a stop in any filesystem step, and never conflicts. */
module PublicationTheorems {
  import opened Base
  import opened TextOrder
  import opened Publication

  // -------------------------------------------------------------- invariants

  /** A published set verifies, and is named by the digest of its manifest. */
  ghost predicate SetOk(tree: Tree, id: Digest, codec: Codec) {
    VerifySet(tree, codec).Ok? && ManifestDigest(tree) == id
  }

  ghost predicate PointsTo(d: Disk, id: Digest) {
    d.current == Some(Complete(PointerTo(id))) && Published(id) in d.sets
  }

  ghost predicate Inv(d: Disk, codec: Codec) {
    && (forall id {:trigger Published(id)} :: Published(id) in d.sets ==> SetOk(d.sets[Published(id)], id, codec))
    && (d.current.Some? ==> exists id :: PointsTo(d, id))
  }

  /** Published sets stay as they are. */
  ghost predicate KeepsSets(d: Disk, d': Disk) {
    forall id {:trigger Published(id)} :: Published(id) in d.sets ==>
      Published(id) in d'.sets && d'.sets[Published(id)] == d.sets[Published(id)]
  }

  /** What publishing `id` may do to a disk, wherever it stops. */
  ghost predicate Safe(d: Disk, d': Disk, codec: Codec, id: Digest) {
    && Inv(d', codec) && KeepsSets(d, d')
    && (d'.current == d.current || PointsTo(d', id))
  }

  lemma SafeTransitive(a: Disk, b: Disk, c: Disk, codec: Codec, id: Digest)
    requires Safe(a, b, codec, id) && Safe(b, c, codec, id)
    ensures Safe(a, c, codec, id)
  {
    if c.current == b.current && PointsTo(b, id) {
      assert PointsTo(c, id);
    }
  }

  /** When a step is safe: a rename publishes a verified set under a new name, a swap points to it. */
  ghost predicate Guarded(d: Disk, step: FsStep, codec: Codec, id: Digest) {
    match step
    case RenameSet(n, name) =>
      name == id && Published(id) !in d.sets && SetOk(TreeAt(d, Staging(n)), id, codec)
    case SwapPointer(k) => k in d.temps && d.temps[k] == Complete(PointerTo(id)) && Published(id) in d.sets
    case _ => true
  }

  ghost predicate AllGuarded(d: Disk, steps: seq<FsStep>, codec: Codec, id: Digest)
    decreases |steps|
  {
    steps != [] ==> Guarded(d, steps[0], codec, id) && AllGuarded(Apply(d, steps[0]), steps[1..], codec, id)
  }

  lemma StepIsSafe(d: Disk, step: FsStep, codec: Codec, id: Digest)
    requires Inv(d, codec) && Guarded(d, step, codec, id)
    ensures Safe(d, Apply(d, step), codec, id)
  {
    var d' := Apply(d, step);
    if d'.current == d.current && d.current.Some? {
      var p :| PointsTo(d, p);
      assert PointsTo(d', p);
    }
    if step.SwapPointer? {
      assert PointsTo(d', id);
    }
  }

  lemma InterruptionIsSafe(d: Disk, step: FsStep, damage: Damage, codec: Codec, id: Digest)
    requires Inv(d, codec)
    ensures Safe(d, Interrupted(d, step, damage), codec, id)
  {
    var d' := Interrupted(d, step, damage);
    if d.current.Some? {
      var p :| PointsTo(d, p);
      assert PointsTo(d', p);
    }
  }

  lemma {:induction false} StopIsSafe(d: Disk, steps: seq<FsStep>, at: nat, damage: Damage, codec: Codec, id: Digest)
    requires Inv(d, codec) && AllGuarded(d, steps, codec, id)
    ensures Safe(d, CrashAt(d, steps, at, damage), codec, id)
    decreases |steps|
  {
    if steps == [] {
    } else if at == 0 {
      InterruptionIsSafe(d, steps[0], damage, codec, id);
      assert steps[..0] == [];
    } else {
      var d' := Apply(d, steps[0]);
      StepIsSafe(d, steps[0], codec, id);
      StopIsSafe(d', steps[1..], at - 1, damage, codec, id);
      assert at < |steps| ==> steps[..at][1..] == steps[1..][..at - 1];
      assert CrashAt(d, steps, at, damage) == CrashAt(d', steps[1..], at - 1, damage);
      SafeTransitive(d, d', CrashAt(d', steps[1..], at - 1, damage), codec, id);
    }
  }

  lemma {:induction false} ExecConcat(d: Disk, a: seq<FsStep>, b: seq<FsStep>)
    ensures Exec(d, a + b) == Exec(Exec(d, a), b)
    decreases |a|
  {
    if a == [] {
      assert a + b == b;
    } else {
      ExecConcat(Apply(d, a[0]), a[1..], b);
      assert (a + b)[1..] == a[1..] + b;
    }
  }

  lemma {:induction false} GuardedConcat(d: Disk, a: seq<FsStep>, b: seq<FsStep>, codec: Codec, id: Digest)
    requires AllGuarded(d, a, codec, id) && AllGuarded(Exec(d, a), b, codec, id)
    ensures AllGuarded(d, a + b, codec, id)
    decreases |a|
  {
    if a == [] {
      assert a + b == b;
    } else {
      GuardedConcat(Apply(d, a[0]), a[1..], b, codec, id);
      assert (a + b)[1..] == a[1..] + b;
    }
  }

  // --------------------------------------------------- the steps of one call

  /** Steps that touch neither a published set nor the current pointer. */
  predicate Harmless(steps: seq<FsStep>) {
    forall s :: s in steps ==> !s.RenameSet? && !s.SwapPointer?
  }

  lemma {:induction false} HarmlessIsGuarded(d: Disk, steps: seq<FsStep>, codec: Codec, id: Digest)
    requires Harmless(steps)
    ensures AllGuarded(d, steps, codec, id)
    decreases |steps|
  {
    if steps != [] {
      assert steps[0] in steps && forall s :: s in steps[1..] ==> s in steps;
      HarmlessIsGuarded(Apply(d, steps[0]), steps[1..], codec, id);
    }
  }

  lemma {:induction false} WritesAreHarmless(n: nat, entries: seq<Entry>, texts: seq<Texts>)
    requires |entries| == |texts|
    ensures Harmless(FileWrites(n, entries, texts))
  {
    if entries != [] {
      WritesAreHarmless(n, entries[..|entries| - 1], texts[..|entries| - 1]);
    }
  }

  lemma PointerStepsGuarded(d: Disk, k: nat, codec: Codec, id: Digest)
    requires Published(id) in d.sets
    ensures AllGuarded(d, PointerSteps(k, id), codec, id)
    ensures PointsTo(Exec(d, PointerSteps(k, id)), id) && Exec(d, PointerSteps(k, id)).sets == d.sets
  {
    var steps := PointerSteps(k, id);
    var d1 := Apply(d, steps[0]);
    assert steps[1..] == [SwapPointer(k)] && steps[1..][1..] == [];
    assert Exec(d, steps) == Exec(d1, steps[1..]) == Exec(Apply(d1, SwapPointer(k)), []);
  }

  /** One step in front of the pointer steps. */
  lemma FirstThenPoint(d: Disk, first: FsStep, k: nat, codec: Codec, id: Digest)
    requires Guarded(d, first, codec, id) && Published(id) in Apply(d, first).sets
    ensures
      var steps := [first] + PointerSteps(k, id);
      && AllGuarded(d, steps, codec, id)
      && PointsTo(Exec(d, steps), id) && Exec(d, steps).sets == Apply(d, first).sets
  {
    var steps := [first] + PointerSteps(k, id);
    assert steps[1..] == PointerSteps(k, id);
    PointerStepsGuarded(Apply(d, first), k, codec, id);
  }

  /**
   * Publishing a verified staged set takes only guarded steps, never conflicts with what is
   * published, and ends with the pointer at a set of exactly the staged content.
   */
  lemma PublishIsGuarded(d: Disk, n: nat, k: nat, codec: Codec)
    requires Inv(d, codec) && VerifySet(TreeAt(d, Staging(n)), codec).Ok?
    ensures
      var tree := TreeAt(d, Staging(n));
      var (o, id) := (Publish(d, n, k), ManifestDigest(tree));
      && o.result == Ok(id) && AllGuarded(d, o.steps, codec, id)
      && |o.steps| > 0 && NoSwap(o.steps[..|o.steps| - 1])
      && PointsTo(Exec(d, o.steps), id) && Exec(d, o.steps).sets[Published(id)] == tree
  {
    var tree := TreeAt(d, Staging(n));
    var id := ManifestDigest(tree);
    VerifiedHasNoLinks(tree, codec);
    if Published(id) in d.sets {
      var published := d.sets[Published(id)];
      assert SetOk(published, id, codec);
      VerifiedHasNoLinks(published, codec);
      ManifestDeterminesTree(published, tree, codec);
      FirstThenPoint(d, RemoveStaged(n), k, codec, id);
    } else {
      FirstThenPoint(d, RenameSet(n, id), k, codec, id);
    }
  }

  lemma VerifiedHasNoLinks(tree: Tree, codec: Codec)
    requires VerifySet(tree, codec).Ok?
    ensures NoLinks(tree)
  {
    VerifiesExactlyWhen(tree, MANIFEST_FILE, VerifySet(tree, codec).value.integrity.value);
  }

  predicate NoSwap(steps: seq<FsStep>) { forall s :: s in steps ==> !s.SwapPointer? }

  /** The rest of a call, from the disk it starts on: guarded, without conflict, the swap at the end. */
  ghost predicate GoodOutcome(d: Disk, o: Outcome, codec: Codec, id: Digest) {
    && AllGuarded(d, o.steps, codec, id)
    && o.result != Err(ContentConflict)
    && o.steps != []
    && NoSwap(if o.result.Ok? then o.steps[..|o.steps| - 1] else o.steps)
    && (o.result.Ok? ==> o.result.value == id && PointsTo(Exec(d, o.steps), id))
  }

  lemma ThenIsGood(d: Disk, steps: seq<FsStep>, rest: Outcome, codec: Codec, id: Digest)
    requires AllGuarded(d, steps, codec, id) && NoSwap(steps) && GoodOutcome(Exec(d, steps), rest, codec, id)
    ensures GoodOutcome(d, Then(steps, rest), codec, id)
  {
    GuardedConcat(d, steps, rest.steps, codec, id);
    ExecConcat(d, steps, rest.steps);
    var all := steps + rest.steps;
    assert all[..|all| - 1] == steps + rest.steps[..|rest.steps| - 1];
  }

  lemma CleanupIsGood(d: Disk, n: nat, error: PublishError, codec: Codec, id: Digest)
    requires error != ContentConflict
    ensures GoodOutcome(d, Outcome([RemoveStaged(n)], Err(error)), codec, id)
  {
    HarmlessIsGuarded(d, [RemoveStaged(n)], codec, id);
  }

  lemma IndexErrorIsNoConflict(tree: Tree, manifestName: string, files: seq<FileDigest>)
    ensures IndexError(tree, manifestName, files) != Some(ContentConflict)
  {
    if manifestName !in Expected(files) && (forall p :: p in tree ==> tree[p].File?) && Expected(files) <= tree.Keys {
      assert forall f :: f in files ==> f.path in Expected(files);
      MismatchIsNoConflict(tree, files);
    }
  }

  lemma {:induction false} MismatchIsNoConflict(tree: Tree, files: seq<FileDigest>)
    requires forall f :: f in files ==> f.path in tree && tree[f.path].File?
    ensures FirstMismatch(tree, files) != Some(ContentConflict)
    decreases |files|
  {
    if files != [] {
      assert forall f :: f in files[1..] ==> f in files;
      MismatchIsNoConflict(tree, files[1..]);
    }
  }

  lemma VerifyErrorIsNoConflict(tree: Tree, codec: Codec)
    ensures VerifySet(tree, codec) != Err(ContentConflict)
  {
    if IsFile(tree, MANIFEST_FILE) {
      var m := codec.parse(tree[MANIFEST_FILE].bytes);
      if m.Some? && m.value.integrity.Some? {
        IndexErrorIsNoConflict(tree, MANIFEST_FILE, m.value.integrity.value);
      }
    }
  }

  lemma VerifyAndPublishIsGood(d: Disk, c: Call, codec: Codec) returns (id: Digest)
    requires Inv(d, codec)
    ensures GoodOutcome(d, VerifyAndPublish(d, c, codec), codec, id)
  {
    var tree := TreeAt(d, Staging(c.n));
    var verified := VerifySet(tree, codec);
    if verified.Err? {
      id := Sha256("");
      VerifyErrorIsNoConflict(tree, codec);
      CleanupIsGood(d, c.n, verified.error, codec, id);
    } else {
      id := ManifestDigest(tree);
      PublishIsGuarded(d, c.n, c.k, codec);
    }
  }

  lemma IndexAndPublishIsGood(d: Disk, c: Call, codec: Codec) returns (id: Digest)
    requires Inv(d, codec)
    ensures GoodOutcome(d, IndexAndPublish(d, c, codec), codec, id)
  {
    var index := BuildIndex(TreeAt(d, Staging(c.n)), ArtifactPaths(c.manifest.entries));
    if index.Err? {
      id := Sha256("");
      CleanupIsGood(d, c.n, index.error, codec, id);
    } else {
      var write := WriteStaged(c.n, MANIFEST_FILE, codec.render(c.manifest.(integrity := Some(index.value))));
      StepIsSafe(d, write, codec, Sha256(""));
      var d1 := Apply(d, write);
      id := VerifyAndPublishIsGood(d1, c, codec);
      HarmlessIsGuarded(d, [write], codec, id);
      assert Exec(d, [write]) == d1 by { assert [write][1..] == []; }
      ThenIsGood(d, [write], VerifyAndPublish(d1, c, codec), codec, id);
    }
  }

  lemma StagingStaysSafe(d: Disk, c: Call, codec: Codec, id: Digest)
    requires Inv(d, codec)
    ensures AllGuarded(d, StagingSteps(c), codec, id) && NoSwap(StagingSteps(c)) && Inv(Exec(d, StagingSteps(c)), codec)
  {
    var common := if |c.texts| < |c.manifest.entries| then |c.texts| else |c.manifest.entries|;
    WritesAreHarmless(c.n, c.manifest.entries[..common], c.texts[..common]);
    var steps := StagingSteps(c);
    HarmlessIsGuarded(d, steps, codec, id);
    StopIsSafe(d, steps, |steps|, Damage("", {}), codec, id);
  }

  lemma WriteBundleIsGood(d: Disk, c: Call, codec: Codec) returns (id: Digest)
    requires Inv(d, codec)
    ensures GoodOutcome(d, WriteBundle(d, c, codec), codec, id)
  {
    var staging := StagingSteps(c);
    StagingStaysSafe(d, c, codec, Sha256(""));
    var d1 := Exec(d, staging);
    if |c.texts| != |c.manifest.entries| {
      id := Sha256("");
      StagingStaysSafe(d, c, codec, id);
      CleanupIsGood(d1, c.n, LengthsDiffer, codec, id);
      ThenIsGood(d, staging, Outcome([RemoveStaged(c.n)], Err(LengthsDiffer)), codec, id);
    } else {
      id := IndexAndPublishIsGood(d1, c, codec);
      StagingStaysSafe(d, c, codec, id);
      ThenIsGood(d, staging, IndexAndPublish(d1, c, codec), codec, id);
    }
  }

  // ---------------------------------------------------------- crash theorems

  /** The pointer resolves to `id`, and its set verifies. */
  lemma PointerResolves(d: Disk, codec: Codec, id: Digest)
    requires Inv(d, codec) && PointsTo(d, id)
    ensures VerifyPublished(d, codec) == Ok(id)
  {
    assert SetOk(d.sets[Published(id)], id, codec);
  }

  lemma CurrentResolves(d: Disk, codec: Codec)
    requires Inv(d, codec)
    ensures VerifyPublished(d, codec) == if d.current.None? then Err(PointerMissing) else Ok(d.current.value.pointer.setId)
  {
    if d.current.Some? {
      var id :| PointsTo(d, id);
      PointerResolves(d, codec, id);
    }
  }

  lemma {:induction false} NoSwapKeepsCurrent(d: Disk, steps: seq<FsStep>)
    requires NoSwap(steps)
    ensures Exec(d, steps).current == d.current
    decreases |steps|
  {
    if steps != [] {
      assert steps[0] in steps && forall s :: s in steps[1..] ==> s in steps;
      NoSwapKeepsCurrent(Apply(d, steps[0]), steps[1..]);
    }
  }

  lemma SamePointerResolvesSame(d: Disk, d': Disk, codec: Codec)
    requires Inv(d, codec) && Inv(d', codec) && d'.current == d.current
    ensures VerifyPublished(d', codec) == VerifyPublished(d, codec)
  {
    CurrentResolves(d, codec);
    CurrentResolves(d', codec);
  }

  /**
   * Stop a call after any filesystem step, or in the middle of one: every published set is as it
   * was, and the current pointer verifies to the old set, unless the last step, the swap, was done:
   * then it verifies to the new one. No call ever meets a set of its id with different content.
   */
  lemma StopAnywhereIsSafe(d: Disk, c: Call, codec: Codec, at: nat, damage: Damage)
    requires Inv(d, codec)
    ensures
      var o := WriteBundle(d, c, codec);
      var d' := CrashAt(d, o.steps, at, damage);
      && Inv(d', codec) && KeepsSets(d, d')
      && o.result != Err(ContentConflict)
      && VerifyPublished(d', codec)
         == if at < |o.steps| || o.result.Err? then VerifyPublished(d, codec) else o.result
  {
    var o := WriteBundle(d, c, codec);
    var id := WriteBundleIsGood(d, c, codec);
    StopIsSafe(d, o.steps, at, damage, codec, id);
    var d' := CrashAt(d, o.steps, at, damage);
    if at < |o.steps| {
      assert forall s :: s in o.steps[..at] ==> s in if o.result.Ok? then o.steps[..|o.steps| - 1] else o.steps;
      NoSwapKeepsCurrent(d, o.steps[..at]);
      SamePointerResolvesSame(d, d', codec);
    } else if o.result.Err? {
      NoSwapKeepsCurrent(d, o.steps);
      SamePointerResolvesSame(d, d', codec);
    } else {
      PointerResolves(d', codec, id);
    }
  }

  // ------------------------------------------------------------- I/O errors

  /** What `publish_staged_set` and the driver remove after an error in `step`. */
  function CleanupSteps(d: Disk, c: Call, step: FsStep): seq<FsStep> {
    (if step.WriteTemp? || step.SwapPointer? then [UnlinkTemp(c.k)] else [])
    + (if Staging(c.n) in d.sets then [RemoveStaged(c.n)] else [])
  }

  /** A call whose step `at` raises, possibly half done, and which may also stop while it cleans up. */
  function FailedCall(d: Disk, c: Call, codec: Codec, at: nat, damage: Damage, cleaned: nat, further: Damage): Disk {
    var steps := WriteBundle(d, c, codec).steps;
    var failed := CrashAt(d, steps, at, damage);
    if at < |steps| then CrashAt(failed, CleanupSteps(failed, c, steps[at]), cleaned, further) else failed
  }

  /** An I/O error in any step, cleaned up completely or not, leaves the old set published. */
  lemma FailedCallIsSafe(d: Disk, c: Call, codec: Codec, at: nat, damage: Damage, cleaned: nat, further: Damage)
    requires Inv(d, codec) && at < |WriteBundle(d, c, codec).steps|
    ensures
      var d' := FailedCall(d, c, codec, at, damage, cleaned, further);
      Inv(d', codec) && KeepsSets(d, d') && VerifyPublished(d', codec) == VerifyPublished(d, codec)
  {
    var steps := WriteBundle(d, c, codec).steps;
    var failed := CrashAt(d, steps, at, damage);
    StopAnywhereIsSafe(d, c, codec, at, damage);
    var cleanup := CleanupSteps(failed, c, steps[at]);
    HarmlessIsGuarded(failed, cleanup, codec, Sha256(""));
    StopIsSafe(failed, cleanup, cleaned, further, codec, Sha256(""));
    var d' := CrashAt(failed, cleanup, cleaned, further);
    NoSwapKeepsCurrent(failed, if cleaned < |cleanup| then cleanup[..cleaned] else cleanup);
    SamePointerResolvesSame(failed, d', codec);
  }

  // -------------------------------------------------------------------- runs

  /**
   * A call that stops in step `at`, or completes when there is no such step; or one that meets an
   * error there, and may stop while it cleans up.
   */
  datatype Attempt =
    | Stops(call: Call, at: nat, damage: Damage)
    | Fails(call: Call, at: nat, damage: Damage, cleaned: nat, further: Damage)

  function After(d: Disk, a: Attempt, codec: Codec): Disk {
    match a
    case Stops(call, at, damage) => CrashAt(d, WriteBundle(d, call, codec).steps, at, damage)
    case Fails(call, at, damage, cleaned, further) => FailedCall(d, call, codec, at, damage, cleaned, further)
  }

  lemma AttemptIsSafe(d: Disk, a: Attempt, codec: Codec)
    requires Inv(d, codec)
    ensures Inv(After(d, a, codec), codec) && KeepsSets(d, After(d, a, codec))
    ensures VerifyPublished(d, codec).Ok? ==> VerifyPublished(After(d, a, codec), codec).Ok?
  {
    StopAnywhereIsSafe(d, a.call, codec, a.at, a.damage);
    if a.Fails? && a.at < |WriteBundle(d, a.call, codec).steps| {
      FailedCallIsSafe(d, a.call, codec, a.at, a.damage, a.cleaned, a.further);
    }
  }

  function Run(d: Disk, attempts: seq<Attempt>, codec: Codec): Disk
    decreases |attempts|
  {
    if attempts == [] then d else Run(After(d, attempts[0], codec), attempts[1..], codec)
  }

  lemma {:induction false} RunIsSafe(d: Disk, attempts: seq<Attempt>, codec: Codec)
    requires Inv(d, codec)
    ensures Inv(Run(d, attempts, codec), codec) && KeepsSets(d, Run(d, attempts, codec))
    ensures VerifyPublished(d, codec).Ok? ==> VerifyPublished(Run(d, attempts, codec), codec).Ok?
    decreases |attempts|
  {
    CurrentResolves(d, codec);
    if attempts != [] {
      AttemptIsSafe(d, attempts[0], codec);
      RunIsSafe(After(d, attempts[0], codec), attempts[1..], codec);
    }
  }

  /**
   * Over any sequence of publications, each stopped or failing anywhere: the pointer is missing or verifies;
   * once a set is current there is always a current set; published sets never change.
   */
  lemma PublishedForever(before: seq<Attempt>, after: seq<Attempt>, codec: Codec)
    ensures
      var d := Run(EMPTY_DISK, before, codec);
      var d' := Run(d, after, codec);
      && (VerifyPublished(d, codec).Ok? || VerifyPublished(d, codec) == Err(PointerMissing))
      && (VerifyPublished(d, codec).Ok? ==> VerifyPublished(d', codec).Ok?)
      && KeepsSets(d, d')
  {
    RunIsSafe(EMPTY_DISK, before, codec);
    var d := Run(EMPTY_DISK, before, codec);
    RunIsSafe(d, after, codec);
    CurrentResolves(d, codec);
  }

  // -------------------------------------------------------- what gets published

  /** The files of a bundle. */
  function BundleTree(entries: seq<Entry>, texts: seq<Texts>): Tree
    requires |entries| == |texts|
  {
    if entries == [] then map[]
    else
      var last := |entries| - 1;
      BundleTree(entries[..last], texts[..last])
        [entries[last].publicJson := File(texts[last].publicJson)]
        [entries[last].publicMermaid := File(texts[last].publicMermaid)]
        [entries[last].auditJson := File(texts[last].auditJson)]
  }

  lemma {:induction false} BundlePaths(entries: seq<Entry>, texts: seq<Texts>)
    requires |entries| == |texts|
    ensures forall p :: p in BundleTree(entries, texts) <==> p in ArtifactPaths(entries)
    ensures NoLinks(BundleTree(entries, texts))
  {
    if entries != [] {
      BundlePaths(entries[..|entries| - 1], texts[..|texts| - 1]);
    }
  }

  lemma {:induction false} WritesStageBundle(d: Disk, n: nat, entries: seq<Entry>, texts: seq<Texts>)
    requires |entries| == |texts| && Staging(n) in d.sets && d.sets[Staging(n)] == map[]
    ensures TreeAt(Exec(d, FileWrites(n, entries, texts)), Staging(n)) == BundleTree(entries, texts)
  {
    if entries != [] {
      var last := |entries| - 1;
      var front := FileWrites(n, entries[..last], texts[..last]);
      WritesStageBundle(d, n, entries[..last], texts[..last]);
      var (a, b, c) := (WriteStaged(n, entries[last].publicJson, texts[last].publicJson),
                        WriteStaged(n, entries[last].publicMermaid, texts[last].publicMermaid),
                        WriteStaged(n, entries[last].auditJson, texts[last].auditJson));
      ExecConcat(d, front, [a, b, c]);
      var mid := Exec(d, front);
      ExecThree(mid, a, b, c);
    }
  }

  lemma ExecThree(d: Disk, a: FsStep, b: FsStep, c: FsStep)
    ensures Exec(d, [a, b, c]) == Apply(Apply(Apply(d, a), b), c)
  {
    assert [a, b, c][1..] == [b, c] && [b, c][1..] == [c] && [c][1..] == [];
    assert Exec(d, [a, b, c]) == Exec(Apply(d, a), [b, c]) == Exec(Apply(Apply(d, a), b), [c]);
  }

  lemma StagedBundle(d: Disk, c: Call)
    requires |c.texts| == |c.manifest.entries|
    ensures TreeAt(Exec(d, StagingSteps(c)), Staging(c.n)) == BundleTree(c.manifest.entries, c.texts)
  {
    var (entries, texts) := (c.manifest.entries, c.texts);
    assert entries[..|entries|] == entries && texts[..|texts|] == texts;
    var writes := FileWrites(c.n, entries, texts);
    assert StagingSteps(c)[1..] == writes;
    WritesStageBundle(Apply(d, MakeStaging(c.n)), c.n, entries, texts);
  }

  /** What a caller can check before the call. */
  predicate Publishable(c: Call) {
    && |c.texts| == |c.manifest.entries| == c.manifest.graphCount
    && Distinct(ArtifactPaths(c.manifest.entries))
    && MANIFEST_FILE !in ArtifactPaths(c.manifest.entries)
  }

  /** The manifest with the index of the bundle's files. */
  function IndexedManifest(c: Call): Manifest
    requires |c.texts| == |c.manifest.entries|
  {
    BundlePaths(c.manifest.entries, c.texts);
    var tree := BundleTree(c.manifest.entries, c.texts);
    c.manifest.(integrity := Some(Digests(tree, SortDistinct(ArtifactPaths(c.manifest.entries)))))
  }

  /** The tree that a bundle publishes: its files, and the manifest over them. */
  function SetTree(c: Call, codec: Codec): Tree
    requires |c.texts| == |c.manifest.entries|
  {
    BundleTree(c.manifest.entries, c.texts)[MANIFEST_FILE := File(codec.render(IndexedManifest(c)))]
  }

  lemma IndexedExpected(c: Call)
    requires |c.texts| == |c.manifest.entries|
    ensures
      var files := IndexedManifest(c).integrity.value;
      && Paths(files) == SortDistinct(ArtifactPaths(c.manifest.entries))
      && forall p :: p in Expected(files) <==> p in ArtifactPaths(c.manifest.entries)
  {
    var (files, sorted) := (IndexedManifest(c).integrity.value, SortDistinct(ArtifactPaths(c.manifest.entries)));
    forall p | p in ArtifactPaths(c.manifest.entries) ensures p in Expected(files) {
      var i :| 0 <= i < |sorted| && sorted[i] == p;
      assert files[i].path == p && files[i] in files;
    }
  }

  lemma SetVerifiesExactlyWhen(c: Call, codec: Codec)
    requires |c.texts| == |c.manifest.entries| && Distinct(ArtifactPaths(c.manifest.entries))
    requires codec.parse(codec.render(IndexedManifest(c))) == Some(IndexedManifest(c))
    ensures VerifySet(SetTree(c, codec), codec).Ok? <==> Publishable(c)
  {
    var tree := SetTree(c, codec);
    var files := IndexedManifest(c).integrity.value;
    IndexedExpected(c);
    BundlePaths(c.manifest.entries, c.texts);
    VerifiesExactlyWhen(tree, MANIFEST_FILE, files);
    if Publishable(c) {
      assert Records(tree, MANIFEST_FILE, files) by {
        assert tree.Keys == Expected(files) + {MANIFEST_FILE};
      }
    }
  }

  /**
   * A call succeeds exactly when its bundle is publishable. It then leaves the current pointer at a
   * verified set that holds the files of the bundle and their manifest, and whose id depends on the
   * bundle alone.
   */
  lemma PublishesExactlyWhen(d: Disk, c: Call, codec: Codec)
    requires Inv(d, codec) && forall m :: codec.parse(codec.render(m)) == Some(m)
    ensures
      var o := WriteBundle(d, c, codec);
      && (o.result.Ok? <==> Publishable(c))
      && (Publishable(c) ==>
            && o.result == Ok(Sha256(codec.render(IndexedManifest(c))))
            && var d' := Exec(d, o.steps);
               VerifyPublished(d', codec) == o.result && TreeAt(d', Published(o.result.value)) == SetTree(c, codec))
  {
    var staging := StagingSteps(c);
    StagingStaysSafe(d, c, codec, Sha256(""));
    if |c.texts| == |c.manifest.entries| {
      var d1 := Exec(d, staging);
      StagedBundle(d, c);
      IndexedPublishes(d1, c, codec);
      ExecConcat(d, staging, IndexAndPublish(d1, c, codec).steps);
    }
  }

  lemma IndexedPublishes(d: Disk, c: Call, codec: Codec)
    requires Inv(d, codec) && forall m :: codec.parse(codec.render(m)) == Some(m)
    requires |c.texts| == |c.manifest.entries|
    requires TreeAt(d, Staging(c.n)) == BundleTree(c.manifest.entries, c.texts)
    ensures
      var o := IndexAndPublish(d, c, codec);
      && (o.result.Ok? <==> Publishable(c))
      && (Publishable(c) ==>
            && o.result == Ok(Sha256(codec.render(IndexedManifest(c))))
            && var d' := Exec(d, o.steps);
               VerifyPublished(d', codec) == o.result && TreeAt(d', Published(o.result.value)) == SetTree(c, codec))
  {
    BundlePaths(c.manifest.entries, c.texts);
    if Distinct(ArtifactPaths(c.manifest.entries)) {
      SetVerifiesExactlyWhen(c, codec);
      var write := WriteStaged(c.n, MANIFEST_FILE, codec.render(IndexedManifest(c)));
      StepIsSafe(d, write, codec, Sha256(""));
      var d1 := Apply(d, write);
      if Publishable(c) {
        PublishIsGuarded(d1, c.n, c.k, codec);
        var o := Publish(d1, c.n, c.k);
        StopIsSafe(d1, o.steps, |o.steps|, Damage("", {}), codec, ManifestDigest(SetTree(c, codec)));
        PointerResolves(Exec(d1, o.steps), codec, ManifestDigest(SetTree(c, codec)));
        assert ([write] + o.steps)[1..] == o.steps;
      }
    }
  }

  lemma {:induction false} PathAt(entries: seq<Entry>, i: nat)
    requires i < |entries|
    ensures
      var paths := ArtifactPaths(entries);
      && |paths| == 3 * |entries|
      && paths[3 * i] == entries[i].publicJson && paths[3 * i + 1] == entries[i].publicMermaid
      && paths[3 * i + 2] == entries[i].auditJson
  {
    var front := entries[..|entries| - 1];
    if front != [] {
      PathAt(front, if i < |front| then i else 0);
    } else {
      assert ArtifactPaths(front) == [];
    }
  }

  /** The texts that a publishable bundle's set holds for its entry `i`. */
  ghost predicate HoldsEntry(tree: Tree, e: Entry, t: Texts) {
    && e.publicJson in tree && tree[e.publicJson] == File(t.publicJson)
    && e.publicMermaid in tree && tree[e.publicMermaid] == File(t.publicMermaid)
    && e.auditJson in tree && tree[e.auditJson] == File(t.auditJson)
  }

  lemma {:induction false} BundleHolds(entries: seq<Entry>, texts: seq<Texts>, i: nat)
    requires |entries| == |texts| && i < |entries| && Distinct(ArtifactPaths(entries))
    ensures HoldsEntry(BundleTree(entries, texts), entries[i], texts[i])
  {
    var last := |entries| - 1;
    PathAt(entries, i);
    PathAt(entries, last);
    if i < last {
      var front := entries[..last];
      assert ArtifactPaths(entries)[..3 * last] == ArtifactPaths(front) by { PathAt(front, 0); }
      BundleHolds(front, texts[..last], i);
    }
  }

  /** A published bundle can be read back: every entry's three files hold their texts. */
  lemma PublishedTextsAreRead(c: Call, codec: Codec, i: nat)
    requires Publishable(c) && i < |c.texts|
    ensures HoldsEntry(SetTree(c, codec), c.manifest.entries[i], c.texts[i])
  {
    var entries := c.manifest.entries;
    BundleHolds(entries, c.texts, i);
    PathAt(entries, i);
    assert entries[i].publicJson in ArtifactPaths(entries) && entries[i].publicMermaid in ArtifactPaths(entries)
      && entries[i].auditJson in ArtifactPaths(entries);
  }
}
