/** What verification, indexing, publishing and resolving accept, in the terms of the files. */
module PublicationMeaning {
  import opened Base
  import opened TextOrder
  import opened Publication
  import PT = PublicationTheorems

  // ------------------------------------------------------------- fingerprints

  /** Sizes and digests tell any two trees without links apart. */
  lemma FingerprintsTellTrees(a: Tree, b: Tree)
    requires NoLinks(a) && NoLinks(b)
    ensures Fingerprints(a) == Fingerprints(b) <==> a == b
  {
    if Fingerprints(a) == Fingerprints(b) {
      assert a.Keys == Fingerprints(a).Keys == Fingerprints(b).Keys == b.Keys;
      forall p | p in a ensures a[p] == b[p] {
        assert Fingerprints(a)[p] == Fingerprints(b)[p];
      }
    }
  }

  // ------------------------------------------------------------------ publish

  /**
   * On any disk, publishing a staged set fails exactly without a manifest, at a link on either side,
   * or when the set of its id exists with different files; then the pointer and all published sets
   * stay. Otherwise its id is the digest of its manifest, the current file points to it, and the published set
   * holds exactly the staged files.
   */
  lemma PublishesStagedExactlyWhen(d: Disk, n: nat, k: nat)
    ensures PublishMeans(d, n, TreeAt(d, Staging(n)), Publish(d, n, k).result, Exec(d, Publish(d, n, k).steps))
  {
    var tree := TreeAt(d, Staging(n));
    assert Exec(d, [RemoveStaged(n)]) == Apply(d, RemoveStaged(n)) by { assert [RemoveStaged(n)][1..] == []; }
    if IsFile(tree, MANIFEST_FILE) {
      var id := Sha256(tree[MANIFEST_FILE].bytes);
      ThenPoints(d, RemoveStaged(n), k, id);
      ThenPoints(d, RenameSet(n, id), k, id);
      if Published(id) in d.sets && NoLinks(d.sets[Published(id)]) && NoLinks(tree) {
        FingerprintsTellTrees(d.sets[Published(id)], tree);
      }
    }
  }

  lemma ThenPoints(d: Disk, first: FsStep, k: nat, id: Digest)
    requires first.RemoveStaged? || first.RenameSet?
    ensures
      var d' := Exec(d, [first] + PointerSteps(k, id));
      d'.sets == Apply(d, first).sets && d'.current == Some(Complete(Pointer(id, MANIFEST_FILE, id)))
  {
    var (write, swap) := (WriteTemp(k, PointerTo(id)), SwapPointer(k));
    PT.ExecThree(d, first, write, swap);
    assert [first] + PointerSteps(k, id) == [first, write, swap];
  }

  ghost predicate PublishMeans(d: Disk, n: nat, tree: Tree, result: Result<Digest, PublishError>, d': Disk) {
    if !(MANIFEST_FILE in tree && tree[MANIFEST_FILE].File?) then
      result == Err(ManifestMissing) && Discarded(d, n, d')
    else
      var id := Sha256(tree[MANIFEST_FILE].bytes);
      var taken := Published(id) in d.sets;
      var links := taken && exists p :: (p in tree && tree[p].Symlink?) || (p in d.sets[Published(id)] && d.sets[Published(id)][p].Symlink?);
      && (result == Err(SymbolicLink) <==> links)
      && (result == Err(ContentConflict) <==> taken && !links && d.sets[Published(id)] != tree)
      && (result.Ok? <==> !taken || (!links && d.sets[Published(id)] == tree))
      && (result.Err? ==> Discarded(d, n, d'))
      && (result.Ok? ==>
            && result.value == id && d'.current == Some(Complete(Pointer(id, MANIFEST_FILE, id)))
            && d'.sets == (d.sets - {Staging(n)})[Published(id) := tree])
  }

  /** Only the staging directory is gone. */
  predicate Discarded(d: Disk, n: nat, d': Disk) {
    d'.sets == d.sets - {Staging(n)} && d'.current == d.current && d'.temps == d.temps
  }

  // ------------------------------------------------------------------ resolve

  /** The pointer resolves exactly to the set that it names twice, when that set holds the named manifest with that digest. */
  lemma ResolvesExactlyWhen(d: Disk, id: Digest)
    ensures
      && (Resolve(d) == Ok(id) <==>
            exists name :: NamesManifest(d, id, name))
      && (Resolve(d) == Err(PointerMissing) <==> d.current == None)
  {
    if Resolve(d).Ok? { assert NamesManifest(d, Resolve(d).value, d.current.value.pointer.manifestName); }
  }

  ghost predicate NamesManifest(d: Disk, id: Digest, name: string) {
    && d.current == Some(Complete(Pointer(id, name, id)))
    && Published(id) in d.sets
    && name in d.sets[Published(id)]
    && d.sets[Published(id)][name].File? && Sha256(d.sets[Published(id)][name].bytes) == id
  }

  // -------------------------------------------------------------------- index

  /** Indexing succeeds exactly on distinct paths of present files; the index has them in ascending order, with size and digest. */
  lemma IndexesExactlyWhen(tree: Tree, paths: seq<string>)
    ensures
      var r := BuildIndex(tree, paths);
      && (r.Ok? <==> (forall p :: p in paths ==> p in tree && tree[p].File?)
                     && forall i, j :: 0 <= i < j < |paths| ==> paths[i] != paths[j])
      && (r == Err(MissingOrUnsafeFile) <==> exists p :: p in paths && !(p in tree && tree[p].File?))
      && (r.Ok? ==>
            && Sorted(Paths(r.value)) && (forall p :: p in Paths(r.value) <==> p in paths)
            && forall f :: f in r.value ==>
                 f.path in tree && tree[f.path].File?
                 && f.size == |tree[f.path].bytes| && f.sha256 == Sha256(tree[f.path].bytes))
  {
    if BuildIndex(tree, paths).Ok? {
      assert Paths(BuildIndex(tree, paths).value) == SortDistinct(paths);
    }
  }

  // ------------------------------------------------------------------- errors

  /** File number `i` of an index differs in size, or only in content. */
  predicate Differs(tree: Tree, f: FileDigest, error: PublishError)
    requires IsFile(tree, f.path)
  {
    || (error == SizeMismatch(f.path) && f.size != |tree[f.path].bytes|)
    || (error == HashMismatch(f.path) && f.size == |tree[f.path].bytes| && f.sha256 != Sha256(tree[f.path].bytes))
  }

  /** The reported difference is that of the first file that differs. */
  lemma {:induction false} MismatchIsFirst(tree: Tree, files: seq<FileDigest>, error: PublishError)
    requires forall f :: f in files ==> f.path in tree && tree[f.path].File?
    ensures FirstMismatch(tree, files) == Some(error) <==> exists i :: DiffersFirst(tree, files, i, error)
    decreases |files|
  {
    if files != [] {
      var rest := files[1..];
      assert forall f :: f in rest ==> f in files;
      MismatchIsFirst(tree, rest, error);
      assert files[0] in files && files[..0] == [];
      if Agree(tree, [files[0]]) {
        FirstOfRest(tree, files, error);
      } else {
        assert forall i :: 0 < i < |files| ==> files[..i][0] in files[..i] && files[..i][0] == files[0];
        assert DiffersFirst(tree, files, 0, error) <==> Differs(tree, files[0], error);
      }
    }
  }

  lemma FirstOfRest(tree: Tree, files: seq<FileDigest>, error: PublishError)
    requires files != [] && forall f :: f in files ==> f.path in tree && tree[f.path].File?
    requires Agree(tree, [files[0]])
    ensures (exists i :: DiffersFirst(tree, files, i, error)) <==> exists i :: DiffersFirst(tree, files[1..], i, error)
  {
    var rest := files[1..];
    assert files[0] in [files[0]];
    forall i: nat ensures DiffersFirst(tree, files, i + 1, error) <==> DiffersFirst(tree, rest, i, error) {
      if i < |rest| { AgreeShifts(tree, files, i); }
    }
    if i :| DiffersFirst(tree, files, i, error) { assert DiffersFirst(tree, rest, i - 1, error); }
    if i :| DiffersFirst(tree, rest, i, error) { assert DiffersFirst(tree, files, i + 1, error); }
  }

  ghost predicate DiffersFirst(tree: Tree, files: seq<FileDigest>, i: int, error: PublishError)
    requires forall f :: f in files ==> f.path in tree && tree[f.path].File?
  {
    0 <= i < |files| && files[i] in files && Differs(tree, files[i], error) && Agree(tree, files[..i])
  }

  lemma AgreeShifts(tree: Tree, files: seq<FileDigest>, i: nat)
    requires i < |files| - 1
    ensures Agree(tree, files[..i + 1]) <==> Agree(tree, [files[0]]) && Agree(tree, files[1..][..i])
  {
    assert files[..i + 1] == [files[0]] + files[1..][..i];
  }

  predicate Agree(tree: Tree, files: seq<FileDigest>) {
    forall f :: f in files ==>
      IsFile(tree, f.path) && f.size == |tree[f.path].bytes| && f.sha256 == Sha256(tree[f.path].bytes)
  }

  /** Each refusal of a tree means that its own check fails and those before it pass. */
  lemma ErrorsMean(tree: Tree, name: string, files: seq<FileDigest>)
    ensures
      var e := IndexError(tree, name, files);
      var (self, link) := (name in Paths(files), exists p :: p in tree && tree[p].Symlink?);
      var missing := exists p :: p in Paths(files) && p !in tree;
      var extra := exists p :: p in tree && p != name && p !in Paths(files);
      && (e == Some(SelfHash) <==> self)
      && (e == Some(SymbolicLink) <==> !self && link)
      && (e == Some(ManifestMissing) <==> !self && !link && name !in tree)
      && (e == Some(FilesMissing) <==> !self && !link && name in tree && missing)
      && (e == Some(ExtraFiles) <==> !self && !link && name in tree && !missing && extra)
      && (e == None <==> !self && !link && name in tree && !missing && !extra && Agree(tree, files))
  {
    ExpectedIsListed(files);
    VerifiesExactlyWhen(tree, name, files);
    var expected := Expected(files);
    if expected <= tree.Keys && forall p :: p in tree ==> tree[p].File? {
      assert forall f :: f in files ==> f.path in expected;
      MismatchNamesFile(tree, files);
    }
  }

  lemma MismatchNamesFile(tree: Tree, files: seq<FileDigest>)
    requires forall f :: f in files ==> f.path in tree && tree[f.path].File?
    ensures
      var e := FirstMismatch(tree, files);
      e.Some? ==> e.value.SizeMismatch? || e.value.HashMismatch?
  {
    if FirstMismatch(tree, files).Some? {
      MismatchIsFirst(tree, files, FirstMismatch(tree, files).value);
    }
  }

  // --------------------------------------------------------------------- sets

  /** Path number `j` of a manifest: three for each entry. */
  function PathOf(entries: seq<Entry>, j: nat): string
    requires j < 3 * |entries|
  {
    var e := entries[j / 3];
    if j % 3 == 0 then e.publicJson else if j % 3 == 1 then e.publicMermaid else e.auditJson
  }

  lemma PathsInOrder(entries: seq<Entry>)
    ensures |ArtifactPaths(entries)| == 3 * |entries|
    ensures forall j :: 0 <= j < 3 * |entries| ==> ArtifactPaths(entries)[j] == PathOf(entries, j)
  {
    if entries != [] { PT.PathAt(entries, 0); }
    forall j: nat | j < 3 * |entries| ensures ArtifactPaths(entries)[j] == PathOf(entries, j) {
      PathInOrder(entries, j);
    }
  }

  lemma PathInOrder(entries: seq<Entry>, j: nat)
    requires j < 3 * |entries|
    ensures |ArtifactPaths(entries)| == 3 * |entries| && ArtifactPaths(entries)[j] == PathOf(entries, j)
  {
    PT.PathAt(entries, j / 3);
    assert j == 3 * (j / 3) + j % 3;
  }

  /** No two artifacts share a path. */
  predicate PathsApart(entries: seq<Entry>) {
    forall i, j :: 0 <= i < j < 3 * |entries| ==> PathOf(entries, i) != PathOf(entries, j)
  }

  ghost predicate IsArtifact(entries: seq<Entry>, p: string) {
    exists j :: 0 <= j < 3 * |entries| && PathOf(entries, j) == p
  }

  /** The set holds its manifest, exactly the artifacts of the manifest beside it, and no link; the index is complete and true. */
  ghost predicate HoldsSet(tree: Tree, codec: Codec, m: Manifest) {
    && MANIFEST_FILE in tree && tree[MANIFEST_FILE].File? && codec.parse(tree[MANIFEST_FILE].bytes) == Some(m)
    && m.graphCount == |m.entries| && PathsApart(m.entries) && !IsArtifact(m.entries, MANIFEST_FILE)
    && (forall p :: p in tree <==> p == MANIFEST_FILE || IsArtifact(m.entries, p))
    && (forall p :: p in tree ==> tree[p].File?)
    && m.integrity.Some? && Sorted(Paths(m.integrity.value))
    && (forall p :: p in Paths(m.integrity.value) <==> IsArtifact(m.entries, p))
    && forall f :: f in m.integrity.value ==>
         f.path in tree && f.size == |tree[f.path].bytes| && f.sha256 == Sha256(tree[f.path].bytes)
  }

  lemma SetVerifiesExactlyWhen(tree: Tree, codec: Codec, m: Manifest)
    ensures VerifySet(tree, codec) == Ok(m) <==> HoldsSet(tree, codec, m)
  {
    ManifestValidExactlyWhen(m);
    if m.integrity.Some? {
      VerifiesExactlyWhen(tree, MANIFEST_FILE, m.integrity.value);
      ExpectedIsListed(m.integrity.value);
    }
  }

  /** On any disk, the published set verifies exactly when the current file points to it and it is a complete set. */
  lemma PublishedVerifiesExactlyWhen(d: Disk, codec: Codec, id: Digest)
    ensures VerifyPublished(d, codec) == Ok(id) <==>
      exists name, m :: NamesManifest(d, id, name) && HoldsSet(d.sets[Published(id)], codec, m)
  {
    ResolvesExactlyWhen(d, id);
    var tree := TreeAt(d, Published(id));
    forall m ensures VerifySet(tree, codec) == Ok(m) <==> HoldsSet(tree, codec, m) {
      SetVerifiesExactlyWhen(tree, codec, m);
    }
    if VerifyPublished(d, codec) == Ok(id) {
      assert NamesManifest(d, id, d.current.value.pointer.manifestName);
      assert HoldsSet(tree, codec, VerifySet(tree, codec).value);
    }
  }

  lemma ManifestValidExactlyWhen(m: Manifest)
    ensures ValidManifest(m) <==>
      && m.graphCount == |m.entries| && PathsApart(m.entries)
      && (m.integrity.Some? ==>
            && Sorted(Paths(m.integrity.value))
            && forall p :: p in Paths(m.integrity.value) <==> IsArtifact(m.entries, p))
  {
    ArtifactsAreListed(m.entries);
    var sorted := SortDistinct(ArtifactPaths(m.entries));
    if m.integrity.Some? && Sorted(Paths(m.integrity.value))
      && forall p :: p in Paths(m.integrity.value) <==> p in sorted
    {
      SortedListIsUnique(Paths(m.integrity.value), sorted);
    }
  }

  lemma ArtifactsAreListed(entries: seq<Entry>)
    ensures forall p :: p in ArtifactPaths(entries) <==> IsArtifact(entries, p)
    ensures Distinct(ArtifactPaths(entries)) <==> PathsApart(entries)
  {
    PathsInOrder(entries);
    var paths := ArtifactPaths(entries);
    assert forall j :: 0 <= j < |paths| ==> paths[j] == PathOf(entries, j);
  }

  lemma ExpectedIsListed(files: seq<FileDigest>)
    ensures forall p :: p in Expected(files) <==> p in Paths(files)
  {
    forall p | p in Expected(files) ensures p in Paths(files) {
      var f :| f in files && f.path == p;
      var i :| 0 <= i < |files| && files[i] == f;
      assert Paths(files)[i] == p;
    }
    forall p | p in Paths(files) ensures p in Expected(files) {
      var i :| 0 <= i < |files| && Paths(files)[i] == p;
      assert files[i] in files;
    }
  }

  // ----------------------------------------------------------------- clean-up

  /** Steps that touch no temporary file, up to the one after which the staging directory is gone. */
  ghost predicate EndsStaging(steps: seq<FsStep>, n: nat) {
    && TempFree(steps) && steps != []
    && (steps[|steps| - 1] == RemoveStaged(n) || (steps[|steps| - 1].RenameSet? && steps[|steps| - 1].n == n))
  }

  predicate TempFree(steps: seq<FsStep>) {
    forall s :: s in steps ==> !s.WriteTemp? && !s.SwapPointer? && !s.UnlinkTemp?
  }

  /** The steps of a call: it ends its staging directory, and then writes the pointer or not. */
  ghost predicate Shaped(steps: seq<FsStep>, front: seq<FsStep>, tail: seq<FsStep>, c: Call) {
    steps == front + tail && EndsStaging(front, c.n) && (tail == [] || exists id :: tail == PointerSteps(c.k, id))
  }

  lemma PublishShape(d: Disk, c: Call) returns (front: seq<FsStep>, tail: seq<FsStep>)
    ensures Shaped(Publish(d, c.n, c.k).steps, front, tail, c)
  {
    var steps := Publish(d, c.n, c.k).steps;
    front, tail := steps[..1], steps[1..];
    var tree := TreeAt(d, Staging(c.n));
    if IsFile(tree, MANIFEST_FILE) && |steps| > 1 {
      assert tail == PointerSteps(c.k, ManifestDigest(tree));
    }
  }

  lemma ThenShaped(before: seq<FsStep>, rest: seq<FsStep>, front: seq<FsStep>, tail: seq<FsStep>, c: Call)
    requires TempFree(before) && Shaped(rest, front, tail, c)
    ensures Shaped(before + rest, before + front, tail, c)
  {
    assert before + rest == (before + front) + tail;
  }

  lemma IndexShape(d: Disk, c: Call, codec: Codec) returns (front: seq<FsStep>, tail: seq<FsStep>)
    ensures Shaped(IndexAndPublish(d, c, codec).steps, front, tail, c)
  {
    var index := BuildIndex(TreeAt(d, Staging(c.n)), ArtifactPaths(c.manifest.entries));
    if index.Err? {
      front, tail := [RemoveStaged(c.n)], [];
    } else {
      var write := WriteStaged(c.n, MANIFEST_FILE, codec.render(c.manifest.(integrity := Some(index.value))));
      var d1 := Apply(d, write);
      if VerifySet(TreeAt(d1, Staging(c.n)), codec).Err? {
        front, tail := [RemoveStaged(c.n)], [];
      } else {
        front, tail := PublishShape(d1, c);
      }
      ThenShaped([write], VerifyAndPublish(d1, c, codec).steps, front, tail, c);
      front := [write] + front;
    }
  }

  lemma {:induction false} WritesAreTempFree(n: nat, entries: seq<Entry>, texts: seq<Texts>)
    requires |entries| == |texts|
    ensures TempFree(FileWrites(n, entries, texts))
  {
    if entries != [] {
      WritesAreTempFree(n, entries[..|entries| - 1], texts[..|texts| - 1]);
    }
  }

  lemma BundleShape(d: Disk, c: Call, codec: Codec) returns (front: seq<FsStep>, tail: seq<FsStep>)
    ensures Shaped(WriteBundle(d, c, codec).steps, front, tail, c)
  {
    var staging := StagingSteps(c);
    var common := if |c.texts| < |c.manifest.entries| then |c.texts| else |c.manifest.entries|;
    WritesAreTempFree(c.n, c.manifest.entries[..common], c.texts[..common]);
    var rest;
    if |c.texts| != |c.manifest.entries| {
      front, tail, rest := [RemoveStaged(c.n)], [], [RemoveStaged(c.n)];
    } else {
      front, tail := IndexShape(Exec(d, staging), c, codec);
      rest := IndexAndPublish(Exec(d, staging), c, codec).steps;
    }
    ThenShaped(staging, rest, front, tail, c);
    front := staging + front;
  }

  lemma {:induction false} TempFreeKeepsTemps(d: Disk, steps: seq<FsStep>)
    requires TempFree(steps)
    ensures Exec(d, steps).temps == d.temps
    decreases |steps|
  {
    if steps != [] {
      assert steps[0] in steps && forall s :: s in steps[1..] ==> s in steps;
      TempFreeKeepsTemps(Apply(d, steps[0]), steps[1..]);
    }
  }

  lemma EndRemovesStaging(d: Disk, steps: seq<FsStep>, n: nat)
    requires EndsStaging(steps, n)
    ensures Staging(n) !in Exec(d, steps).sets
  {
    var (front, last) := (steps[..|steps| - 1], steps[|steps| - 1]);
    assert steps == front + [last];
    PT.ExecConcat(d, front, [last]);
    assert Exec(Exec(d, front), [last]) == Apply(Exec(d, front), last) by { assert [last][1..] == []; }
  }

  /** The staging directory is gone, and so is the temporary file. */
  predicate Clean(d: Disk, d': Disk, c: Call) {
    Staging(c.n) !in d'.sets && d'.temps == d.temps
  }

  /**
   * A call that runs to its end, successful or refused, and a call that meets an I/O error anywhere
   * and cleans up, leave neither their staging directory nor their temporary file behind.
   */
  lemma LeavesNothingBehind(d: Disk, c: Call, codec: Codec, at: nat, damage: Damage)
    requires c.k !in d.temps
    ensures
      var steps := WriteBundle(d, c, codec).steps;
      && Clean(d, Exec(d, steps), c)
      && (at < |steps| ==>
            forall cleaned: nat, further :: cleaned >= |PT.CleanupSteps(CrashAt(d, steps, at, damage), c, steps[at])| ==>
              Clean(d, PT.FailedCall(d, c, codec, at, damage, cleaned, further), c))
  {
    var steps := WriteBundle(d, c, codec).steps;
    var front, tail := BundleShape(d, c, codec);
    EndRemovesStaging(d, front, c.n);
    TempFreeKeepsTemps(d, front);
    PT.ExecConcat(d, front, tail);
    if tail != [] { PointerStepsClean(Exec(d, front), c.k, tail); }
    if at < |steps| {
      CleanupCleans(d, c, steps, front, tail, at, damage);
    }
  }

  lemma PointerStepsClean(d: Disk, k: nat, tail: seq<FsStep>)
    requires k !in d.temps && exists id :: tail == PointerSteps(k, id)
    ensures |tail| == 2 && tail[0].WriteTemp? && tail[0].k == k && tail[1] == SwapPointer(k)
    ensures Exec(d, tail).sets == d.sets && Exec(d, tail).temps == d.temps
    ensures Exec(d, tail[..1]) == Apply(d, tail[0])
  {
    assert tail[1..] == [tail[1]] && tail[1..][1..] == [];
    assert Exec(d, tail) == Exec(Apply(d, tail[0]), tail[1..]) == Apply(Apply(d, tail[0]), tail[1]);
    assert tail[..1][0] == tail[0] && tail[..1][1..] == [];
  }

  /** The temporary file of an interrupted call is there only at the pointer steps. */
  lemma InterruptedTemps(d: Disk, c: Call, steps: seq<FsStep>, front: seq<FsStep>, tail: seq<FsStep>, at: nat, damage: Damage)
    requires c.k !in d.temps && Shaped(steps, front, tail, c) && at < |steps|
    ensures
      var failed := CrashAt(d, steps, at, damage);
      if steps[at].WriteTemp? || steps[at].SwapPointer? then failed.temps - {c.k} == d.temps else failed.temps == d.temps
  {
    if at < |front| {
      assert steps[..at] == front[..at] && steps[at] in front;
      assert TempFree(front[..at]);
      TempFreeKeepsTemps(d, front[..at]);
    } else {
      var i := at - |front|;
      assert steps[..at] == front + tail[..i] && steps[at] == tail[i];
      TempFreeKeepsTemps(d, front);
      PT.ExecConcat(d, front, tail[..i]);
      PointerStepsClean(Exec(d, front), c.k, tail);
      assert tail[..0] == [];
    }
  }

  lemma CleanupCleans(d: Disk, c: Call, steps: seq<FsStep>, front: seq<FsStep>, tail: seq<FsStep>, at: nat, damage: Damage)
    requires c.k !in d.temps && Shaped(steps, front, tail, c) && at < |steps|
    ensures
      var failed := CrashAt(d, steps, at, damage);
      Clean(d, Exec(failed, PT.CleanupSteps(failed, c, steps[at])), c)
  {
    InterruptedTemps(d, c, steps, front, tail, at, damage);
    var failed := CrashAt(d, steps, at, damage);
    var (unlink, remove) := (if steps[at].WriteTemp? || steps[at].SwapPointer? then [UnlinkTemp(c.k)] else [],
                             if Staging(c.n) in failed.sets then [RemoveStaged(c.n)] else []);
    PT.ExecConcat(failed, unlink, remove);
    if unlink != [] { assert [UnlinkTemp(c.k)][1..] == []; }
    if remove != [] { assert [RemoveStaged(c.n)][1..] == []; }
  }
}
