/**
 * Crash-safe publication of artifact sets: integrity index, staged write, verification, rename and
 * pointer swap (artifact_integrity.py), and the driver for decision-path bundles (audit_paths.py).
 */
module Publication {
  import opened Base
  import opened TextOrder

  // --------------------------------------------------------------- integrity

  /** SHA-256 without collisions: a digest is its preimage. */
  datatype Digest = Sha256(preimage: string)

  datatype Node = File(bytes: string) | Symlink

  /** The files and links below a directory, by relative path. */
  type Tree = map<string, Node>

  datatype FileDigest = FileDigest(path: string, sha256: Digest, size: nat)

  datatype PublishError =
    | MissingOrUnsafeFile
    | NotUnique
    | LengthsDiffer
    | SelfHash
    | SymbolicLink
    | ManifestMissing
    | ManifestInvalid
    | FilesMissing
    | ExtraFiles
    | SizeMismatch(path: string)
    | HashMismatch(path: string)
    | ContentConflict
    | PointerMissing
    | PointerInvalid

  function Paths(files: seq<FileDigest>): seq<string> {
    seq(|files|, i requires 0 <= i < |files| => files[i].path)
  }

  function Expected(files: seq<FileDigest>): set<string> {
    set f | f in files :: f.path
  }

  /** The first file whose size or hash differs. */
  function FirstMismatch(tree: Tree, files: seq<FileDigest>): Option<PublishError>
    requires forall f :: f in files ==> f.path in tree && tree[f.path].File?
    decreases |files|
  {
    if files == [] then None
    else
      var f := files[0];
      assert f in files && forall g :: g in files[1..] ==> g in files;
      var bytes := tree[f.path].bytes;
      if |bytes| != f.size then Some(SizeMismatch(f.path))
      else if Sha256(bytes) != f.sha256 then Some(HashMismatch(f.path))
      else FirstMismatch(tree, files[1..])
  }

  /** `verify_integrity_index`: the error it raises, if any. */
  function IndexError(tree: Tree, manifestName: string, files: seq<FileDigest>): Option<PublishError> {
    var expected := Expected(files);
    if manifestName in expected then Some(SelfHash)
    else if exists p | p in tree :: tree[p].Symlink? then Some(SymbolicLink)
    else if manifestName !in tree then Some(ManifestMissing)
    else if !(expected <= tree.Keys) then Some(FilesMissing)
    else if !(tree.Keys <= expected + {manifestName}) then Some(ExtraFiles)
    else FirstMismatch(tree, files)
  }

  /** The index records exactly the tree without the manifest. */
  ghost predicate Records(tree: Tree, manifestName: string, files: seq<FileDigest>) {
    && manifestName in tree && manifestName !in Expected(files)
    && (forall p :: p in tree ==> tree[p].File?)
    && tree.Keys == Expected(files) + {manifestName}
    && forall f :: f in files ==> f.size == |tree[f.path].bytes| && f.sha256 == Sha256(tree[f.path].bytes)
  }

  lemma {:induction false} NoMismatch(tree: Tree, files: seq<FileDigest>)
    requires forall f :: f in files ==> f.path in tree && tree[f.path].File?
    ensures FirstMismatch(tree, files).None? <==>
      forall f :: f in files ==> f.size == |tree[f.path].bytes| && f.sha256 == Sha256(tree[f.path].bytes)
    decreases |files|
  {
    if files != [] {
      assert forall f :: f in files <==> f == files[0] || f in files[1..];
      NoMismatch(tree, files[1..]);
    }
  }

  /** Verification succeeds exactly on the trees that the index records. */
  lemma VerifiesExactlyWhen(tree: Tree, manifestName: string, files: seq<FileDigest>)
    ensures IndexError(tree, manifestName, files).None? <==> Records(tree, manifestName, files)
  {
    if manifestName !in Expected(files) && manifestName in tree && (forall p :: p in tree ==> tree[p].File?)
      && Expected(files) <= tree.Keys && tree.Keys <= Expected(files) + {manifestName}
    {
      assert forall f :: f in files ==> f.path in Expected(files);
      NoMismatch(tree, files);
    }
  }

  /** `verify_integrity_index`. */
  method VerifyIntegrityIndex(tree: Tree, manifestName: string, files: seq<FileDigest>)
    returns (error: Option<PublishError>)
    ensures error == IndexError(tree, manifestName, files)
  {
    var expected := Expected(files);
    if manifestName in expected {
      return Some(SelfHash);
    }
    var actual: set<string> := {};
    var unseen := tree.Keys;
    while unseen != {}
      invariant unseen <= tree.Keys && actual == tree.Keys - unseen
      invariant forall p :: p in actual ==> tree[p].File?
      decreases unseen
    {
      var p :| p in unseen;
      if tree[p].Symlink? {
        return Some(SymbolicLink);
      }
      unseen, actual := unseen - {p}, actual + {p};
    }
    if manifestName !in actual {
      return Some(ManifestMissing);
    }
    if !(expected <= actual) {
      return Some(FilesMissing);
    }
    if !(actual <= expected + {manifestName}) {
      return Some(ExtraFiles);
    }
    assert forall f :: f in files ==> f.path in expected;
    for i := 0 to |files|
      invariant FirstMismatch(tree, files[i..]) == FirstMismatch(tree, files)
    {
      var bytes := tree[files[i].path].bytes;
      assert files[i..][0] == files[i] && files[i..][1..] == files[i + 1..];
      if |bytes| != files[i].size {
        return Some(SizeMismatch(files[i].path));
      }
      if Sha256(bytes) != files[i].sha256 {
        return Some(HashMismatch(files[i].path));
      }
    }
    error := None;
  }

  predicate Distinct(paths: seq<string>) {
    forall i, j :: 0 <= i < j < |paths| ==> paths[i] != paths[j]
  }

  predicate IsFile(tree: Tree, path: string) { path in tree && tree[path].File? }

  function DigestOf(tree: Tree, path: string): FileDigest
    requires IsFile(tree, path)
  {
    FileDigest(path, Sha256(tree[path].bytes), |tree[path].bytes|)
  }

  function Digests(tree: Tree, sorted: seq<string>): (files: seq<FileDigest>)
    requires forall p :: p in sorted ==> IsFile(tree, p)
    ensures |files| == |sorted| && forall i :: 0 <= i < |sorted| ==> files[i] == DigestOf(tree, sorted[i])
  {
    seq(|sorted|, i requires 0 <= i < |sorted| && sorted[i] in sorted => DigestOf(tree, sorted[i]))
  }

  /** `build_integrity_index`. */
  function BuildIndex(tree: Tree, paths: seq<string>): Result<seq<FileDigest>, PublishError> {
    if exists p | p in paths :: !IsFile(tree, p) then Err(MissingOrUnsafeFile)
    else if !Distinct(paths) then Err(NotUnique)
    else Ok(Digests(tree, SortDistinct(paths)))
  }

  // ---------------------------------------------------------------- manifest

  datatype Entry = Entry(publicJson: string, publicMermaid: string, auditJson: string)

  datatype Manifest = Manifest(version: string, evaluatedAt: string, graphCount: nat, entries: seq<Entry>,
                               integrity: Option<seq<FileDigest>>)

  function ArtifactPaths(entries: seq<Entry>): seq<string> {
    if entries == [] then []
    else
      var e := entries[|entries| - 1];
      ArtifactPaths(entries[..|entries| - 1]) + [e.publicJson, e.publicMermaid, e.auditJson]
  }

  /** `validate_manifest` and `validate_order_and_uniqueness`. */
  predicate ValidManifest(m: Manifest) {
    var expected := ArtifactPaths(m.entries);
    && m.graphCount == |m.entries|
    && Distinct(expected)
    && (m.integrity.Some? ==> Paths(m.integrity.value) == SortDistinct(expected))
  }

  /** The JSON text of a manifest and back; a text that is no manifest parses to nothing. */
  datatype Codec = Codec(render: Manifest -> string, parse: string -> Option<Manifest>)

  const MANIFEST_FILE := "decision-path-manifest.json"

  /** `verify_audit_path_set`. */
  function VerifySet(tree: Tree, codec: Codec): Result<Manifest, PublishError> {
    if !IsFile(tree, MANIFEST_FILE) then Err(ManifestMissing)
    else
      var m := codec.parse(tree[MANIFEST_FILE].bytes);
      if m.None? || !ValidManifest(m.value) || m.value.integrity.None? then Err(ManifestInvalid)
      else
        var error := IndexError(tree, MANIFEST_FILE, m.value.integrity.value);
        if error.Some? then Err(error.value) else Ok(m.value)
  }

  /** With a collision-free hash, the digest of the manifest determines the whole verified tree. */
  lemma ManifestDeterminesTree(a: Tree, b: Tree, codec: Codec)
    requires VerifySet(a, codec).Ok? && VerifySet(b, codec).Ok?
    requires Sha256(a[MANIFEST_FILE].bytes) == Sha256(b[MANIFEST_FILE].bytes)
    ensures a == b
  {
    var files := VerifySet(a, codec).value.integrity.value;
    VerifiesExactlyWhen(a, MANIFEST_FILE, files);
    VerifiesExactlyWhen(b, MANIFEST_FILE, files);
    forall p | p in a ensures a[p] == b[p] {
      if p != MANIFEST_FILE {
        var f :| f in files && f.path == p;
        assert a[p].File? && b[p].File?;
      }
    }
  }

  // -------------------------------------------------------------- filesystem

  datatype Pointer = Pointer(setId: Digest, manifestName: string, manifestSha256: Digest)

  /** The text of a pointer file: complete, or whatever an unfinished write left. */
  datatype PointerText = Complete(pointer: Pointer) | Partial

  /** A directory below `sets`: a staging directory or a published set. */
  datatype Place = Staging(n: nat) | Published(id: Digest)

  datatype Disk = Disk(sets: map<Place, Tree>, current: Option<PointerText>, temps: map<nat, PointerText>)

  const EMPTY_DISK := Disk(map[], None, map[])

  function TreeAt(d: Disk, place: Place): Tree {
    if place in d.sets then d.sets[place] else map[]
  }

  datatype FsStep =
    | MakeStaging(n: nat)
    | WriteStaged(n: nat, path: string, text: string)
    | RemoveStaged(n: nat)
    | RenameSet(n: nat, id: Digest)
    | WriteTemp(k: nat, pointer: Pointer)
    | SwapPointer(k: nat)
    | UnlinkTemp(k: nat)

  function Apply(d: Disk, step: FsStep): Disk {
    match step
    case MakeStaging(n) => d.(sets := d.sets[Staging(n) := map[]])
    case WriteStaged(n, path, text) =>
      d.(sets := d.sets[Staging(n) := TreeAt(d, Staging(n))[path := File(text)]])
    case RemoveStaged(n) => d.(sets := d.sets - {Staging(n)})
    case RenameSet(n, id) => d.(sets := (d.sets - {Staging(n)})[Published(id) := TreeAt(d, Staging(n))])
    case WriteTemp(k, pointer) => d.(temps := d.temps[k := Complete(pointer)])
    case SwapPointer(k) =>
      d.(current := if k in d.temps then Some(d.temps[k]) else d.current, temps := d.temps - {k})
    case UnlinkTemp(k) => d.(temps := d.temps - {k})
  }

  /** What a crash in the middle of a step may leave: any file content, any rest of a removed tree. */
  datatype Damage = Damage(content: string, kept: set<string>)

  /** Writes and tree removals can be interrupted; renames are atomic. */
  function Interrupted(d: Disk, step: FsStep, damage: Damage): Disk {
    match step
    case WriteStaged(n, path, _) => Apply(d, WriteStaged(n, path, damage.content))
    case RemoveStaged(n) =>
      var tree := TreeAt(d, Staging(n));
      d.(sets := d.sets[Staging(n) := map p | p in tree && p in damage.kept :: tree[p]])
    case WriteTemp(k, _) => d.(temps := d.temps[k := Partial])
    case _ => d
  }

  function Exec(d: Disk, steps: seq<FsStep>): Disk
    decreases |steps|
  {
    if steps == [] then d else Exec(Apply(d, steps[0]), steps[1..])
  }

  /** The disk when a process stops in its step number `at`. */
  function CrashAt(d: Disk, steps: seq<FsStep>, at: nat, damage: Damage): Disk {
    if at < |steps| then Interrupted(Exec(d, steps[..at]), steps[at], damage) else Exec(d, steps)
  }

  // ------------------------------------------------------------------ reading

  /** `resolve_current_set`. */
  function Resolve(d: Disk): Result<Digest, PublishError> {
    if d.current.None? then Err(PointerMissing)
    else if d.current.value.Partial? then Err(PointerInvalid)
    else
      var p := d.current.value.pointer;
      if p.setId != p.manifestSha256 then Err(PointerInvalid)
      else
        var tree := TreeAt(d, Published(p.setId));
        if !IsFile(tree, p.manifestName) then Err(ManifestMissing)
        else if Sha256(tree[p.manifestName].bytes) != p.manifestSha256 then Err(HashMismatch(p.manifestName))
        else Ok(p.setId)
  }

  /** `verify_published_audit_path_set`. */
  function VerifyPublished(d: Disk, codec: Codec): Result<Digest, PublishError> {
    var resolved := Resolve(d);
    if resolved.Err? then resolved
    else
      var verified := VerifySet(TreeAt(d, Published(resolved.value)), codec);
      if verified.Err? then Err(verified.error) else resolved
  }

  // ------------------------------------------------------------------ driver

  datatype Texts = Texts(publicJson: string, publicMermaid: string, auditJson: string)

  /** One call of `write_audit_path_bundle`, with its fresh staging directory and temporary name. */
  datatype Call = Call(texts: seq<Texts>, manifest: Manifest, n: nat, k: nat)

  function FileWrites(n: nat, entries: seq<Entry>, texts: seq<Texts>): seq<FsStep>
    requires |entries| == |texts|
  {
    if entries == [] then []
    else
      var last := |entries| - 1;
      FileWrites(n, entries[..last], texts[..last]) + EntryWrites(n, entries[last], texts[last])
  }

  function EntryWrites(n: nat, e: Entry, t: Texts): seq<FsStep> {
    [WriteStaged(n, e.publicJson, t.publicJson), WriteStaged(n, e.publicMermaid, t.publicMermaid),
     WriteStaged(n, e.auditJson, t.auditJson)]
  }

  function StagingSteps(c: Call): seq<FsStep> {
    var common := if |c.texts| < |c.manifest.entries| then |c.texts| else |c.manifest.entries|;
    [MakeStaging(c.n)] + FileWrites(c.n, c.manifest.entries[..common], c.texts[..common])
  }

  function PointerTo(id: Digest): Pointer { Pointer(id, MANIFEST_FILE, id) }

  function PointerSteps(k: nat, id: Digest): seq<FsStep> { [WriteTemp(k, PointerTo(id)), SwapPointer(k)] }

  /** The digest of a manifest file; `_tree_fingerprints` compares sizes and digests. */
  function ManifestDigest(tree: Tree): Digest
    requires IsFile(tree, MANIFEST_FILE)
  {
    Sha256(tree[MANIFEST_FILE].bytes)
  }

  function Fingerprints(tree: Tree): map<string, (nat, Digest)>
    requires forall p :: p in tree ==> tree[p].File?
  {
    map p | p in tree :: (|tree[p].bytes|, Sha256(tree[p].bytes))
  }

  datatype Outcome = Outcome(steps: seq<FsStep>, result: Result<Digest, PublishError>)

  predicate NoLinks(tree: Tree) { forall p :: p in tree ==> tree[p].File? }

  /** `publish_staged_set`, and what the driver cleans up when it raises. */
  function Publish(d: Disk, n: nat, k: nat): Outcome {
    var tree := TreeAt(d, Staging(n));
    if !IsFile(tree, MANIFEST_FILE) then Outcome([RemoveStaged(n)], Err(ManifestMissing))
    else
      var id := ManifestDigest(tree);
      if Published(id) in d.sets then
        if !NoLinks(d.sets[Published(id)]) || !NoLinks(tree) then Outcome([RemoveStaged(n)], Err(SymbolicLink))
        else if Fingerprints(d.sets[Published(id)]) != Fingerprints(tree)
        then Outcome([RemoveStaged(n)], Err(ContentConflict))
        else Outcome([RemoveStaged(n)] + PointerSteps(k, id), Ok(id))
      else Outcome([RenameSet(n, id)] + PointerSteps(k, id), Ok(id))
  }

  function Then(steps: seq<FsStep>, rest: Outcome): Outcome { Outcome(steps + rest.steps, rest.result) }

  /** Verify the staged set, then publish it. */
  function VerifyAndPublish(d: Disk, c: Call, codec: Codec): Outcome {
    var verified := VerifySet(TreeAt(d, Staging(c.n)), codec);
    if verified.Err? then Outcome([RemoveStaged(c.n)], Err(verified.error)) else Publish(d, c.n, c.k)
  }

  /** Index the staged files, write the manifest, verify, publish. */
  function IndexAndPublish(d: Disk, c: Call, codec: Codec): Outcome {
    var index := BuildIndex(TreeAt(d, Staging(c.n)), ArtifactPaths(c.manifest.entries));
    if index.Err? then Outcome([RemoveStaged(c.n)], Err(index.error))
    else
      var write := WriteStaged(c.n, MANIFEST_FILE, codec.render(c.manifest.(integrity := Some(index.value))));
      Then([write], VerifyAndPublish(Apply(d, write), c, codec))
  }

  /** `write_audit_path_bundle`: the filesystem steps of a call that meets no I/O error, and its result. */
  function WriteBundle(d: Disk, c: Call, codec: Codec): Outcome {
    var staging := StagingSteps(c);
    Then(staging,
         if |c.texts| != |c.manifest.entries| then Outcome([RemoveStaged(c.n)], Err(LengthsDiffer))
         else IndexAndPublish(Exec(d, staging), c, codec))
  }
}
