/** The publication root as an object: each method performs the filesystem steps of its model. */
module PublicationStore {
  import opened Base
  import opened TextOrder
  import opened Publication
  import PublicationTheorems

  class PublicationRoot {
    var sets: map<Place, Tree>
    var current: Option<PointerText>
    var temps: map<nat, PointerText>
    /** Every filesystem step so far, in order. */
    ghost var performed: seq<FsStep>

    ghost function Now(): Disk
      reads this
    {
      Disk(sets, current, temps)
    }

    /** Since the disk was `d` and the log was `log`, exactly `steps` were performed. */
    ghost predicate Since(d: Disk, log: seq<FsStep>, steps: seq<FsStep>)
      reads this
    {
      Now() == Exec(d, steps) && performed == log + steps
    }

    /** Steps after steps. */
    lemma Chain(d: Disk, log: seq<FsStep>, a: seq<FsStep>, b: seq<FsStep>)
      requires Since(Exec(d, a), log + a, b)
      ensures Since(d, log, a + b)
    {
      ExecConcat(d, a, b);
      assert log + a + b == log + (a + b);
    }

    constructor ()
      ensures Now() == EMPTY_DISK && performed == []
    {
      sets, current, temps, performed := map[], None, map[], [];
    }

    /** `create_staging_directory`. */
    method CreateStagingDirectory(n: nat)
      modifies this
      ensures Since(old(Now()), old(performed), [MakeStaging(n)])
    {
      sets := sets[Staging(n) := map[]];
      performed := performed + [MakeStaging(n)];
      ExecOne(old(Now()), MakeStaging(n));
    }

    /** `write_text_durable` below a staging directory. */
    method WriteTextDurable(n: nat, path: string, text: string)
      modifies this
      ensures Since(old(Now()), old(performed), [WriteStaged(n, path, text)])
    {
      var tree := if Staging(n) in sets then sets[Staging(n)] else map[];
      sets := sets[Staging(n) := tree[path := File(text)]];
      performed := performed + [WriteStaged(n, path, text)];
      ExecOne(old(Now()), WriteStaged(n, path, text));
    }

    /** `shutil.rmtree(staging_dir)`. */
    method RemoveStagingDirectory(n: nat)
      modifies this
      ensures Since(old(Now()), old(performed), [RemoveStaged(n)])
    {
      sets := sets - {Staging(n)};
      performed := performed + [RemoveStaged(n)];
      ExecOne(old(Now()), RemoveStaged(n));
    }

    /** `os.replace(staging_dir, final_dir)`. */
    method RenameStagingDirectory(n: nat, id: Digest)
      requires Staging(n) in sets
      modifies this
      ensures Since(old(Now()), old(performed), [RenameSet(n, id)])
    {
      var tree := sets[Staging(n)];
      sets := (sets - {Staging(n)})[Published(id) := tree];
      performed := performed + [RenameSet(n, id)];
      ExecOne(old(Now()), RenameSet(n, id));
    }

    /** Write the new pointer beside the old one, then replace it. */
    method ReplacePointer(k: nat, id: Digest)
      modifies this
      ensures Since(old(Now()), old(performed), PointerSteps(k, id))
    {
      temps := temps[k := Complete(PointerTo(id))];
      performed := performed + [WriteTemp(k, PointerTo(id))];
      ghost var written := Now();
      current := Some(temps[k]);
      temps := temps - {k};
      performed := performed + [SwapPointer(k)];
      ExecOne(old(Now()), WriteTemp(k, PointerTo(id)));
      ExecSnoc(old(Now()), [WriteTemp(k, PointerTo(id))], SwapPointer(k));
      assert [WriteTemp(k, PointerTo(id))] + [SwapPointer(k)] == PointerSteps(k, id);
    }

    /** The three files of one entry. */
    method WriteEntry(n: nat, e: Entry, t: Texts)
      modifies this
      ensures Since(old(Now()), old(performed), EntryWrites(n, e, t))
    {
      ghost var (d, log) := (Now(), performed);
      var (a, b, c) := (WriteStaged(n, e.publicJson, t.publicJson), WriteStaged(n, e.publicMermaid, t.publicMermaid),
                        WriteStaged(n, e.auditJson, t.auditJson));
      WriteTextDurable(n, e.publicJson, t.publicJson);
      WriteTextDurable(n, e.publicMermaid, t.publicMermaid);
      Chain(d, log, [a], [b]);
      assert [a] + [b] == [a, b];
      WriteTextDurable(n, e.auditJson, t.auditJson);
      Chain(d, log, [a, b], [c]);
      assert [a, b] + [c] == [a, b, c];
    }

    /** The loop of `write_audit_path_bundle`. */
    method StageFiles(c: Call) returns (complete: bool)
      modifies this
      ensures complete <==> |c.texts| == |c.manifest.entries|
      ensures Since(old(Now()), old(performed), StagingSteps(c))
    {
      ghost var (d, log) := (Now(), performed);
      CreateStagingDirectory(c.n);
      var entries := c.manifest.entries;
      var common := if |c.texts| < |entries| then |c.texts| else |entries|;
      assert StagedSoFar(c, 0) == [MakeStaging(c.n)];
      for i := 0 to common
        invariant Since(d, log, StagedSoFar(c, i))
      {
        WriteEntry(c.n, entries[i], c.texts[i]);
        Chain(d, log, StagedSoFar(c, i), EntryWrites(c.n, entries[i], c.texts[i]));
        StagedGrows(c, i);
      }
      complete := |c.texts| == |entries|;
    }

    /** `publish_staged_set`; a raised error is cleaned up by the driver. */
    method PublishStagedSet(n: nat, k: nat) returns (r: Result<Digest, PublishError>)
      requires Staging(n) in sets
      modifies this
      ensures r == Publish(old(Now()), n, k).result
      ensures Since(old(Now()), old(performed), Publish(old(Now()), n, k).steps)
    {
      ghost var (d, log) := (Now(), performed);
      var tree := sets[Staging(n)];
      if !IsFile(tree, MANIFEST_FILE) {
        RemoveStagingDirectory(n);
        return Err(ManifestMissing);
      }
      var id := Sha256(tree[MANIFEST_FILE].bytes);
      if Published(id) in sets {
        var published := sets[Published(id)];
        if !NoLinks(published) || !NoLinks(tree) {
          RemoveStagingDirectory(n);
          return Err(SymbolicLink);
        }
        if Fingerprints(published) != Fingerprints(tree) {
          RemoveStagingDirectory(n);
          return Err(ContentConflict);
        }
        RemoveStagingDirectory(n);
        ReplacePointer(k, id);
        Chain(d, log, [RemoveStaged(n)], PointerSteps(k, id));
      } else {
        RenameStagingDirectory(n, id);
        ReplacePointer(k, id);
        Chain(d, log, [RenameSet(n, id)], PointerSteps(k, id));
      }
      r := Ok(id);
    }

    /** `verify_audit_path_set` on a staged tree. */
    method Verify(tree: Tree, codec: Codec) returns (r: Result<Manifest, PublishError>)
      ensures r == VerifySet(tree, codec)
    {
      if !IsFile(tree, MANIFEST_FILE) {
        return Err(ManifestMissing);
      }
      var m := codec.parse(tree[MANIFEST_FILE].bytes);
      if m.None? || !ValidManifest(m.value) || m.value.integrity.None? {
        return Err(ManifestInvalid);
      }
      var error := VerifyIntegrityIndex(tree, MANIFEST_FILE, m.value.integrity.value);
      r := if error.Some? then Err(error.value) else Ok(m.value);
    }

    /** Verify the staged set, then publish it. */
    method VerifyThenPublish(c: Call, codec: Codec) returns (r: Result<Digest, PublishError>)
      requires Staging(c.n) in sets
      modifies this
      ensures r == VerifyAndPublish(old(Now()), c, codec).result
      ensures Since(old(Now()), old(performed), VerifyAndPublish(old(Now()), c, codec).steps)
    {
      var verified := Verify(sets[Staging(c.n)], codec);
      if verified.Err? {
        RemoveStagingDirectory(c.n);
        return Err(verified.error);
      }
      r := PublishStagedSet(c.n, c.k);
    }

    /** `write_audit_path_bundle`: exactly the steps of the model, in their order. */
    method WriteAuditPathBundle(c: Call, codec: Codec) returns (r: Result<Digest, PublishError>)
      modifies this
      ensures r == WriteBundle(old(Now()), c, codec).result
      ensures Since(old(Now()), old(performed), WriteBundle(old(Now()), c, codec).steps)
    {
      ghost var (d, log) := (Now(), performed);
      var complete := StageFiles(c);
      if !complete {
        RemoveStagingDirectory(c.n);
        Chain(d, log, StagingSteps(c), [RemoveStaged(c.n)]);
        return Err(LengthsDiffer);
      }
      ghost var staged := Now();
      StagingExists(d, c);
      r := IndexThenPublish(c, codec);
      Chain(d, log, StagingSteps(c), IndexAndPublish(staged, c, codec).steps);
    }

    method IndexThenPublish(c: Call, codec: Codec) returns (r: Result<Digest, PublishError>)
      requires Staging(c.n) in sets
      modifies this
      ensures r == IndexAndPublish(old(Now()), c, codec).result
      ensures Since(old(Now()), old(performed), IndexAndPublish(old(Now()), c, codec).steps)
    {
      ghost var (d, log) := (Now(), performed);
      var index := BuildIntegrityIndex(sets[Staging(c.n)], ArtifactPaths(c.manifest.entries));
      if index.Err? {
        RemoveStagingDirectory(c.n);
        return Err(index.error);
      }
      var text := codec.render(c.manifest.(integrity := Some(index.value)));
      ghost var write := WriteStaged(c.n, MANIFEST_FILE, text);
      WriteTextDurable(c.n, MANIFEST_FILE, text);
      ghost var written := Now();
      ExecOne(d, write);
      r := VerifyThenPublish(c, codec);
      Chain(d, log, [write], VerifyAndPublish(written, c, codec).steps);
    }
  }

  /** `build_integrity_index`. */
  method BuildIntegrityIndex(tree: Tree, paths: seq<string>) returns (r: Result<seq<FileDigest>, PublishError>)
    ensures r == BuildIndex(tree, paths)
  {
    var sorted := SortDistinct(paths);
    var files: seq<FileDigest> := [];
    for i := 0 to |sorted|
      invariant forall p :: p in sorted[..i] ==> IsFile(tree, p)
      invariant |files| == i && forall j :: 0 <= j < i ==> IsFile(tree, sorted[j]) && files[j] == DigestOf(tree, sorted[j])
    {
      if !IsFile(tree, sorted[i]) {
        assert sorted[i] in paths;
        return Err(MissingOrUnsafeFile);
      }
      files := files + [DigestOf(tree, sorted[i])];
    }
    assert sorted[..|sorted|] == sorted;
    if !Distinct(paths) {
      return Err(NotUnique);
    }
    assert files == Digests(tree, sorted);
    r := Ok(files);
  }

  lemma ExecOne(d: Disk, step: FsStep)
    ensures Exec(d, [step]) == Apply(d, step)
  {
    assert [step][1..] == [];
  }

  lemma ExecSnoc(d: Disk, steps: seq<FsStep>, step: FsStep)
    ensures Exec(d, steps + [step]) == Apply(Exec(d, steps), step)
  {
    ExecConcat(d, steps, [step]);
    ExecOne(Exec(d, steps), step);
  }

  lemma ExecConcat(d: Disk, a: seq<FsStep>, b: seq<FsStep>)
    ensures Exec(d, a + b) == Exec(Exec(d, a), b)
  {
    PublicationTheorems.ExecConcat(d, a, b);
  }

  lemma WritesGrow(n: nat, entries: seq<Entry>, texts: seq<Texts>, i: nat)
    requires i < |entries| && i < |texts|
    ensures FileWrites(n, entries[..i + 1], texts[..i + 1])
      == FileWrites(n, entries[..i], texts[..i]) + EntryWrites(n, entries[i], texts[i])
  {
    assert entries[..i + 1][..i] == entries[..i] && texts[..i + 1][..i] == texts[..i];
  }

  /** The steps that stage the first `i` entries. */
  function StagedSoFar(c: Call, i: nat): seq<FsStep>
    requires i <= |c.texts| && i <= |c.manifest.entries|
  {
    [MakeStaging(c.n)] + FileWrites(c.n, c.manifest.entries[..i], c.texts[..i])
  }

  lemma StagedGrows(c: Call, i: nat)
    requires i < |c.texts| && i < |c.manifest.entries|
    ensures StagedSoFar(c, i + 1) == StagedSoFar(c, i) + EntryWrites(c.n, c.manifest.entries[i], c.texts[i])
  {
    WritesGrow(c.n, c.manifest.entries, c.texts, i);
  }

  /** The staging directory is there after the files are written. */
  lemma StagingExists(d: Disk, c: Call)
    ensures Staging(c.n) in Exec(d, StagingSteps(c)).sets
  {
    var common := if |c.texts| < |c.manifest.entries| then |c.texts| else |c.manifest.entries|;
    var writes := FileWrites(c.n, c.manifest.entries[..common], c.texts[..common]);
    assert StagingSteps(c)[1..] == writes;
    WritesKeepStaging(Apply(d, MakeStaging(c.n)), c.n, c.manifest.entries[..common], c.texts[..common]);
  }

  lemma {:induction false} WritesKeepStaging(d: Disk, n: nat, entries: seq<Entry>, texts: seq<Texts>)
    requires |entries| == |texts| && Staging(n) in d.sets
    ensures Staging(n) in Exec(d, FileWrites(n, entries, texts)).sets
  {
    if entries != [] {
      var last := |entries| - 1;
      WritesKeepStaging(d, n, entries[..last], texts[..last]);
      assert entries[..last + 1] == entries && texts[..last + 1] == texts;
      WritesGrow(n, entries, texts, last);
      var front := FileWrites(n, entries[..last], texts[..last]);
      var (a, b, e) := (WriteStaged(n, entries[last].publicJson, texts[last].publicJson),
                        WriteStaged(n, entries[last].publicMermaid, texts[last].publicMermaid),
                        WriteStaged(n, entries[last].auditJson, texts[last].auditJson));
      ExecConcat(d, front, [a, b, e]);
      PublicationTheorems.ExecThree(Exec(d, front), a, b, e);
    }
  }
}
