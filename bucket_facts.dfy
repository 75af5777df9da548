/** What the bucket operations promise (storage.rs:93-178). */
module BucketFacts {
  import opened Wrappers
  import opened Text
  import opened FileTree
  import opened Models
  import opened Errors
  import opened Externals
  import opened Layout
  import opened Engine

  /** Validation comes first: an invalid name is refused before the index or the tree is looked at. */
  lemma CreateBucketChecksFirst(s: State, env: Env, name: string, region: string, now: Timestamp)
    ensures !IsValidBucketName(name) ==>
      CreateBucket(s, env, name, region, now) == (Err(ValidateBucketName(name).error), s)
    ensures IsValidBucketName(name) && name in s.index ==>
      CreateBucket(s, env, name, region, now) == (Err(BucketAlreadyExists(name)), s)
  {
  }

  /**
    A successful creation adds exactly one index entry, the new bucket with the
    given name and region and zero counts, makes its two directories and writes
    its descriptor; `get_bucket` then finds it.
  */
  lemma CreateBucketSuccess(s: State, env: Env, name: string, region: string, now: Timestamp)
    requires CreateBucket(s, env, name, region, now).0.Ok?
    ensures var (r, s') := CreateBucket(s, env, name, region, now);
      && name !in s.index
      && r.value == Bucket(name, now, region, 0, 0)
      && s'.index == s.index[name := r.value]
      && GetBucket(s', name) == Ok(r.value)
      && ObjectsRoot(name) in s'.disk.dirs && [name, MetaDir] in s'.disk.dirs
      && s'.disk.files == s.disk.files[BucketMetaPath(name) := env.encodeBucket(r.value)]
  {
    var od := ObjectsRoot(name);
    var md: Path := [name, MetaDir];
    assert od[..|od|] == od && md[..|md|] == md;
  }

  /** On a tree where nothing bears the name yet, creating a valid, unknown bucket succeeds. */
  lemma CreateBucketFresh(s: State, env: Env, name: string, region: string, now: Timestamp)
    requires WellFormed(s.disk)
    requires IsValidBucketName(name) && name !in s.index && !Exists(s.disk, BucketPath(name))
    ensures CreateBucket(s, env, name, region, now).0.Ok?
  {
    var od := ObjectsRoot(name);
    assert forall i | 0 <= i <= |od| :: od[..i] !in s.disk.files by {
      assert od[..1] == [name];
      assert od[..2] == od;
    }
    var d1 := CreateDirAll(s.disk, od).value;
    var md: Path := [name, MetaDir];
    assert forall i | 0 <= i <= |md| :: md[..i] !in d1.files by {
      assert md[..1] == [name];
      assert md[..2] == md;
      assert md[..1] == md[..1][..1];
    }
    var d2 := CreateDirAll(d1, md).value;
    var bp := BucketMetaPath(name);
    assert bp[..1] == BucketPath(name);
    assert od[..2] == od && md[..2] == md;
    assert bp[1] != od[1] && bp[1] != md[1];
    assert !IsPrefix(bp, od) && !IsPrefix(bp, md);
    assert bp !in d2.dirs;
    assert od[..1] == bp[..1] && od[..1] in Prefixes(od);
    assert bp[..|bp| - 1] in d2.dirs;
    assert WriteFile(d2, bp, env.encodeBucket(Bucket(name, now, region, 0, 0))).Ok?;
    assert MakeBucket(s, env, name, region, now).0.Ok?;
    assert ValidateBucketName(name).Ok?;
  }

  lemma CreateBucketKeepsInv(s: State, env: Env, name: string, region: string, now: Timestamp)
    requires Inv(s)
    ensures Inv(CreateBucket(s, env, name, region, now).1)
    ensures Lawful(env) && Persisted(env, s) ==> Persisted(env, CreateBucket(s, env, name, region, now).1)
  {
    if IsValidBucketName(name) && name !in s.index {
      assert CreateBucket(s, env, name, region, now) == MakeBucket(s, env, name, region, now);
      if MakeBucket(s, env, name, region, now).0.Ok? {
        MakeBucketOkKeepsInv(s, env, name, region, now);
      } else {
        MakeBucketErrKeepsInv(s, env, name, region, now);
      }
    }
  }

  lemma MakeBucketOkKeepsInv(s: State, env: Env, name: string, region: string, now: Timestamp)
    requires Inv(s) && IsValidBucketName(name) && name !in s.index
    requires MakeBucket(s, env, name, region, now).0.Ok?
    ensures Inv(MakeBucket(s, env, name, region, now).1)
    ensures Lawful(env) && Persisted(env, s) ==> Persisted(env, MakeBucket(s, env, name, region, now).1)
  {
    var b := Bucket(name, now, region, 0, 0);
    var d1 := CreateDirAll(s.disk, ObjectsRoot(name)).value;
    var d2 := CreateDirAll(d1, [name, MetaDir]).value;
    var d3 := WriteFile(d2, BucketMetaPath(name), env.encodeBucket(b)).value;
    assert MakeBucket(s, env, name, region, now).1 == State(s.index[name := b], d3);
    BucketDirsKeepInv(s, env, name, b, d1, d2, d3);
  }

  lemma BucketDirsKeepInv(s: State, env: Env, name: string, b: Bucket, d1: Fs, d2: Fs, d3: Fs)
    requires Inv(s) && IsValidBucketName(name) && name !in s.index
    requires CreateDirAll(s.disk, ObjectsRoot(name)) == Ok(d1)
    requires CreateDirAll(d1, [name, MetaDir]) == Ok(d2)
    requires WriteFile(d2, BucketMetaPath(name), env.encodeBucket(b)) == Ok(d3)
    ensures Inv(State(s.index[name := b], d3))
    ensures Lawful(env) && Persisted(env, s) ==> Persisted(env, State(s.index[name := b], d3))
  {
    var s' := State(s.index[name := b], d3);
    ValidNameIsName(name);
    BucketDirsFacts(s.disk, name, env.encodeBucket(b), d1, d2, d3);
    GrownTreeKeepsInv(s, s', name, ObjectsRoot(name), [name, MetaDir]);
    if Lawful(env) && Persisted(env, s) {
      DescriptorWrittenKeepsPersisted(s, s', env, name, b);
    }
  }

  /** The tree after the three steps of `MakeBucket`. */
  lemma BucketDirsFacts(fs: Fs, name: string, bytes: seq<byte>, d1: Fs, d2: Fs, d3: Fs)
    requires WellFormed(fs) && IsName(name)
    requires CreateDirAll(fs, ObjectsRoot(name)) == Ok(d1)
    requires CreateDirAll(d1, [name, MetaDir]) == Ok(d2)
    requires WriteFile(d2, BucketMetaPath(name), bytes) == Ok(d3)
    ensures WellFormed(d3)
    ensures d3.files == fs.files[BucketMetaPath(name) := bytes]
    ensures fs.dirs <= d3.dirs && BucketPath(name) in d3.dirs
    ensures forall d | d in d3.dirs :: d in fs.dirs || IsPrefix(d, ObjectsRoot(name)) || IsPrefix(d, [name, MetaDir])
  {
    assert AllNames(ObjectsRoot(name)) && AllNames([name, MetaDir]);
    assert IsPrefix(BucketPath(name), ObjectsRoot(name));
    CreateDirAllWellFormed(fs, ObjectsRoot(name));
    CreateDirAllWellFormed(d1, [name, MetaDir]);
    WriteFileWellFormed(d2, BucketMetaPath(name), bytes);
  }

  /** Writing one bucket's descriptor for its new index entry keeps every descriptor readable. */
  lemma DescriptorWrittenKeepsPersisted(s: State, s': State, env: Env, name: string, b: Bucket)
    requires Lawful(env) && Persisted(env, s)
    requires s'.index == s.index[name := b]
    requires s'.disk.files == s.disk.files[BucketMetaPath(name) := env.encodeBucket(b)]
    ensures Persisted(env, s')
  {
    forall n | n in s'.index
      ensures BucketMetaPath(n) in s'.disk.files && LoadsAs(env, s'.disk.files[BucketMetaPath(n)], s'.index[n])
    {
      if n == name {
        assert LoadsAs(env, env.encodeBucket(b), b);
      } else {
        assert BucketMetaPath(n) != BucketMetaPath(name);
      }
    }
  }

  lemma MakeBucketErrKeepsInv(s: State, env: Env, name: string, region: string, now: Timestamp)
    requires Inv(s) && IsValidBucketName(name) && name !in s.index
    requires MakeBucket(s, env, name, region, now).0.Err?
    ensures Inv(MakeBucket(s, env, name, region, now).1)
    ensures Persisted(env, s) ==> Persisted(env, MakeBucket(s, env, name, region, now).1)
  {
    var s' := MakeBucket(s, env, name, region, now).1;
    ValidNameIsName(name);
    var od := ObjectsRoot(name);
    var md: Path := [name, MetaDir];
    assert AllNames(od) && AllNames(md);
    var c1 := CreateDirAll(s.disk, od);
    if c1.Ok? {
      assert od[..1] == BucketPath(name);
      if BucketPath(name) !in s.disk.dirs {
        assert CreateBucket(s, env, name, region, now) == MakeBucket(s, env, name, region, now);
        CreateBucketFresh(s, env, name, region, now);
      }
      assert s'.disk.files == s.disk.files;
      CreateDirAllWellFormed(s.disk, od);
      var d1 := c1.value;
      if CreateDirAll(d1, md).Ok? {
        CreateDirAllWellFormed(d1, md);
      }
      GrownTreeKeepsInv(s, s', name, od, md);
    }
  }

  /** What creating a bucket's directories and descriptor can change, and why that keeps `Inv`. */
  lemma GrownTreeKeepsInv(s: State, s': State, name: string, od: Path, md: Path)
    requires Inv(s) && WellFormed(s'.disk)
    requires od == ObjectsRoot(name) && md == [name, MetaDir]
    requires s.index.Keys <= s'.index.Keys
    requires s'.index.Keys <= s.index.Keys + {name}
    requires name in s'.index || BucketPath(name) in s.disk.dirs
    requires name in s'.index ==> BucketPath(name) in s'.disk.dirs && BucketMetaPath(name) in s'.disk.files
    requires forall d | d in s'.disk.dirs :: d in s.disk.dirs || IsPrefix(d, od) || IsPrefix(d, md)
    requires s.disk.dirs <= s'.disk.dirs && s.disk.files.Keys <= s'.disk.files.Keys
    ensures Inv(s')
  {
    forall d | d in s'.disk.dirs && |d| == 1 && !Hidden(d[0]) ensures d[0] in s'.index {
      if d !in s.disk.dirs {
        assert d == [name];
      }
    }
  }

  /** `delete_bucket`'s refusals, in the order the code checks them. */
  lemma DeleteBucketRefusals(s: State, name: string)
    ensures name !in s.index ==> DeleteBucket(s, name) == (Err(BucketNotFound(name)), s)
    ensures name in s.index && ObjectsRoot(name) in s.disk.dirs && Entries(s.disk, ObjectsRoot(name)) != {} ==>
      DeleteBucket(s, name) == (Err(StorageError(NotEmptyMessage)), s)
    ensures WellFormed(s.disk) && name in s.index && ObjectsRoot(name) in s.disk.files ==>
      DeleteBucket(s, name) == (Err(IoError(NotADirectory)), s)
  {
  }

  /** A successful deletion removes exactly the index entry and the bucket's subtree. */
  lemma DeleteBucketSuccess(s: State, name: string)
    requires DeleteBucket(s, name).0.Ok?
    ensures var s' := DeleteBucket(s, name).1;
      && name in s.index
      && s'.index == s.index - {name}
      && (forall p :: p in s'.disk.dirs <==> p in s.disk.dirs && !IsPrefix(BucketPath(name), p))
      && (forall p :: p in s'.disk.files <==> p in s.disk.files && !IsPrefix(BucketPath(name), p))
      && (forall p | p in s'.disk.files :: s'.disk.files[p] == s.disk.files[p])
  {
  }

  /** An indexed bucket whose `objects` directory is missing or empty is deleted. */
  lemma DeleteBucketEmpty(s: State, name: string)
    requires Inv(s) && name in s.index
    requires ObjectsRoot(name) !in s.disk.files
    requires ObjectsRoot(name) in s.disk.dirs ==> Entries(s.disk, ObjectsRoot(name)) == {}
    ensures DeleteBucket(s, name).0.Ok?
  {
  }

  lemma DeleteBucketKeepsInv(s: State, name: string, env: Env)
    requires Inv(s)
    ensures Inv(DeleteBucket(s, name).1)
    ensures Persisted(env, s) ==> Persisted(env, DeleteBucket(s, name).1)
  {
    if DeleteBucket(s, name).0.Ok? {
      assert DeleteBucket(s, name) == RemoveBucketDir(s, name);
      RemoveBucketDirKeepsInv(s, name, env);
    }
  }

  lemma RemoveBucketDirKeepsInv(s: State, name: string, env: Env)
    requires Inv(s) && RemoveBucketDir(s, name).0.Ok?
    ensures Inv(RemoveBucketDir(s, name).1)
    ensures Persisted(env, s) ==> Persisted(env, RemoveBucketDir(s, name).1)
  {
    var s' := RemoveBucketDir(s, name).1;
    var bp := BucketPath(name);
    var d := s'.disk;
    RemoveDirAllWellFormed(s.disk, bp);
    forall n | n in s'.index ensures BucketPath(n) in d.dirs && BucketMetaPath(n) in d.files {
      assert !IsPrefix(bp, BucketPath(n));
      assert !IsPrefix(bp, BucketMetaPath(n));
    }
    forall x | x in d.dirs && |x| == 1 && !Hidden(x[0]) ensures x[0] in s'.index {
      assert x == [x[0]];
    }
    assert !IsPrefix(bp, []);
    if Persisted(env, s) {
      RemoveBucketDirKeepsPersisted(s, name, env);
    }
  }

  lemma RemoveBucketDirKeepsPersisted(s: State, name: string, env: Env)
    requires Persisted(env, s) && RemoveBucketDir(s, name).0.Ok?
    ensures Persisted(env, RemoveBucketDir(s, name).1)
  {
    var s' := RemoveBucketDir(s, name).1;
    var bp := BucketPath(name);
    assert s'.index == s.index - {name};
    forall n | n in s'.index
      ensures BucketMetaPath(n) in s'.disk.files && LoadsAs(env, s'.disk.files[BucketMetaPath(n)], s'.index[n])
    {
      assert BucketMetaPath(n)[..1] == [n] != bp;
    }
  }
}
