/** What the object operations promise (storage.rs:182-344, 454-491). */
module ObjectFacts {
  import opened Wrappers
  import opened Text
  import opened FileTree
  import opened Models
  import opened Errors
  import opened Externals
  import opened Layout
  import opened Engine
  import opened CleanupFacts

  // ---- how the tree may change inside one bucket ----

  /** `fs'` only adds to `fs`, inside bucket `b`, and leaves every bucket descriptor as it was. */
  ghost predicate GrowsWithin(fs: Fs, fs': Fs, b: string) {
    && fs.dirs <= fs'.dirs
    && fs.files.Keys <= fs'.files.Keys
    && (forall d | d in fs'.dirs && d !in fs.dirs :: d != [] && d[0] == b)
    && (forall n | BucketMetaPath(n) in fs.files :: fs'.files[BucketMetaPath(n)] == fs.files[BucketMetaPath(n)])
  }

  /** `fs'` only removes from `fs`: directories deep inside bucket `b`, and files other than descriptors. */
  ghost predicate ShrinksWithin(fs: Fs, fs': Fs, b: string) {
    && fs'.dirs <= fs.dirs
    && fs'.files.Keys <= fs.files.Keys
    && (forall d | d in fs.dirs && d !in fs'.dirs :: |d| > 2 && d[0] == b)
    && (forall n | BucketMetaPath(n) in fs.files :: BucketMetaPath(n) in fs'.files)
    && (forall p | p in fs'.files :: fs'.files[p] == fs.files[p])
  }

  lemma GrowsWithinTrans(a: Fs, b: Fs, c: Fs, bucket: string)
    requires GrowsWithin(a, b, bucket) && GrowsWithin(b, c, bucket)
    ensures GrowsWithin(a, c, bucket)
  {
  }

  lemma GrowthKeepsInv(s: State, fs': Fs, b: string, env: Env)
    requires Inv(s) && b in s.index && WellFormed(fs') && GrowsWithin(s.disk, fs', b)
    ensures Inv(State(s.index, fs'))
    ensures Persisted(env, s) ==> Persisted(env, State(s.index, fs'))
  {
    forall d | d in fs'.dirs && |d| == 1 && !Hidden(d[0]) ensures d[0] in s.index {
    }
  }

  lemma ShrinkKeepsInv(s: State, fs': Fs, b: string, env: Env)
    requires Inv(s) && WellFormed(fs') && ShrinksWithin(s.disk, fs', b)
    ensures Inv(State(s.index, fs'))
    ensures Persisted(env, s) ==> Persisted(env, State(s.index, fs'))
  {
    assert [] in fs'.dirs;
    forall n | n in s.index ensures BucketPath(n) in fs'.dirs {
      assert BucketPath(n) in s.disk.dirs;
    }
  }

  lemma CreateDirAllGrows(fs: Fs, p: Path, b: string)
    requires [] in fs.dirs && p != [] && p[0] == b && CreateDirAll(fs, p).Ok?
    ensures GrowsWithin(fs, CreateDirAll(fs, p).value, b)
  {
    var r := CreateDirAll(fs, p).value;
    forall d | d in r.dirs && d !in fs.dirs ensures d != [] && d[0] == b {
      assert IsPrefix(d, p);
    }
  }

  lemma WriteFileGrows(fs: Fs, p: Path, data: seq<byte>, b: string)
    requires p != [] && p[0] == b && WriteFile(fs, p, data).Ok?
    requires |p| != 2 || p[1] != BucketMetaFile
    ensures GrowsWithin(fs, WriteFile(fs, p, data).value, b)
  {
  }

  // ---- update_bucket_stats ----

  /**
    Recounting sets the bucket's counts to the file count and byte total of its
    `objects` tree and rewrites its descriptor; nothing else changes, and the
    counts still describe the tree after the descriptor is written.
  */
  lemma UpdateBucketStatsEffect(s: State, env: Env, b: string)
    requires WellFormed(s.disk) && b in s.index && BucketMetaPath(b) in s.disk.files
    ensures var r := UpdateBucketStats(s, env, b);
      && r.index == s.index[b := s.index[b].(objectCount := FileCount(s.disk, ObjectsRoot(b)),
                                            totalSize := ByteCount(s.disk, ObjectsRoot(b)))]
      && r.disk == s.disk.(files := s.disk.files[BucketMetaPath(b) := env.encodeBucket(r.index[b])])
      && r.index[b].objectCount == FileCount(r.disk, ObjectsRoot(b))
      && r.index[b].totalSize == ByteCount(r.disk, ObjectsRoot(b))
  {
    var r := UpdateBucketStats(s, env, b);
    var bp := BucketMetaPath(b);
    assert bp[..1] == BucketPath(b);
    WriteOutsideKeepsCounts(s.disk, r.disk, bp, env.encodeBucket(r.index[b]), ObjectsRoot(b));
  }

  /** Recounting keeps the invariant, and a persisted index stays persisted. */
  lemma UpdateBucketStatsSpec(s: State, env: Env, b: string)
    requires Inv(s) && b in s.index
    ensures var r := UpdateBucketStats(s, env, b);
      && r.index == s.index[b := s.index[b].(objectCount := FileCount(s.disk, ObjectsRoot(b)),
                                            totalSize := ByteCount(s.disk, ObjectsRoot(b)))]
      && r.disk == s.disk.(files := s.disk.files[BucketMetaPath(b) := env.encodeBucket(r.index[b])])
      && r.index[b].objectCount == FileCount(r.disk, ObjectsRoot(b))
      && r.index[b].totalSize == ByteCount(r.disk, ObjectsRoot(b))
      && Inv(r)
      && (Lawful(env) && Persisted(env, s) ==> Persisted(env, r))
  {
    var r := UpdateBucketStats(s, env, b);
    var bp := BucketMetaPath(b);
    UpdateBucketStatsEffect(s, env, b);
    WriteFileWellFormed(s.disk, bp, env.encodeBucket(r.index[b]));
    forall d | d in r.disk.dirs && |d| == 1 && !Hidden(d[0]) ensures d[0] in r.index {
      assert d in s.disk.dirs;
    }
    if Lawful(env) && Persisted(env, s) {
      forall n | n in r.index
        ensures BucketMetaPath(n) in r.disk.files && LoadsAs(env, r.disk.files[BucketMetaPath(n)], r.index[n])
      {
        if n == b {
          assert LoadsAs(env, env.encodeBucket(r.index[b]), r.index[b]);
        } else {
          assert BucketMetaPath(n) != bp;
        }
      }
    }
  }

  // ---- put_object ----

  /** The checks come first and leave the state as it was. */
  lemma PutObjectRefusals(s: State, env: Env, bucket: string, key: string, data: seq<byte>,
                          contentType: Option<string>, metadata: map<string, string>, now: Timestamp)
    requires KeySafe(key)
    ensures bucket !in s.index ==>
      PutObject(s, env, bucket, key, data, contentType, metadata, now) == (Err(BucketNotFound(bucket)), s)
    ensures bucket in s.index && (|key| == 0 || |key| > 1024) ==>
      PutObject(s, env, bucket, key, data, contentType, metadata, now) == (Err(InvalidObjectKey(KeyLengthMessage)), s)
  {
  }

  /** Whichever step of the four writes fails, the tree has only grown inside the bucket. */
  lemma StoreObjectGrows(fs: Fs, bucket: string, key: string, data: seq<byte>, metaBytes: seq<byte>)
    requires WellFormed(fs) && [] in fs.dirs && IsName(bucket) && KeySafe(key) && key != ""
    ensures var d := StoreObject(fs, bucket, key, data, metaBytes).1;
      WellFormed(d) && GrowsWithin(fs, d, bucket)
  {
    var op := ObjectPath(bucket, key);
    var mp := MetaPath(bucket, key);
    ObjectPathNames(bucket, key);
    var parent := op[..|op| - 1];
    assert AllNames(parent) by {
      forall i | 0 <= i < |parent| ensures IsName(parent[i]) {
        assert parent[i] == op[i];
      }
    }
    match CreateDirAll(fs, parent)
    case Err(_) =>
    case Ok(d1) =>
      CreateDirAllWellFormed(fs, parent);
      CreateDirAllGrows(fs, parent, bucket);
      match WriteFile(d1, op, data)
      case Err(_) =>
      case Ok(d2) =>
        assert op[1] == ObjectsDir;
        WriteFileWellFormed(d1, op, data);
        WriteFileGrows(d1, op, data, bucket);
        GrowsWithinTrans(fs, d1, d2, bucket);
        StoreMetaGrows(fs, d2, bucket, key, metaBytes);
  }

  lemma StoreMetaGrows(fs: Fs, d2: Fs, bucket: string, key: string, metaBytes: seq<byte>)
    requires WellFormed(d2) && GrowsWithin(fs, d2, bucket) && [] in fs.dirs && IsName(bucket)
    ensures var mp := MetaPath(bucket, key);
      match CreateDirAll(d2, mp[..2])
      case Err(_) => true
      case Ok(d3) =>
        && WellFormed(d3) && GrowsWithin(fs, d3, bucket)
        && (WriteFile(d3, mp, metaBytes).Ok? ==>
              WellFormed(WriteFile(d3, mp, metaBytes).value) && GrowsWithin(fs, WriteFile(d3, mp, metaBytes).value, bucket))
  {
    var mp := MetaPath(bucket, key);
    assert mp[..2] == [bucket, MetaDir];
    if CreateDirAll(d2, mp[..2]).Ok? {
      var d3 := CreateDirAll(d2, mp[..2]).value;
      CreateDirAllWellFormed(d2, mp[..2]);
      CreateDirAllGrows(d2, mp[..2], bucket);
      GrowsWithinTrans(fs, d2, d3, bucket);
      if WriteFile(d3, mp, metaBytes).Ok? {
        MetaPathNames(bucket, key);
        WriteFileWellFormed(d3, mp, metaBytes);
        WriteFileGrows(d3, mp, metaBytes, bucket);
        GrowsWithinTrans(fs, d3, WriteFile(d3, mp, metaBytes).value, bucket);
      }
    }
  }

  /** Past the checks, `put_object` is the four writes followed, when they all succeed, by the recount. */
  lemma PutObjectStages(s: State, env: Env, bucket: string, key: string, data: seq<byte>,
                        contentType: Option<string>, metadata: map<string, string>, now: Timestamp)
    requires KeySafe(key) && bucket in s.index && 1 <= |key| <= 1024
    ensures var meta := ObjectMeta(key, bucket, |data|, contentType.GetOr(env.guessMime(key)),
                                   Etag(env, data), now, metadata);
      var st := StoreObject(s.disk, bucket, key, data, env.encodeMeta(meta));
      PutObject(s, env, bucket, key, data, contentType, metadata, now) ==
        if st.0.Ok? then (Ok(meta), UpdateBucketStats(State(s.index, st.1), env, bucket))
        else (Err(IoError(st.0.error)), State(s.index, st.1))
  {
  }

  /** `put_object` keeps the invariant, and a persisted index stays persisted, whether it succeeds or not. */
  lemma PutObjectKeepsInv(s: State, env: Env, bucket: string, key: string, data: seq<byte>,
                          contentType: Option<string>, metadata: map<string, string>, now: Timestamp)
    requires Inv(s) && KeySafe(key)
    ensures Inv(PutObject(s, env, bucket, key, data, contentType, metadata, now).1)
    ensures Lawful(env) && Persisted(env, s) ==>
      Persisted(env, PutObject(s, env, bucket, key, data, contentType, metadata, now).1)
  {
    if bucket in s.index && 1 <= |key| <= 1024 {
      var meta := ObjectMeta(key, bucket, |data|, contentType.GetOr(env.guessMime(key)),
                             Etag(env, data), now, metadata);
      PutObjectStages(s, env, bucket, key, data, contentType, metadata, now);
      var st := StoreObject(s.disk, bucket, key, data, env.encodeMeta(meta));
      StoreKeepsInv(s, env, bucket, key, data, env.encodeMeta(meta));
      if st.0.Ok? {
        UpdateBucketStatsSpec(State(s.index, st.1), env, bucket);
      }
    }
  }

  lemma StoreKeepsInv(s: State, env: Env, bucket: string, key: string, data: seq<byte>, metaBytes: seq<byte>)
    requires Inv(s) && KeySafe(key) && bucket in s.index && key != ""
    ensures var d := StoreObject(s.disk, bucket, key, data, metaBytes).1;
      && Inv(State(s.index, d))
      && (Persisted(env, s) ==> Persisted(env, State(s.index, d)))
  {
    assert IsName(bucket) by {
      assert BucketPath(bucket) in s.disk.dirs;
      assert AllNames(BucketPath(bucket));
    }
    var d := StoreObject(s.disk, bucket, key, data, metaBytes).1;
    StoreObjectGrows(s.disk, bucket, key, data, metaBytes);
    GrowthKeepsInv(s, d, bucket, env);
  }

  /** When all four writes succeed, the data and its descriptor are on disk, under their two names. */
  lemma StoreObjectOk(fs: Fs, bucket: string, key: string, data: seq<byte>, metaBytes: seq<byte>)
    requires StoreObject(fs, bucket, key, data, metaBytes).0.Ok?
    ensures var d := StoreObject(fs, bucket, key, data, metaBytes).1;
      var op := ObjectPath(bucket, key);
      && d.files == fs.files[op := data][MetaPath(bucket, key) := metaBytes]
      && d.dirs == fs.dirs + Prefixes(op[..|op| - 1]) + Prefixes([bucket, MetaDir])
  {
    assert MetaPath(bucket, key)[..2] == [bucket, MetaDir];
  }

  /**
    A successful put returns the descriptor it stored: the key, the bucket, the
    length of the data, the given content type or else the one guessed from the
    key, the ETag of the data, the time of the call and the user metadata. The
    data file and the descriptor file hold exactly the data and the encoded
    descriptor, and the new directories are those the two `create_dir_all`
    calls make; the bucket's counts are those of its `objects` tree afterwards;
    no other bucket changes.
  */
  lemma PutObjectSuccess(s: State, env: Env, bucket: string, key: string, data: seq<byte>,
                         contentType: Option<string>, metadata: map<string, string>, now: Timestamp)
    requires Inv(s) && KeySafe(key)
    requires PutObject(s, env, bucket, key, data, contentType, metadata, now).0.Ok?
    ensures var (r, s') := PutObject(s, env, bucket, key, data, contentType, metadata, now);
      && bucket in s.index && 1 <= |key| <= 1024
      && r.value.key == key && r.value.bucket == bucket
      && r.value.size == |data| && r.value.etag == Etag(env, data)
      && r.value.contentType == (if contentType.Some? then contentType.value else env.guessMime(key))
      && r.value.metadata == metadata && r.value.lastModified == now
      && s'.disk.dirs == s.disk.dirs + Prefixes(ObjectPath(bucket, key)[..|ObjectPath(bucket, key)| - 1])
                                     + Prefixes([bucket, MetaDir])
      && s'.disk.files == s.disk.files[ObjectPath(bucket, key) := data]
                                      [MetaPath(bucket, key) := env.encodeMeta(r.value)]
                                      [BucketMetaPath(bucket) := env.encodeBucket(s'.index[bucket])]
      && s'.index == s.index[bucket := s.index[bucket].(objectCount := FileCount(s'.disk, ObjectsRoot(bucket)),
                                                        totalSize := ByteCount(s'.disk, ObjectsRoot(bucket)))]
  {
    var meta := ObjectMeta(key, bucket, |data|, contentType.GetOr(env.guessMime(key)),
                           Etag(env, data), now, metadata);
    PutObjectStages(s, env, bucket, key, data, contentType, metadata, now);
    var st := StoreObject(s.disk, bucket, key, data, env.encodeMeta(meta));
    StoreObjectOk(s.disk, bucket, key, data, env.encodeMeta(meta));
    StoreKeepsInv(s, env, bucket, key, data, env.encodeMeta(meta));
    UpdateBucketStatsSpec(State(s.index, st.1), env, bucket);
  }

  /** After a successful put, a get of the same key returns the stored descriptor and the data. */
  lemma PutThenGet(s: State, env: Env, bucket: string, key: string, data: seq<byte>,
                   contentType: Option<string>, metadata: map<string, string>, now: Timestamp, later: Timestamp)
    requires Inv(s) && Lawful(env) && KeySafe(key)
    requires PutObject(s, env, bucket, key, data, contentType, metadata, now).0.Ok?
    ensures GetObject(PutObject(s, env, bucket, key, data, contentType, metadata, now).1, env, bucket, key, later)
         == Ok((PutObject(s, env, bucket, key, data, contentType, metadata, now).0.value, data))
  {
    PutObjectSuccess(s, env, bucket, key, data, contentType, metadata, now);
    var s' := PutObject(s, env, bucket, key, data, contentType, metadata, now).1;
    PutLeavesFiles(PutObject(s, env, bucket, key, data, contentType, metadata, now).0.value,
                   s', env, bucket, key, data, later, s.disk.files, s'.index[bucket]);
  }

  lemma PutLeavesFiles(m: ObjectMeta, s': State, env: Env, bucket: string, key: string, data: seq<byte>, later: Timestamp,
                       f: map<Path, seq<byte>>, b: Bucket)
    requires Lawful(env) && bucket in s'.index
    requires s'.disk.files == f[ObjectPath(bucket, key) := data][MetaPath(bucket, key) := env.encodeMeta(m)]
                        [BucketMetaPath(bucket) := env.encodeBucket(b)]
    ensures GetObject(s', env, bucket, key, later) == Ok((m, data))
  {
    DataAndMetaApart(bucket, key, bucket, key);
    GetStored(s', env, bucket, key, m, later);
  }

  /** A descriptor file holding an encoded descriptor is read back as that descriptor. */
  lemma GetStored(s: State, env: Env, bucket: string, key: string, m: ObjectMeta, now: Timestamp)
    requires Lawful(env)
    requires MetaPath(bucket, key) in s.disk.files && s.disk.files[MetaPath(bucket, key)] == env.encodeMeta(m)
    ensures GetObjectMeta(s, env, bucket, key, now) == Ok(m)
    ensures bucket in s.index && ObjectPath(bucket, key) in s.disk.files ==>
      GetObject(s, env, bucket, key, now) == Ok((m, s.disk.files[ObjectPath(bucket, key)]))
  {
  }

  /**
    How `get_object_meta` answers on each kind of tree: with no descriptor file
    it rebuilds one from the data file (guessed content type, no user metadata,
    the time of the call), or reports the object missing; a descriptor that is
    not UTF-8 is an I/O error and one that does not parse is corrupt.
  */
  lemma GetObjectMetaCases(s: State, env: Env, bucket: string, key: string, now: Timestamp)
    requires WellFormed(s.disk)
    ensures var mp, op := MetaPath(bucket, key), ObjectPath(bucket, key);
      var r := GetObjectMeta(s, env, bucket, key, now);
      && (!Exists(s.disk, mp) && !Exists(s.disk, op) ==> r == Err(ObjectNotFound(bucket, key)))
      && (!Exists(s.disk, mp) && op in s.disk.files ==>
            r == Ok(ObjectMeta(key, bucket, |s.disk.files[op]|, env.guessMime(key),
                               Etag(env, s.disk.files[op]), now, map[])))
      && (!Exists(s.disk, mp) && op in s.disk.dirs ==> r == Err(IoError(IsADirectory)))
      && (mp in s.disk.dirs ==> r == Err(IoError(IsADirectory)))
      && (mp in s.disk.files && !IsUtf8(s.disk.files[mp]) ==> r == Err(IoError(InvalidData)))
      && (mp in s.disk.files && IsUtf8(s.disk.files[mp]) && env.decodeMeta(s.disk.files[mp]).Err? ==>
            r == Err(StorageError(CorruptPrefix + env.decodeMeta(s.disk.files[mp]).error)))
  {
  }

  /** `get_object` checks the bucket, then the data file, and only then the descriptor. */
  lemma GetObjectCases(s: State, env: Env, bucket: string, key: string, now: Timestamp)
    requires WellFormed(s.disk)
    ensures var op := ObjectPath(bucket, key);
      var r := GetObject(s, env, bucket, key, now);
      && (bucket !in s.index ==> r == Err(BucketNotFound(bucket)))
      && (bucket in s.index && !Exists(s.disk, op) ==> r == Err(ObjectNotFound(bucket, key)))
      && (bucket in s.index && op in s.disk.dirs ==> r == Err(IoError(IsADirectory)))
      && (bucket in s.index && op in s.disk.files ==>
            match GetObjectMeta(s, env, bucket, key, now)
            case Ok(m) => r == Ok((m, s.disk.files[op]))
            case Err(e) => r == Err(e))
  {
  }

  // ---- delete_object ----

  /** The refusals of `delete_object`, each leaving the state as it was. */
  lemma DeleteObjectRefusals(s: State, env: Env, bucket: string, key: string)
    requires WellFormed(s.disk) && KeySafe(key)
    ensures var op := ObjectPath(bucket, key);
      var r := DeleteObject(s, env, bucket, key);
      && (bucket !in s.index ==> r == (Err(BucketNotFound(bucket)), s))
      && (bucket in s.index && !Exists(s.disk, op) ==> r == (Err(ObjectNotFound(bucket, key)), s))
      && (bucket in s.index && op in s.disk.dirs ==> r == (Err(IoError(IsADirectory)), s))
  {
  }

  /** Past the checks, `delete_object` removes the data file, the descriptor file if there is one, cleans up and recounts. */
  lemma DeleteObjectStages(s: State, env: Env, bucket: string, key: string)
    requires WellFormed(s.disk) && KeySafe(key) && bucket in s.index && ObjectPath(bucket, key) in s.disk.files
    ensures var op, mp := ObjectPath(bucket, key), MetaPath(bucket, key);
      var d1 := s.disk.(files := s.disk.files - {op});
      var d2 := d1.(files := d1.files - {mp});
      DeleteObject(s, env, bucket, key) ==
        if mp in d1.dirs then (Err(IoError(IsADirectory)), State(s.index, d1))
        else (Ok(()), UpdateBucketStats(State(s.index, Cleanup(d2, op[..|op| - 1], ObjectsRoot(bucket))), env, bucket))
  {
    var op, mp := ObjectPath(bucket, key), MetaPath(bucket, key);
    var d1 := s.disk.(files := s.disk.files - {op});
    assert RemoveFile(s.disk, op) == Ok(d1);
    if mp !in d1.dirs && mp !in d1.files {
      assert d1.files - {mp} == d1.files;
      assert d1.(files := d1.files - {mp}) == d1;
    } else if mp in d1.files {
      assert RemoveFile(d1, mp) == Ok(d1.(files := d1.files - {mp}));
    }
  }

  /**
    The clean-up after a delete leaves the files alone and only removes
    directories strictly below the bucket's `objects` directory.
  */
  lemma DeleteCleanup(fs: Fs, bucket: string, key: string)
    requires WellFormed(fs) && KeySafe(key) && BucketMetaPath(bucket) in fs.files
    ensures var op := ObjectPath(bucket, key);
      var r := Cleanup(fs, op[..|op| - 1], ObjectsRoot(bucket));
      && r.files == fs.files && r.dirs <= fs.dirs && WellFormed(r)
      && (forall q | q in fs.dirs && q !in r.dirs :: |q| > 2 && q[0] == bucket && IsPrefix(q, op))
  {
    var op := ObjectPath(bucket, key);
    var dir := op[..|op| - 1];
    var stop := ObjectsRoot(bucket);
    if key == "" {
      assert dir == BucketPath(bucket);
      assert BucketMetaPath(bucket)[..1] == dir;
      assert BucketMetaPath(bucket) in Entries(fs, dir);
    } else {
      assert |op| > 2;
      assert dir[..2] == op[..2] == stop;
      CleanupSpec(fs, dir, stop);
      forall q | q in fs.dirs && q !in Cleanup(fs, dir, stop).dirs ensures |q| > 2 && q[0] == bucket && IsPrefix(q, op) {
        assert q[0] == dir[0];
        assert op[..|q|] == dir[..|q|];
      }
    }
  }

  /** `delete_object` keeps the invariant, and a persisted index stays persisted, whether it succeeds or not. */
  lemma DeleteObjectKeepsInv(s: State, env: Env, bucket: string, key: string)
    requires Inv(s) && KeySafe(key)
    ensures Inv(DeleteObject(s, env, bucket, key).1)
    ensures Lawful(env) && Persisted(env, s) ==> Persisted(env, DeleteObject(s, env, bucket, key).1)
  {
    var op, mp := ObjectPath(bucket, key), MetaPath(bucket, key);
    if bucket in s.index && op in s.disk.files {
      DeleteObjectStages(s, env, bucket, key);
      var d1 := s.disk.(files := s.disk.files - {op});
      DataAndMetaApart(bucket, key, bucket, key);
      assert RemoveFile(s.disk, op) == Ok(d1);
      RemoveFileWellFormed(s.disk, op);
      if mp in d1.dirs {
        DeleteShrinks(s, bucket, key, d1);
        ShrinkKeepsInv(s, d1, bucket, env);
      } else {
        assert op in s.disk.files;
        DeleteFilesKeepInv(s, env, bucket, key, d1);
      }
    }
  }

  lemma DeleteFilesKeepInv(s: State, env: Env, bucket: string, key: string, d1: Fs)
    requires Inv(s) && KeySafe(key) && bucket in s.index && ObjectPath(bucket, key) in s.disk.files
    requires d1 == s.disk.(files := s.disk.files - {ObjectPath(bucket, key)})
    requires MetaPath(bucket, key) !in d1.dirs
    ensures var d2 := d1.(files := d1.files - {MetaPath(bucket, key)});
      var s' := UpdateBucketStats(State(s.index, Cleanup(d2, ObjectPath(bucket, key)[..|ObjectPath(bucket, key)| - 1], ObjectsRoot(bucket))), env, bucket);
      && Inv(s')
      && (Lawful(env) && Persisted(env, s) ==> Persisted(env, s'))
  {
    var op, mp := ObjectPath(bucket, key), MetaPath(bucket, key);
    var d2 := d1.(files := d1.files - {mp});
    var d3 := Cleanup(d2, op[..|op| - 1], ObjectsRoot(bucket));
    DeleteTree(s, bucket, key, d1, d2);
    RemovedFilesShrink(s.disk, d3, bucket, key);
    ShrinkKeepsInv(s, d3, bucket, env);
    UpdateBucketStatsSpec(State(s.index, d3), env, bucket);
  }

  lemma RemovedFilesShrink(fs: Fs, d: Fs, bucket: string, key: string)
    requires d.files == fs.files - {ObjectPath(bucket, key), MetaPath(bucket, key)}
    requires d.dirs <= fs.dirs
    requires forall q | q in fs.dirs && q !in d.dirs :: |q| > 2 && IsPrefix(q, ObjectPath(bucket, key))
    ensures ShrinksWithin(fs, d, bucket)
  {
    forall n | BucketMetaPath(n) in fs.files ensures BucketMetaPath(n) in d.files {
      DataAndMetaApart(bucket, key, n, key);
    }
  }

  /** Removing the data and descriptor files of an object leaves every bucket's descriptor in place. */
  lemma DeleteShrinks(s: State, bucket: string, key: string, d: Fs)
    requires d.dirs == s.disk.dirs
    requires d.files.Keys <= s.disk.files.Keys
    requires forall p | p in s.disk.files && p != ObjectPath(bucket, key) && p != MetaPath(bucket, key) :: p in d.files
    requires forall p | p in d.files :: d.files[p] == s.disk.files[p]
    ensures ShrinksWithin(s.disk, d, bucket)
  {
    forall n | BucketMetaPath(n) in s.disk.files ensures BucketMetaPath(n) in d.files {
      DataAndMetaApart(bucket, key, n, key);
    }
  }

  /**
    A successful delete removes the data file and the descriptor file and
    nothing else but empty directories on the key's own path below `objects`;
    the bucket's counts are those of its `objects` tree afterwards.
  */
  lemma DeleteObjectSuccess(s: State, env: Env, bucket: string, key: string)
    requires Inv(s) && KeySafe(key) && DeleteObject(s, env, bucket, key).0.Ok?
    ensures var s' := DeleteObject(s, env, bucket, key).1;
      var op := ObjectPath(bucket, key);
      && bucket in s.index && op in s.disk.files
      && s'.disk.files == (s.disk.files - {op, MetaPath(bucket, key)})[BucketMetaPath(bucket) := env.encodeBucket(s'.index[bucket])]
      && s'.disk.dirs <= s.disk.dirs
      && (forall q | q in s.disk.dirs && q !in s'.disk.dirs :: |q| > 2 && IsPrefix(q, op))
      && s'.index == s.index[bucket := s.index[bucket].(objectCount := FileCount(s'.disk, ObjectsRoot(bucket)),
                                                        totalSize := ByteCount(s'.disk, ObjectsRoot(bucket)))]
  {
    var op, mp := ObjectPath(bucket, key), MetaPath(bucket, key);
    assert bucket in s.index && op in s.disk.files;
    DeleteObjectStages(s, env, bucket, key);
    var d1 := s.disk.(files := s.disk.files - {op});
    var d2 := d1.(files := d1.files - {mp});
    var d3 := Cleanup(d2, op[..|op| - 1], ObjectsRoot(bucket));
    assert BucketMetaPath(bucket) in s.disk.files;
    DeleteTree(s, bucket, key, d1, d2);
    UpdateBucketStatsEffect(State(s.index, d3), env, bucket);
  }

  /** The tree a successful delete leaves before the recount. */
  lemma DeleteTree(s: State, bucket: string, key: string, d1: Fs, d2: Fs)
    requires WellFormed(s.disk) && KeySafe(key) && BucketMetaPath(bucket) in s.disk.files
    requires ObjectPath(bucket, key) in s.disk.files
    requires d1 == s.disk.(files := s.disk.files - {ObjectPath(bucket, key)})
    requires d2 == d1.(files := d1.files - {MetaPath(bucket, key)}) && MetaPath(bucket, key) !in d1.dirs
    ensures var op := ObjectPath(bucket, key);
      var d3 := Cleanup(d2, op[..|op| - 1], ObjectsRoot(bucket));
      && WellFormed(d3) && BucketMetaPath(bucket) in d3.files
      && d3.files == s.disk.files - {op, MetaPath(bucket, key)}
      && d3.dirs <= s.disk.dirs
      && (forall q | q in s.disk.dirs && q !in d3.dirs :: |q| > 2 && IsPrefix(q, op))
  {
    var op, mp := ObjectPath(bucket, key), MetaPath(bucket, key);
    RemoveBothWellFormed(s.disk, op, mp, d1, d2);
    DataAndMetaApart(bucket, key, bucket, key);
    DeleteCleanup(d2, bucket, key);
    assert d2.dirs == s.disk.dirs;
    assert s.disk.files - {op, mp} == d2.files;
  }

  /** Removing the data file, then the descriptor if there is one, keeps the tree well formed. */
  lemma RemoveBothWellFormed(fs: Fs, op: Path, mp: Path, d1: Fs, d2: Fs)
    requires WellFormed(fs) && op in fs.files
    requires d1 == fs.(files := fs.files - {op})
    requires d2 == d1.(files := d1.files - {mp}) && mp !in d1.dirs
    ensures WellFormed(d2)
  {
    assert RemoveFile(fs, op) == Ok(d1);
    RemoveFileWellFormed(fs, op);
    if mp in d1.files {
      assert RemoveFile(d1, mp) == Ok(d2);
      RemoveFileWellFormed(d1, mp);
    } else {
      assert d2 == d1;
    }
  }

  /** After a successful delete, a get of the same key reports the object missing. */
  lemma DeleteThenGet(s: State, env: Env, bucket: string, key: string, now: Timestamp)
    requires Inv(s) && KeySafe(key) && DeleteObject(s, env, bucket, key).0.Ok?
    ensures GetObject(DeleteObject(s, env, bucket, key).1, env, bucket, key, now) == Err(ObjectNotFound(bucket, key))
  {
    var s' := DeleteObject(s, env, bucket, key).1;
    var op := ObjectPath(bucket, key);
    DeleteObjectSuccess(s, env, bucket, key);
    DataAndMetaApart(bucket, key, bucket, key);
    assert op !in s'.disk.files;
    assert op !in s.disk.dirs;
  }
}
