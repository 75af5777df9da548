/**
  `StorageEngine` (storage.rs:13-506): the bucket index held in memory and the
  directory tree under the data root. Each method that mirrors an engine
  operation is proved to leave the object in the state the step function of
  module Engine gives, so the lemmas about those functions are lemmas about the
  class; the walks (`dir_stats`, `walk_objects`, the scan) are loops proved
  against the aggregates they compute.
*/
module Storage {
  import opened Wrappers
  import opened Text
  import opened Sums
  import opened FileTree
  import opened Models
  import opened Errors
  import opened Externals
  import opened Layout
  import opened Engine
  import opened Sorting
  import opened SizeFormat
  import opened Listing
  import ObjectFacts
  import StartFacts
  import BucketFacts

  function BucketName(b: Bucket): string { b.name }

  /** The object counts of the index, keyed by bucket. */
  ghost function Counts(index: map<string, Bucket>): map<string, nat> {
    map n | n in index :: index[n].objectCount
  }

  /** The byte totals of the index, keyed by bucket. */
  ghost function Sizes(index: map<string, Bucket>): map<string, nat> {
    map n | n in index :: index[n].totalSize
  }

  class StorageEngine {
    /** The in-memory index (`buckets`); the `RwLock` around it is not modelled. */
    var buckets: map<string, Bucket>
    /** The tree under `root`. */
    var disk: Fs
    /** The serialisation, hashing and MIME crates the engine calls. */
    const env: Env

    /** An engine over the tree `root` with an empty index, before the scan. */
    constructor (root: Fs, env: Env)
      ensures buckets == map[] && disk == root && this.env == env
    {
      buckets := map[];
      disk := root;
      this.env := env;
    }

    /**
      `StorageEngine::new`: create the data root, then scan it. The scan stops
      at the first bucket directory whose descriptor cannot be read as text.
    */
    static method Open(fs: Fs, env: Env, now: Timestamp) returns (r: Result<StorageEngine, AppError>)
      requires WellFormed(fs)
      ensures r.Ok? <==> ScanErrors(fs, env) == {}
      ensures r.Err? ==> r.error.IoError? && r.error.error in ScanErrors(fs, env)
      ensures r.Ok? ==> && fresh(r.value) && r.value.env == env
                        && r.value.buckets == ScanIndex(fs, env, now)
                        && r.value.disk == ScanDisk(fs, env, now)
                        && r.value.Valid()
    {
      RootCreated(fs);
      var root := CreateDirAll(fs, []).value;
      RootChangesNoScan(fs, root, env, now);
      var engine := new StorageEngine(root, env);
      var scanned := engine.ScanBuckets(now);
      if scanned.Err? {
        return Err(scanned.error);
      }
      OpenedValid(fs, env, now, engine.buckets, engine.disk);
      r := Ok(engine);
    }

    /** `scan_buckets`: load every non-hidden directory under the root into the index. */
    method ScanBuckets(now: Timestamp) returns (r: Result<(), AppError>)
      requires WellFormed(disk) && [] in disk.dirs
      modifies this
      ensures r.Ok? <==> ScanErrors(old(disk), env) == {}
      ensures r.Err? ==> r.error.IoError? && r.error.error in ScanErrors(old(disk), env)
      ensures r.Ok? ==> && buckets == old(buckets) + ScanIndex(old(disk), env, now)
                        && disk == ScanDisk(old(disk), env, now)
    {
      ghost var fs := disk;
      var todo := set d | d in disk.dirs && |d| == 1 && !Hidden(d[0]) :: d[0];
      ghost var done: set<string> := {};
      ScanBegins(fs, env, now, old(buckets));
      while todo != {}
        invariant todo + done == ScanNames(fs) && todo !! done
        invariant Scanning(fs, env, now, old(buckets), done, buckets, disk)
        decreases todo
      {
        var n :| n in todo;
        ghost var before := disk;
        var loaded := LoadBucketDir(n, now);
        ScanNext(fs, env, now, old(buckets), done, buckets, before, n, loaded, disk);
        if loaded.Err? {
          return Err(IoError(loaded.error));
        }
        buckets := buckets[n := loaded.value];
        done, todo := done + {n}, todo - {n};
      }
      ScanEnds(fs, env, now, old(buckets), buckets, disk);
      r := Ok(());
    }

    /**
      One directory of the scan: its descriptor if it reads (a fresh descriptor
      if it does not parse), or a fresh descriptor written in place of a missing
      one, a failure to write being ignored.
    */
    method LoadBucketDir(name: string, now: Timestamp) returns (r: Result<Bucket, IoErrorKind>)
      modifies this
      ensures r == LoadBucket(old(disk), env, name, now) && buckets == old(buckets)
      ensures var mp, bytes := BucketMetaPath(name), env.encodeBucket(FreshBucket(name, now));
        disk == if Exists(old(disk), mp) || WriteFile(old(disk), mp, bytes).Err? then old(disk)
                else WriteFile(old(disk), mp, bytes).value
    {
      var metaPath := BucketMetaPath(name);
      if Exists(disk, metaPath) {
        match ReadFile(disk, metaPath) {
          case Err(e) =>
            r := Err(e);
          case Ok(bytes) =>
            if !IsUtf8(bytes) {
              r := Err(InvalidData);
            } else {
              r := Ok(env.decodeBucket(bytes).GetOr(FreshBucket(name, now)));
            }
        }
      } else {
        var b := FreshBucket(name, now);
        match WriteFile(disk, metaPath, env.encodeBucket(b)) {
          case Ok(d) => disk := d;
          case Err(_) =>
        }
        r := Ok(b);
      }
    }

    function Snapshot(): State
      reads this
    {
      State(buckets, disk)
    }

    ghost predicate Valid()
      reads this
    {
      Inv(Snapshot())
    }

    /** `dir_stats`: the number of files below `dir` and their total length. */
    method DirStats(dir: Path) returns (count: nat, size: nat)
      requires WellFormed(disk)
      ensures count == FileCount(disk, dir) && size == ByteCount(disk, dir)
      decreases DirsUnder(disk, dir)
    {
      count, size := 0, 0;
      match ReadDir(disk, dir)
      case Err(_) =>
        NothingBelowMissingDir(disk, dir);
      case Ok(entries) =>
        var todo := entries;
        ghost var done: set<Path> := {};
        while todo != {}
          invariant todo + done == entries && todo !! done
          invariant count == |FilesVia(disk, dir, done)|
          invariant size == Sum(SizeMap(disk, FilesVia(disk, dir, done)))
          decreases todo
        {
          var e :| e in todo;
          var c: nat, s: nat;
          if e in disk.dirs {
            DirsUnderShrinks(disk, dir, e);
            c, s := DirStats(e);
          } else {
            c, s := 1, |disk.files[e]|;
          }
          EntryStep(disk, dir, done, e, c, s);
          count, size := count + c, size + s;
          done, todo := done + {e}, todo - {e};
        }
        FilesViaAll(disk, dir);
    }

    /**
      `list_objects`: the descriptors below the bucket's `objects` directory in
      key order, cut at `maxKeys`, and the common prefixes sorted with repeats
      dropped. `walked` and `leaves` are the walk's own order, before sorting.
    */
    method ListObjects(bucket: string, prefix: string, delimiter: Option<string>, maxKeys: u32, now: Timestamp)
      returns (r: Result<ListObjectsResponse, AppError>, ghost walked: seq<ObjectMeta>, ghost leaves: seq<Path>,
               ghost full: seq<ObjectMeta>)
      requires WellFormed(disk)
      ensures bucket !in buckets ==> r == Err(BucketNotFound(bucket))
      ensures bucket in buckets ==> (r.Err? <==> ObjectsRoot(bucket) in disk.files)
      ensures bucket in buckets && r.Err? ==> r == Err(IoError(NotADirectory))
      ensures r.Ok? ==> Answers(Snapshot(), env, bucket, prefix, delimiter, maxKeys, now, r.value, walked, leaves, full)
    {
      walked, leaves, full := [], [], [];
      if bucket !in buckets {
        return Err(BucketNotFound(bucket)), walked, leaves, full;
      }
      var objectsDir := ObjectsRoot(bucket);
      var objects: seq<ObjectMeta> := [];
      var prefixes: seq<string> := [];
      if Exists(disk, objectsDir) {
        var walk;
        walk, objects, prefixes, leaves := WalkObjects(objectsDir, bucket, prefix, delimiter, now);
        if walk.Err? {
          return Err(walk.error), walked, leaves, full;
        }
      } else {
        NothingBelowMissingDir(disk, objectsDir);
        assert LeafMetas(Snapshot(), env, bucket, prefix, delimiter, now, {}) == map[];
      }
      walked := objects;
      WalkAnswers(Snapshot(), env, bucket, prefix, delimiter, maxKeys, now, walked, leaves, prefixes);
      var sorted := SortBy(objects, MetaKey);
      var common := Dedup(SortBy(prefixes, Identity));
      full := sorted;
      var kept := if |sorted| > maxKeys then maxKeys else |sorted|;
      r := Ok(ListObjectsResponse(bucket, prefix, sorted[..kept], common, |sorted| > maxKeys, maxKeys));
    }

    /**
      `walk_objects`: the descriptors and common prefixes of the files below
      `dir`, a path at or below the bucket's `objects` directory; `leaves`
      names the file each descriptor was read for.
    */
    method WalkObjects(dir: Path, bucket: string, prefix: string, delimiter: Option<string>, now: Timestamp)
      returns (r: Result<(), AppError>, objects: seq<ObjectMeta>, prefixes: seq<string>, ghost leaves: seq<Path>)
      requires WellFormed(disk) && IsPrefix(ObjectsRoot(bucket), dir)
      ensures r.Err? <==> dir in disk.files
      ensures r.Err? ==> r.error == IoError(NotADirectory)
      ensures r.Ok? ==> Enumerates(objects, leaves, LeafMetas(Snapshot(), env, bucket, prefix, delimiter, now,
                                                              FilesUnder(disk, dir)))
      ensures r.Ok? ==> (set p | p in prefixes) == FoldsOf(bucket, prefix, delimiter, FilesUnder(disk, dir))
      decreases DirsUnder(disk, dir)
    {
      objects, prefixes, leaves := [], [], [];
      if !Exists(disk, dir) {
        NothingBelowMissingDir(disk, dir);
        assert LeafMetas(Snapshot(), env, bucket, prefix, delimiter, now, {}) == map[];
        return Ok(()), objects, prefixes, leaves;
      }
      match ReadDir(disk, dir)
      case Err(e) =>
        r := Err(IoError(e));
      case Ok(entries) =>
        var todo := entries;
        ghost var done: set<Path> := {};
        assert FilesVia(disk, dir, {}) == {};
        assert LeafMetas(Snapshot(), env, bucket, prefix, delimiter, now, {}) == map[];
        while todo != {}
          invariant todo + done == entries && todo !! done
          invariant Enumerates(objects, leaves, LeafMetas(Snapshot(), env, bucket, prefix, delimiter, now,
                                                          FilesVia(disk, dir, done)))
          invariant (set p | p in prefixes) == FoldsOf(bucket, prefix, delimiter, FilesVia(disk, dir, done))
          decreases todo
        {
          var e :| e in todo;
          ChildInObjects(bucket, dir, e);
          var os: seq<ObjectMeta> := [];
          var ps: seq<string> := [];
          ghost var ls: seq<Path> := [];
          if e in disk.dirs {
            DirsUnderShrinks(disk, dir, e);
            var sub;
            sub, os, ps, ls := WalkObjects(e, bucket, prefix, delimiter, now);
            // The source's `?` on this call never fires: `e` is a directory, and the walk fails only on a file.
            assert sub.Ok? by { assert e !in disk.files; }
          } else {
            var rel := WalkKey(bucket, e);
            if StartsWith(rel, prefix) {
              var cp := Fold(rel, prefix, delimiter);
              if cp.Some? {
                ps := [cp.value];
              } else {
                var meta := GetObjectMeta(State(buckets, disk), env, bucket, rel, now);
                if meta.Ok? {
                  os := [meta.value];
                  ls := [e];
                }
              }
            }
            ListingOneFile(Snapshot(), env, bucket, prefix, delimiter, now, e);
          }
          WalkStep(Snapshot(), env, bucket, prefix, delimiter, now, dir, done, e, objects, prefixes, leaves, os, ps, ls);
          objects, prefixes, leaves := objects + os, prefixes + ps, leaves + ls;
          done, todo := done + {e}, todo - {e};
        }
        FilesViaAll(disk, dir);
        r := Ok(());
    }

    /** `list_buckets`: every index entry, ordered by the name inside the descriptor. */
    method ListBuckets() returns (r: seq<Bucket>)
      ensures multiset(r) == Bag(buckets)
      ensures SortedBy(r, BucketName)
    {
      var list := [];
      var todo := buckets.Keys;
      ghost var done: set<string> := {};
      while todo != {}
        invariant todo + done == buckets.Keys && todo !! done
        invariant multiset(list) == Bag(map n | n in done :: buckets[n])
        decreases todo
      {
        var n :| n in todo;
        BagStep(buckets, done, n);
        list := list + [buckets[n]];
        done, todo := done + {n}, todo - {n};
      }
      assert (map n | n in done :: buckets[n]) == buckets;
      r := SortBy(list, BucketName);
    }

    /** `get_stats`: the number of buckets and the sums of their counters. */
    method GetStats() returns (r: StorageStats)
      ensures r.totalBuckets == |buckets|
      ensures r.totalObjects == Sum(Counts(buckets)) && r.totalSize == Sum(Sizes(buckets))
      ensures r.totalSizeHuman == Rendered(r.totalSize)
    {
      var objects, size := 0, 0;
      var todo := buckets.Keys;
      ghost var done: set<string> := {};
      while todo != {}
        invariant todo + done == buckets.Keys && todo !! done
        invariant objects == Sum(map n | n in done :: buckets[n].objectCount)
        invariant size == Sum(map n | n in done :: buckets[n].totalSize)
        decreases todo
      {
        var n :| n in todo;
        SumStep(buckets, done, n);
        objects := objects + buckets[n].objectCount;
        size := size + buckets[n].totalSize;
        done, todo := done + {n}, todo - {n};
      }
      assert (map n | n in done :: buckets[n].objectCount) == Counts(buckets);
      assert (map n | n in done :: buckets[n].totalSize) == Sizes(buckets);
      var human := HumanReadableSize(size);
      r := StorageStats(|buckets|, objects, size, human);
    }

    /** `update_bucket_stats`: recount the bucket's `objects` tree and rewrite its descriptor (it always returns `Ok`). */
    method UpdateBucketStats(bucket: string)
      requires WellFormed(disk)
      modifies this
      ensures Snapshot() == Engine.UpdateBucketStats(old(Snapshot()), env, bucket)
    {
      var count, size := DirStats(ObjectsRoot(bucket));
      if bucket in buckets {
        var b := buckets[bucket].(objectCount := count, totalSize := size);
        buckets := buckets[bucket := b];
        match WriteFile(disk, BucketMetaPath(bucket), env.encodeBucket(b)) {
          case Ok(d) => disk := d;
          case Err(_) =>
        }
      }
    }

    /** `cleanup_empty_dirs`: climb from `dir` to `stop`, removing directories while they are empty. */
    method CleanupEmptyDirs(dir: Path, stop: Path)
      modifies this
      ensures disk == Cleanup(old(disk), dir, stop) && buckets == old(buckets)
    {
      var current := dir;
      while current != stop
        invariant Cleanup(disk, current, stop) == Cleanup(old(disk), dir, stop)
        invariant buckets == old(buckets)
        decreases |current|
      {
        match ReadDir(disk, current) {
          case Err(_) => break;
          case Ok(entries) =>
            if entries != {} {
              break;
            }
            match RemoveDir(disk, current) {
              case Ok(d) => disk := d;
              case Err(_) =>
            }
        }
        if current == [] {
          break;
        }
        current := current[..|current| - 1];
      }
    }

    /** `create_bucket` */
    method CreateBucket(name: string, region: string, now: Timestamp) returns (r: Result<Bucket, AppError>)
      requires Valid()
      modifies this
      ensures (r, Snapshot()) == Engine.CreateBucket(old(Snapshot()), env, name, region, now)
      ensures Valid()
      ensures Lawful(env) && old(Persisted(env, Snapshot())) ==> Persisted(env, Snapshot())
    {
      ghost var s0 := Snapshot();
      var valid := ValidateBucketName(name);
      if valid.Err? {
        r := Err(valid.error);
      } else if name in buckets {
        r := Err(BucketAlreadyExists(name));
      } else {
        r := MakeBucket(name, region, now);
      }
      BucketFacts.CreateBucketKeepsInv(s0, env, name, region, now);
    }

    /** The part of `create_bucket` after its checks: the two directories, then the descriptor. */
    method MakeBucket(name: string, region: string, now: Timestamp) returns (r: Result<Bucket, AppError>)
      modifies this
      ensures (r, Snapshot()) == Engine.MakeBucket(old(Snapshot()), env, name, region, now)
    {
      match CreateDirAll(disk, ObjectsRoot(name)) {
        case Err(e) => return Err(IoError(e));
        case Ok(d) => disk := d;
      }
      match CreateDirAll(disk, [name, MetaDir]) {
        case Err(e) => return Err(IoError(e));
        case Ok(d) => disk := d;
      }
      var bucket := Bucket(name, now, region, 0, 0);
      match WriteFile(disk, BucketMetaPath(name), env.encodeBucket(bucket)) {
        case Err(e) => return Err(IoError(e));
        case Ok(d) => disk := d;
      }
      buckets := buckets[name := bucket];
      r := Ok(bucket);
    }

    /** `delete_bucket` */
    method DeleteBucket(name: string) returns (r: Result<(), AppError>)
      requires Valid()
      modifies this
      ensures (r, Snapshot()) == Engine.DeleteBucket(old(Snapshot()), name)
      ensures Valid()
      ensures old(Persisted(env, Snapshot())) ==> Persisted(env, Snapshot())
    {
      ghost var s0 := Snapshot();
      var objectsDir := ObjectsRoot(name);
      if name !in buckets {
        r := Err(BucketNotFound(name));
      } else if Exists(disk, objectsDir) && ReadDir(disk, objectsDir).Err? {
        r := Err(IoError(ReadDir(disk, objectsDir).error));
      } else if Exists(disk, objectsDir) && ReadDir(disk, objectsDir).value != {} {
        r := Err(StorageError(NotEmptyMessage));
      } else {
        match RemoveDirAll(disk, BucketPath(name)) {
          case Err(e) =>
            r := Err(IoError(e));
          case Ok(d) =>
            disk := d;
            buckets := buckets - {name};
            r := Ok(());
        }
      }
      BucketFacts.DeleteBucketKeepsInv(s0, name, env);
    }

    /** `put_object` */
    method PutObject(bucket: string, key: string, data: seq<byte>, contentType: Option<string>,
                     metadata: map<string, string>, now: Timestamp) returns (r: Result<ObjectMeta, AppError>)
      requires Valid() && KeySafe(key)
      modifies this
      ensures (r, Snapshot()) == Engine.PutObject(old(Snapshot()), env, bucket, key, data, contentType, metadata, now)
      ensures Valid()
      ensures Lawful(env) && old(Persisted(env, Snapshot())) ==> Persisted(env, Snapshot())
    {
      ghost var s0 := Snapshot();
      if bucket !in buckets {
        r := Err(BucketNotFound(bucket));
      } else if |key| == 0 || |key| > 1024 {
        r := Err(InvalidObjectKey(KeyLengthMessage));
      } else {
        r := StoreObjectFiles(bucket, key, data, contentType, metadata, now);
      }
      ObjectFacts.PutObjectKeepsInv(s0, env, bucket, key, data, contentType, metadata, now);
    }

    /** The part of `put_object` after its checks: the descriptor, the four writes, the recount. */
    method StoreObjectFiles(bucket: string, key: string, data: seq<byte>, contentType: Option<string>,
                            metadata: map<string, string>, now: Timestamp) returns (r: Result<ObjectMeta, AppError>)
      requires Valid() && KeySafe(key) && bucket in buckets && 1 <= |key| <= 1024
      modifies this
      ensures (r, Snapshot()) == Engine.PutObject(old(Snapshot()), env, bucket, key, data, contentType, metadata, now)
    {
      ghost var s0 := Snapshot();
      var meta := ObjectMeta(key, bucket, |data|, contentType.GetOr(env.guessMime(key)),
                             Etag(env, data), now, metadata);
      ObjectFacts.StoreKeepsInv(s0, env, bucket, key, data, env.encodeMeta(meta));
      var (stored, d) := StoreObject(disk, bucket, key, data, env.encodeMeta(meta));
      disk := d;
      if stored.Err? {
        return Err(IoError(stored.error));
      }
      UpdateBucketStats(bucket);
      r := Ok(meta);
    }

    /** `delete_object` */
    method DeleteObject(bucket: string, key: string) returns (r: Result<(), AppError>)
      requires Valid() && KeySafe(key)
      modifies this
      ensures (r, Snapshot()) == Engine.DeleteObject(old(Snapshot()), env, bucket, key)
      ensures Valid()
      ensures Lawful(env) && old(Persisted(env, Snapshot())) ==> Persisted(env, Snapshot())
    {
      ghost var s0 := Snapshot();
      var objectPath := ObjectPath(bucket, key);
      if bucket !in buckets {
        r := Err(BucketNotFound(bucket));
      } else if !Exists(disk, objectPath) {
        r := Err(ObjectNotFound(bucket, key));
      } else if objectPath !in disk.files {
        r := Err(IoError(RemoveFile(disk, objectPath).error));
      } else {
        r := RemoveObjectFiles(bucket, key);
      }
      ObjectFacts.DeleteObjectKeepsInv(s0, env, bucket, key);
    }

    /** The part of `delete_object` after its checks: both files, the empty directories, the recount. */
    method RemoveObjectFiles(bucket: string, key: string) returns (r: Result<(), AppError>)
      requires WellFormed(disk) && KeySafe(key) && bucket in buckets
      requires ObjectPath(bucket, key) in disk.files && BucketMetaPath(bucket) in disk.files
      modifies this
      ensures (r, Snapshot()) == Engine.DeleteObject(old(Snapshot()), env, bucket, key)
    {
      ghost var s0 := Snapshot();
      var objectPath := ObjectPath(bucket, key);
      ObjectFacts.DeleteObjectStages(s0, env, bucket, key);
      disk := RemoveFile(disk, objectPath).value;
      var metaPath := MetaPath(bucket, key);
      if Exists(disk, metaPath) {
        match RemoveFile(disk, metaPath) {
          case Err(e) => return Err(IoError(e));
          case Ok(d) => disk := d;
        }
      }
      ghost var d1 := s0.disk.(files := s0.disk.files - {objectPath});
      assert disk == d1.(files := d1.files - {metaPath});
      ObjectFacts.DeleteTree(s0, bucket, key, d1, disk);
      CleanupEmptyDirs(objectPath[..|objectPath| - 1], ObjectsRoot(bucket));
      UpdateBucketStats(bucket);
      r := Ok(());
    }
  }

  /** `read_dir` fails only on a path that is not a directory, and nothing lies below such a path. */
  lemma NothingBelowMissingDir(fs: Fs, d: Path)
    requires WellFormed(fs) && d !in fs.dirs
    ensures FilesUnder(fs, d) == {}
    ensures FileCount(fs, d) == 0 && ByteCount(fs, d) == 0
  {
    forall f | f in fs.files && |f| > |d| && f[..|d|] == d ensures false {
    }
    assert SizeMap(fs, {}) == map[];
  }

  /** An entry of a directory at or below `objects` is itself at or below it, and strictly below. */
  lemma ChildInObjects(bucket: string, dir: Path, e: Path)
    requires IsPrefix(ObjectsRoot(bucket), dir) && IsChild(dir, e)
    ensures IsPrefix(ObjectsRoot(bucket), e) && InObjects(bucket, e)
  {
    assert e[..2] == e[..|dir|][..2];
  }

  /** What one entry of `dir` adds to the listing of the entries before it. */
  lemma WalkStep(s: State, env: Env, bucket: string, prefix: string, delimiter: Option<string>, now: Timestamp,
                 dir: Path, done: set<Path>, e: Path, objects: seq<ObjectMeta>, prefixes: seq<string>, leaves: seq<Path>,
                 os: seq<ObjectMeta>, ps: seq<string>, ls: seq<Path>)
    requires WellFormed(s.disk) && e in Entries(s.disk, dir) && e !in done
    requires Enumerates(objects, leaves, LeafMetas(s, env, bucket, prefix, delimiter, now, FilesVia(s.disk, dir, done)))
    requires (set p | p in prefixes) == FoldsOf(bucket, prefix, delimiter, FilesVia(s.disk, dir, done))
    requires Enumerates(os, ls, LeafMetas(s, env, bucket, prefix, delimiter, now, EntryFiles(s.disk, e)))
    requires (set p | p in ps) == FoldsOf(bucket, prefix, delimiter, EntryFiles(s.disk, e))
    ensures Enumerates(objects + os, leaves + ls,
                       LeafMetas(s, env, bucket, prefix, delimiter, now, FilesVia(s.disk, dir, done + {e})))
    ensures (set p | p in prefixes + ps) == FoldsOf(bucket, prefix, delimiter, FilesVia(s.disk, dir, done + {e}))
  {
    var a, b := FilesVia(s.disk, dir, done), EntryFiles(s.disk, e);
    FilesViaAdd(s.disk, dir, done, e);
    ListingUnion(s, env, bucket, prefix, delimiter, now, a, b);
    EnumeratesConcat(objects, leaves, LeafMetas(s, env, bucket, prefix, delimiter, now, a),
                     os, ls, LeafMetas(s, env, bucket, prefix, delimiter, now, b));
    assert (set p | p in prefixes + ps) == (set p | p in prefixes) + (set p | p in ps);
  }

  /** What one entry of `dir` adds to the counts of the entries before it. */
  lemma EntryStep(fs: Fs, dir: Path, done: set<Path>, e: Path, c: nat, s: nat)
    requires WellFormed(fs) && e in Entries(fs, dir) && e !in done
    requires e in fs.dirs ==> c == FileCount(fs, e) && s == ByteCount(fs, e)
    requires e !in fs.dirs ==> c == 1 && s == |fs.files[e]|
    ensures |FilesVia(fs, dir, done + {e})| == |FilesVia(fs, dir, done)| + c
    ensures Sum(SizeMap(fs, FilesVia(fs, dir, done + {e}))) == Sum(SizeMap(fs, FilesVia(fs, dir, done))) + s
  {
    FilesViaAdd(fs, dir, done, e);
    if e !in fs.dirs {
      SizeOfOne(fs, e);
    }
    var a, b := FilesVia(fs, dir, done), EntryFiles(fs, e);
    SizeMapUnion(fs, a, b);
    SumUnion(SizeMap(fs, a), SizeMap(fs, b));
  }

  /** Adding one more bucket to the collected values. */
  lemma BagStep(index: map<string, Bucket>, done: set<string>, n: string)
    requires n in index && n !in done && done <= index.Keys
    ensures Bag(map m | m in done + {n} :: index[m]) == Bag(map m | m in done :: index[m]) + multiset{index[n]}
  {
    var after := map m | m in done + {n} :: index[m];
    BagRemove(after, n);
    assert after - {n} == map m | m in done :: index[m];
  }

  /** Adding one more bucket to a partial sum of the counters. */
  lemma SumStep(index: map<string, Bucket>, done: set<string>, n: string)
    requires n in index && n !in done && done <= index.Keys
    ensures Sum(map m | m in done + {n} :: index[m].objectCount)
         == Sum(map m | m in done :: index[m].objectCount) + index[n].objectCount
    ensures Sum(map m | m in done + {n} :: index[m].totalSize)
         == Sum(map m | m in done :: index[m].totalSize) + index[n].totalSize
  {
    var c := map m | m in done + {n} :: index[m].objectCount;
    SumRemove(c, n);
    assert c - {n} == map m | m in done :: index[m].objectCount;
    var z := map m | m in done + {n} :: index[m].totalSize;
    SumRemove(z, n);
    assert z - {n} == map m | m in done :: index[m].totalSize;
  }

  // ---- the scan loop ----

  /** Where the scan stands after the bucket directories `done`, started from the index `base`. */
  ghost predicate Scanning(fs: Fs, env: Env, now: Timestamp, base: map<string, Bucket>, done: set<string>,
                           buckets: map<string, Bucket>, disk: Fs) {
    && (forall n | n in done :: LoadBucket(fs, env, n, 0).Ok?)
    && buckets == base + Loaded(fs, env, now, done)
    && disk == Fs(fs.dirs, Written(fs, env, now, done))
  }

  lemma ScanBegins(fs: Fs, env: Env, now: Timestamp, base: map<string, Bucket>)
    ensures Scanning(fs, env, now, base, {}, base, fs)
  {
    assert Loaded(fs, env, now, {}) == map[];
    assert {} * MissingNames(fs) == {};
    assert FreshDescriptors(env, now, {}) == map[];
    assert fs.files + map[] == fs.files;
  }

  /** One more directory: what it loads as, and the scan state after it when it loads. */
  lemma ScanNext(fs: Fs, env: Env, now: Timestamp, base: map<string, Bucket>, done: set<string>,
                 buckets: map<string, Bucket>, disk: Fs, n: string, r: Result<Bucket, IoErrorKind>, disk': Fs)
    requires WellFormed(fs) && Scanning(fs, env, now, base, done, buckets, disk)
    requires n in ScanNames(fs) && n !in done
    requires r == LoadBucket(disk, env, n, now)
    requires var mp, bytes := BucketMetaPath(n), env.encodeBucket(FreshBucket(n, now));
      disk' == if Exists(disk, mp) || WriteFile(disk, mp, bytes).Err? then disk else WriteFile(disk, mp, bytes).value
    ensures r.Err? ==> r.error in ScanErrors(fs, env)
    ensures r.Ok? ==> Scanning(fs, env, now, base, done + {n}, buckets[n := r.value], disk')
  {
    ScanSees(fs, env, now, done, n);
    if !Exists(fs, BucketMetaPath(n)) {
      ScanWrites(fs, env, now, done, n);
    } else {
      WrittenStep(fs, env, now, done, n);
    }
    if r.Err? {
      ScanFailure(fs, env, n);
    } else {
      StartFacts.LoadBucketErrorIgnoresClock(fs, env, n, now, 0);
      LoadedStep(fs, env, now, done, n, base);
    }
  }

  /** A scan that has passed every directory met no error and built the start-up state. */
  lemma ScanEnds(fs: Fs, env: Env, now: Timestamp, base: map<string, Bucket>, buckets: map<string, Bucket>, disk: Fs)
    requires [] in fs.dirs && Scanning(fs, env, now, base, ScanNames(fs), buckets, disk)
    ensures ScanErrors(fs, env) == {}
    ensures buckets == base + ScanIndex(fs, env, now) && disk == ScanDisk(fs, env, now)
  {
    StartFacts.ScanErrorsEmpty(fs, env);
    ScanComplete(fs, env, now);
  }

  /** The files after the scan has passed the bucket directories `done`. */
  ghost function Written(fs: Fs, env: Env, now: Timestamp, done: set<string>): map<Path, seq<byte>> {
    fs.files + FreshDescriptors(env, now, done * MissingNames(fs))
  }

  /** A bucket directory not yet scanned sees its descriptor as it was before the scan. */
  lemma ScanSees(fs: Fs, env: Env, now: Timestamp, done: set<string>, n: string)
    requires n !in done
    ensures var mp, w := BucketMetaPath(n), Written(fs, env, now, done);
      && (mp in w <==> mp in fs.files)
      && (mp in w ==> w[mp] == fs.files[mp])
      && LoadBucket(Fs(fs.dirs, w), env, n, now) == LoadBucket(fs, env, n, now)
      && LoadBucket(Fs(fs.dirs, w), env, n, 0) == LoadBucket(fs, env, n, 0)
  {
    NotWrittenYet(fs, env, now, done, n);
  }

  /** Writing the fresh descriptor of a scanned directory that has none succeeds, and is the next step of `Written`. */
  lemma ScanWrites(fs: Fs, env: Env, now: Timestamp, done: set<string>, n: string)
    requires WellFormed(fs) && n in ScanNames(fs) && !Exists(fs, BucketMetaPath(n))
    ensures var mp, w := BucketMetaPath(n), Written(fs, env, now, done);
      && WriteFile(Fs(fs.dirs, w), mp, env.encodeBucket(FreshBucket(n, now))).Ok?
      && Written(fs, env, now, done + {n}) == w[mp := env.encodeBucket(FreshBucket(n, now))]
  {
    var mp, v := BucketMetaPath(n), env.encodeBucket(FreshBucket(n, now));
    DescriptorWritable(fs, n, Written(fs, env, now, done), v);
    WrittenStep(fs, env, now, done, n);
    UnionUpdate(fs.files, FreshDescriptors(env, now, done * MissingNames(fs)), mp, v);
  }

  lemma DescriptorWritable(fs: Fs, n: string, files: map<Path, seq<byte>>, v: seq<byte>)
    requires WellFormed(fs) && n in ScanNames(fs) && BucketMetaPath(n) !in fs.dirs
    ensures WriteFile(Fs(fs.dirs, files), BucketMetaPath(n), v).Ok?
  {
    StartFacts.ScanNameIsDir(fs, n);
    assert BucketMetaPath(n)[..1] == [n];
  }

  lemma UnionUpdate<K, V>(a: map<K, V>, b: map<K, V>, k: K, v: V)
    ensures a + b[k := v] == (a + b)[k := v]
  {
  }

  lemma NotWrittenYet(fs: Fs, env: Env, now: Timestamp, done: set<string>, n: string)
    requires n !in done
    ensures BucketMetaPath(n) !in FreshDescriptors(env, now, done * MissingNames(fs))
  {
  }

  lemma WrittenStep(fs: Fs, env: Env, now: Timestamp, done: set<string>, n: string)
    requires n in ScanNames(fs)
    ensures var mp, f := BucketMetaPath(n), FreshDescriptors(env, now, done * MissingNames(fs));
      FreshDescriptors(env, now, (done + {n}) * MissingNames(fs))
        == if Exists(fs, mp) then f else f[mp := env.encodeBucket(FreshBucket(n, now))]
  {
    if Exists(fs, BucketMetaPath(n)) {
      assert (done + {n}) * MissingNames(fs) == done * MissingNames(fs);
    } else {
      assert (done + {n}) * MissingNames(fs) == done * MissingNames(fs) + {n};
      FreshDescriptorsAdd(env, now, done * MissingNames(fs), n);
    }
  }

  /** One more name adds its own fresh descriptor. */
  lemma FreshDescriptorsAdd(env: Env, now: Timestamp, names: set<string>, n: string)
    ensures FreshDescriptors(env, now, names + {n})
         == FreshDescriptors(env, now, names)[BucketMetaPath(n) := env.encodeBucket(FreshBucket(n, now))]
  {
    var l, r := FreshDescriptors(env, now, names + {n}),
                FreshDescriptors(env, now, names)[BucketMetaPath(n) := env.encodeBucket(FreshBucket(n, now))];
    forall p | p in l ensures p in r && l[p] == r[p] {
      var m :| m in names + {n} && p == BucketMetaPath(m);
    }
    assert l.Keys == r.Keys;
  }

  /** The index entries the scan has made for the bucket directories `done`. */
  ghost function Loaded(fs: Fs, env: Env, now: Timestamp, done: set<string>): map<string, Bucket> {
    map n | n in done :: LoadBucket(fs, env, n, now).GetOr(FreshBucket(n, now))
  }

  lemma LoadedStep(fs: Fs, env: Env, now: Timestamp, done: set<string>, n: string, base: map<string, Bucket>)
    ensures base + Loaded(fs, env, now, done + {n})
         == (base + Loaded(fs, env, now, done))[n := LoadBucket(fs, env, n, now).GetOr(FreshBucket(n, now))]
  {
    assert Loaded(fs, env, now, done + {n})
        == Loaded(fs, env, now, done)[n := LoadBucket(fs, env, n, now).GetOr(FreshBucket(n, now))];
  }

  /** Once every directory is scanned, the index and the files are those of a successful start-up. */
  lemma ScanComplete(fs: Fs, env: Env, now: Timestamp)
    requires [] in fs.dirs
    ensures Loaded(fs, env, now, ScanNames(fs)) == ScanIndex(fs, env, now)
    ensures Fs(fs.dirs, Written(fs, env, now, ScanNames(fs))) == ScanDisk(fs, env, now)
  {
    assert ScanNames(fs) * MissingNames(fs) == MissingNames(fs);
    assert fs.dirs + {[]} == fs.dirs;
  }

  lemma ScanFailure(fs: Fs, env: Env, n: string)
    requires n in ScanNames(fs) && LoadBucket(fs, env, n, 0).Err?
    ensures LoadBucket(fs, env, n, 0).error in ScanErrors(fs, env)
  {
  }

  /** Creating the root directory changes nothing the scan looks at. */
  lemma RootCreated(fs: Fs)
    requires WellFormed(fs)
    ensures CreateDirAll(fs, []) == Ok(Fs(fs.dirs + {[]}, fs.files))
    ensures WellFormed(Fs(fs.dirs + {[]}, fs.files))
  {
    var root: Path := [];
    var ps := Prefixes(root);
    assert root[..0] == root;
    forall q | q in ps ensures q == [] {
      assert IsPrefix(q, root);
    }
    assert ps == {root};
  }

  /** The state a successful start-up leaves satisfies the engine invariant. */
  lemma OpenedValid(fs: Fs, env: Env, now: Timestamp, buckets: map<string, Bucket>, disk: Fs)
    requires WellFormed(fs) && ScanErrors(fs, env) == {}
    requires buckets == map[] + ScanIndex(fs, env, now) && disk == ScanDisk(fs, env, now)
    ensures buckets == ScanIndex(fs, env, now) && Inv(State(buckets, disk))
  {
    assert map[] + ScanIndex(fs, env, now) == ScanIndex(fs, env, now);
    StartFacts.StartEstablishesInv(fs, env, now);
  }

  lemma RootChangesNoScan(fs: Fs, root: Fs, env: Env, now: Timestamp)
    requires root == Fs(fs.dirs + {[]}, fs.files)
    ensures ScanErrors(root, env) == ScanErrors(fs, env)
    ensures ScanIndex(root, env, now) == ScanIndex(fs, env, now)
    ensures ScanDisk(root, env, now) == ScanDisk(fs, env, now)
  {
    assert ScanNames(root) == ScanNames(fs);
    assert MissingNames(root) == MissingNames(fs);
    forall n ensures LoadBucket(root, env, n, now) == LoadBucket(fs, env, n, now)
                  && LoadBucket(root, env, n, 0) == LoadBucket(fs, env, n, 0) {
      assert BucketMetaPath(n) != [];
    }
  }
}
