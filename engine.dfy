/**
  The storage engine (storage.rs) as a state machine over the bucket index and
  the directory tree. Each operation is a function from the state before the
  call to its result and the state after it; the class in storage.dfy is proved
  to follow these functions, and the lemmas here state what the operations
  promise their callers.
*/
module Engine {
  import opened Wrappers
  import opened Text
  import opened Sums
  import opened FileTree
  import opened Models
  import opened Errors
  import opened Externals
  import opened Layout

  datatype State = State(index: map<string, Bucket>, disk: Fs)

  const KeyLengthMessage: string := "Key must be between 1 and 1024 characters"
  const NotEmptyMessage: string := "Bucket is not empty. Delete all objects first."
  const CorruptPrefix: string := "Corrupt metadata: "

  /** What holds between calls: a real tree, and each indexed bucket is a directory with its descriptor. */
  ghost predicate Inv(s: State) {
    && WellFormed(s.disk)
    && [] in s.disk.dirs
    && (forall n | n in s.index :: BucketPath(n) in s.disk.dirs && BucketMetaPath(n) in s.disk.files)
    && (forall d | d in s.disk.dirs && |d| == 1 && !Hidden(d[0]) :: d[0] in s.index)
  }

  /** `bytes` is what `read_to_string` + `serde_json::from_str` turn into `b`. */
  ghost predicate LoadsAs(env: Env, bytes: seq<byte>, b: Bucket) {
    IsUtf8(bytes) && env.decodeBucket(bytes) == Some(b)
  }

  /** Every indexed bucket's descriptor on disk reads back as its index entry. */
  ghost predicate Persisted(env: Env, s: State) {
    forall n | n in s.index :: BucketMetaPath(n) in s.disk.files && LoadsAs(env, s.disk.files[BucketMetaPath(n)], s.index[n])
  }

  // ---- small helpers of storage.rs ----

  /** `create_bucket_meta`: what a bucket directory without a readable descriptor becomes. */
  function FreshBucket(name: string, now: Timestamp): (r: Bucket)
    ensures r.name == name && r.createdAt == now && r.region == "local"
    ensures r.objectCount == 0 && r.totalSize == 0
  {
    Bucket(name, now, "local", 0, 0)
  }

  /** The ETag: the SHA-256 of the data in lower-case hex, in double quotes. */
  function Etag(env: Env, data: seq<byte>): (r: string)
    ensures |r| == 66 && r[0] == '"' && r[65] == '"'
    ensures IsLowerHex(r[1..65])
  {
    var h := Hex(env.sha256(data));
    assert ("\"" + h + "\"")[1..65] == h;
    "\"" + h + "\""
  }

  /** Two payloads get the same ETag exactly when their digests agree. */
  lemma EtagIffDigest(env: Env, a: seq<byte>, b: seq<byte>)
    ensures Etag(env, a) == Etag(env, b) <==> env.sha256(a) == env.sha256(b)
  {
    if Etag(env, a) == Etag(env, b) {
      assert Etag(env, a)[1..65] == Hex(env.sha256(a));
      assert Etag(env, b)[1..65] == Hex(env.sha256(b));
      HexInjective(env.sha256(a), env.sha256(b));
    }
  }

  // ---- bucket operations ----

  /** `get_bucket` */
  function GetBucket(s: State, name: string): (r: Result<Bucket, AppError>)
    ensures r.Ok? <==> name in s.index
    ensures r.Ok? ==> r.value == s.index[name]
    ensures r.Err? ==> r.error == BucketNotFound(name)
  {
    if name in s.index then Ok(s.index[name]) else Err(BucketNotFound(name))
  }

  /** `create_bucket`: validate, refuse a known name, make the directories, write the descriptor. */
  function CreateBucket(s: State, env: Env, name: string, region: string, now: Timestamp)
    : (r: (Result<Bucket, AppError>, State))
    ensures r.0.Err? ==> r.1.index == s.index
    ensures r.0.Ok? ==> r.1.index == s.index[name := r.0.value]
  {
    match ValidateBucketName(name)
    case Err(e) => (Err(e), s)
    case Ok(_) =>
      if name in s.index then (Err(BucketAlreadyExists(name)), s)
      else MakeBucket(s, env, name, region, now)
  }

  /** The part of `create_bucket` after the checks: two directories, then the descriptor. */
  function MakeBucket(s: State, env: Env, name: string, region: string, now: Timestamp)
    : (r: (Result<Bucket, AppError>, State))
    ensures r.0.Err? ==> r.1.index == s.index
    ensures r.0.Ok? ==> r.1.index == s.index[name := r.0.value]
  {
    match CreateDirAll(s.disk, ObjectsRoot(name))
    case Err(e) => (Err(IoError(e)), s)
    case Ok(d1) =>
      match CreateDirAll(d1, [name, MetaDir])
      case Err(e) => (Err(IoError(e)), s.(disk := d1))
      case Ok(d2) =>
        var b := Bucket(name, now, region, 0, 0);
        match WriteFile(d2, BucketMetaPath(name), env.encodeBucket(b))
        case Err(e) => (Err(IoError(e)), s.(disk := d2))
        case Ok(d3) => (Ok(b), State(s.index[name := b], d3))
  }

  /** `delete_bucket`: only a bucket whose `objects` directory has no entry goes. */
  function DeleteBucket(s: State, name: string): (r: (Result<(), AppError>, State))
    ensures r.0.Err? ==> r.1.index == s.index
    ensures r.0.Ok? ==> r.1.index == s.index - {name}
  {
    if name !in s.index then (Err(BucketNotFound(name)), s)
    else
      var od := ObjectsRoot(name);
      if Exists(s.disk, od) then
        match ReadDir(s.disk, od)
        case Err(e) => (Err(IoError(e)), s)
        case Ok(es) =>
          if es != {} then (Err(StorageError(NotEmptyMessage)), s)
          else RemoveBucketDir(s, name)
      else RemoveBucketDir(s, name)
  }

  function RemoveBucketDir(s: State, name: string): (r: (Result<(), AppError>, State))
    ensures r.0.Ok? <==> BucketPath(name) in s.disk.dirs
    ensures r.0.Err? ==> r.1 == s && r.0.error in {IoError(NotADirectory), IoError(NotFound)}
    ensures r.0.Ok? ==> && r.1.index == s.index - {name}
                        && (forall q :: q in r.1.disk.dirs <==> q in s.disk.dirs && !IsPrefix(BucketPath(name), q))
                        && (forall q :: q in r.1.disk.files <==> q in s.disk.files && !IsPrefix(BucketPath(name), q))
  {
    match RemoveDirAll(s.disk, BucketPath(name))
    case Err(e) => (Err(IoError(e)), s)
    case Ok(d) => (Ok(()), State(s.index - {name}, d))
  }

  // ---- object operations ----

  /**
    `get_object_meta`: the stored descriptor, or one rebuilt from the data file
    when there is none.
  */
  function GetObjectMeta(s: State, env: Env, bucket: string, key: string, now: Timestamp)
    : (r: Result<ObjectMeta, AppError>)
    ensures r == Err(ObjectNotFound(bucket, key)) <==>
      !Exists(s.disk, MetaPath(bucket, key)) && !Exists(s.disk, ObjectPath(bucket, key))
    ensures r.Ok? && !Exists(s.disk, MetaPath(bucket, key)) ==>
      && ObjectPath(bucket, key) in s.disk.files
      && r.value.key == key && r.value.bucket == bucket && r.value.size == |s.disk.files[ObjectPath(bucket, key)]|
      && r.value.metadata == map[] && r.value.lastModified == now
    ensures r.Ok? && Exists(s.disk, MetaPath(bucket, key)) ==>
      MetaPath(bucket, key) in s.disk.files && env.decodeMeta(s.disk.files[MetaPath(bucket, key)]) == Ok(r.value)
  {
    var mp := MetaPath(bucket, key);
    if !Exists(s.disk, mp) then
      var op := ObjectPath(bucket, key);
      if !Exists(s.disk, op) then Err(ObjectNotFound(bucket, key))
      else
        match ReadFile(s.disk, op)
        case Err(e) => Err(IoError(e))
        case Ok(data) =>
          Ok(ObjectMeta(key, bucket, |data|, env.guessMime(key), Etag(env, data), now, map[]))
    else
      match ReadFile(s.disk, mp)
      case Err(e) => Err(IoError(e))
      case Ok(bytes) =>
        if !IsUtf8(bytes) then Err(IoError(InvalidData))
        else
          match env.decodeMeta(bytes)
          case Err(msg) => Err(StorageError(CorruptPrefix + msg))
          case Ok(m) => Ok(m)
  }

  /** `get_object`: the descriptor and the bytes. */
  function GetObject(s: State, env: Env, bucket: string, key: string, now: Timestamp)
    : (r: Result<(ObjectMeta, seq<byte>), AppError>)
    ensures bucket !in s.index ==> r == Err(BucketNotFound(bucket))
    ensures r == Err(ObjectNotFound(bucket, key)) <==> bucket in s.index && !Exists(s.disk, ObjectPath(bucket, key))
    ensures r.Ok? ==> && ObjectPath(bucket, key) in s.disk.files && r.value.1 == s.disk.files[ObjectPath(bucket, key)]
                      && GetObjectMeta(s, env, bucket, key, now) == Ok(r.value.0)
  {
    if bucket !in s.index then Err(BucketNotFound(bucket))
    else
      var op := ObjectPath(bucket, key);
      if !Exists(s.disk, op) then Err(ObjectNotFound(bucket, key))
      else
        match ReadFile(s.disk, op)
        case Err(e) => Err(IoError(e))
        case Ok(data) =>
          match GetObjectMeta(s, env, bucket, key, now)
          case Err(e) => Err(e)
          case Ok(m) => Ok((m, data))
  }

  /**
    `update_bucket_stats`: recount the bucket's `objects` tree and rewrite its
    descriptor; a failure to write is ignored.
  */
  ghost function UpdateBucketStats(s: State, env: Env, bucket: string): (r: State)
    ensures r.index.Keys == s.index.Keys
    ensures forall n | n in s.index && n != bucket :: r.index[n] == s.index[n]
  {
    if bucket in s.index then
      var od := ObjectsRoot(bucket);
      var nb := s.index[bucket].(objectCount := FileCount(s.disk, od), totalSize := ByteCount(s.disk, od));
      var d := match WriteFile(s.disk, BucketMetaPath(bucket), env.encodeBucket(nb))
        case Ok(d) => d
        case Err(_) => s.disk;
      State(s.index[bucket := nb], d)
    else s
  }

  /** `put_object` */
  ghost function PutObject(s: State, env: Env, bucket: string, key: string, data: seq<byte>,
                           contentType: Option<string>, metadata: map<string, string>, now: Timestamp)
    : (r: (Result<ObjectMeta, AppError>, State))
    requires KeySafe(key)
    ensures r.0.Err? ==> r.1.index == s.index
    ensures r.1.index.Keys == s.index.Keys
  {
    if bucket !in s.index then (Err(BucketNotFound(bucket)), s)
    else if |key| == 0 || |key| > 1024 then (Err(InvalidObjectKey(KeyLengthMessage)), s)
    else
      var meta := ObjectMeta(key, bucket, |data|, contentType.GetOr(env.guessMime(key)),
                             Etag(env, data), now, metadata);
      match StoreObject(s.disk, bucket, key, data, env.encodeMeta(meta))
      case (Err(e), d) => (Err(IoError(e)), s.(disk := d))
      case (Ok(_), d) => (Ok(meta), UpdateBucketStats(s.(disk := d), env, bucket))
  }

  /**
    The four writes of `put_object`: the data file's directory, the data, the
    metadata directory, the metadata. The tree is returned as the first failing
    step left it.
  */
  function StoreObject(fs: Fs, bucket: string, key: string, data: seq<byte>, metaBytes: seq<byte>)
    : (r: (Result<(), IoErrorKind>, Fs))
    ensures fs.dirs <= r.1.dirs
    ensures r.1.files - {ObjectPath(bucket, key), MetaPath(bucket, key)} == fs.files - {ObjectPath(bucket, key), MetaPath(bucket, key)}
    ensures r.0.Ok? ==> && ObjectPath(bucket, key) in r.1.files && r.1.files[ObjectPath(bucket, key)] == data
                        && MetaPath(bucket, key) in r.1.files && r.1.files[MetaPath(bucket, key)] == metaBytes
  {
    DataAndMetaApart(bucket, key, bucket, key);
    var op := ObjectPath(bucket, key);
    var mp := MetaPath(bucket, key);
    match CreateDirAll(fs, op[..|op| - 1])
    case Err(e) => (Err(e), fs)
    case Ok(d1) =>
      match WriteFile(d1, op, data)
      case Err(e) => (Err(e), d1)
      case Ok(d2) =>
        match CreateDirAll(d2, mp[..2])
        case Err(e) => (Err(e), d2)
        case Ok(d3) =>
          match WriteFile(d3, mp, metaBytes)
          case Err(e) => (Err(e), d3)
          case Ok(d4) => (Ok(()), d4)
  }

  /**
    `cleanup_empty_dirs`: walk up from `dir` towards `stop`, removing empty
    directories, and stop at the first one that is missing or not empty.
  */
  function Cleanup(fs: Fs, dir: Path, stop: Path): (r: Fs)
    ensures r.files == fs.files && r.dirs <= fs.dirs
    decreases |dir|
  {
    if dir == stop then fs
    else
      match ReadDir(fs, dir)
      case Err(_) => fs
      case Ok(es) =>
        if es != {} then fs
        else
          var fs' := match RemoveDir(fs, dir) case Ok(f) => f case Err(_) => fs;
          if dir == [] then fs' else Cleanup(fs', dir[..|dir| - 1], stop)
  }

  /** `delete_object` */
  ghost function DeleteObject(s: State, env: Env, bucket: string, key: string)
    : (r: (Result<(), AppError>, State))
    requires KeySafe(key)
    ensures r.0.Err? ==> r.1.index == s.index
    ensures r.1.index.Keys == s.index.Keys
  {
    if bucket !in s.index then (Err(BucketNotFound(bucket)), s)
    else
      var op := ObjectPath(bucket, key);
      if !Exists(s.disk, op) then (Err(ObjectNotFound(bucket, key)), s)
      else
        match RemoveFile(s.disk, op)
        case Err(e) => (Err(IoError(e)), s)
        case Ok(d1) =>
          var mp := MetaPath(bucket, key);
          match (if Exists(d1, mp) then RemoveFile(d1, mp) else Ok(d1))
          case Err(e) => (Err(IoError(e)), s.(disk := d1))
          case Ok(d2) =>
            var d3 := Cleanup(d2, op[..|op| - 1], ObjectsRoot(bucket));
            (Ok(()), UpdateBucketStats(s.(disk := d3), env, bucket))
  }

  // ---- start-up: `new` and `scan_buckets` ----

  /** The names of the non-hidden directories directly under the root. */
  ghost function ScanNames(fs: Fs): set<string> {
    set d | d in fs.dirs && |d| == 1 && !Hidden(d[0]) :: d[0]
  }

  /**
    What the scan makes of one bucket directory: its descriptor if it reads and
    parses, a fresh one if it is missing or does not parse, and an I/O error if
    it cannot be read as text.
  */
  function LoadBucket(fs: Fs, env: Env, name: string, now: Timestamp): (r: Result<Bucket, IoErrorKind>)
    ensures !Exists(fs, BucketMetaPath(name)) ==> r == Ok(FreshBucket(name, now))
    ensures r.Err? ==> Exists(fs, BucketMetaPath(name))
    ensures r.Ok? && BucketMetaPath(name) in fs.files ==>
      r.value == env.decodeBucket(fs.files[BucketMetaPath(name)]).GetOr(FreshBucket(name, now))
  {
    var mp := BucketMetaPath(name);
    if Exists(fs, mp) then
      match ReadFile(fs, mp)
      case Err(e) => Err(e)
      case Ok(bytes) =>
        if !IsUtf8(bytes) then Err(InvalidData)
        else Ok(env.decodeBucket(bytes).GetOr(FreshBucket(name, now)))
    else Ok(FreshBucket(name, now))
  }

  /** The errors the scan can stop with; it stops on whichever failing directory it meets first. */
  ghost function ScanErrors(fs: Fs, env: Env): set<IoErrorKind> {
    set n | n in ScanNames(fs) && LoadBucket(fs, env, n, 0).Err? :: LoadBucket(fs, env, n, 0).error
  }

  /** The index a successful scan builds. */
  ghost function ScanIndex(fs: Fs, env: Env, now: Timestamp): map<string, Bucket> {
    map n | n in ScanNames(fs) :: LoadBucket(fs, env, n, now).GetOr(FreshBucket(n, now))
  }

  /** The bucket directories without a descriptor: the scan writes a fresh one for each. */
  ghost function MissingNames(fs: Fs): set<string> {
    set n | n in ScanNames(fs) && !Exists(fs, BucketMetaPath(n))
  }

  /** Fresh descriptors for the bucket directories `names`. */
  ghost function FreshDescriptors(env: Env, now: Timestamp, names: set<string>): map<Path, seq<byte>> {
    map n | n in names :: BucketMetaPath(n) := env.encodeBucket(FreshBucket(n, now))
  }

  /** The tree after a successful start-up: the root exists and the missing descriptors are written. */
  ghost function ScanDisk(fs: Fs, env: Env, now: Timestamp): Fs {
    Fs(fs.dirs + {[]}, fs.files + FreshDescriptors(env, now, MissingNames(fs)))
  }
}
