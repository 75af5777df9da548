/**
  Where the engine keeps things under its data root (storage.rs:78-110):

    <bucket>/objects/<key>                    the object's bytes
    <bucket>/.meta/<flattened key>.json       its metadata
    <bucket>/.bucket_meta.json                the bucket descriptor

  and which bucket names it accepts.
*/
module Layout {
  import opened Wrappers
  import opened Text
  import opened FileTree
  import opened Errors

  const ObjectsDir: string := "objects"
  const MetaDir: string := ".meta"
  const BucketMetaFile: string := ".bucket_meta.json"
  const SlashMarker: string := "__SLASH__"

  /** Directories whose name starts with '.' are skipped when the root is scanned. */
  predicate Hidden(name: string) {
    |name| > 0 && name[0] == '.'
  }

  function BucketPath(bucket: string): Path {
    [bucket]
  }

  function ObjectsRoot(bucket: string): Path {
    [bucket, ObjectsDir]
  }

  function BucketMetaPath(bucket: string): Path {
    [bucket, BucketMetaFile]
  }

  /** The path components `PathBuf::join(key)` appends: the '/'-separated segments of the key. */
  function KeySegments(key: string): (r: Path)
    ensures key == "" <==> r == []
    ensures forall i | 0 <= i < |r| :: '/' !in r[i]
  {
    if key == "" then [] else Split(key, '/')
  }

  /**
    Keys whose segments are all plain names. Keys with an empty, "." or ".."
    segment, or a leading or trailing '/', are resolved by the operating system
    in ways this model does not follow.
  */
  predicate KeySafe(key: string) {
    AllNames(KeySegments(key))
  }

  /** `object_path`: `<bucket>/objects/<key>`. */
  function ObjectPath(bucket: string, key: string): (p: Path)
    ensures IsPrefix(ObjectsRoot(bucket), p)
    ensures |p| == 2 <==> key == ""
  {
    ObjectsRoot(bucket) + KeySegments(key)
  }

  /** The file name of an object's metadata: every '/' of the key replaced by "__SLASH__". */
  function FlatKey(key: string): (r: string)
    ensures '/' !in r
  {
    ReplaceChar(key, '/', SlashMarker)
  }

  /** `object_meta_path`: `<bucket>/.meta/<flattened key>.json`. */
  function MetaPath(bucket: string, key: string): (p: Path)
    ensures |p| == 3 && p[..2] == [bucket, MetaDir]
    ensures '/' !in p[2] && EndsWith(p[2], ".json")
  {
    [bucket, MetaDir, FlatKey(key) + ".json"]
  }

  /** The key a file below `<bucket>/objects` stands for: its segments rejoined with '/'. */
  function RelKey(bucket: string, f: Path): string
    requires IsPrefix(ObjectsRoot(bucket), f)
  {
    Join(f[2..], '/')
  }

  /** A key names exactly one object path, and a file below `objects` is named by its key. */
  lemma KeySegmentsJoin(key: string)
    ensures Join(KeySegments(key), '/') == key
  {
    if key != "" {
      JoinSplit(key, '/');
    }
  }

  lemma ObjectPathInjective(bucket: string, k1: string, k2: string)
    requires ObjectPath(bucket, k1) == ObjectPath(bucket, k2)
    ensures k1 == k2
  {
    var p := ObjectPath(bucket, k1);
    assert KeySegments(k1) == p[2..] == KeySegments(k2);
    KeySegmentsJoin(k1);
    KeySegmentsJoin(k2);
  }

  lemma RelKeyRoundTrip(bucket: string, f: Path)
    requires IsPrefix(ObjectsRoot(bucket), f) && |f| > 2 && AllNames(f)
    ensures ObjectPath(bucket, RelKey(bucket, f)) == f
    ensures KeySafe(RelKey(bucket, f))
  {
    var segs := f[2..];
    assert forall i | 0 <= i < |segs| :: IsName(segs[i]) by {
      forall i | 0 <= i < |segs| ensures IsName(segs[i]) {
        assert segs[i] == f[i + 2];
      }
    }
    SplitJoin(segs, '/');
    var key := Join(segs, '/');
    assert key != "" by {
      if |segs| == 1 {
        assert key == segs[0];
      } else {
        JoinAppend(segs[0], segs[1..], '/');
        assert segs == [segs[0]] + segs[1..];
      }
    }
    assert KeySegments(key) == segs;
    assert f == ObjectsRoot(bucket) + segs;
  }

  lemma RelKeyInjective(bucket: string, f: Path, g: Path)
    requires IsPrefix(ObjectsRoot(bucket), f) && |f| > 2 && AllNames(f)
    requires IsPrefix(ObjectsRoot(bucket), g) && |g| > 2 && AllNames(g)
    requires RelKey(bucket, f) == RelKey(bucket, g)
    ensures f == g
  {
    RelKeyRoundTrip(bucket, f);
    RelKeyRoundTrip(bucket, g);
  }

  /** The object path of a safe key in a bucket directory is made of entry names. */
  lemma ObjectPathNames(bucket: string, key: string)
    requires IsName(bucket) && KeySafe(key)
    ensures AllNames(ObjectPath(bucket, key))
  {
    var p := ObjectPath(bucket, key);
    forall i | 0 <= i < |p| ensures IsName(p[i]) {
      if i >= 2 {
        assert p[i] == KeySegments(key)[i - 2];
      }
    }
  }

  lemma MetaPathNames(bucket: string, key: string)
    requires IsName(bucket)
    ensures AllNames(MetaPath(bucket, key))
  {
    var n := FlatKey(key) + ".json";
    assert '/' !in n by {
      assert forall i | 0 <= i < |n| :: n[i] == if i < |FlatKey(key)| then FlatKey(key)[i] else ".json"[i - |FlatKey(key)|];
    }
    assert |n| >= 5;
  }

  /** A data file and a metadata file never share a path: the second segments differ. */
  lemma DataAndMetaApart(b1: string, k1: string, b2: string, k2: string)
    ensures ObjectPath(b1, k1) != MetaPath(b2, k2)
    ensures ObjectPath(b1, k1) != BucketMetaPath(b2)
    ensures MetaPath(b1, k1) != BucketMetaPath(b2)
  {
    assert ObjectPath(b1, k1)[1] == ObjectsDir;
  }

  /** Two different keys can share one metadata file: the flattening is not injective. */
  lemma MetaPathCollides()
    ensures "a/b" != "a" + SlashMarker + "b"
    ensures MetaPath("photos", "a/b") == MetaPath("photos", "a" + SlashMarker + "b")
  {
    var k1, k2 := "a/b", "a" + SlashMarker + "b";
    assert |k1| != |k2|;
    assert '/' !in SlashMarker;
    assert '/' !in k2;
    assert ReplaceChar(k1[2..], '/', SlashMarker) == "b";
    assert ReplaceChar(k1[1..], '/', SlashMarker) == SlashMarker + "b";
    assert FlatKey(k1) == k2;
  }

  // ---- bucket names ----

  predicate BucketNameChar(c: char) {
    'a' <= c <= 'z' || '0' <= c <= '9' || c == '-' || c == '.'
  }

  /** The names `validate_bucket_name` accepts. */
  predicate IsValidBucketName(name: string) {
    && 3 <= |name| <= 63
    && (forall i | 0 <= i < |name| :: BucketNameChar(name[i]))
    && name[0] != '-' && name[|name| - 1] != '-'
  }

  const LengthMessage: string := "Bucket name must be between 3 and 63 characters"
  const CharsetMessage: string := "Bucket name can only contain lowercase letters, numbers, hyphens, and periods"
  const HyphenMessage: string := "Bucket name cannot start or end with a hyphen"

  /** `validate_bucket_name`: length first, then the character set, then hyphens at the ends. */
  function ValidateBucketName(name: string): (r: Result<(), AppError>)
    ensures r.Ok? <==> IsValidBucketName(name)
    ensures r.Err? ==> r.error.InvalidBucketName?
    ensures !(3 <= |name| <= 63) ==> r == Err(InvalidBucketName(LengthMessage))
    ensures 3 <= |name| <= 63 && (exists i | 0 <= i < |name| :: !BucketNameChar(name[i])) ==>
      r == Err(InvalidBucketName(CharsetMessage))
    ensures (3 <= |name| <= 63 && (forall i | 0 <= i < |name| :: BucketNameChar(name[i]))
             && (name[0] == '-' || name[|name| - 1] == '-')) ==>
      r == Err(InvalidBucketName(HyphenMessage))
  {
    if |name| < 3 || |name| > 63 then
      Err(InvalidBucketName(LengthMessage))
    else if !(forall i | 0 <= i < |name| :: BucketNameChar(name[i])) then
      Err(InvalidBucketName(CharsetMessage))
    else if name[0] == '-' || name[|name| - 1] == '-' then
      Err(InvalidBucketName(HyphenMessage))
    else
      Ok(())
  }

  /** An accepted name is a single directory entry, so a bucket is one directory under the root. */
  lemma ValidNameIsName(name: string)
    requires IsValidBucketName(name)
    ensures IsName(name)
  {
    assert BucketNameChar(name[0]);
  }

  /** The validator lets through names that the scan at start-up skips. */
  lemma HiddenNameAccepted()
    ensures IsValidBucketName(".photos") && Hidden(".photos")
  {
  }
}
