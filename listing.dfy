/**
  What `list_objects` returns (storage.rs:366-449): the objects below a
  bucket's `objects` directory whose key starts with the prefix, with the keys
  that run on past a delimiter folded into common prefixes.
*/
module Listing {
  import opened Wrappers
  import opened Text
  import opened FileTree
  import opened Models
  import opened Externals
  import opened Layout
  import opened Engine
  import opened Sorting
  import ObjectFacts

  /** A file strictly below the bucket's `objects` directory. */
  predicate InObjects(bucket: string, f: Path) {
    |f| > 2 && f[..2] == ObjectsRoot(bucket)
  }

  /**
    The key `walk_objects` derives from a file: its path below `objects` with
    the segments joined by '/', and then every '\' replaced by '/'.
  */
  function WalkKey(bucket: string, f: Path): (r: string)
    requires InObjects(bucket, f)
    ensures '\\' !in r
  {
    ReplaceChar(RelKey(bucket, f), '\\', "/")
  }

  /**
    The common prefix a key that starts with `prefix` folds into: the prefix,
    the rest of the key up to the first occurrence of the delimiter, and the
    delimiter; none when there is no delimiter or it does not occur.
  */
  function Fold(key: string, prefix: string, delimiter: Option<string>): (r: Option<string>)
    requires StartsWith(key, prefix)
    ensures r.Some? <==> delimiter.Some? && Find(key[|prefix|..], delimiter.value).Some?
    ensures r.Some? ==> StartsWith(r.value, prefix) && StartsWith(key, r.value)
  {
    match delimiter
    case None => None
    case Some(d) =>
      var after := key[|prefix|..];
      match Find(after, d)
      case None => None
      case Some(pos) =>
        var cp := prefix + after[..pos] + d;
        assert key == prefix + after;
        assert after[pos..pos + |d|] == d;
        assert key[..|cp|] == prefix + after[..pos] + after[pos..pos + |d|];
        Some(cp)
  }

  /** A file the walk reaches, whose key starts with the prefix. */
  predicate Candidate(bucket: string, prefix: string, f: Path) {
    InObjects(bucket, f) && StartsWith(WalkKey(bucket, f), prefix)
  }

  /** A file that ends up as an object of the listing: not folded, and its descriptor loads. */
  predicate Leaf(s: State, env: Env, bucket: string, prefix: string, delimiter: Option<string>, now: Timestamp, f: Path) {
    && Candidate(bucket, prefix, f)
    && Fold(WalkKey(bucket, f), prefix, delimiter).None?
    && GetObjectMeta(s, env, bucket, WalkKey(bucket, f), now).Ok?
  }

  /** A file whose key is folded into a common prefix. */
  predicate Folded(bucket: string, prefix: string, delimiter: Option<string>, f: Path) {
    Candidate(bucket, prefix, f) && Fold(WalkKey(bucket, f), prefix, delimiter).Some?
  }

  /** The descriptor listed for a leaf file. */
  function LeafMeta(s: State, env: Env, bucket: string, prefix: string, delimiter: Option<string>, now: Timestamp, f: Path): ObjectMeta
    requires Leaf(s, env, bucket, prefix, delimiter, now, f)
  {
    GetObjectMeta(s, env, bucket, WalkKey(bucket, f), now).value
  }

  function FoldOf(bucket: string, prefix: string, delimiter: Option<string>, f: Path): string
    requires Folded(bucket, prefix, delimiter, f)
  {
    Fold(WalkKey(bucket, f), prefix, delimiter).value
  }

  /** The leaf files among `files`. */
  ghost function LeavesOf(s: State, env: Env, bucket: string, prefix: string, delimiter: Option<string>,
                          now: Timestamp, files: set<Path>): set<Path> {
    set f | f in files && Leaf(s, env, bucket, prefix, delimiter, now, f)
  }

  /** The common prefixes the files among `files` fold into. */
  ghost function FoldsOf(bucket: string, prefix: string, delimiter: Option<string>, files: set<Path>): set<string> {
    set f | f in files && Folded(bucket, prefix, delimiter, f) :: FoldOf(bucket, prefix, delimiter, f)
  }

  /** The leaf files below `d`. */
  ghost function LeavesUnder(s: State, env: Env, bucket: string, prefix: string, delimiter: Option<string>,
                             now: Timestamp, d: Path): set<Path> {
    LeavesOf(s, env, bucket, prefix, delimiter, now, FilesUnder(s.disk, d))
  }

  /** The common prefixes the files below `d` fold into. */
  ghost function PrefixesUnder(fs: Fs, bucket: string, prefix: string, delimiter: Option<string>, d: Path): set<string> {
    FoldsOf(bucket, prefix, delimiter, FilesUnder(fs, d))
  }

  /** The descriptor listed for each leaf file among `files`. */
  ghost function LeafMetas(s: State, env: Env, bucket: string, prefix: string, delimiter: Option<string>,
                           now: Timestamp, files: set<Path>): map<Path, ObjectMeta> {
    map f | f in files && Leaf(s, env, bucket, prefix, delimiter, now, f) :: LeafMeta(s, env, bucket, prefix, delimiter, now, f)
  }

  /** `keys` names every key of `m` exactly once, and `values` holds the value of each in the same order. */
  ghost predicate Enumerates<K(!new), V>(values: seq<V>, keys: seq<K>, m: map<K, V>) {
    && |values| == |keys|
    && (forall i | 0 <= i < |keys| :: keys[i] in m && values[i] == m[keys[i]])
    && (forall i, j | 0 <= i < j < |keys| :: keys[i] != keys[j])
    && (forall k | k in m :: k in keys)
  }

  /** Enumerations of two maps with disjoint keys, one after the other, enumerate their union. */
  lemma EnumeratesConcat<K(!new), V>(v1: seq<V>, k1: seq<K>, m1: map<K, V>, v2: seq<V>, k2: seq<K>, m2: map<K, V>)
    requires m1.Keys !! m2.Keys && Enumerates(v1, k1, m1) && Enumerates(v2, k2, m2)
    ensures Enumerates(v1 + v2, k1 + k2, m1 + m2)
  {
    var k := k1 + k2;
    forall i, j | 0 <= i < j < |k| ensures k[i] != k[j] {
      if i < |k1| <= j {
        assert k[i] in k1 && k[j] == k2[j - |k1|];
        assert k2[j - |k1|] in k2;
      }
    }
    forall i | 0 <= i < |k| ensures k[i] in m1 + m2 && (v1 + v2)[i] == (m1 + m2)[k[i]] {
      if i >= |k1| {
        assert k[i] == k2[i - |k1|] && (v1 + v2)[i] == v2[i - |k1|];
      } else {
        assert k[i] == k1[i] && k[i] !in m2;
      }
    }
  }

  /** An enumeration, in any order, has as many entries as the map has keys. */
  lemma EnumeratesCount<K(!new), V>(values: seq<V>, keys: seq<K>, reordered: seq<V>, m: map<K, V>)
    requires Enumerates(values, keys, m) && multiset(reordered) == multiset(values)
    ensures |reordered| == |values| == |m|
  {
    DistinctCard(keys);
    assert (set x | x in keys) == m.Keys;
    assert |reordered| == |multiset(reordered)|;
  }

  /** The leaves and the common prefixes of a union of files are those of its parts. */
  lemma ListingUnion(s: State, env: Env, bucket: string, prefix: string, delimiter: Option<string>, now: Timestamp,
                     a: set<Path>, b: set<Path>)
    requires a !! b
    ensures LeafMetas(s, env, bucket, prefix, delimiter, now, a + b)
         == LeafMetas(s, env, bucket, prefix, delimiter, now, a) + LeafMetas(s, env, bucket, prefix, delimiter, now, b)
    ensures LeafMetas(s, env, bucket, prefix, delimiter, now, a).Keys !! LeafMetas(s, env, bucket, prefix, delimiter, now, b).Keys
    ensures FoldsOf(bucket, prefix, delimiter, a + b) == FoldsOf(bucket, prefix, delimiter, a) + FoldsOf(bucket, prefix, delimiter, b)
  {
  }

  /**
    What one file below `objects` contributes: its descriptor when it is a
    leaf, its common prefix when it folds, and nothing when its key misses
    the prefix or its descriptor does not load.
  */
  lemma ListingOneFile(s: State, env: Env, bucket: string, prefix: string, delimiter: Option<string>, now: Timestamp,
                       f: Path)
    ensures LeafMetas(s, env, bucket, prefix, delimiter, now, {f})
         == if Leaf(s, env, bucket, prefix, delimiter, now, f) then map[f := LeafMeta(s, env, bucket, prefix, delimiter, now, f)]
            else map[]
    ensures FoldsOf(bucket, prefix, delimiter, {f})
         == if Folded(bucket, prefix, delimiter, f) then {FoldOf(bucket, prefix, delimiter, f)} else {}
  {
  }

  /** A list of distinct elements has as many elements as its set. */
  lemma {:induction false} DistinctCard<T>(l: seq<T>)
    requires forall i, j | 0 <= i < j < |l| :: l[i] != l[j]
    ensures |set x | x in l| == |l|
  {
    if l != [] {
      var init := l[..|l| - 1];
      DistinctCard(init);
      assert l[|l| - 1] !in init;
      assert (set x | x in l) == (set x | x in init) + {l[|l| - 1]};
    }
  }

  function MetaKey(m: ObjectMeta): string { m.key }

  /**
    What a listing of `bucket` answers: the descriptors of the leaf files in
    key order (`full` holds them all, `walked` in the order of the walk, each
    read for the file `leaves` names), the first `maxKeys` of them, whether
    more were cut off, and every common prefix once, in increasing order.
  */
  ghost predicate Answers(s: State, env: Env, bucket: string, prefix: string, delimiter: Option<string>,
                          maxKeys: u32, now: Timestamp, resp: ListObjectsResponse,
                          walked: seq<ObjectMeta>, leaves: seq<Path>, full: seq<ObjectMeta>) {
    var metas := LeafMetas(s, env, bucket, prefix, delimiter, now, FilesUnder(s.disk, ObjectsRoot(bucket)));
    && resp.bucket == bucket && resp.prefix == prefix && resp.maxKeys == maxKeys
    && Enumerates(walked, leaves, metas)
    && multiset(full) == multiset(walked) && SortedBy(full, MetaKey)
    && resp.objects == full[..if |full| > maxKeys then maxKeys else |full|]
    && (resp.isTruncated <==> |metas| > maxKeys)
    && StrictlySorted(resp.commonPrefixes)
    && (set p | p in resp.commonPrefixes) == PrefixesUnder(s.disk, bucket, prefix, delimiter, ObjectsRoot(bucket))
  }

  /** An answer has at most `maxKeys` objects, in key order, each one the walk found. */
  lemma AnswerObjects(s: State, env: Env, bucket: string, prefix: string, delimiter: Option<string>,
                      maxKeys: u32, now: Timestamp, resp: ListObjectsResponse,
                      walked: seq<ObjectMeta>, leaves: seq<Path>, full: seq<ObjectMeta>)
    requires Answers(s, env, bucket, prefix, delimiter, maxKeys, now, resp, walked, leaves, full)
    ensures |resp.objects| <= maxKeys && SortedBy(resp.objects, MetaKey)
    ensures forall m | m in resp.objects :: m in walked
  {
    var kept := if |full| > maxKeys then maxKeys else |full|;
    assert resp.objects == full[..kept];
    forall m | m in resp.objects ensures m in walked {
      assert m in full;
      assert m in multiset(full);
    }
  }

  /**
    Each descriptor the walk found was read for a file below `objects` whose
    key starts with the prefix and is not folded; when that key has no
    metadata file, the descriptor is rebuilt under that very key.
  */
  lemma AnswerLeaves(s: State, env: Env, bucket: string, prefix: string, delimiter: Option<string>,
                     now: Timestamp, walked: seq<ObjectMeta>, leaves: seq<Path>)
    requires Enumerates(walked, leaves, LeafMetas(s, env, bucket, prefix, delimiter, now,
                                                  FilesUnder(s.disk, ObjectsRoot(bucket))))
    ensures forall i | 0 <= i < |leaves| ::
      && leaves[i] in FilesUnder(s.disk, ObjectsRoot(bucket)) && InObjects(bucket, leaves[i])
      && StartsWith(WalkKey(bucket, leaves[i]), prefix)
      && Fold(WalkKey(bucket, leaves[i]), prefix, delimiter).None?
      && GetObjectMeta(s, env, bucket, WalkKey(bucket, leaves[i]), now) == Ok(walked[i])
      && (!Exists(s.disk, MetaPath(bucket, WalkKey(bucket, leaves[i]))) ==> walked[i].key == WalkKey(bucket, leaves[i]))
  {
    forall i | 0 <= i < |leaves|
      ensures leaves[i] in FilesUnder(s.disk, ObjectsRoot(bucket))
    {
      assert leaves[i] in LeafMetas(s, env, bucket, prefix, delimiter, now, FilesUnder(s.disk, ObjectsRoot(bucket)));
    }
  }

  /** Sorting, deduplicating and cutting what the walk collected gives the answer. */
  lemma WalkAnswers(s: State, env: Env, bucket: string, prefix: string, delimiter: Option<string>,
                    maxKeys: u32, now: Timestamp, walked: seq<ObjectMeta>, leaves: seq<Path>, prefixes: seq<string>)
    requires Enumerates(walked, leaves, LeafMetas(s, env, bucket, prefix, delimiter, now,
                                                  FilesUnder(s.disk, ObjectsRoot(bucket))))
    requires (set p | p in prefixes) == PrefixesUnder(s.disk, bucket, prefix, delimiter, ObjectsRoot(bucket))
    ensures var full := SortBy(walked, MetaKey);
      var kept := if |full| > maxKeys then maxKeys else |full|;
      Answers(s, env, bucket, prefix, delimiter, maxKeys, now,
              ListObjectsResponse(bucket, prefix, full[..kept], Dedup(SortBy(prefixes, Identity)), |full| > maxKeys, maxKeys),
              walked, leaves, full)
  {
    var full := SortBy(walked, MetaKey);
    EnumeratesCount(walked, leaves, full, LeafMetas(s, env, bucket, prefix, delimiter, now,
                                                    FilesUnder(s.disk, ObjectsRoot(bucket))));
    SortDedup(prefixes);
    var common := Dedup(SortBy(prefixes, Identity));
    assert (set p | p in common) == (set p | p in prefixes);
  }

  // ---- what the listing means ----

  /**
    Every file below `objects` whose key starts with the prefix is accounted
    for: it is folded into a listed common prefix that its key starts with,
    or it is listed, or its descriptor could not be read.
  */
  lemma EveryCandidateAccounted(s: State, env: Env, bucket: string, prefix: string, delimiter: Option<string>,
                                now: Timestamp, f: Path)
    requires f in FilesUnder(s.disk, ObjectsRoot(bucket)) && Candidate(bucket, prefix, f)
    ensures || (exists cp | cp in PrefixesUnder(s.disk, bucket, prefix, delimiter, ObjectsRoot(bucket)) ::
                  StartsWith(WalkKey(bucket, f), cp))
            || f in LeavesUnder(s, env, bucket, prefix, delimiter, now, ObjectsRoot(bucket))
            || GetObjectMeta(s, env, bucket, WalkKey(bucket, f), now).Err?
  {
    if Folded(bucket, prefix, delimiter, f) {
      var cp := FoldOf(bucket, prefix, delimiter, f);
      assert cp in PrefixesUnder(s.disk, bucket, prefix, delimiter, ObjectsRoot(bucket));
    }
  }

  /** Without a delimiter nothing is folded. */
  lemma NoDelimiterNoPrefixes(fs: Fs, bucket: string, prefix: string, d: Path)
    ensures PrefixesUnder(fs, bucket, prefix, None, d) == {}
  {
  }

  /**
    A common prefix is the prefix, then text without the delimiter, then the
    delimiter: the first occurrence of the delimiter after the prefix is the
    one that ends it.
  */
  lemma CommonPrefixShape(fs: Fs, bucket: string, prefix: string, delim: string, d: Path, cp: string)
    requires cp in PrefixesUnder(fs, bucket, prefix, Some(delim), d)
    ensures StartsWith(cp, prefix) && |cp| >= |prefix| + |delim|
    ensures cp[|cp| - |delim|..] == delim
    ensures Find(cp[|prefix|..], delim) == Some(|cp| - |prefix| - |delim|)
  {
    var f :| f in FilesUnder(fs, d) && Folded(bucket, prefix, Some(delim), f) && FoldOf(bucket, prefix, Some(delim), f) == cp;
    FoldShape(WalkKey(bucket, f), prefix, delim);
  }

  /** The string facts behind `CommonPrefixShape`, for one key. */
  lemma FoldShape(key: string, prefix: string, delim: string)
    requires StartsWith(key, prefix) && Fold(key, prefix, Some(delim)).Some?
    ensures var cp := Fold(key, prefix, Some(delim)).value;
      && StartsWith(cp, prefix) && |cp| >= |prefix| + |delim|
      && cp[|cp| - |delim|..] == delim
      && Find(cp[|prefix|..], delim) == Some(|cp| - |prefix| - |delim|)
  {
    var cp := Fold(key, prefix, Some(delim)).value;
    var after := key[|prefix|..];
    var pos := Find(after, delim).value;
    assert cp == prefix + after[..pos] + delim;
    var tail := cp[|prefix|..];
    assert tail == after[..pos] + delim;
    assert after[..pos + |delim|] == after[..pos] + after[pos..pos + |delim|];
    assert tail == after[..pos + |delim|];
    assert OccursAt(tail, delim, pos);
    forall j | 0 <= j < pos ensures !OccursAt(tail, delim, j) {
      assert !OccursAt(after, delim, j);
      if j + |delim| <= |tail| {
        assert tail[j..j + |delim|] == after[j..j + |delim|];
      }
    }
    FindFirst(tail, delim, pos);
  }

  /** `Find` returns the first position at which the pattern occurs. */
  lemma {:induction false} FindFirst(s: string, pat: string, pos: nat, from: nat := 0)
    requires from <= pos && OccursAt(s, pat, pos)
    requires forall j | from <= j < pos :: !OccursAt(s, pat, j)
    ensures Find(s, pat, from) == Some(pos)
    decreases pos - from
  {
    if from < pos {
      FindFirst(s, pat, pos, from + 1);
    }
  }

  /** An empty delimiter folds every key into the prefix itself: no object is listed. */
  lemma EmptyDelimiterFoldsAll(s: State, env: Env, bucket: string, prefix: string, now: Timestamp, d: Path)
    ensures LeavesUnder(s, env, bucket, prefix, Some(""), now, d) == {}
    ensures PrefixesUnder(s.disk, bucket, prefix, Some(""), d) <= {prefix}
  {
    forall f | Candidate(bucket, prefix, f) ensures Fold(WalkKey(bucket, f), prefix, Some("")) == Some(prefix) {
      var after := WalkKey(bucket, f)[|prefix|..];
      assert OccursAt(after, "", 0);
      assert after[..0] == "";
    }
  }

  /**
    The walk key of an object stored by its key gives that key back, unless the
    key contains a backslash.
  */
  lemma WalkKeyOfObject(bucket: string, key: string)
    requires KeySafe(key) && key != "" && '\\' !in key
    ensures InObjects(bucket, ObjectPath(bucket, key)) && WalkKey(bucket, ObjectPath(bucket, key)) == key
  {
    var f := ObjectPath(bucket, key);
    assert f[2..] == KeySegments(key);
    KeySegmentsJoin(key);
  }

  /** A key with a backslash is listed under another key: `a\b` is walked as `a/b`. */
  lemma BackslashKeyRenamed()
    ensures KeySafe("a\\b")
    ensures WalkKey("photos", ObjectPath("photos", "a\\b")) == "a/b"
  {
    var f := ObjectPath("photos", "a\\b");
    assert FindChar("a\\b", '/') == None;
    assert KeySegments("a\\b") == ["a\\b"];
    assert f[2..] == ["a\\b"];
    assert RelKey("photos", f) == "a\\b";
    assert ReplaceChar("a\\b", '\\', "/") == "a" + ReplaceChar("\\b", '\\', "/");
    assert ReplaceChar("\\b", '\\', "/") == "/" + ReplaceChar("b", '\\', "/");
  }

  /**
    An object just stored under a key without backslashes, which starts with
    the prefix and is not folded, is listed with the descriptor `put_object`
    returned.
  */
  lemma PutThenListed(s: State, env: Env, bucket: string, key: string, data: seq<byte>,
                      contentType: Option<string>, metadata: map<string, string>, now: Timestamp,
                      prefix: string, delimiter: Option<string>, later: Timestamp)
    requires Inv(s) && Lawful(env) && KeySafe(key) && '\\' !in key
    requires PutObject(s, env, bucket, key, data, contentType, metadata, now).0.Ok?
    requires StartsWith(key, prefix) && Fold(key, prefix, delimiter).None?
    ensures var (r, s') := PutObject(s, env, bucket, key, data, contentType, metadata, now);
      && ObjectPath(bucket, key) in LeavesUnder(s', env, bucket, prefix, delimiter, later, ObjectsRoot(bucket))
      && LeafMeta(s', env, bucket, prefix, delimiter, later, ObjectPath(bucket, key)) == r.value
  {
    var (r, s') := PutObject(s, env, bucket, key, data, contentType, metadata, now);
    ObjectFacts.PutObjectSuccess(s, env, bucket, key, data, contentType, metadata, now);
    ObjectFacts.PutThenGet(s, env, bucket, key, data, contentType, metadata, now, later);
    WalkKeyOfObject(bucket, key);
    var op := ObjectPath(bucket, key);
    assert op in s'.disk.files;
    assert op in FilesUnder(s'.disk, ObjectsRoot(bucket));
    assert GetObjectMeta(s', env, bucket, key, later) == Ok(r.value);
  }
}
