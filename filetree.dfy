/**
  The directory tree under the engine's data root, as the engine sees it through
  `std::fs`: a set of directory paths and a map from file paths to bytes. Paths
  are relative to the root (the root itself is `[]`) and are sequences of entry
  names. Each function below is one `std::fs` call with the outcome it has on a
  POSIX file system; failures that depend on permissions, full disks or other
  processes are not part of this model.
*/
module FileTree {
  import opened Wrappers
  import opened Text
  import opened Sums

  type Path = seq<string>

  /** A name a directory entry can have: not empty, no '/', not "." or "..". */
  predicate IsName(s: string) {
    s != "" && '/' !in s && s != "." && s != ".."
  }

  predicate AllNames(p: Path) {
    forall i | 0 <= i < |p| :: IsName(p[i])
  }

  /** The `std::io::ErrorKind`s the calls below produce. */
  datatype IoErrorKind = NotFound | AlreadyExists | NotADirectory | IsADirectory | DirectoryNotEmpty | InvalidData

  datatype Fs = Fs(dirs: set<Path>, files: map<Path, seq<byte>>)

  predicate IsPrefix(p: Path, q: Path) {
    |p| <= |q| && q[..|p|] == p
  }

  /** `c` is an immediate entry of the directory `d`. */
  predicate IsChild(d: Path, c: Path) {
    |c| == |d| + 1 && c[..|d|] == d
  }

  /** What a real tree guarantees: every ancestor of an entry is a directory. */
  ghost predicate WellFormed(fs: Fs) {
    && fs.dirs !! fs.files.Keys
    && (forall d | d in fs.dirs :: AllNames(d))
    && (forall d, i | d in fs.dirs && 0 <= i < |d| :: d[..i] in fs.dirs)
    && (forall f | f in fs.files :: f != [] && AllNames(f))
    && (forall f, i | f in fs.files && 0 <= i < |f| :: f[..i] in fs.dirs)
  }

  /** `Path::exists`: true for files and directories alike. */
  predicate Exists(fs: Fs, p: Path) {
    p in fs.dirs || p in fs.files
  }

  /** The paths `fs::read_dir(d)` yields. */
  function Entries(fs: Fs, d: Path): (r: set<Path>)
    ensures forall c | c in r :: IsChild(d, c) && Exists(fs, c)
    ensures forall c | IsChild(d, c) && Exists(fs, c) :: c in r
  {
    (set c | c in fs.dirs && IsChild(d, c)) + (set c | c in fs.files && IsChild(d, c))
  }

  function Prefixes(p: Path): (r: set<Path>)
    ensures forall i | 0 <= i <= |p| :: p[..i] in r
    ensures forall q | q in r :: IsPrefix(q, p)
  {
    set i | 0 <= i <= |p| :: p[..i]
  }

  /** `fs::create_dir_all(p)`: fails when `p` or one of its ancestors is a file. */
  function CreateDirAll(fs: Fs, p: Path): (r: Result<Fs, IoErrorKind>)
    ensures r.Ok? <==> forall i | 0 <= i <= |p| :: p[..i] !in fs.files
    ensures r.Ok? ==> r.value.files == fs.files && r.value.dirs == fs.dirs + Prefixes(p)
  {
    if p in fs.files then
      assert p[..|p|] == p;
      Err(AlreadyExists)
    else if exists i | 0 <= i < |p| :: p[..i] in fs.files then
      Err(NotADirectory)
    else
      assert p[..|p|] == p;
      Ok(fs.(dirs := fs.dirs + Prefixes(p)))
  }

  lemma CreateDirAllWellFormed(fs: Fs, p: Path)
    requires WellFormed(fs) && AllNames(p) && CreateDirAll(fs, p).Ok?
    ensures WellFormed(CreateDirAll(fs, p).value)
  {
    var r := CreateDirAll(fs, p).value;
    forall d, i | d in r.dirs && 0 <= i < |d| ensures d[..i] in r.dirs {
      if d !in fs.dirs {
        assert d == p[..|d|];
        assert d[..i] == p[..i];
      }
    }
    forall d | d in r.dirs ensures AllNames(d) {
      if d !in fs.dirs {
        assert d == p[..|d|];
      }
    }
  }

  /** `fs::write(p, data)` / `File::create` + `write_all`: creates or replaces a file. */
  function WriteFile(fs: Fs, p: Path, data: seq<byte>): (r: Result<Fs, IoErrorKind>)
    requires p != []
    ensures r.Ok? <==> p !in fs.dirs && p[..|p| - 1] in fs.dirs
    ensures r.Ok? ==> r.value.dirs == fs.dirs && r.value.files == fs.files[p := data]
  {
    if p in fs.dirs then Err(IsADirectory)
    else if p[..|p| - 1] !in fs.dirs then
      (if exists i | 0 <= i < |p| :: p[..i] in fs.files then Err(NotADirectory) else Err(NotFound))
    else
      Ok(fs.(files := fs.files[p := data]))
  }

  lemma WriteFileWellFormed(fs: Fs, p: Path, data: seq<byte>)
    requires WellFormed(fs) && p != [] && IsName(p[|p| - 1]) && WriteFile(fs, p, data).Ok?
    ensures WellFormed(WriteFile(fs, p, data).value)
  {
    var r := WriteFile(fs, p, data).value;
    var q := p[..|p| - 1];
    assert AllNames(p) by {
      forall i | 0 <= i < |p| ensures IsName(p[i]) {
        if i < |p| - 1 {
          assert AllNames(q);
          assert p[i] == q[i];
        }
      }
    }
    forall i | 0 <= i < |p| ensures p[..i] in r.dirs {
      if i < |p| - 1 {
        assert p[..i] == q[..i];
      }
    }
  }

  /** `fs::read(p)` (and, for its error cases, `fs::read_to_string(p)`). */
  function ReadFile(fs: Fs, p: Path): (r: Result<seq<byte>, IoErrorKind>)
    ensures r.Ok? <==> p in fs.files
    ensures r.Ok? ==> r.value == fs.files[p]
  {
    if p in fs.files then Ok(fs.files[p])
    else if p in fs.dirs then Err(IsADirectory)
    else Err(NotFound)
  }

  /** `fs::remove_file(p)`. */
  function RemoveFile(fs: Fs, p: Path): (r: Result<Fs, IoErrorKind>)
    ensures r.Ok? <==> p in fs.files
    ensures r.Ok? ==> r.value.dirs == fs.dirs && r.value.files == fs.files - {p}
  {
    if p in fs.files then Ok(fs.(files := fs.files - {p}))
    else if p in fs.dirs then Err(IsADirectory)
    else Err(NotFound)
  }

  lemma RemoveFileWellFormed(fs: Fs, p: Path)
    requires WellFormed(fs) && RemoveFile(fs, p).Ok?
    ensures WellFormed(RemoveFile(fs, p).value)
  {
  }

  /** `fs::read_dir(p)`, reduced to the set of entries it yields. */
  function ReadDir(fs: Fs, p: Path): (r: Result<set<Path>, IoErrorKind>)
    ensures r.Ok? <==> p in fs.dirs
    ensures r.Ok? ==> r.value == Entries(fs, p)
  {
    if p in fs.dirs then Ok(Entries(fs, p))
    else if p in fs.files then Err(NotADirectory)
    else Err(NotFound)
  }

  /** `fs::remove_dir(p)`: only an empty directory goes. */
  function RemoveDir(fs: Fs, p: Path): (r: Result<Fs, IoErrorKind>)
    ensures r.Ok? <==> p in fs.dirs && Entries(fs, p) == {}
    ensures r.Ok? ==> r.value.dirs == fs.dirs - {p} && r.value.files == fs.files
  {
    if p in fs.dirs && Entries(fs, p) == {} then Ok(fs.(dirs := fs.dirs - {p}))
    else if p in fs.dirs then Err(DirectoryNotEmpty)
    else if p in fs.files then Err(NotADirectory)
    else Err(NotFound)
  }

  lemma RemoveDirWellFormed(fs: Fs, p: Path)
    requires WellFormed(fs) && RemoveDir(fs, p).Ok?
    ensures WellFormed(RemoveDir(fs, p).value)
  {
    var r := RemoveDir(fs, p).value;
    forall d, i | d in r.dirs && 0 <= i < |d| ensures d[..i] in r.dirs {
      AncestorHasEntry(fs, d, i);
    }
    forall f, i | f in r.files && 0 <= i < |f| ensures f[..i] in r.dirs {
      AncestorHasEntry(fs, f, i);
    }
  }

  /** On the way down to an existing entry, every ancestor has the next step as an entry. */
  lemma AncestorHasEntry(fs: Fs, p: Path, i: nat)
    requires WellFormed(fs) && Exists(fs, p) && i < |p|
    ensures p[..i + 1] in Entries(fs, p[..i])
  {
    assert p[..i + 1][..i] == p[..i];
    if i + 1 == |p| {
      assert p[..i + 1] == p;
    }
  }

  /** `fs::remove_dir_all(p)`: the directory and everything below it. */
  function RemoveDirAll(fs: Fs, p: Path): (r: Result<Fs, IoErrorKind>)
    ensures r.Ok? <==> p in fs.dirs
    ensures r.Ok? ==> forall q :: q in r.value.dirs <==> q in fs.dirs && !IsPrefix(p, q)
    ensures r.Ok? ==> forall q :: q in r.value.files <==> q in fs.files && !IsPrefix(p, q)
    ensures r.Ok? ==> forall q | q in r.value.files :: r.value.files[q] == fs.files[q]
  {
    if p in fs.dirs then
      Ok(Fs(set d | d in fs.dirs && !IsPrefix(p, d),
            map f | f in fs.files && !IsPrefix(p, f) :: fs.files[f]))
    else if p in fs.files then Err(NotADirectory)
    else Err(NotFound)
  }

  lemma RemoveDirAllWellFormed(fs: Fs, p: Path)
    requires WellFormed(fs) && RemoveDirAll(fs, p).Ok?
    ensures WellFormed(RemoveDirAll(fs, p).value)
  {
    var r := RemoveDirAll(fs, p).value;
    forall d, i | d in r.dirs && 0 <= i < |d| ensures d[..i] in r.dirs {
    }
    forall f, i | f in r.files && 0 <= i < |f| ensures f[..i] in r.dirs {
    }
  }

  // ---- aggregates over a subtree (what `dir_stats` counts) ----

  /** The files strictly below `d`. */
  ghost function FilesUnder(fs: Fs, d: Path): set<Path> {
    set f | f in fs.files && |f| > |d| && f[..|d|] == d
  }

  /** The sizes of the files in `s`, keyed by path. */
  ghost function SizeMap(fs: Fs, s: set<Path>): map<Path, nat> {
    map f | f in s && f in fs.files :: |fs.files[f]|
  }

  /** The number of files below `d`. */
  ghost function FileCount(fs: Fs, d: Path): nat {
    |FilesUnder(fs, d)|
  }

  /** The total length of the files below `d`. */
  ghost function ByteCount(fs: Fs, d: Path): nat {
    Sum(SizeMap(fs, FilesUnder(fs, d)))
  }

  /** The directories strictly below `d`: the measure the recursive walks decrease. */
  ghost function DirsUnder(fs: Fs, d: Path): set<Path> {
    set x | x in fs.dirs && |x| > |d| && x[..|d|] == d
  }

  lemma DirsUnderShrinks(fs: Fs, d: Path, e: Path)
    requires IsChild(d, e) && e in fs.dirs
    ensures DirsUnder(fs, e) < DirsUnder(fs, d)
  {
    assert e in DirsUnder(fs, d);
    forall x | x in DirsUnder(fs, e) ensures x in DirsUnder(fs, d) {
      assert x[..|d|] == x[..|e|][..|d|];
    }
  }

  /** The files below `d` that lie in one of the entries `es` of `d`. */
  ghost function FilesVia(fs: Fs, d: Path, es: set<Path>): set<Path> {
    set f | f in FilesUnder(fs, d) && f[..|d| + 1] in es
  }

  /** What an entry of `d` contributes to the files below `d`. */
  ghost function EntryFiles(fs: Fs, e: Path): set<Path> {
    if e in fs.dirs then FilesUnder(fs, e) else {e}
  }

  lemma FilesViaAll(fs: Fs, d: Path)
    requires WellFormed(fs)
    ensures FilesVia(fs, d, Entries(fs, d)) == FilesUnder(fs, d)
  {
    forall f | f in FilesUnder(fs, d) ensures f[..|d| + 1] in Entries(fs, d) {
      var c := f[..|d| + 1];
      assert c[..|d|] == d;
      if |f| == |d| + 1 {
        assert c == f;
      } else {
        assert c in fs.dirs;
      }
    }
  }

  lemma FilesViaAdd(fs: Fs, d: Path, es: set<Path>, e: Path)
    requires WellFormed(fs)
    requires e in Entries(fs, d) && e !in es
    ensures FilesVia(fs, d, es + {e}) == FilesVia(fs, d, es) + EntryFiles(fs, e)
    ensures FilesVia(fs, d, es) !! EntryFiles(fs, e)
  {
    forall f | f in EntryFiles(fs, e) ensures f in FilesUnder(fs, d) && f[..|d| + 1] == e {
      if e in fs.dirs {
        assert f[..|d| + 1] == f[..|e|][..|d| + 1];
      }
    }
    forall f | f in FilesUnder(fs, d) && f[..|d| + 1] == e ensures f in EntryFiles(fs, e) {
      if e in fs.files && |f| == |e| {
        assert f == f[..|d| + 1];
      }
    }
  }

  /** Writing a file that is not below `d` leaves what is below `d` as it was. */
  lemma WriteOutsideKeepsCounts(fs: Fs, fs': Fs, p: Path, data: seq<byte>, d: Path)
    requires fs'.files == fs.files[p := data]
    requires !(|p| > |d| && p[..|d|] == d)
    ensures FilesUnder(fs', d) == FilesUnder(fs, d)
    ensures SizeMap(fs', FilesUnder(fs', d)) == SizeMap(fs, FilesUnder(fs, d))
    ensures FileCount(fs', d) == FileCount(fs, d) && ByteCount(fs', d) == ByteCount(fs, d)
  {
  }

  lemma SizeMapUnion(fs: Fs, a: set<Path>, b: set<Path>)
    requires a !! b
    ensures SizeMap(fs, a + b) == SizeMap(fs, a) + SizeMap(fs, b)
    ensures SizeMap(fs, a).Keys !! SizeMap(fs, b).Keys
  {
  }

  lemma SizeOfOne(fs: Fs, f: Path)
    requires f in fs.files
    ensures Sum(SizeMap(fs, {f})) == |fs.files[f]|
  {
    assert SizeMap(fs, {f}) == map[f := |fs.files[f]|];
    SumSingleton(f, |fs.files[f]|);
  }
}
