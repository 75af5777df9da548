/** What start-up promises (storage.rs:22-76): `new` followed by `scan_buckets`. */
module StartFacts {
  import opened Wrappers
  import opened Text
  import opened FileTree
  import opened Models
  import opened Externals
  import opened Layout
  import opened Engine

  /** Whether the scan fails, and with which error, does not depend on the clock. */
  lemma LoadBucketErrorIgnoresClock(fs: Fs, env: Env, name: string, t1: Timestamp, t2: Timestamp)
    ensures LoadBucket(fs, env, name, t1).Err? <==> LoadBucket(fs, env, name, t2).Err?
    ensures LoadBucket(fs, env, name, t1).Err? ==> LoadBucket(fs, env, name, t1).error == LoadBucket(fs, env, name, t2).error
  {
  }

  /** A bucket directory makes the scan fail exactly when its descriptor is a directory or is not UTF-8. */
  lemma LoadBucketFails(fs: Fs, env: Env, name: string, now: Timestamp)
    requires WellFormed(fs)
    ensures var mp := BucketMetaPath(name);
      LoadBucket(fs, env, name, now).Err? <==> mp in fs.dirs || (mp in fs.files && !IsUtf8(fs.files[mp]))
  {
  }

  /** A successful start-up on any real tree establishes the invariant. */
  lemma StartEstablishesInv(fs: Fs, env: Env, now: Timestamp)
    requires WellFormed(fs) && ScanErrors(fs, env) == {}
    ensures Inv(State(ScanIndex(fs, env, now), ScanDisk(fs, env, now)))
  {
    var d := ScanDisk(fs, env, now);
    var idx := ScanIndex(fs, env, now);
    ScanDiskWellFormed(fs, env, now);
    ScanErrorsEmpty(fs, env);
    forall n | n in idx ensures BucketPath(n) in d.dirs && BucketMetaPath(n) in d.files {
      assert LoadBucket(fs, env, n, 0).Ok?;
      ScanNameIsDir(fs, n);
      if n !in MissingNames(fs) {
        assert Exists(fs, BucketMetaPath(n));
      }
    }
    forall x | x in d.dirs && |x| == 1 && !Hidden(x[0]) ensures x[0] in idx {
      assert x == [x[0]];
      assert x in fs.dirs;
    }
  }

  /**
    After a successful start-up every index entry is what its descriptor file
    reads back as, provided every descriptor that was already there parses; a
    descriptor that does not parse is replaced by a fresh entry in memory only.
  */
  lemma StartPersists(fs: Fs, env: Env, now: Timestamp)
    requires WellFormed(fs) && Lawful(env) && ScanErrors(fs, env) == {}
    requires forall n | n in ScanNames(fs) && BucketMetaPath(n) in fs.files ::
      env.decodeBucket(fs.files[BucketMetaPath(n)]).Some?
    ensures Persisted(env, State(ScanIndex(fs, env, now), ScanDisk(fs, env, now)))
  {
    var d := ScanDisk(fs, env, now);
    var idx := ScanIndex(fs, env, now);
    ScanErrorsEmpty(fs, env);
    forall n | n in idx ensures BucketMetaPath(n) in d.files && LoadsAs(env, d.files[BucketMetaPath(n)], idx[n]) {
      assert LoadBucket(fs, env, n, 0).Ok?;
      if n in MissingNames(fs) {
        assert d.files[BucketMetaPath(n)] == env.encodeBucket(FreshBucket(n, now));
      } else {
        assert BucketMetaPath(n) in fs.files;
      }
    }
  }

  /** The scan fails exactly when some bucket directory fails to load. */
  lemma ScanErrorsEmpty(fs: Fs, env: Env)
    ensures ScanErrors(fs, env) == {} <==> forall n | n in ScanNames(fs) :: LoadBucket(fs, env, n, 0).Ok?
  {
    forall n | n in ScanNames(fs) && LoadBucket(fs, env, n, 0).Err?
      ensures LoadBucket(fs, env, n, 0).error in ScanErrors(fs, env)
    {
    }
  }

  lemma ScanNameIsDir(fs: Fs, n: string)
    requires n in ScanNames(fs)
    ensures [n] in fs.dirs && !Hidden(n)
  {
    var d :| d in fs.dirs && |d| == 1 && !Hidden(d[0]) && d[0] == n;
    assert d == [n];
  }

  lemma ScanDiskWellFormed(fs: Fs, env: Env, now: Timestamp)
    requires WellFormed(fs)
    ensures WellFormed(ScanDisk(fs, env, now)) && [] in ScanDisk(fs, env, now).dirs
  {
    var added := FreshDescriptors(env, now, MissingNames(fs));
    forall f | f in added
      ensures f != [] && AllNames(f) && f !in fs.dirs && forall i | 0 <= i < |f| :: f[..i] == [] || f[..i] in fs.dirs
    {
      var n :| n in MissingNames(fs) && f == BucketMetaPath(n);
      NewDescriptor(fs, n);
    }
    AddFilesAtRoot(fs, added);
  }

  /** Adding the root and files whose parents exist (or are the root) keeps a tree well formed. */
  lemma AddFilesAtRoot(fs: Fs, added: map<Path, seq<byte>>)
    requires WellFormed(fs)
    requires forall f | f in added ::
      f != [] && AllNames(f) && f !in fs.dirs && forall i | 0 <= i < |f| :: f[..i] == [] || f[..i] in fs.dirs
    ensures WellFormed(Fs(fs.dirs + {[]}, fs.files + added))
  {
    var d := Fs(fs.dirs + {[]}, fs.files + added);
    assert AllNames([]);
    forall f | f in d.files ensures f != [] && AllNames(f) && f !in d.dirs {
      if f in added {
      } else {
        assert f in fs.files;
      }
    }
  }

  /** A descriptor the scan adds sits directly in an existing bucket directory. */
  lemma NewDescriptor(fs: Fs, n: string)
    requires WellFormed(fs) && n in MissingNames(fs)
    ensures var f := BucketMetaPath(n);
      f != [] && AllNames(f) && f !in fs.dirs && forall i | 0 <= i < |f| :: f[..i] == [] || f[..i] in fs.dirs
  {
    ScanNameIsDir(fs, n);
    assert AllNames([n]);
    assert BucketMetaPath(n)[..1] == [n];
  }

  /**
    Restarting on the tree a running engine left behind gives back the same
    index and the same tree, as long as no bucket name starts with '.': every
    descriptor is read back as its index entry and none is missing.
  */
  lemma RestartReproduces(s: State, env: Env, now: Timestamp)
    requires Inv(s) && Persisted(env, s)
    requires forall n | n in s.index :: !Hidden(n)
    ensures ScanErrors(s.disk, env) == {}
    ensures ScanIndex(s.disk, env, now) == s.index
    ensures ScanDisk(s.disk, env, now) == s.disk
  {
    var fs := s.disk;
    assert ScanNames(fs) == s.index.Keys by {
      forall n | n in s.index ensures n in ScanNames(fs) {
        assert BucketPath(n) in fs.dirs;
      }
    }
    forall n | n in ScanNames(fs) ensures LoadBucket(fs, env, n, now) == Ok(s.index[n]) {
    }
    assert ScanErrors(fs, env) == {} by {
      forall n | n in ScanNames(fs) ensures LoadBucket(fs, env, n, 0).Ok? {
        assert LoadBucket(fs, env, n, 0) == Ok(s.index[n]);
      }
      ScanErrorsEmpty(fs, env);
    }
    assert MissingNames(fs) == {};
    NothingMissingKeepsDisk(fs, env, now);
  }

  /** With every descriptor present, the scan writes nothing. */
  lemma NothingMissingKeepsDisk(fs: Fs, env: Env, now: Timestamp)
    requires MissingNames(fs) == {} && [] in fs.dirs
    ensures ScanDisk(fs, env, now) == fs
  {
    assert FreshDescriptors(env, now, {}) == map[];
    assert fs.dirs + {[]} == fs.dirs;
  }

  /**
    A bucket whose name starts with '.' passes validation and is created, but
    the scan skips hidden directories, so a restart does not find it again.
  */
  lemma HiddenBucketLostOnRestart(s: State, env: Env, region: string, now: Timestamp, later: Timestamp)
    requires CreateBucket(s, env, ".photos", region, now).0.Ok?
    ensures ".photos" in CreateBucket(s, env, ".photos", region, now).1.index
    ensures ".photos" !in ScanIndex(CreateBucket(s, env, ".photos", region, now).1.disk, env, later)
  {
    HiddenNameAccepted();
  }
}
