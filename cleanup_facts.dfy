/** What `cleanup_empty_dirs` does to the tree (storage.rs:346-364). */
module CleanupFacts {
  import opened Wrappers
  import opened FileTree
  import opened Engine

  /** Nothing is strictly below an empty directory of a real tree. */
  lemma EmptyDirHasNothingBelow(fs: Fs, d: Path, x: Path)
    requires WellFormed(fs) && d in fs.dirs && Entries(fs, d) == {}
    requires IsPrefix(d, x) && x != d
    ensures !Exists(fs, x)
  {
    if Exists(fs, x) {
      AncestorHasEntry(fs, x, |d|);
    }
  }

  /**
    Walking up from `dir` to `stop` only removes directories on that chain
    strictly below `stop`, each of them left with nothing below it; every
    directory of the chain that survives has an entry, so the walk stopped at
    the first non-empty one; and files are untouched.
  */
  lemma {:induction false} CleanupSpec(fs: Fs, dir: Path, stop: Path)
    requires WellFormed(fs) && IsPrefix(stop, dir)
    ensures Cleanup(fs, dir, stop).files == fs.files
    ensures Cleanup(fs, dir, stop).dirs <= fs.dirs
    ensures WellFormed(Cleanup(fs, dir, stop))
    ensures forall q | q in fs.dirs && q !in Cleanup(fs, dir, stop).dirs ::
      IsPrefix(q, dir) && |stop| < |q| && (forall x | Exists(Cleanup(fs, dir, stop), x) :: !IsPrefix(q, x))
    ensures dir in fs.dirs ==> forall q | q in Cleanup(fs, dir, stop).dirs && IsPrefix(q, dir) && |stop| < |q| ::
      Entries(Cleanup(fs, dir, stop), q) != {}
    decreases |dir|
  {
    var r := Cleanup(fs, dir, stop);
    if dir == stop || dir !in fs.dirs {
    } else if Entries(fs, dir) != {} {
      forall q | q in r.dirs && IsPrefix(q, dir) && |stop| < |q| ensures Entries(r, q) != {} {
        if q != dir {
          AncestorHasEntry(fs, dir, |q|);
          assert dir[..|q|] == q;
        }
      }
    } else {
      var fs' := fs.(dirs := fs.dirs - {dir});
      assert RemoveDir(fs, dir) == Ok(fs');
      RemoveDirWellFormed(fs, dir);
      var parent := dir[..|dir| - 1];
      assert r == Cleanup(fs', parent, stop);
      assert parent in fs'.dirs by {
        assert parent in fs.dirs;
      }
      CleanupSpec(fs', parent, stop);
      forall q | q in fs.dirs && q !in r.dirs
        ensures IsPrefix(q, dir) && |stop| < |q| && (forall x | Exists(r, x) :: !IsPrefix(q, x))
      {
        if q == dir {
          forall x | Exists(r, x) ensures !IsPrefix(q, x) {
            if IsPrefix(q, x) && x != dir {
              EmptyDirHasNothingBelow(fs, dir, x);
            }
          }
        } else {
          assert q !in Cleanup(fs', parent, stop).dirs;
          assert dir[..|parent|] == parent;
        }
      }
      forall q | q in r.dirs && IsPrefix(q, dir) && |stop| < |q| ensures Entries(r, q) != {} {
        assert q != dir;
        assert IsPrefix(q, parent);
      }
    }
  }
}
