/**
  The target directory of an installation as a tree of relative paths: a map from file path
  to contents plus the set of directories. Paths are sequences of segments; the target
  directory itself is the empty path and is never listed.
*/
module FileTree {
  import opened Wrappers

  type Path = seq<string>

  datatype Tree = Tree(files: map<Path, string>, dirs: set<Path>)

  datatype FsError =
    | IsADirectory(path: Path)   // a file write aimed at a directory
    | NotADirectory(path: Path)  // a path that runs through an existing file

  /** `a` names a directory strictly above `b`. */
  predicate StrictPrefix(a: Path, b: Path) {
    |a| < |b| && b[..|a|] == a
  }

  /** Every file and directory has all its ancestors as directories; no path is both. */
  predicate Valid(t: Tree) {
    && (forall f :: f in t.files ==> |f| > 0 && f !in t.dirs)
    && (forall d :: d in t.dirs ==> |d| > 0)
    && (forall f, i :: f in t.files && 0 < i < |f| ==> f[..i] in t.dirs)
    && (forall d, i :: d in t.dirs && 0 < i < |d| ==> d[..i] in t.dirs)
  }

  function Ancestors(p: Path): set<Path> {
    set i | 0 < i < |p| :: p[..i]
  }

  predicate ThroughFile(t: Tree, p: Path) {
    exists i :: 0 < i < |p| && p[..i] in t.files
  }

  lemma StrictPrefixTrans(a: Path, b: Path, c: Path)
    requires StrictPrefix(a, b) && StrictPrefix(b, c)
    ensures StrictPrefix(a, c)
  {
    assert c[..|b|][..|a|] == c[..|a|];
  }

  /** `fs.outputFile(p, c)`: write a file, creating the directories above it. */
  function WriteFile(t: Tree, p: Path, c: string): (r: Result<Tree, FsError>)
    requires |p| > 0
    ensures r.Success? <==> p !in t.dirs && !ThroughFile(t, p)
    ensures r.Success? ==> r.value.files == t.files[p := c] && t.dirs <= r.value.dirs
    ensures r.Success? ==> forall d :: d in r.value.dirs ==> d in t.dirs || StrictPrefix(d, p)
    ensures Valid(t) && r.Success? ==> Valid(r.value)
  {
    if p in t.dirs then Failure(IsADirectory(p))
    else if ThroughFile(t, p) then Failure(NotADirectory(p))
    else
      var r := Tree(t.files[p := c], t.dirs + Ancestors(p));
      assert forall d :: d in Ancestors(p) ==> StrictPrefix(d, p);
      if Valid(t) then
        assert forall d, i :: d in Ancestors(p) && 0 < i < |d| ==> d[..i] in Ancestors(p) by {
          forall d, i | d in Ancestors(p) && 0 < i < |d| ensures d[..i] in Ancestors(p) {
            assert d[..i] == p[..i];
          }
        }
        Success(r)
      else Success(r)
  }

  /** `fs.mkdirsSync(p)`: create a directory and the directories above it. */
  function Mkdirs(t: Tree, p: Path): (r: Result<Tree, FsError>)
    ensures r.Success? <==> p !in t.files && !ThroughFile(t, p)
    ensures r.Success? ==> r.value.files == t.files
    ensures r.Success? && |p| > 0 ==> p in r.value.dirs
    ensures r.Success? ==> forall d :: d in r.value.dirs <==> d in t.dirs || (|d| > 0 && (d == p || StrictPrefix(d, p)))
    ensures Valid(t) && r.Success? ==> Valid(r.value)
  {
    if p in t.files then Failure(NotADirectory(p))
    else if ThroughFile(t, p) then Failure(NotADirectory(p))
    else
      var added := if |p| == 0 then {} else Ancestors(p) + {p};
      var r := Tree(t.files, t.dirs + added);
      assert forall d :: d in Ancestors(p) <==> |d| > 0 && StrictPrefix(d, p) by {
        forall d | |d| > 0 && StrictPrefix(d, p) ensures d in Ancestors(p) {
          assert d == p[..|d|];
        }
      }
      if Valid(t) then
        assert forall d, i :: d in added && 0 < i < |d| ==> d[..i] in added by {
          forall d, i | d in added && 0 < i < |d| ensures d[..i] in added {
            assert d[..i] == p[..i];
          }
        }
        Success(r)
      else Success(r)
  }

  /** A directory with nothing below it, as `walkSync(dir).length === 0` reports. */
  predicate IsEmptyDir(t: Tree, d: Path) {
    && (forall f :: f in t.files ==> !StrictPrefix(d, f))
    && (forall e :: e in t.dirs ==> !StrictPrefix(d, e))
  }

  /**
    The pruning walk of `cleanRemove`: visit the ancestors of `p` from the deepest (`p[..k]`)
    to the shallowest and remove each one that is an empty directory at the time of the visit.
  */
  function Prune(t: Tree, p: Path, k: nat): Tree
    requires k < |p|
    decreases k
  {
    if k == 0 then t
    else
      var d := p[..k];
      var t' := if d in t.dirs && IsEmptyDir(t, d) then Tree(t.files, t.dirs - {d}) else t;
      Prune(t', p, k - 1)
  }

  /**
    `cleanRemove`: remove the file at `p` (nothing happens when there is none), then prune the
    directories above it that the removal left empty.
  */
  function CleanRemove(t: Tree, p: Path): Tree {
    if p !in t.files || |p| == 0 then t
    else Prune(Tree(t.files - {p}, t.dirs), p, |p| - 1)
  }

  /** Directory `d` still holds something once `p` is gone: a file other than `p`, or a
      directory that is not itself an ancestor of `p`. */
  ghost predicate Kept(files: set<Path>, dirs: set<Path>, p: Path, d: Path) {
    || (exists f :: f in files && StrictPrefix(d, f))
    || (exists e :: e in dirs && StrictPrefix(d, e) && !StrictPrefix(e, p))
  }

  /** The directories left after pruning the ancestors of `p` deeper than `k`. */
  ghost predicate SurvivesBelow(files: set<Path>, dirs: set<Path>, p: Path, k: nat, d: Path) {
    d in dirs && !(StrictPrefix(d, p) && |d| > k && !Kept(files, dirs, p, d))
  }

  lemma KeptUpward(files: set<Path>, dirs: set<Path>, p: Path, d: Path, e: Path)
    requires StrictPrefix(d, e) && Kept(files, dirs, p, e)
    ensures Kept(files, dirs, p, d)
  {
    if f :| f in files && StrictPrefix(e, f) {
      StrictPrefixTrans(d, e, f);
    } else {
      var g :| g in dirs && StrictPrefix(e, g) && !StrictPrefix(g, p);
      StrictPrefixTrans(d, e, g);
    }
  }

  /** One pruning step: the ancestor `p[..k]` is removed exactly when it is not kept. */
  lemma PruneStep(t: Tree, p: Path, k: nat, dirs: set<Path>)
    requires 0 < k < |p|
    requires forall d :: d in t.dirs <==> SurvivesBelow(t.files.Keys, dirs, p, k, d)
    ensures (p[..k] in t.dirs && IsEmptyDir(t, p[..k])) <==> (p[..k] in dirs && !Kept(t.files.Keys, dirs, p, p[..k]))
  {
    var d := p[..k];
    var fs := t.files.Keys;
    assert StrictPrefix(d, p);
    assert d in t.dirs <==> d in dirs;
    if d in dirs && Kept(fs, dirs, p, d) {
      if f :| f in fs && StrictPrefix(d, f) {
        assert !IsEmptyDir(t, d);
      } else {
        var e :| e in dirs && StrictPrefix(d, e) && !StrictPrefix(e, p);
        assert SurvivesBelow(fs, dirs, p, k, e);
        assert !IsEmptyDir(t, d);
      }
    }
    if d in dirs && !IsEmptyDir(t, d) {
      if f :| f in t.files && StrictPrefix(d, f) {
        assert Kept(fs, dirs, p, d);
      } else {
        var e :| e in t.dirs && StrictPrefix(d, e);
        assert SurvivesBelow(fs, dirs, p, k, e);
        if StrictPrefix(e, p) {
          assert |e| > k;
          assert Kept(fs, dirs, p, e);
          KeptUpward(fs, dirs, p, d, e);
        } else {
          assert Kept(fs, dirs, p, d);
        }
      }
    }
  }

  lemma {:induction false} PruneSpec(t: Tree, p: Path, k: nat, dirs: set<Path>)
    requires k < |p|
    requires forall d :: d in t.dirs <==> SurvivesBelow(t.files.Keys, dirs, p, k, d)
    ensures Prune(t, p, k).files == t.files
    ensures forall d :: d in Prune(t, p, k).dirs <==> SurvivesBelow(t.files.Keys, dirs, p, 0, d)
    decreases k
  {
    if k > 0 {
      var d := p[..k];
      PruneStep(t, p, k, dirs);
      var t' := if d in t.dirs && IsEmptyDir(t, d) then Tree(t.files, t.dirs - {d}) else t;
      forall e
        ensures e in t'.dirs <==> SurvivesBelow(t.files.Keys, dirs, p, k - 1, e)
      {
        if StrictPrefix(e, p) && |e| == k {
          assert e == d;
        }
      }
      PruneSpec(t', p, k - 1, dirs);
    }
  }

  /**
    What `cleanRemove` leaves: the file is gone and no other file changes; a directory that is
    not above the file stays; a directory above it stays exactly when something other than
    the file and its emptied ancestors remains below it.
  */
  lemma CleanRemoveSpec(t: Tree, p: Path)
    requires Valid(t) && p in t.files
    ensures CleanRemove(t, p).files == t.files - {p}
    ensures forall d :: d in CleanRemove(t, p).dirs <==>
      d in t.dirs && (!StrictPrefix(d, p) || Kept(t.files.Keys - {p}, t.dirs, p, d))
  {
    var t0 := Tree(t.files - {p}, t.dirs);
    assert t0.files.Keys == t.files.Keys - {p};
    forall d ensures d in t0.dirs <==> SurvivesBelow(t0.files.Keys, t.dirs, p, |p| - 1, d) {
      if d in t.dirs && StrictPrefix(d, p) {
        assert |d| <= |p| - 1;
      }
    }
    PruneSpec(t0, p, |p| - 1, t.dirs);
  }

  /** Removing a file keeps the tree well formed. */
  lemma CleanRemoveValid(t: Tree, p: Path)
    requires Valid(t)
    ensures Valid(CleanRemove(t, p))
  {
    if p in t.files {
      CleanRemoveSpec(t, p);
      var r := CleanRemove(t, p);
      var fs := t.files.Keys - {p};
      forall f, i | f in r.files && 0 < i < |f| ensures f[..i] in r.dirs {
        assert f[..i] in t.dirs;
        assert StrictPrefix(f[..i], f);
        assert Kept(fs, t.dirs, p, f[..i]);
      }
      forall e, i | e in r.dirs && 0 < i < |e| ensures e[..i] in r.dirs {
        var a := e[..i];
        assert a in t.dirs;
        assert StrictPrefix(a, e);
        if StrictPrefix(a, p) {
          if StrictPrefix(e, p) {
            KeptUpward(fs, t.dirs, p, a, e);
          } else {
            assert Kept(fs, t.dirs, p, a);
          }
        }
      }
    }
  }

  /** Removing `nested1/nested2/file.txt` from a tree holding only it leaves nothing behind. */
  lemma RemovesEmptyFolders()
    ensures CleanRemove(Tree(map[["nested1", "nested2", "file.txt"] := ""],
                             {["nested1"], ["nested1", "nested2"]}),
                        ["nested1", "nested2", "file.txt"])
            == Tree(map[], {})
  {
    var p := ["nested1", "nested2", "file.txt"];
    var t := Tree(map[p := ""], {["nested1"], ["nested1", "nested2"]});
    assert Valid(t) by {
      forall f, i | f in t.files && 0 < i < |f| ensures f[..i] in t.dirs {
        assert f[..1] == ["nested1"] && f[..2] == ["nested1", "nested2"];
        assert i == 1 || i == 2;
      }
      forall d, i | d in t.dirs && 0 < i < |d| ensures d[..i] in t.dirs {
        assert i == 1 && d[..1] == ["nested1"];
      }
    }
    CleanRemoveSpec(t, p);
    var r := CleanRemove(t, p);
    assert r.files == map[];
    var fs := t.files.Keys - {p};
    assert fs == {};
    assert p[..1] == ["nested1"] && p[..2] == ["nested1", "nested2"];
    assert StrictPrefix(["nested1", "nested2"], p);
    assert !Kept(fs, t.dirs, p, ["nested1"]);
    assert !Kept(fs, t.dirs, p, ["nested1", "nested2"]);
    assert r.dirs == {};
  }

  /** A sibling file keeps the shared folders: only the removed file disappears. */
  lemma PreservesFilledFolders()
    ensures CleanRemove(Tree(map[["nested1", "nested2", "file.txt"] := "", ["nested1", "nested2", "file2.txt"] := ""],
                             {["nested1"], ["nested1", "nested2"]}),
                        ["nested1", "nested2", "file.txt"])
            == Tree(map[["nested1", "nested2", "file2.txt"] := ""], {["nested1"], ["nested1", "nested2"]})
  {
    var p := ["nested1", "nested2", "file.txt"];
    var q := ["nested1", "nested2", "file2.txt"];
    var t := Tree(map[p := "", q := ""], {["nested1"], ["nested1", "nested2"]});
    assert Valid(t) by {
      forall f, i | f in t.files && 0 < i < |f| ensures f[..i] in t.dirs {
        assert f[..1] == ["nested1"] && f[..2] == ["nested1", "nested2"];
        assert i == 1 || i == 2;
      }
      forall d, i | d in t.dirs && 0 < i < |d| ensures d[..i] in t.dirs {
        assert i == 1 && d[..1] == ["nested1"];
      }
    }
    CleanRemoveSpec(t, p);
    var r := CleanRemove(t, p);
    assert r.files == map[q := ""];
    assert StrictPrefix(["nested1"], q) && StrictPrefix(["nested1", "nested2"], q);
    assert r.dirs == t.dirs;
  }
}
