/** The two passes of `Upgrade` that change the installation: copying the release over it,
    entry by entry, and deleting what the release no longer has. Both stop at the first
    failure and keep what was done before it. */
module Apply {
  import opened Paths
  import opened FileSystem
  import opened Removal

  /** Whether a pass got through, and the filesystem as it left it. */
  datatype Step = Step(ok: bool, fs: Node)

  /** `copy` can create a file at `p`: nothing is there and its parent is a directory. */
  predicate CanCreate(fs: Node, p: string) {
    Absolute(p) && Split(p) != [] && Lookup(fs, p).None? && DirsAbove(fs, Split(p))
  }

  /** Bring the installation path `dir + rel` in line with the release path `stage + rel`.
      A release directory is created with `mkdir -p` unless a directory is already there; a
      release file overwrites a file in place, or is copied to a free path; anything else
      is left alone. `faults` are the paths that cannot be read, written or created. */
  function ApplyEntry(fs: Node, dir: string, stage: string, rel: string, faults: set<string>): Step {
    var releasePath := stage + rel;
    var sourcePath := dir + rel;
    match Lookup(fs, releasePath)
    case None => Step(true, fs)
    case Some(Dir(_)) =>
      if IsDirAt(fs, sourcePath) then Step(true, fs)
      else if sourcePath in faults || !Absolute(sourcePath) then Step(false, fs)
      else
        (match MakeDirs(fs, Split(sourcePath))
         case None => Step(false, fs)
         case Some(made) => Step(true, made))
    case Some(File(data)) =>
      if IsFileAt(fs, sourcePath) then
        if releasePath in faults || sourcePath in faults then Step(false, fs)
        else Step(true, Set(fs, Split(sourcePath), Some(File(data))))
      else if releasePath in faults || sourcePath in faults || !CanCreate(fs, sourcePath) then
        Step(false, fs)
      else Step(true, Set(fs, Split(sourcePath), Some(File(data))))
  }

  /** The copy pass over the release's relative paths, in listing order. */
  function ApplyAll(fs: Node, dir: string, stage: string, rels: seq<string>, faults: set<string>): Step
    decreases |rels|
  {
    if rels == [] then Step(true, fs)
    else
      var s := ApplyEntry(fs, dir, stage, rels[0], faults);
      if !s.ok then s else ApplyAll(s.fs, dir, stage, rels[1..], faults)
  }

  /** The deletion pass over absolute paths, in order. */
  function DeleteAll(fs: Node, paths: seq<string>, faults: set<string>): Step
    decreases |paths|
  {
    if paths == [] then Step(true, fs)
    else
      var d := Delete(fs, paths[0], faults);
      if !d.0 then Step(false, d.1) else DeleteAll(d.1, paths[1..], faults)
  }

  /** Neither of two component lists lies at or below the other. */
  predicate Unrelated(a: seq<string>, b: seq<string>) {
    !(a <= b) && !(b <= a)
  }

  /** What the release has at a path is in place at the installation path: a directory
      where it has a directory, the same file where it has a file. */
  predicate Mirrors(release: Option<Node>, installed: Option<Node>) {
    && (IsDirNode(release) ==> IsDirNode(installed))
    && (IsFileNode(release) ==> installed == release)
  }

  /** No later installation path is at or above an earlier one (a top-down listing). */
  predicate Ordered(dir: string, rels: seq<string>) {
    forall i, j :: 0 <= i < j < |rels| ==> !(Split(dir + rels[j]) <= Split(dir + rels[i]))
  }

  /** No installation path is at, above or below a release path. */
  predicate Clear(dir: string, stage: string, rels: seq<string>) {
    forall i, j :: 0 <= i < |rels| && 0 <= j < |rels| ==> Unrelated(Split(dir + rels[i]), Split(stage + rels[j]))
  }

  // ---------------------------------------------------------------------------
  // One entry

  /** A failed step changes nothing; a successful one puts the release entry in place. */
  lemma ApplyEntryEffect(fs: Node, dir: string, stage: string, rel: string, faults: set<string>)
    ensures var s := ApplyEntry(fs, dir, stage, rel, faults);
      && (!s.ok ==> s.fs == fs)
      && (s.ok ==> Mirrors(Lookup(fs, stage + rel), Lookup(s.fs, dir + rel)))
  {
    var sp := dir + rel;
    var t := Split(sp);
    var s := ApplyEntry(fs, dir, stage, rel, faults);
    match Lookup(fs, stage + rel)
    case None =>
    case Some(Dir(_)) =>
      if !IsDirAt(fs, sp) && s.ok {
        MakeDirsGet(fs, t, t);
        assert t[|t|..] == [];
      }
    case Some(File(data)) =>
      if s.ok {
        if IsFileAt(fs, sp) {
          GetDirsAbove(fs, t);
        }
        GetSetBelow(fs, t, Some(File(data)), t);
        assert t[|t|..] == [];
      }
  }

  /** A step changes nothing but its own installation path and the directories above it:
      every path that is at or above no part of it, including whatever lies below it, is as
      it was (an existing directory is kept, `mkdir -p` only creates, a file has no children). */
  lemma ApplyEntryFrame(fs: Node, dir: string, stage: string, rel: string, faults: set<string>, r: seq<string>)
    requires !(r <= Split(dir + rel))
    ensures Get(ApplyEntry(fs, dir, stage, rel, faults).fs, r) == Get(fs, r)
  {
    var t := Split(dir + rel);
    if !(t <= r) {
      match Lookup(fs, stage + rel)
      case None =>
      case Some(Dir(_)) =>
        if MakeDirs(fs, t).Some? {
          MakeDirsGet(fs, t, r);
        }
      case Some(File(data)) =>
        GetSetFrame(fs, t, Some(File(data)), r);
    } else {
      ApplyEntryBelow(fs, dir, stage, rel, faults, r);
    }
  }

  /** Below its installation path a step changes nothing: a directory already there is kept,
      and what it creates (an empty directory or a file) has nothing below it, as before. */
  lemma ApplyEntryBelow(fs: Node, dir: string, stage: string, rel: string, faults: set<string>, r: seq<string>)
    requires Split(dir + rel) < r
    ensures Get(ApplyEntry(fs, dir, stage, rel, faults).fs, r) == Get(fs, r)
  {
    var sp := dir + rel;
    var t := Split(sp);
    var s := ApplyEntry(fs, dir, stage, rel, faults);
    match Lookup(fs, stage + rel)
    case None =>
    case Some(Dir(_)) =>
      if !IsDirAt(fs, sp) && s.ok {
        MakeDirsPre(fs, t, r);
        GetBelowNonDir(fs, t, r);
        MakeDirsGet(fs, t, r);
        assert r[|t|..] != [];
      }
    case Some(File(data)) =>
      if s.ok {
        if IsFileAt(fs, sp) {
          GetDirsAbove(fs, t);
        }
        GetBelowNonDir(fs, t, r);
        GetSetBelow(fs, t, Some(File(data)), r);
        assert r[|t|..] != [];
      }
  }

  /** A directory stays a directory unless the step's path is at or above it. */
  lemma ApplyEntryKeepsDirs(fs: Node, dir: string, stage: string, rel: string, faults: set<string>, r: seq<string>)
    requires IsDirNode(Get(fs, r)) && !(Split(dir + rel) <= r)
    ensures IsDirNode(Get(ApplyEntry(fs, dir, stage, rel, faults).fs, r))
  {
    var sp := dir + rel;
    var t := Split(sp);
    if r < t {
      match Lookup(fs, stage + rel)
      case None =>
      case Some(Dir(_)) =>
        if MakeDirs(fs, t).Some? {
          MakeDirsGet(fs, t, r);
        }
      case Some(File(data)) =>
        if IsFileAt(fs, sp) {
          GetDirsAbove(fs, t);
          GetSetAbove(fs, t, Some(File(data)), r);
        } else if CanCreate(fs, sp) {
          GetSetAbove(fs, t, Some(File(data)), r);
        }
    } else {
      ApplyEntryFrame(fs, dir, stage, rel, faults, r);
    }
  }

  /** Nothing can be created below a file: a step whose path lies below one fails or does nothing. */
  lemma ApplyEntryBelowFile(fs: Node, dir: string, stage: string, rel: string, faults: set<string>, r: seq<string>)
    requires IsFileNode(Get(fs, r)) && r < Split(dir + rel)
    ensures var s := ApplyEntry(fs, dir, stage, rel, faults); !s.ok || s.fs == fs
  {
    var sp := dir + rel;
    var t := Split(sp);
    GetBelowNonDir(fs, r, t);
    if MakeDirs(fs, t).Some? {
      MakeDirsPre(fs, t, r);
    }
    if DirsAbove(fs, t) {
      DirsAboveDir(fs, t, r);
    }
  }

  // ---------------------------------------------------------------------------
  // The copy pass

  /** The copy pass leaves every path that is at or above none of its installation paths as
      it was: in particular, what the installation alone has below a release directory. */
  lemma {:induction false} ApplyAllFrame(fs: Node, dir: string, stage: string, rels: seq<string>, faults: set<string>, r: seq<string>)
    requires forall i :: 0 <= i < |rels| ==> !(r <= Split(dir + rels[i]))
    ensures Get(ApplyAll(fs, dir, stage, rels, faults).fs, r) == Get(fs, r)
    decreases |rels|
  {
    if rels != [] {
      ApplyEntryFrame(fs, dir, stage, rels[0], faults, r);
      var s := ApplyEntry(fs, dir, stage, rels[0], faults);
      if s.ok {
        ApplyAllFrame(s.fs, dir, stage, rels[1..], faults, r);
      }
    }
  }

  /** What a step put in place at `t` survives every later step whose path is not at or above `t`. */
  lemma {:induction false} ApplyAllKeeps(fs: Node, dir: string, stage: string, rels: seq<string>, faults: set<string>,
                                         t: seq<string>, release: Option<Node>)
    requires Mirrors(release, Get(fs, t))
    requires forall i :: 0 <= i < |rels| ==> !(Split(dir + rels[i]) <= t)
    requires ApplyAll(fs, dir, stage, rels, faults).ok
    ensures Mirrors(release, Get(ApplyAll(fs, dir, stage, rels, faults).fs, t))
    decreases |rels|
  {
    if rels != [] {
      var s := ApplyEntry(fs, dir, stage, rels[0], faults);
      var t0 := Split(dir + rels[0]);
      if IsDirNode(release) {
        ApplyEntryKeepsDirs(fs, dir, stage, rels[0], faults, t);
      }
      if IsFileNode(release) {
        if t < t0 {
          ApplyEntryBelowFile(fs, dir, stage, rels[0], faults, t);
        } else {
          ApplyEntryFrame(fs, dir, stage, rels[0], faults, t);
        }
      }
      ApplyAllKeeps(s.fs, dir, stage, rels[1..], faults, t, release);
    }
  }

  /** After a successful copy pass over a top-down listing whose installation paths stay clear
      of the release, every release directory exists in the installation and every release
      file is there with the release's content. */
  lemma {:induction false} ApplyAllEffect(fs: Node, dir: string, stage: string, rels: seq<string>, faults: set<string>, i: nat)
    requires Absolute(dir) && Absolute(stage)
    requires Ordered(dir, rels) && Clear(dir, stage, rels)
    requires ApplyAll(fs, dir, stage, rels, faults).ok && i < |rels|
    ensures Mirrors(Lookup(fs, stage + rels[i]), Lookup(ApplyAll(fs, dir, stage, rels, faults).fs, dir + rels[i]))
    decreases |rels|
  {
    var s := ApplyEntry(fs, dir, stage, rels[0], faults);
    var t0 := Split(dir + rels[0]);
    assert Absolute(dir + rels[i]) && Absolute(stage + rels[i]);
    if i == 0 {
      ApplyEntryEffect(fs, dir, stage, rels[0], faults);
      assert Absolute(dir + rels[0]);
      forall j | 0 <= j < |rels[1..]|
        ensures !(Split(dir + rels[1..][j]) <= t0)
      {
        assert rels[1..][j] == rels[j + 1];
      }
      ApplyAllKeeps(s.fs, dir, stage, rels[1..], faults, t0, Lookup(fs, stage + rels[0]));
    } else {
      assert Ordered(dir, rels[1..]) && Clear(dir, stage, rels[1..]) by {
        forall j | 0 <= j < |rels[1..]|
          ensures rels[1..][j] == rels[j + 1]
        {
        }
      }
      assert rels[1..][i - 1] == rels[i];
      ApplyAllEffect(s.fs, dir, stage, rels[1..], faults, i - 1);
      ApplyEntryFrame(fs, dir, stage, rels[0], faults, Split(stage + rels[i]));
    }
  }

  // ---------------------------------------------------------------------------
  // The deletion pass

  /** A successful `Delete` removes the entry and brings nothing into existence. */
  lemma DeleteRemoves(fs: Node, p: string, faults: set<string>, r: seq<string>)
    requires Delete(fs, p, faults).0
    ensures Delete(fs, p, faults).1 == Set(fs, Split(p), None)
    ensures Get(fs, r) == None ==> Get(Delete(fs, p, faults).1, r) == None
  {
    DeleteNodeRest(p, Lookup(fs, p).value, if Split(p) == [] then faults + {p} else faults);
    if Get(fs, r) == None {
      GetSetNone(fs, Split(p), r);
    }
  }

  lemma {:induction false} DeleteAllKeepsAbsent(fs: Node, paths: seq<string>, faults: set<string>, r: seq<string>)
    requires DeleteAll(fs, paths, faults).ok && Get(fs, r) == None
    ensures Get(DeleteAll(fs, paths, faults).fs, r) == None
    decreases |paths|
  {
    if paths != [] {
      DeleteRemoves(fs, paths[0], faults, r);
      DeleteAllKeepsAbsent(Delete(fs, paths[0], faults).1, paths[1..], faults, r);
    }
  }

  /** After a successful deletion pass, none of its paths exists. */
  lemma {:induction false} DeleteAllEffect(fs: Node, paths: seq<string>, faults: set<string>, i: nat)
    requires DeleteAll(fs, paths, faults).ok && i < |paths|
    ensures Lookup(DeleteAll(fs, paths, faults).fs, paths[i]) == None
    decreases |paths|
  {
    var d := Delete(fs, paths[0], faults);
    if i == 0 {
      DeleteEffect(fs, paths[0], faults, []);
      DeleteAllKeepsAbsent(d.1, paths[1..], faults, Split(paths[0]));
    } else {
      assert paths[1..][i - 1] == paths[i];
      DeleteAllEffect(d.1, paths[1..], faults, i - 1);
    }
  }

  /** What is in place at `t` survives a successful deletion pass none of whose paths is at or above `t`. */
  lemma {:induction false} DeleteAllKeeps(fs: Node, paths: seq<string>, faults: set<string>,
                                          t: seq<string>, release: Option<Node>)
    requires Mirrors(release, Get(fs, t))
    requires forall i :: 0 <= i < |paths| ==> !(Split(paths[i]) <= t)
    requires DeleteAll(fs, paths, faults).ok
    ensures Mirrors(release, Get(DeleteAll(fs, paths, faults).fs, t))
    decreases |paths|
  {
    if paths != [] {
      var q := Split(paths[0]);
      DeleteRemoves(fs, paths[0], faults, t);
      if t < q {
        GetDirsAbove(fs, q);
        DirsAboveDir(fs, q, t);
        GetSetAbove(fs, q, None, t);
      } else {
        GetSetFrame(fs, q, None, t);
      }
      DeleteAllKeeps(Delete(fs, paths[0], faults).1, paths[1..], faults, t, release);
    }
  }

  /** The deletion pass leaves every path unrelated to all of its paths as it was. */
  lemma {:induction false} DeleteAllFrame(fs: Node, paths: seq<string>, faults: set<string>, r: seq<string>)
    requires forall i :: 0 <= i < |paths| ==> Unrelated(Split(paths[i]), r)
    ensures Get(DeleteAll(fs, paths, faults).fs, r) == Get(fs, r)
    decreases |paths|
  {
    if paths != [] {
      DeleteEffect(fs, paths[0], faults, r);
      var d := Delete(fs, paths[0], faults);
      if d.0 {
        DeleteAllFrame(d.1, paths[1..], faults, r);
      }
    }
  }

  /** The copy pass stops at its first failing entry: everything before it went through,
      and the filesystem is as that prefix left it, so no later entry is applied. */
  predicate ApplyStopsAt(fs: Node, dir: string, stage: string, rels: seq<string>, faults: set<string>, i: nat)
    requires i < |rels|
  {
    var before := ApplyAll(fs, dir, stage, rels[..i], faults);
    && before.ok
    && !ApplyEntry(before.fs, dir, stage, rels[i], faults).ok
    && ApplyAll(fs, dir, stage, rels, faults).fs == before.fs
  }

  lemma {:induction false} ApplyAllFailFast(fs: Node, dir: string, stage: string, rels: seq<string>, faults: set<string>)
    requires !ApplyAll(fs, dir, stage, rels, faults).ok
    ensures exists i :: 0 <= i < |rels| && ApplyStopsAt(fs, dir, stage, rels, faults, i)
    decreases |rels|
  {
    var s := ApplyEntry(fs, dir, stage, rels[0], faults);
    if !s.ok {
      ApplyEntryEffect(fs, dir, stage, rels[0], faults);
      assert rels[..0] == [];
      assert ApplyStopsAt(fs, dir, stage, rels, faults, 0);
    } else {
      ApplyAllFailFast(s.fs, dir, stage, rels[1..], faults);
      var i :| 0 <= i < |rels[1..]| && ApplyStopsAt(s.fs, dir, stage, rels[1..], faults, i);
      assert rels[..i + 1][0] == rels[0] && rels[..i + 1][1..] == rels[1..][..i];
      assert rels[1..][i] == rels[i + 1];
      assert ApplyStopsAt(fs, dir, stage, rels, faults, i + 1);
    }
  }

  /** The deletion pass stops at its first failing path: everything before it was removed,
      and the filesystem is what that failed attempt left. */
  predicate DeleteStopsAt(fs: Node, paths: seq<string>, faults: set<string>, i: nat)
    requires i < |paths|
  {
    var before := DeleteAll(fs, paths[..i], faults);
    var d := Delete(before.fs, paths[i], faults);
    && before.ok
    && !d.0
    && DeleteAll(fs, paths, faults).fs == d.1
  }

  lemma {:induction false} DeleteAllFailFast(fs: Node, paths: seq<string>, faults: set<string>)
    requires !DeleteAll(fs, paths, faults).ok
    ensures exists i :: 0 <= i < |paths| && DeleteStopsAt(fs, paths, faults, i)
    decreases |paths|
  {
    var d := Delete(fs, paths[0], faults);
    if !d.0 {
      assert paths[..0] == [];
      assert DeleteStopsAt(fs, paths, faults, 0);
    } else {
      DeleteAllFailFast(d.1, paths[1..], faults);
      var i :| 0 <= i < |paths[1..]| && DeleteStopsAt(d.1, paths[1..], faults, i);
      assert paths[..i + 1][0] == paths[0] && paths[..i + 1][1..] == paths[1..][..i];
      assert paths[1..][i] == paths[i + 1];
      assert DeleteStopsAt(fs, paths, faults, i + 1);
    }
  }
}
