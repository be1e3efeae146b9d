/** `MapPath`: the depth-first listing of a directory tree with path and filename exclusions. */
module PathMap {
  import opened Paths
  import opened FileSystem

  /** The `['path' => …, 'filename' => …]` exclusion array. */
  datatype Exclusions = Exclusions(paths: seq<string>, filenames: seq<string>)

  /** The path filter: with both sides '/'-terminated, `p` starts with an excluded path. */
  predicate Excluded(p: string, paths: seq<string>) {
    exists e :: e in paths && StartsWith(WithSlash(p), WithSlash(e))
  }

  /** The walk below the node `n` found at `path`. A file is listed unless its basename is an
      excluded filename; a directory contributes its entries, in enumeration order. */
  function Walk(path: string, n: Node, ex: Exclusions): seq<string>
    decreases n
  {
    match n
    case File(_) => if |ex.filenames| > 0 && Basename(path) in ex.filenames then [] else [path]
    case Dir(es) => WalkEntries(path, es, ex)
  }

  function WalkEntries(path: string, es: seq<Entry>, ex: Exclusions): seq<string>
    decreases es
  {
    if es == [] then [] else VisitEntry(path, es[0], ex) + WalkEntries(path, es[1..], ex)
  }

  /** One entry of a scanned directory: dropped when its path is excluded; otherwise a
      directory is listed before the walk descends into it, and a file is left to `Walk`. */
  function VisitEntry(path: string, e: Entry, ex: Exclusions): seq<string>
    decreases e
  {
    var child := path + "/" + e.name;
    if |ex.paths| > 0 && Excluded(child, ex.paths) then []
    else
      var kept := if |ex.paths| > 0 then TrimSlashes(WithSlash(child)) else child;
      (if e.node.Dir? then [kept] else []) + Walk(kept, e.node, ex)
  }

  /** `MapPath($path, $exclude)` started with an empty list. */
  function MapPath(fs: Node, path: string, ex: Exclusions): seq<string> {
    match Lookup(fs, path)
    case Some(n) => Walk(path, n, ex)
    case None => []
  }

  /** The entry at the components `q` below the walked directory is one the walk reports: it
      exists, neither it nor any directory between it and the start is path-excluded, and if
      it is a file its basename is not an excluded filename. */
  predicate Listed(path: string, n: Node, ex: Exclusions, q: seq<string>) {
    && q != []
    && Get(n, q).Some?
    && Visible(path, q, ex.paths)
    && (Get(n, q).value.File? ==> Basename(path + Join(q)) !in ex.filenames)
  }

  /** No directory on the way from `path` down to the components `q`, nor `q` itself, is excluded. */
  predicate Visible(path: string, q: seq<string>, paths: seq<string>) {
    forall k :: 1 <= k <= |q| ==> !Excluded(path + Join(q[..k]), paths)
  }

  /** `x` is `p + "/" + a` or lies below it. */
  predicate Under(x: string, p: string, a: string) {
    var base := p + "/" + a;
    StartsWith(x, base) && (|x| == |base| || x[|base|] == '/')
  }

  /** Entries are distinct, and no entry is followed by one of its ancestors. */
  predicate TopDown(out: seq<string>) {
    forall i, j :: 0 <= i < j < |out| ==> out[i] != out[j] && !StartsWith(out[i], out[j] + "/")
  }

  // ---------------------------------------------------------------------------
  // Path-string lemmas

  /** A path lies below at most one entry of a directory. */
  lemma UnderUnique(x: string, p: string, a: string, b: string)
    requires '/' !in a && '/' !in b
    requires Under(x, p, a) && Under(x, p, b)
    ensures a == b
  {
    var base := |p| + 1;
    assert x[..base] == p + "/";
    if |a| == |b| {
      assert a == (p + "/" + a)[base..] == x[base..base + |a|] == (p + "/" + b)[base..] == b;
    }
  }

  /** Whatever lies below a path that lies below `p + "/" + a` lies below it too. */
  lemma UnderExtend(x: string, y: string, p: string, a: string)
    requires Under(y, p, a) && StartsWith(x, y + "/")
    ensures Under(x, p, a)
  {
    var base := p + "/" + a;
    assert x[..|y|] == y;
    assert x[|y|] == '/';
    assert x[..|base|] == y[..|base|];
  }

  lemma ChildNotTrailing(p: string, a: string)
    requires a != "" && '/' !in a
    ensures Under(p + "/" + a, p, a)
    ensures (p + "/" + a)[|p + "/" + a| - 1] != '/'
  {
    assert (p + "/" + a)[|p + "/" + a| - 1] == a[|a| - 1];
  }

  lemma TopDownConcat(a: seq<string>, b: seq<string>)
    requires TopDown(a) && TopDown(b)
    requires forall x, y :: x in a && y in b ==> x != y && !StartsWith(x, y + "/")
    ensures TopDown(a + b)
  {
    var ab := a + b;
    forall i, j | 0 <= i < j < |ab|
      ensures ab[i] != ab[j] && !StartsWith(ab[i], ab[j] + "/")
    {
      if j < |a| {
        assert ab[i] == a[i] && ab[j] == a[j];
      } else if i >= |a| {
        assert ab[i] == b[i - |a|] && ab[j] == b[j - |a|];
      } else {
        assert ab[i] in a && ab[j] in b;
      }
    }
  }

  // ---------------------------------------------------------------------------
  // Shape of the walk

  lemma KeptIsChild(path: string, e: Entry, ex: Exclusions)
    requires ValidName(e.name)
    ensures (if |ex.paths| > 0 then TrimSlashes(WithSlash(path + "/" + e.name)) else path + "/" + e.name)
      == path + "/" + e.name
  {
    TrimWithSlash(path, e.name);
  }

  /** The walk of a directory stays below it, in top-down order without repetition. */
  lemma {:induction false} WalkShape(path: string, n: Node, ex: Exclusions)
    requires WellFormed(n)
    ensures TopDown(Walk(path, n, ex))
    ensures n.Dir? ==> forall x :: x in Walk(path, n, ex) ==> StartsWith(x, path + "/")
    ensures n.File? ==> forall x :: x in Walk(path, n, ex) ==> x == path
    decreases n
  {
    match n
    case File(_) =>
    case Dir(es) =>
      WalkEntriesShape(path, es, ex);
      forall x | x in Walk(path, n, ex)
        ensures StartsWith(x, path + "/")
      {
        var i :| 0 <= i < |es| && Under(x, path, es[i].name);
      }
  }

  lemma {:induction false} WalkEntriesShape(path: string, es: seq<Entry>, ex: Exclusions)
    requires WellFormed(Dir(es))
    ensures TopDown(WalkEntries(path, es, ex))
    ensures forall x :: x in WalkEntries(path, es, ex) ==> exists i :: 0 <= i < |es| && Under(x, path, es[i].name)
    decreases es
  {
    if es != [] {
      assert WellFormed(Dir(es[1..]));
      VisitEntryShape(path, es[0], ex);
      WalkEntriesShape(path, es[1..], ex);
      ConsShape(path, es, VisitEntry(path, es[0], ex), WalkEntries(path, es[1..], ex));
    }
  }

  /** The listing of the first entry followed by the listing of the others keeps the
      walk's shape. */
  lemma ConsShape(path: string, es: seq<Entry>, h: seq<string>, r: seq<string>)
    requires WellFormed(Dir(es)) && es != []
    requires TopDown(h) && TopDown(r)
    requires forall x :: x in h ==> Under(x, path, es[0].name)
    requires forall y :: y in r ==> exists j :: 0 <= j < |es[1..]| && Under(y, path, es[1..][j].name)
    ensures TopDown(h + r)
    ensures forall x :: x in h + r ==> exists i :: 0 <= i < |es| && Under(x, path, es[i].name)
  {
    forall x, y | x in h && y in r
      ensures x != y && !StartsWith(x, y + "/")
    {
      var j :| 0 <= j < |es[1..]| && Under(y, path, es[1..][j].name);
      assert es[1..][j] == es[j + 1];
      UnderApart(x, y, path, es, j + 1);
    }
    TopDownConcat(h, r);
    UnderCons(path, es, h, r);
  }

  /** What lies below the first entry or below one of the others lies below some entry. */
  lemma UnderCons(path: string, es: seq<Entry>, h: seq<string>, r: seq<string>)
    requires es != []
    requires forall x :: x in h ==> Under(x, path, es[0].name)
    requires forall y :: y in r ==> exists j :: 0 <= j < |es[1..]| && Under(y, path, es[1..][j].name)
    ensures forall x :: x in h + r ==> exists i :: 0 <= i < |es| && Under(x, path, es[i].name)
  {
    forall x | x in h + r
      ensures exists i :: 0 <= i < |es| && Under(x, path, es[i].name)
    {
      if x in h {
        assert Under(x, path, es[0].name);
      } else {
        var j :| 0 <= j < |es[1..]| && Under(x, path, es[1..][j].name);
        assert es[1..][j] == es[j + 1];
      }
    }
  }

  /** Paths below two different entries of a directory are distinct and unrelated. */
  lemma UnderApart(x: string, y: string, path: string, es: seq<Entry>, j: nat)
    requires WellFormed(Dir(es)) && 0 < j < |es|
    requires Under(x, path, es[0].name) && Under(y, path, es[j].name)
    ensures x != y && !StartsWith(x, y + "/")
  {
    assert es[0].name != es[j].name;
    if x == y {
      UnderUnique(x, path, es[0].name, es[j].name);
    }
    if StartsWith(x, y + "/") {
      UnderExtend(x, y, path, es[j].name);
      UnderUnique(x, path, es[0].name, es[j].name);
    }
  }

  lemma {:induction false} VisitEntryShape(path: string, e: Entry, ex: Exclusions)
    requires ValidName(e.name) && WellFormed(e.node)
    ensures TopDown(VisitEntry(path, e, ex))
    ensures forall x :: x in VisitEntry(path, e, ex) ==> Under(x, path, e.name)
    decreases e
  {
    var child := path + "/" + e.name;
    KeptIsChild(path, e, ex);
    ChildNotTrailing(path, e.name);
    if !(|ex.paths| > 0 && Excluded(child, ex.paths)) {
      WalkShape(child, e.node, ex);
      var w := Walk(child, e.node, ex);
      forall x | x in w
        ensures Under(x, path, e.name)
      {
        if e.node.Dir? {
          UnderExtend(x, child, path, e.name);
        }
      }
      if e.node.Dir? {
        TopDownConcat([child], w);
      }
    }
  }

  // ---------------------------------------------------------------------------
  // What the walk lists

  /** A non-empty entry list lists its head entry, then the rest. */
  lemma WalkEntriesCons(path: string, es: seq<Entry>, ex: Exclusions)
    requires es != []
    ensures WalkEntries(path, es, ex) == VisitEntry(path, es[0], ex) + WalkEntries(path, es[1..], ex)
  {
  }

  /** Membership in a concatenation is membership in one of its parts. */
  lemma InConcat<T>(a: seq<T>, b: seq<T>, x: T)
    ensures x in a + b <==> x in a || x in b
  {
    if x in b {
      var k :| 0 <= k < |b| && b[k] == x;
      assert (a + b)[|a| + k] == x;
    }
  }

  lemma {:induction false} WalkEntriesMember(path: string, es: seq<Entry>, ex: Exclusions, x: string)
    requires x in WalkEntries(path, es, ex)
    ensures exists i :: 0 <= i < |es| && x in VisitEntry(path, es[i], ex)
    decreases |es|
  {
    WalkEntriesCons(path, es, ex);
    InConcat(VisitEntry(path, es[0], ex), WalkEntries(path, es[1..], ex), x);
    if x !in VisitEntry(path, es[0], ex) {
      WalkEntriesMember(path, es[1..], ex, x);
      var i :| 0 <= i < |es[1..]| && x in VisitEntry(path, es[1..][i], ex);
      assert es[1..][i] == es[i + 1];
    }
  }

  lemma {:induction false} WalkEntriesIncludes(path: string, es: seq<Entry>, ex: Exclusions, i: nat, x: string)
    requires i < |es| && x in VisitEntry(path, es[i], ex)
    ensures x in WalkEntries(path, es, ex)
    decreases i
  {
    WalkEntriesCons(path, es, ex);
    if i > 0 {
      assert es[1..][i - 1] == es[i];
      WalkEntriesIncludes(path, es[1..], ex, i - 1, x);
    }
    InConcat(VisitEntry(path, es[0], ex), WalkEntries(path, es[1..], ex), x);
  }

  lemma JoinPrefix(a: string, q: seq<string>, k: nat)
    requires 1 <= k <= |q| + 1
    ensures Join(([a] + q)[..k]) == "/" + a + Join(q[..k - 1])
  {
    assert ([a] + q)[..k][1..] == q[..k - 1];
  }

  lemma VisibleCons(path: string, a: string, q': seq<string>, paths: seq<string>)
    ensures Visible(path, [a] + q', paths) <==>
      !Excluded(path + "/" + a, paths) && Visible(path + "/" + a, q', paths)
  {
    var q := [a] + q';
    var child := path + "/" + a;
    JoinPrefix(a, q', 1);
    assert q'[..0] == [];
    assert path + Join(q[..1]) == child;
    forall k | 1 <= k <= |q'|
      ensures path + Join(q[..k + 1]) == child + Join(q'[..k])
    {
      JoinPrefix(a, q', k + 1);
    }
    if !Excluded(child, paths) && Visible(child, q', paths) {
      forall k | 1 <= k <= |q|
        ensures !Excluded(path + Join(q[..k]), paths)
      {
        if k > 1 {
          assert path + Join(q[..(k - 1) + 1]) == child + Join(q'[..k - 1]);
        }
      }
    }
  }

  /** A visible entry of a directory is `Listed` by itself. */
  lemma ListedEntry(path: string, n: Node, ex: Exclusions, a: string)
    requires n.Dir? && Child(n.entries, a).Some?
    requires !Excluded(path + "/" + a, ex.paths)
    requires Child(n.entries, a).value.File? ==> Basename(path + "/" + a) !in ex.filenames
    ensures path + Join([a]) == path + "/" + a
    ensures Listed(path, n, ex, [a])
  {
    JoinCons(path, a, []);
    GetCons(n, a, []);
    VisibleCons(path, a, [], ex.paths);
    assert [a] + [] == [a];
  }

  /** A `Listed` entry below a visible child directory is `Listed` below the parent, and back. */
  lemma ListedCons(path: string, n: Node, ex: Exclusions, a: string, q': seq<string>)
    requires n.Dir? && Child(n.entries, a).Some? && q' != []
    ensures path + Join([a] + q') == path + "/" + a + Join(q')
    ensures Listed(path, n, ex, [a] + q') <==>
      !Excluded(path + "/" + a, ex.paths) && Listed(path + "/" + a, Child(n.entries, a).value, ex, q')
  {
    JoinCons(path, a, q');
    GetCons(n, a, q');
    VisibleCons(path, a, q', ex.paths);
  }

  /** What one entry's visit can list: the entry itself, `Listed` on its own, or something
      from the walk below the (directory) entry. */
  lemma VisitEntryCases(path: string, n: Node, ex: Exclusions, i: nat, x: string)
    requires WellFormed(n) && n.Dir? && i < |n.entries| && x in VisitEntry(path, n.entries[i], ex)
    ensures var a := n.entries[i].name; var c := n.entries[i].node; var child := path + "/" + a;
      && Child(n.entries, a) == Some(c)
      && (x == child ==> Listed(path, n, ex, [a]) && x == path + Join([a]))
      && (x != child ==> c.Dir? && WellFormed(c) && x in Walk(child, c, ex) && !Excluded(child, ex.paths))
  {
    var es := n.entries;
    var a := es[i].name;
    var c := es[i].node;
    var child := path + "/" + a;
    ChildOfEntry(es, i);
    KeptIsChild(path, es[i], ex);
    assert !Excluded(child, ex.paths);
    assert x in (if c.Dir? then [child] else []) + Walk(child, c, ex);
    if x == child {
      assert c.File? ==> Basename(path + "/" + a) !in ex.filenames;
      ListedEntry(path, n, ex, a);
    } else {
      assert x in Walk(child, c, ex);
      assert c.Dir?;
      assert WellFormed(c);
    }
  }

  /** Everything a directory's walk lists is a `Listed` entry below it. */
  lemma {:induction false} WalkSound(path: string, n: Node, ex: Exclusions, x: string)
    requires WellFormed(n) && n.Dir? && x in Walk(path, n, ex)
    ensures exists q :: x == path + Join(q) && Listed(path, n, ex, q)
    decreases n
  {
    var es := n.entries;
    WalkEntriesMember(path, es, ex, x);
    var i :| 0 <= i < |es| && x in VisitEntry(path, es[i], ex);
    var a := es[i].name;
    var c := es[i].node;
    var child := path + "/" + a;
    VisitEntryCases(path, n, ex, i, x);
    if x != child {
      WalkSound(child, c, ex, x);
      var q' :| x == child + Join(q') && Listed(child, c, ex, q');
      ListedCons(path, n, ex, a, q');
      assert x == path + Join([a] + q');
    }
  }

  /** Every `Listed` entry below a directory is in its walk. */
  lemma {:induction false} WalkComplete(path: string, n: Node, ex: Exclusions, q: seq<string>)
    requires WellFormed(n) && n.Dir? && Listed(path, n, ex, q)
    ensures path + Join(q) in Walk(path, n, ex)
    decreases n
  {
    var es := n.entries;
    var a := q[0];
    var c := Child(es, a).value;
    var i :| 0 <= i < |es| && es[i] == Entry(a, c);
    var child := path + "/" + a;
    var q' := q[1..];
    assert q == [a] + q';
    KeptIsChild(path, es[i], ex);
    VisibleCons(path, a, q', ex.paths);
    JoinCons(path, a, q');
    var x := path + Join(q);
    GetCons(n, a, q');
    if q' == [] {
      assert x == child;
      ListedEntry(path, n, ex, a);
      assert x in VisitEntry(path, es[i], ex);
    } else {
      ListedCons(path, n, ex, a, q');
      assert c.Dir?;
      WalkComplete(child, c, ex, q');
      assert x in VisitEntry(path, es[i], ex);
    }
    WalkEntriesIncludes(path, es, ex, i, x);
  }

  /** A path built from a root and components names the node those components reach. */
  lemma LookupJoin(fs: Node, root: string, q: seq<string>)
    requires Absolute(root) && Lookup(fs, root).Some?
    requires forall i :: 0 <= i < |q| ==> q[i] != "" && '/' !in q[i]
    ensures Absolute(root + Join(q))
    ensures Lookup(fs, root + Join(q)) == Get(Lookup(fs, root).value, q)
  {
    SplitJoin(q);
    SplitConcat(root, Join(q));
    GetConcat(fs, Split(root), q);
  }

  lemma ListedNames(path: string, n: Node, ex: Exclusions, q: seq<string>)
    requires WellFormed(n) && Get(n, q).Some?
    ensures ValidNames(q)
  {
    if q != [] {
      ChildWellFormed(n.entries, q[0]);
      ListedNames(path, Child(n.entries, q[0]).value, ex, q[1..]);
    }
  }

  lemma JoinNotTrailing(q: seq<string>)
    requires q != [] && ValidNames(q)
    ensures |Join(q)| > 0 && Join(q)[|Join(q)| - 1] != '/'
  {
    if |q| == 1 {
      assert Join(q) == "/" + q[0];
    } else {
      JoinNotTrailing(q[1..]);
      assert Join(q) == "/" + q[0] + Join(q[1..]);
    }
  }

  // ---------------------------------------------------------------------------
  // MapPath

  /** The listing of a directory is exactly its `Listed` entries, each spelled as the root
      followed by its components. */
  lemma MapPathExactly(fs: Node, root: string, ex: Exclusions, x: string)
    requires WellFormed(fs) && IsDirAt(fs, root)
    ensures x in MapPath(fs, root, ex) <==>
      exists q :: x == root + Join(q) && Listed(root, Lookup(fs, root).value, ex, q)
  {
    var n := Lookup(fs, root).value;
    GetWellFormed(fs, Split(root));
    if x in MapPath(fs, root, ex) {
      WalkSound(root, n, ex, x);
    }
    if exists q :: x == root + Join(q) && Listed(root, n, ex, q) {
      var q :| x == root + Join(q) && Listed(root, n, ex, q);
      WalkComplete(root, n, ex, q);
    }
  }

  /** What every listed path satisfies: it lies strictly below the start, it is not
      path-excluded, it has no trailing '/', it exists, and a listed file's basename is not an
      excluded filename. */
  lemma MapPathSound(fs: Node, root: string, ex: Exclusions, x: string)
    requires WellFormed(fs) && IsDirAt(fs, root)
    requires x in MapPath(fs, root, ex)
    ensures StartsWith(x, root + "/") && x != root
    ensures !Excluded(x, ex.paths)
    ensures x[|x| - 1] != '/'
    ensures Lookup(fs, x).Some?
    ensures IsFileAt(fs, x) ==> Basename(x) !in ex.filenames
  {
    MapPathExactly(fs, root, ex, x);
    var n := Lookup(fs, root).value;
    var q :| x == root + Join(q) && Listed(root, n, ex, q);
    GetWellFormed(fs, Split(root));
    ListedNames(root, n, ex, q);
    LookupJoin(fs, root, q);
    JoinNotTrailing(q);
    assert q[..|q|] == q;
    RootedJoin(root, q);
  }

  /** Every directory the exclusions leave reachable is listed, whatever the filename
      exclusions say. */
  lemma MapPathKeepsDirectories(fs: Node, root: string, ex: Exclusions, q: seq<string>)
    requires WellFormed(fs) && IsDirAt(fs, root) && q != []
    requires IsDirNode(Get(Lookup(fs, root).value, q))
    requires forall k :: 1 <= k <= |q| ==> !Excluded(root + Join(q[..k]), ex.paths)
    ensures root + Join(q) in MapPath(fs, root, ex)
  {
    MapPathExactly(fs, root, ex, root + Join(q));
    assert Listed(root, Lookup(fs, root).value, ex, q);
  }

  /** The listing is top-down: no path twice, and every directory before everything below it. */
  lemma MapPathTopDown(fs: Node, root: string, ex: Exclusions)
    requires WellFormed(fs)
    ensures TopDown(MapPath(fs, root, ex))
  {
    if Lookup(fs, root).Some? {
      GetWellFormed(fs, Split(root));
      WalkShape(root, Lookup(fs, root).value, ex);
    }
  }
}
