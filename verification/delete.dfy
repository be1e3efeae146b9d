/** `Delete`: remove a file, or a directory after all of its entries, depth first. */
module Removal {
  import opened Paths
  import opened FileSystem

  /** The outcome of deleting one node: whether it is gone, what is left of it otherwise, and
      the components (relative to the node) of every node removed, in removal order. */
  datatype Removal = Removal(removed: bool, rest: Option<Node>, trace: seq<seq<string>>)

  /** Each component list of `ts`, placed below the entry `a`. */
  function Prefixed(a: string, ts: seq<seq<string>>): (r: seq<seq<string>>)
    ensures |r| == |ts| && forall i :: 0 <= i < |ts| ==> r[i] == [a] + ts[i]
  {
    seq(|ts|, i requires 0 <= i < |ts| => [a] + ts[i])
  }

  /** Delete the node `n` found at `path`. A file is unlinked; a directory has every entry
      deleted first, each whatever became of the previous ones, and is then removed with
      `rmdir`, which fails if anything is left in it. `faults` are the paths the filesystem
      refuses to unlink or remove. */
  function DeleteNode(path: string, n: Node, faults: set<string>): Removal
    decreases n
  {
    match n
    case File(_) =>
      if path in faults then Removal(false, Some(n), []) else Removal(true, None, [[]])
    case Dir(es) =>
      var kids := DeleteEntries(path, es, faults);
      if kids.0 == [] && path !in faults then Removal(true, None, kids.1 + [[]])
      else Removal(false, Some(Dir(kids.0)), kids.1)
  }

  /** The entries left over, and the removal trace, after deleting each entry of `es` in turn. */
  function DeleteEntries(path: string, es: seq<Entry>, faults: set<string>): (seq<Entry>, seq<seq<string>>)
    decreases es
  {
    if es == [] then ([], [])
    else
      var r := DeleteNode(path + "/" + es[0].name, es[0].node, faults);
      var tail := DeleteEntries(path, es[1..], faults);
      ((if r.rest.Some? then [Entry(es[0].name, r.rest.value)] else []) + tail.0,
       Prefixed(es[0].name, r.trace) + tail.1)
  }

  /** `Delete($path)`: false, and nothing changed, for a path that is neither a file nor a
      directory. The filesystem root is never removed (its `rmdir` fails). */
  function Delete(fs: Node, path: string, faults: set<string>): (bool, Node) {
    match Lookup(fs, path)
    case None => (false, fs)
    case Some(n) =>
      var q := Split(path);
      var d := DeleteNode(path, n, if q == [] then faults + {path} else faults);
      (d.removed, Set(fs, q, d.rest))
  }

  /** No node is removed after one of its ancestors. */
  predicate ChildrenFirst(trace: seq<seq<string>>) {
    forall i, j :: 0 <= i < j < |trace| ==> !(trace[i] < trace[j])
  }

  /** Some node of the subtree at `path` is one the filesystem refuses to remove. */
  ghost predicate Protected(path: string, n: Node, faults: set<string>) {
    exists r :: Get(n, r).Some? && path + Join(r) in faults
  }

  // ---------------------------------------------------------------------------
  // Lemmas

  lemma ChildrenFirstConcat(a: seq<seq<string>>, b: seq<seq<string>>)
    requires ChildrenFirst(a) && ChildrenFirst(b)
    requires forall x, y :: x in a && y in b ==> !(x < y)
    ensures ChildrenFirst(a + b)
  {
    var ab := a + b;
    forall i, j | 0 <= i < j < |ab|
      ensures !(ab[i] < ab[j])
    {
      if j < |a| {
        assert ab[i] == a[i] && ab[j] == a[j];
      } else if i >= |a| {
        assert ab[i] == b[i - |a|] && ab[j] == b[j - |a|];
      } else {
        assert ab[i] in a && ab[j] in b;
      }
    }
  }

  lemma PrefixedChildrenFirst(a: string, ts: seq<seq<string>>)
    requires ChildrenFirst(ts)
    ensures ChildrenFirst(Prefixed(a, ts))
  {
    var ps := Prefixed(a, ts);
    forall i, j | 0 <= i < j < |ps|
      ensures !(ps[i] < ps[j])
    {
      ConsPrefix(a, ts[i], ts[j]);
    }
  }

  lemma ConsPrefix<T>(a: T, x: seq<T>, y: seq<T>)
    ensures [a] + x <= [a] + y <==> x <= y
  {
    if [a] + x <= [a] + y {
      assert forall k :: 0 <= k < |x| ==> x[k] == ([a] + x)[k + 1] == ([a] + y)[k + 1] == y[k];
      assert x == y[..|x|];
    }
  }

  /** The entry at index `i` of a well-formed directory is reached through its name. */
  lemma GetEntry(es: seq<Entry>, i: nat, r: seq<string>)
    requires WellFormed(Dir(es)) && i < |es|
    ensures Get(Dir(es), [es[i].name] + r) == Get(es[i].node, r)
  {
    ChildOfEntry(es, i);
    GetCons(Dir(es), es[i].name, r);
  }

  /** A path found below the later entries of a well-formed directory does not go through
      its first entry, and is found the same way in the whole directory. */
  lemma GetTail(es: seq<Entry>, t: seq<string>)
    requires WellFormed(Dir(es)) && es != [] && t != [] && Get(Dir(es[1..]), t).Some?
    ensures t[0] != es[0].name && Get(Dir(es), t) == Get(Dir(es[1..]), t)
  {
    var c := Child(es[1..], t[0]).value;
    var j :| 0 <= j < |es[1..]| && es[1..][j] == Entry(t[0], c);
    assert es[j + 1].name == t[0];
    assert Child(es, t[0]) == Child(es[1..], t[0]);
  }

  lemma WellFormedTail(es: seq<Entry>)
    requires WellFormed(Dir(es)) && es != []
    ensures WellFormed(Dir(es[1..])) && WellFormed(es[0].node)
  {
    assert forall i :: 0 <= i < |es[1..]| ==> es[1..][i] == es[i + 1];
  }

  /** Deletion removes everything below a node before the node itself, and a node is gone
      exactly when the deletion reports success. */
  lemma {:induction false} DeleteNodeOrder(path: string, n: Node, faults: set<string>)
    requires WellFormed(n)
    ensures var d := DeleteNode(path, n, faults);
      && (d.removed <==> d.rest.None?)
      && ChildrenFirst(d.trace)
      && (d.removed ==> |d.trace| > 0 && d.trace[|d.trace| - 1] == [])
      && (forall t :: t in d.trace ==> Get(n, t).Some?)
    decreases n
  {
    match n
    case File(_) =>
    case Dir(es) =>
      DeleteEntriesOrder(path, es, faults);
      var kids := DeleteEntries(path, es, faults);
      if kids.0 == [] && path !in faults {
        ChildrenFirstConcat(kids.1, [[]]);
      }
      forall t | t in DeleteNode(path, n, faults).trace
        ensures Get(n, t).Some?
      {
        if t != [] {
          assert t in kids.1;
        }
      }
  }

  lemma {:induction false} DeleteEntriesOrder(path: string, es: seq<Entry>, faults: set<string>)
    requires WellFormed(Dir(es))
    ensures var kids := DeleteEntries(path, es, faults);
      && ChildrenFirst(kids.1)
      && (forall t :: t in kids.1 ==> t != [] && Get(Dir(es), t).Some?)
    decreases es
  {
    if es != [] {
      var e := es[0];
      WellFormedTail(es);
      DeleteNodeOrder(path + "/" + e.name, e.node, faults);
      DeleteEntriesOrder(path, es[1..], faults);
      var r := DeleteNode(path + "/" + e.name, e.node, faults);
      var tail := DeleteEntries(path, es[1..], faults);
      var head := Prefixed(e.name, r.trace);
      PrefixedChildrenFirst(e.name, r.trace);
      forall t | t in head
        ensures t != [] && t[0] == e.name && Get(Dir(es), t).Some?
      {
        var k :| 0 <= k < |head| && head[k] == t;
        GetEntry(es, 0, r.trace[k]);
      }
      forall t | t in tail.1
        ensures t != [] && t[0] != e.name && Get(Dir(es), t).Some?
      {
        GetTail(es, t);
      }
      forall x, y | x in head && y in tail.1
        ensures !(x < y)
      {
        assert x[0] != y[0];
      }
      ChildrenFirstConcat(head, tail.1);
    }
  }

  lemma PrefixedMember(a: string, ts: seq<seq<string>>, t: seq<string>)
    requires t in ts
    ensures [a] + t in Prefixed(a, ts)
  {
    var k :| 0 <= k < |ts| && ts[k] == t;
    assert Prefixed(a, ts)[k] == [a] + t;
  }

  /** When the deletion of a directory succeeds, every entry's deletion succeeded. */
  lemma {:induction false} DeleteEntriesAll(path: string, es: seq<Entry>, faults: set<string>, i: nat, t: seq<string>)
    requires i < |es| && DeleteEntries(path, es, faults).0 == []
    ensures DeleteNode(path + "/" + es[i].name, es[i].node, faults).rest.None?
    ensures t in DeleteNode(path + "/" + es[i].name, es[i].node, faults).trace ==>
      [es[i].name] + t in DeleteEntries(path, es, faults).1
    decreases |es|
  {
    var r := DeleteNode(path + "/" + es[0].name, es[0].node, faults);
    if i == 0 {
      if t in r.trace {
        PrefixedMember(es[0].name, r.trace, t);
      }
    } else {
      assert es[1..][i - 1] == es[i];
      DeleteEntriesAll(path, es[1..], faults, i - 1, t);
    }
  }

  /** A successful deletion removed every node of the subtree. */
  lemma {:induction false} DeleteNodeComplete(path: string, n: Node, faults: set<string>, r: seq<string>)
    requires DeleteNode(path, n, faults).removed && Get(n, r).Some?
    ensures r in DeleteNode(path, n, faults).trace
    decreases n
  {
    match n
    case File(_) =>
    case Dir(es) =>
      var kids := DeleteEntries(path, es, faults);
      assert DeleteNode(path, n, faults).trace == kids.1 + [[]];
      if r != [] {
        GetDir(es, r);
        var c := Child(es, r[0]).value;
        var i :| 0 <= i < |es| && es[i] == Entry(r[0], c);
        DeleteEntriesAll(path, es, faults, i, r[1..]);
        DeleteNodeRest(path + "/" + r[0], c, faults);
        DeleteNodeComplete(path + "/" + r[0], c, faults, r[1..]);
        assert [r[0]] + r[1..] == r;
        assert r in kids.1;
      }
  }

  /** A protected node keeps itself and every directory above it in place. */
  lemma {:induction false} ProtectedStays(path: string, n: Node, faults: set<string>, r: seq<string>)
    requires WellFormed(n) && Get(n, r).Some? && path + Join(r) in faults
    ensures !DeleteNode(path, n, faults).removed
    decreases n
  {
    if r == [] {
      assert path + Join([]) == path;
    } else {
      var es := n.entries;
      var c := Child(es, r[0]).value;
      var i :| 0 <= i < |es| && es[i] == Entry(r[0], c);
      assert [r[0]] + r[1..] == r;
      GetCons(n, r[0], r[1..]);
      JoinCons(path, r[0], r[1..]);
      ChildWellFormed(es, r[0]);
      ProtectedStays(path + "/" + r[0], c, faults, r[1..]);
      DeleteNodeRest(path + "/" + r[0], c, faults);
      if DeleteEntries(path, es, faults).0 == [] {
        DeleteEntriesAll(path, es, faults, i, []);
      }
    }
  }

  /** Deleting a node succeeds exactly when nothing in its subtree is protected. */
  lemma {:induction false} DeleteNodeSucceeds(path: string, n: Node, faults: set<string>)
    requires WellFormed(n)
    ensures DeleteNode(path, n, faults).removed <==> !Protected(path, n, faults)
    decreases n
  {
    if Protected(path, n, faults) {
      var r :| Get(n, r).Some? && path + Join(r) in faults;
      ProtectedStays(path, n, faults, r);
    } else {
      assert Get(n, []).Some? && path + Join([]) == path;
      match n
      case File(_) =>
      case Dir(es) =>
        DeleteEntriesClean(path, es, faults);
    }
  }

  /** With nothing protected below a directory, every entry is deleted. */
  lemma {:induction false} DeleteEntriesClean(path: string, es: seq<Entry>, faults: set<string>)
    requires WellFormed(Dir(es)) && !Protected(path, Dir(es), faults)
    ensures DeleteEntries(path, es, faults).0 == []
    decreases es
  {
    if es != [] {
      var e := es[0];
      WellFormedTail(es);
      forall r | Get(e.node, r).Some?
        ensures path + "/" + e.name + Join(r) !in faults
      {
        GetEntry(es, 0, r);
        JoinCons(path, e.name, r);
      }
      DeleteNodeSucceeds(path + "/" + e.name, e.node, faults);
      DeleteNodeRest(path + "/" + e.name, e.node, faults);
      forall r | Get(Dir(es[1..]), r).Some?
        ensures path + Join(r) !in faults
      {
        if r != [] {
          GetTail(es, r);
        } else {
          assert Get(Dir(es), []).Some?;
        }
      }
      DeleteEntriesClean(path, es[1..], faults);
    }
  }

  /** `Delete` of an absent path fails and changes nothing; a successful `Delete` leaves
      nothing at the path; paths outside the deleted subtree and not above it are untouched. */
  lemma DeleteEffect(fs: Node, path: string, faults: set<string>, r: seq<string>)
    ensures Lookup(fs, path).None? ==> Delete(fs, path, faults) == (false, fs)
    ensures Delete(fs, path, faults).0 ==> Lookup(Delete(fs, path, faults).1, path).None?
    ensures !(r <= Split(path)) && !(Split(path) <= r) ==>
      Get(Delete(fs, path, faults).1, r) == Get(fs, r)
  {
    if Lookup(fs, path).Some? {
      var q := Split(path);
      var n := Lookup(fs, path).value;
      var f := if q == [] then faults + {path} else faults;
      var d := DeleteNode(path, n, f);
      DeleteNodeRest(path, n, f);
      GetDirsAbove(fs, q);
      if d.removed {
        GetSetBelow(fs, q, d.rest, q);
      }
      if !(r <= q) && !(q <= r) {
        GetSetFrame(fs, q, d.rest, r);
      }
    }
  }

  lemma DeleteNodeRest(path: string, n: Node, faults: set<string>)
    ensures DeleteNode(path, n, faults).removed <==> DeleteNode(path, n, faults).rest.None?
    ensures path in faults ==> !DeleteNode(path, n, faults).removed
  {
  }

  /** Deleting the subtree at `path` succeeds exactly when no node in it is protected, and
      then every node of it was removed, each after everything below it. */
  lemma DeleteSucceeds(fs: Node, path: string, faults: set<string>)
    requires WellFormed(fs) && Lookup(fs, path).Some? && Split(path) != []
    ensures var n := Lookup(fs, path).value;
      && (Delete(fs, path, faults).0 <==> !Protected(path, n, faults))
      && ChildrenFirst(DeleteNode(path, n, faults).trace)
      && (Delete(fs, path, faults).0 ==>
            forall r :: Get(n, r).Some? ==> r in DeleteNode(path, n, faults).trace)
  {
    var n := Lookup(fs, path).value;
    GetWellFormed(fs, Split(path));
    DeleteNodeSucceeds(path, n, faults);
    DeleteNodeOrder(path, n, faults);
    if Delete(fs, path, faults).0 {
      forall r | Get(n, r).Some?
        ensures r in DeleteNode(path, n, faults).trace
      {
        DeleteNodeComplete(path, n, faults, r);
      }
    }
  }
}
