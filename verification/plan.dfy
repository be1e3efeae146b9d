/** The list work `Upgrade` does between listing the two trees and touching the installation:
    de-duplication, relativising, the set difference and the pruning of the deletion list. */
module Plan {
  import opened Paths
  import opened FileSystem

  /** PHP `array_unique` on a list: the first occurrence of every value, in order. */
  function Unique(s: seq<string>): (r: seq<string>)
    ensures forall x :: x in r <==> x in s
    ensures forall i, j :: 0 <= i < j < |r| ==> r[i] != r[j]
    decreases |s|
  {
    if s == [] then []
    else
      var u := Unique(s[..|s| - 1]);
      assert s == s[..|s| - 1] + [s[|s| - 1]];
      if s[|s| - 1] in u then u else u + [s[|s| - 1]]
  }

  /** Every path with the first `|root|` characters removed (`substr_replace` over the list). */
  function Relativise(root: string, ps: seq<string>): (r: seq<string>)
    ensures |r| == |ps|
    ensures forall i :: 0 <= i < |ps| && StartsWith(ps[i], root) ==> root + r[i] == ps[i]
  {
    seq(|ps|, i requires 0 <= i < |ps| => DropPrefix(ps[i], |root|))
  }

  /** Every relative path with `root` put in front of it. */
  function Absolutise(root: string, rs: seq<string>): (r: seq<string>)
    ensures |r| == |rs|
    ensures forall i :: 0 <= i < |rs| ==> StartsWith(r[i], root)
  {
    seq(|rs|, i requires 0 <= i < |rs| => root + rs[i])
  }

  /** PHP `array_values(array_diff($a, $b))`: the values of `a` not in `b`, in their order. */
  function Difference(a: seq<string>, b: seq<string>): (r: seq<string>)
    ensures forall x :: x in r <==> x in a && x !in b
    ensures |r| <= |a|
  {
    if a == [] then []
    else (if a[0] in b then [] else [a[0]]) + Difference(a[1..], b)
  }

  /** Under the plain string comparison the updater uses, the candidate `x` lies below the
      candidate `d`, which is a directory of the installation at `dir`. */
  predicate Covers(fs: Node, dir: string, d: string, x: string) {
    IsDirAt(fs, dir + d) && d != x && StartsWith(x, d)
  }

  predicate Covered(fs: Node, dir: string, ds: seq<string>, x: string) {
    exists d :: d in ds && Covers(fs, dir, d, x)
  }

  /** The reference pruning: the values of `xs` that no candidate of `ds` covers, in order. */
  function Uncovered(fs: Node, dir: string, ds: seq<string>, xs: seq<string>): (r: seq<string>)
    ensures forall x :: x in r <==> x in xs && !Covered(fs, dir, ds, x)
  {
    if xs == [] then []
    else (if Covered(fs, dir, ds, xs[0]) then [] else [xs[0]]) + Uncovered(fs, dir, ds, xs[1..])
  }

  /** The inner loop: unset every value that begins with `d` without being `d`. */
  function RemoveUnder(d: string, xs: seq<string>): seq<string> {
    if xs == [] then []
    else (if d != xs[0] && StartsWith(xs[0], d) then [] else [xs[0]]) + RemoveUnder(d, xs[1..])
  }

  /** The outer loop: it walks the candidate list as it was before any value was unset
      (PHP `foreach` works on a copy), and for each candidate that is a directory of the
      installation runs the inner loop over what is left. */
  function PruneLoop(fs: Node, dir: string, todo: seq<string>, left: seq<string>): seq<string>
    decreases |todo|
  {
    if todo == [] then left
    else
      var d := todo[0];
      PruneLoop(fs, dir, todo[1..], if IsDirAt(fs, dir + d) then RemoveUnder(d, left) else left)
  }

  /** The deletion list once the paths below a directory that will be deleted are dropped. */
  function Prune(fs: Node, dir: string, ds: seq<string>): seq<string> {
    PruneLoop(fs, dir, ds, ds)
  }

  /** `a` is `b` with some values left out, the rest in their original order. */
  predicate Subsequence(a: seq<string>, b: seq<string>)
    decreases |b|
  {
    if a == [] then true
    else if b == [] then false
    else (a[0] == b[0] && Subsequence(a[1..], b[1..])) || Subsequence(a, b[1..])
  }

  // ---------------------------------------------------------------------------
  // Lemmas

  /** The set difference keeps the surviving source paths in source order. */
  lemma {:induction false} DifferenceKeepsOrder(a: seq<string>, b: seq<string>)
    ensures Subsequence(Difference(a, b), a)
    decreases |a|
  {
    if a != [] {
      DifferenceKeepsOrder(a[1..], b);
      var r := Difference(a, b);
      if a[0] !in b {
        assert r[0] == a[0] && r[1..] == Difference(a[1..], b);
      } else {
        assert r == Difference(a[1..], b);
      }
    }
  }

  /** The reference pruning keeps the survivors in their order. */
  lemma {:induction false} UncoveredKeepsOrder(fs: Node, dir: string, ds: seq<string>, xs: seq<string>)
    ensures Subsequence(Uncovered(fs, dir, ds, xs), xs)
    decreases |xs|
  {
    if xs != [] {
      UncoveredKeepsOrder(fs, dir, ds, xs[1..]);
      var r := Uncovered(fs, dir, ds, xs);
      if !Covered(fs, dir, ds, xs[0]) {
        assert r[0] == xs[0] && r[1..] == Uncovered(fs, dir, ds, xs[1..]);
      } else {
        assert r == Uncovered(fs, dir, ds, xs[1..]);
      }
    }
  }

  /** Pruning keeps the surviving deletion candidates in their order. */
  lemma PruneKeepsOrder(fs: Node, dir: string, ds: seq<string>)
    ensures Subsequence(Prune(fs, dir, ds), ds)
  {
    PruneExactly(fs, dir, ds);
    UncoveredKeepsOrder(fs, dir, ds, ds);
  }

  /** A list without repetitions is its own `array_unique`. */
  lemma {:induction false} UniqueDistinct(s: seq<string>)
    requires forall i, j :: 0 <= i < j < |s| ==> s[i] != s[j]
    ensures Unique(s) == s
    decreases |s|
  {
    if s != [] {
      var init := s[..|s| - 1];
      UniqueDistinct(init);
      assert s[|s| - 1] !in init;
      assert init + [s[|s| - 1]] == s;
    }
  }

  /** Putting the root back in front of relative paths and relativising again gives them back. */
  lemma RelativiseAbsolutise(root: string, rs: seq<string>)
    ensures Relativise(root, Absolutise(root, rs)) == rs
  {
    var a := Absolutise(root, rs);
    forall i | 0 <= i < |rs|
      ensures Relativise(root, a)[i] == rs[i]
    {
      assert a[i] == root + rs[i];
      assert a[i][|root|..] == rs[i];
    }
  }

  /** Relativising paths that all lie below the root, then putting the root back, is the identity. */
  lemma AbsolutiseRelativise(root: string, ps: seq<string>)
    requires forall i :: 0 <= i < |ps| ==> StartsWith(ps[i], root)
    ensures Absolutise(root, Relativise(root, ps)) == ps
  {
  }

  /** The difference keeps `a` whole when nothing of it is in `b`, and is empty when all is. */
  lemma {:induction false} DifferenceBounds(a: seq<string>, b: seq<string>)
    ensures (forall x :: x in a ==> x !in b) ==> Difference(a, b) == a
    ensures (forall x :: x in a ==> x in b) ==> Difference(a, b) == []
  {
    if a != [] {
      DifferenceBounds(a[1..], b);
      assert [a[0]] + a[1..] == a;
    }
  }

  lemma CoveredCons(fs: Node, dir: string, ds: seq<string>, x: string)
    requires ds != []
    ensures Covered(fs, dir, ds, x) <==> Covers(fs, dir, ds[0], x) || Covered(fs, dir, ds[1..], x)
  {
    if Covered(fs, dir, ds, x) {
      var d :| d in ds && Covers(fs, dir, d, x);
      if d != ds[0] {
        assert d in ds[1..];
      }
    }
    if Covered(fs, dir, ds[1..], x) {
      var d :| d in ds[1..] && Covers(fs, dir, d, x);
      assert d in ds;
    }
  }

  lemma UncoveredCons(fs: Node, dir: string, ds: seq<string>, x: string, xs: seq<string>)
    ensures Uncovered(fs, dir, ds, [x] + xs) ==
      (if Covered(fs, dir, ds, x) then [] else [x]) + Uncovered(fs, dir, ds, xs)
  {
    assert ([x] + xs)[1..] == xs;
  }

  lemma RemoveUnderCons(d: string, x: string, xs: seq<string>)
    ensures RemoveUnder(d, [x] + xs) ==
      (if d != x && StartsWith(x, d) then [] else [x]) + RemoveUnder(d, xs)
  {
    assert ([x] + xs)[1..] == xs;
  }

  /** One round of the outer loop: running the inner loop for the first candidate, then
      pruning by the rest, is pruning by all of them. */
  lemma RemoveUnderCovers(fs: Node, dir: string, ds: seq<string>, left: seq<string>)
    requires ds != []
    ensures Uncovered(fs, dir, ds[1..], if IsDirAt(fs, dir + ds[0]) then RemoveUnder(ds[0], left) else left)
         == Uncovered(fs, dir, ds, left)
  {
    if IsDirAt(fs, dir + ds[0]) {
      RemoveUnderDir(fs, dir, ds, left);
    } else {
      UncoveredNotDir(fs, dir, ds, left);
    }
  }

  lemma {:induction false} RemoveUnderDir(fs: Node, dir: string, ds: seq<string>, left: seq<string>)
    requires ds != [] && IsDirAt(fs, dir + ds[0])
    ensures Uncovered(fs, dir, ds[1..], RemoveUnder(ds[0], left)) == Uncovered(fs, dir, ds, left)
  {
    if left != [] {
      var d := ds[0];
      var x := left[0];
      var rest := left[1..];
      assert left == [x] + rest;
      RemoveUnderDir(fs, dir, ds, rest);
      CoveredCons(fs, dir, ds, x);
      UncoveredCons(fs, dir, ds, x, rest);
      RemoveUnderCons(d, x, rest);
      if d != x && StartsWith(x, d) {
        assert Covers(fs, dir, d, x);
        assert RemoveUnder(d, left) == RemoveUnder(d, rest);
        assert Uncovered(fs, dir, ds, left) == Uncovered(fs, dir, ds, rest);
      } else {
        assert !Covers(fs, dir, d, x);
        UncoveredCons(fs, dir, ds[1..], x, RemoveUnder(d, rest));
      }
    }
  }

  lemma {:induction false} UncoveredNotDir(fs: Node, dir: string, ds: seq<string>, left: seq<string>)
    requires ds != [] && !IsDirAt(fs, dir + ds[0])
    ensures Uncovered(fs, dir, ds[1..], left) == Uncovered(fs, dir, ds, left)
  {
    if left != [] {
      var x := left[0];
      var rest := left[1..];
      assert left == [x] + rest;
      UncoveredNotDir(fs, dir, ds, rest);
      CoveredCons(fs, dir, ds, x);
      assert !Covers(fs, dir, ds[0], x);
      UncoveredCons(fs, dir, ds, x, rest);
      UncoveredCons(fs, dir, ds[1..], x, rest);
    }
  }

  /** The outer loop leaves exactly the values that no remaining candidate covers. */
  lemma {:induction false} PruneLoopUncovered(fs: Node, dir: string, todo: seq<string>, left: seq<string>)
    ensures PruneLoop(fs, dir, todo, left) == Uncovered(fs, dir, todo, left)
    decreases |todo|
  {
    if todo == [] {
      UncoveredNone(fs, dir, left);
    } else {
      var d := todo[0];
      PruneLoopUncovered(fs, dir, todo[1..], if IsDirAt(fs, dir + d) then RemoveUnder(d, left) else left);
      RemoveUnderCovers(fs, dir, todo, left);
    }
  }

  lemma {:induction false} UncoveredNone(fs: Node, dir: string, xs: seq<string>)
    ensures Uncovered(fs, dir, [], xs) == xs
  {
    if xs != [] {
      UncoveredNone(fs, dir, xs[1..]);
      assert [xs[0]] + xs[1..] == xs;
    }
  }

  /** The pruned list is the reference pruning: the candidates, in order, minus those below a
      candidate directory (by plain string prefix). No kept candidate lies below another. */
  lemma PruneExactly(fs: Node, dir: string, ds: seq<string>)
    ensures Prune(fs, dir, ds) == Uncovered(fs, dir, ds, ds)
    ensures forall x :: x in Prune(fs, dir, ds) <==> x in ds && !Covered(fs, dir, ds, x)
    ensures forall d, x :: d in Prune(fs, dir, ds) && x in Prune(fs, dir, ds) ==> !Covers(fs, dir, d, x)
  {
    PruneLoopUncovered(fs, dir, ds, ds);
  }

  /** Every candidate is kept, or begins with a kept candidate that is a directory. */
  lemma {:induction false} PruneCovers(fs: Node, dir: string, ds: seq<string>, x: string)
    requires x in ds
    ensures x in Prune(fs, dir, ds) || exists d :: d in Prune(fs, dir, ds) && Covers(fs, dir, d, x)
    decreases |x|
  {
    var kept := Prune(fs, dir, ds);
    PruneExactly(fs, dir, ds);
    if x !in kept {
      var d :| d in ds && Covers(fs, dir, d, x);
      CoversShorter(fs, dir, d, x);
      PruneCovers(fs, dir, ds, d);
      if d !in kept {
        var d' :| d' in kept && Covers(fs, dir, d', d);
        CoversTransitive(fs, dir, d', d, x);
      }
    }
  }

  lemma CoversShorter(fs: Node, dir: string, d: string, x: string)
    requires Covers(fs, dir, d, x)
    ensures |d| < |x|
  {
  }

  lemma CoversTransitive(fs: Node, dir: string, a: string, b: string, c: string)
    requires Covers(fs, dir, a, b) && Covers(fs, dir, b, c)
    ensures Covers(fs, dir, a, c)
  {
    assert |a| < |b| < |c|;
    assert c[..|a|] == b[..|a|];
  }

  /** The plain prefix test drops a candidate that is not below the directory at all: with
      "/a" a directory, the sibling "/ab" is neither deleted nor inside anything deleted. */
  lemma PruneDropsSibling(fs: Node, dir: string)
    requires IsDirAt(fs, dir + "/a")
    ensures Prune(fs, dir, ["/a", "/ab"]) == ["/a"]
    ensures !(Split("/a") <= Split("/ab"))
  {
    PruneExactly(fs, dir, ["/a", "/ab"]);
    assert Covers(fs, dir, "/a", "/ab");
    assert !Covers(fs, dir, "/ab", "/a");
    assert Uncovered(fs, dir, ["/a", "/ab"], ["/ab"]) == [];
    SplitName("a");
    SplitName("ab");
    assert Split("/a") == ["a"] && Split("/ab") == ["ab"];
    assert ["a"][0] != ["ab"][0];
  }
}
