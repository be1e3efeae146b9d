/** `Upgrade`: list the installation and the extracted release, copy the release over the
    installation, then delete what only the installation has. */
module Upgrading {
  import opened Paths
  import opened FileSystem
  import opened PathMap
  import opened Plan
  import opened Apply

  /** What `Upgrade` reads from the updater: the installation directory, the repository
      name, and the caller's source and release exclusions. */
  datatype Config = Config(dir: string, repository: string, source: Exclusions, release: Exclusions)

  /** Installation paths, relative to the directory, that are never listed: the version
      control data, the updater's own working area and lock file, and the dependencies. */
  const SourceDefaults: seq<string> := ["/.git", "/update", "/update.lock", "/vendor"]

  /** File names never taken from a release. */
  const ReleaseDefaultFilenames: seq<string> := ["composer.phar", ".gitignore", ".gitkeep"]

  /** The updater's working area below the installation directory, and the directory the
      release archive is extracted into below it. */
  const UpdateFolder := "update"
  const ExtractFolder := "extract"

  /** Where the release archive is extracted: `<dir>/update/extract/<repository>`. */
  function Stage(cfg: Config): string {
    cfg.dir + "/" + UpdateFolder + "/" + ExtractFolder + "/" + cfg.repository
  }

  function SourceExclusions(cfg: Config): (ex: Exclusions)
    ensures forall e :: e in SourceDefaults ==> cfg.dir + e in ex.paths
    ensures forall e :: e in ex.paths <==> e in Absolutise(cfg.dir, SourceDefaults) || e in cfg.source.paths
    ensures forall f :: f in ex.filenames <==> f in cfg.source.filenames
  {
    var defaults := Absolutise(cfg.dir, SourceDefaults);
    assert forall k :: 0 <= k < |SourceDefaults| ==> defaults[k] == cfg.dir + SourceDefaults[k];
    Exclusions(Unique(defaults + cfg.source.paths), Unique(cfg.source.filenames))
  }

  function ReleaseExclusions(cfg: Config): (ex: Exclusions)
    ensures ex.paths == cfg.release.paths
    ensures forall f :: f in ex.filenames <==> f in ReleaseDefaultFilenames || f in cfg.release.filenames
  {
    Exclusions(cfg.release.paths, Unique(ReleaseDefaultFilenames + cfg.release.filenames))
  }

  /** None of the built-in release filename exclusions is a numeric string, so PHP's loose
      `in_array` matches them byte-wise, as the model does. */
  lemma ReleaseDefaultsNotNumeric()
    ensures forall f :: f in ReleaseDefaultFilenames ==> !NumericString(f)
  {
    NotNumericStart("composer.phar");
    NotNumericStart(".gitignore");
    NotNumericStart(".gitkeep");
  }

  /** The installation's paths, relative to its directory. */
  function SourceList(cfg: Config, fs: Node): seq<string> {
    Relativise(cfg.dir, MapPath(fs, cfg.dir, SourceExclusions(cfg)))
  }

  /** The release's paths, relative to the extraction directory. */
  function ReleaseList(cfg: Config, fs: Node): seq<string> {
    Relativise(Stage(cfg), MapPath(fs, Stage(cfg), ReleaseExclusions(cfg)))
  }

  /** The absolute paths to delete once the release is copied over (`applied`): what only
      the installation lists, without what lies below a directory that is itself deleted. */
  function DeletionList(cfg: Config, fs: Node, applied: Node): seq<string> {
    Absolutise(cfg.dir, Prune(applied, cfg.dir, Difference(SourceList(cfg, fs), ReleaseList(cfg, fs))))
  }

  /** Both listings are taken before anything changes; the copy pass runs first, and the
      deletion pass only if it got through. */
  function Upgrade(cfg: Config, fs: Node, faults: set<string>): Step {
    var applied := ApplyAll(fs, cfg.dir, Stage(cfg), ReleaseList(cfg, fs), faults);
    if !applied.ok then applied
    else DeleteAll(applied.fs, DeletionList(cfg, fs, applied.fs), faults)
  }

  /** The filesystem after the copy pass. */
  function Applied(cfg: Config, fs: Node, faults: set<string>): Node {
    ApplyAll(fs, cfg.dir, Stage(cfg), ReleaseList(cfg, fs), faults).fs
  }

  // ---------------------------------------------------------------------------
  // Shape of the listings

  lemma PrefixCancel(d: seq<string>, a: seq<string>, b: seq<string>)
    ensures d + a <= d + b <==> a <= b
  {
    if d + a <= d + b {
      assert forall k :: 0 <= k < |a| ==> a[k] == (d + a)[|d| + k] == (d + b)[|d| + k] == b[k];
      assert a == b[..|a|];
    }
    if a <= b {
      assert (d + b)[..|d + a|] == d + a;
    }
  }

  /** A relative path of a listing spells the components of the entry it names. */
  lemma ListingShape(fs: Node, root: string, ex: Exclusions, k: nat)
    requires WellFormed(fs) && IsDirAt(fs, root)
    requires k < |MapPath(fs, root, ex)|
    ensures var rel := Relativise(root, MapPath(fs, root, ex))[k];
      && MapPath(fs, root, ex)[k] == root + rel
      && rel == Join(Split(rel)) && Split(rel) != [] && ValidNames(Split(rel))
      && Listed(root, Lookup(fs, root).value, ex, Split(rel))
      && Split(root + rel) == Split(root) + Split(rel)
  {
    var x := MapPath(fs, root, ex)[k];
    var n := Lookup(fs, root).value;
    MapPathExactly(fs, root, ex, x);
    var q :| x == root + Join(q) && Listed(root, n, ex, q);
    GetWellFormed(fs, Split(root));
    ListedNames(root, n, ex, q);
    SplitJoin(q);
    assert x[|root|..] == Join(q);
    SplitConcat(root, Join(q));
  }

  /** A directory above a listed entry is listed too, so it is a relative path of the listing. */
  lemma ListingClosed(fs: Node, root: string, ex: Exclusions, q: seq<string>, p: seq<string>)
    requires WellFormed(fs) && IsDirAt(fs, root)
    requires Listed(root, Lookup(fs, root).value, ex, q)
    requires p != [] && p < q
    ensures Join(p) in Relativise(root, MapPath(fs, root, ex))
  {
    var n := Lookup(fs, root).value;
    GetPrefixDir(n, q, p);
    forall k | 1 <= k <= |p|
      ensures !Excluded(root + Join(p[..k]), ex.paths)
    {
      assert p[..k] == q[..k];
    }
    MapPathKeepsDirectories(fs, root, ex, p);
    var ps := MapPath(fs, root, ex);
    var k :| 0 <= k < |ps| && ps[k] == root + Join(p);
    assert ps[k][|root|..] == Join(p);
  }

  /** A listing taken top-down copies in an order where no later path is at or above an earlier one. */
  lemma ListingOrdered(fs: Node, root: string, ex: Exclusions, dir: string)
    requires WellFormed(fs) && IsDirAt(fs, root)
    ensures Ordered(dir, Relativise(root, MapPath(fs, root, ex)))
  {
    var rels := Relativise(root, MapPath(fs, root, ex));
    forall i, j | 0 <= i < j < |rels|
      ensures !(Split(dir + rels[j]) <= Split(dir + rels[i]))
    {
      ListingPairOrdered(fs, root, ex, dir, i, j);
    }
  }

  /** One pair of the listing: the later entry is not an ancestor of, or equal to, the earlier. */
  lemma ListingPairOrdered(fs: Node, root: string, ex: Exclusions, dir: string, i: nat, j: nat)
    requires WellFormed(fs) && IsDirAt(fs, root)
    requires i < j < |MapPath(fs, root, ex)|
    ensures var rels := Relativise(root, MapPath(fs, root, ex));
      !(Split(dir + rels[j]) <= Split(dir + rels[i]))
  {
    var ps := MapPath(fs, root, ex);
    var rels := Relativise(root, ps);
    MapPathTopDown(fs, root, ex);
    assert ps[i] != ps[j] && !StartsWith(ps[i], ps[j] + "/");
    ListingShape(fs, root, ex, i);
    ListingShape(fs, root, ex, j);
    var qi := Split(rels[i]);
    var qj := Split(rels[j]);
    SplitConcat(dir, rels[i]);
    SplitConcat(dir, rels[j]);
    PrefixCancel(Split(dir), qj, qi);
    RootedPrefixOf(root, qj, qi);
  }

  /** Below a common root, a proper ancestor's path followed by '/' begins its descendant's. */
  lemma RootedPrefixOf(root: string, a: seq<string>, b: seq<string>)
    ensures a == b ==> root + Join(b) == root + Join(a)
    ensures a <= b && a != b ==> StartsWith(root + Join(b), root + Join(a) + "/")
  {
    if a <= b {
      JoinPrefixOf(a, b);
      if a != b {
        var u := Join(a) + "/";
        var v := Join(b)[|u|..];
        assert Join(b) == u + v;
        assert root + Join(b) == (root + u) + v;
        PrefixConcat(root + u, v);
      }
    }
  }

  /** Splitting the extraction directory. */
  lemma StageSplit(cfg: Config)
    requires ValidName(cfg.repository)
    ensures Split(Stage(cfg)) == Split(cfg.dir) + [UpdateFolder, ExtractFolder, cfg.repository]
  {
    assert ValidName(UpdateFolder) && ValidName(ExtractFolder);
    SplitChildren(cfg.dir, UpdateFolder, ExtractFolder, cfg.repository);
  }

  /** A release with no top-level `update` entry has no entry whose path starts there. */
  lemma FirstNotUpdate(fs: Node, stage: string, q: seq<string>)
    requires IsDirAt(fs, stage) && Lookup(fs, stage + "/" + UpdateFolder) == None
    requires q != [] && Get(Lookup(fs, stage).value, q).Some?
    ensures q[0] != UpdateFolder
  {
    var n := Lookup(fs, stage).value;
    if |q| > 1 {
      GetPrefixDir(n, q, [q[0]]);
    } else {
      assert q == [q[0]];
    }
    LookupJoin(fs, stage, [UpdateFolder]);
    assert Join([UpdateFolder]) == "/" + UpdateFolder + Join([]);
    assert stage + Join([UpdateFolder]) == stage + "/" + UpdateFolder;
  }

  lemma UnrelatedHeads(d: seq<string>, a: seq<string>, b: seq<string>)
    requires a != [] && b != [] && a[0] != b[0]
    ensures Unrelated(d + a, d + b)
  {
    PrefixCancel(d, a, b);
    PrefixCancel(d, b, a);
  }

  /** With no top-level `update` entry in the release, no installation path the copy pass
      writes is at, above or below the extracted release. */
  lemma ReleaseClear(cfg: Config, fs: Node)
    requires WellFormed(fs) && ValidName(cfg.repository) && IsDirAt(fs, Stage(cfg))
    requires Lookup(fs, Stage(cfg) + "/" + UpdateFolder) == None
    ensures Clear(cfg.dir, Stage(cfg), ReleaseList(cfg, fs))
  {
    var rels := ReleaseList(cfg, fs);
    forall i, j | 0 <= i < |rels| && 0 <= j < |rels|
      ensures Unrelated(Split(cfg.dir + rels[i]), Split(Stage(cfg) + rels[j]))
    {
      ReleasePairClear(cfg, fs, i, j);
    }
  }

  lemma ReleasePairClear(cfg: Config, fs: Node, i: nat, j: nat)
    requires WellFormed(fs) && ValidName(cfg.repository) && IsDirAt(fs, Stage(cfg))
    requires Lookup(fs, Stage(cfg) + "/" + UpdateFolder) == None
    requires i < |ReleaseList(cfg, fs)| && j < |ReleaseList(cfg, fs)|
    ensures Unrelated(Split(cfg.dir + ReleaseList(cfg, fs)[i]), Split(Stage(cfg) + ReleaseList(cfg, fs)[j]))
  {
    var stage := Stage(cfg);
    var ri := ReleaseList(cfg, fs)[i];
    var rj := ReleaseList(cfg, fs)[j];
    ListedComponents(fs, stage, ReleaseExclusions(cfg), ri, cfg.dir);
    ListedComponents(fs, stage, ReleaseExclusions(cfg), rj, stage);
    FirstNotUpdate(fs, stage, Split(ri));
    StageSplit(cfg);
    StageClear(Split(cfg.dir), Split(ri), Split(rj), cfg.repository);
  }

  lemma StageClear(d: seq<string>, qi: seq<string>, qj: seq<string>, repository: string)
    requires qi != [] && qi[0] != UpdateFolder
    ensures Unrelated(d + qi, d + [UpdateFolder, ExtractFolder, repository] + qj)
  {
    var u := [UpdateFolder, ExtractFolder, repository] + qj;
    assert d + [UpdateFolder, ExtractFolder, repository] + qj == d + u;
    UnrelatedHeads(d, qi, u);
  }

  // ---------------------------------------------------------------------------
  // Theorems

  /** Every path `Upgrade` deletes lies strictly inside the installation directory and is not
      one of the excluded source paths or below one; in particular not the version control
      data, the updater's working area, its lock file or the dependencies. */
  lemma DeletionsSpareExcluded(cfg: Config, fs: Node, applied: Node, j: nat)
    requires WellFormed(fs) && IsDirAt(fs, cfg.dir)
    requires j < |DeletionList(cfg, fs, applied)|
    ensures var p := DeletionList(cfg, fs, applied)[j];
      && StartsWith(p, cfg.dir + "/") && p != cfg.dir
      && !Excluded(p, SourceExclusions(cfg).paths)
      && forall e :: e in SourceDefaults ==> !StartsWith(WithSlash(p), WithSlash(cfg.dir + e))
  {
    var ex := SourceExclusions(cfg);
    var p := DeletionList(cfg, fs, applied)[j];
    DeletionFrom(cfg, fs, applied, j);
    var x :| x in SourceList(cfg, fs) && x !in ReleaseList(cfg, fs) && p == cfg.dir + x;
    var ps := MapPath(fs, cfg.dir, ex);
    var m :| 0 <= m < |ps| && SourceList(cfg, fs)[m] == x;
    ListingShape(fs, cfg.dir, ex, m);
    MapPathSound(fs, cfg.dir, ex, ps[m]);
    DefaultsExcluded(cfg, p);
  }

  /** A path the source exclusions let through is below none of the default exclusions. */
  lemma DefaultsExcluded(cfg: Config, p: string)
    requires !Excluded(p, SourceExclusions(cfg).paths)
    ensures forall e :: e in SourceDefaults ==> !StartsWith(WithSlash(p), WithSlash(cfg.dir + e))
  {
    forall e | e in SourceDefaults
      ensures !StartsWith(WithSlash(p), WithSlash(cfg.dir + e))
    {
      assert cfg.dir + e in SourceExclusions(cfg).paths;
    }
  }

  /** After a successful `Upgrade`, every path on the deletion list is gone, and every source
      path the release no longer has is gone or lies (by string prefix) below a deleted directory. */
  lemma UpgradeRemovesObsolete(cfg: Config, fs: Node, faults: set<string>, x: string)
    requires Upgrade(cfg, fs, faults).ok
    requires x in SourceList(cfg, fs) && x !in ReleaseList(cfg, fs)
    ensures var applied := Applied(cfg, fs, faults);
      var after := Upgrade(cfg, fs, faults).fs;
      || Lookup(after, cfg.dir + x) == None
      || exists d :: IsDirAt(applied, cfg.dir + d) && StartsWith(x, d) && Lookup(after, cfg.dir + d) == None
  {
    var applied := Applied(cfg, fs, faults);
    var cands := Difference(SourceList(cfg, fs), ReleaseList(cfg, fs));
    var kept := Prune(applied, cfg.dir, cands);
    var dels := DeletionList(cfg, fs, applied);
    PruneCovers(applied, cfg.dir, cands, x);
    if x in kept {
      var k :| 0 <= k < |kept| && kept[k] == x;
      DeleteAllEffect(applied, dels, faults, k);
    } else {
      var d :| d in kept && Covers(applied, cfg.dir, d, x);
      var k :| 0 <= k < |kept| && kept[k] == d;
      DeleteAllEffect(applied, dels, faults, k);
    }
  }

  /** After a successful `Upgrade` of a well-formed installation whose release has no
      top-level `update` entry, every release directory exists in the installation and every
      release file is there with the release's content. */
  lemma UpgradeInstallsRelease(cfg: Config, fs: Node, faults: set<string>, rel: string)
    requires WellFormed(fs) && Absolute(cfg.dir) && ValidName(cfg.repository)
    requires IsDirAt(fs, cfg.dir) && IsDirAt(fs, Stage(cfg))
    requires Lookup(fs, Stage(cfg) + "/" + UpdateFolder) == None
    requires Upgrade(cfg, fs, faults).ok
    requires rel in ReleaseList(cfg, fs)
    ensures Mirrors(Lookup(fs, Stage(cfg) + rel), Lookup(Upgrade(cfg, fs, faults).fs, cfg.dir + rel))
  {
    var stage := Stage(cfg);
    var rels := ReleaseList(cfg, fs);
    var applied := Applied(cfg, fs, faults);
    var i :| 0 <= i < |rels| && rels[i] == rel;
    ListingOrdered(fs, stage, ReleaseExclusions(cfg), cfg.dir);
    ReleaseClear(cfg, fs);
    ApplyAllEffect(fs, cfg.dir, stage, rels, faults, i);
    var t := Split(cfg.dir + rel);
    var dels := DeletionList(cfg, fs, applied);
    forall j | 0 <= j < |dels|
      ensures !(Split(dels[j]) <= t)
    {
      DeletionNotAbove(cfg, fs, applied, j, i);
    }
    DeleteAllKeeps(applied, dels, faults, t, Lookup(fs, stage + rel));
  }

  /** Every deletion path is the installation directory followed by a source path the
      release does not list. */
  lemma DeletionFrom(cfg: Config, fs: Node, applied: Node, j: nat)
    requires j < |DeletionList(cfg, fs, applied)|
    ensures exists x :: (x in SourceList(cfg, fs) && x !in ReleaseList(cfg, fs)
      && DeletionList(cfg, fs, applied)[j] == cfg.dir + x)
  {
    var cands := Difference(SourceList(cfg, fs), ReleaseList(cfg, fs));
    var kept := Prune(applied, cfg.dir, cands);
    PruneExactly(applied, cfg.dir, cands);
    assert kept[j] in cands;
  }

  /** A listed path, relative to the listing's root, spelt out by its components. */
  lemma ListedComponents(fs: Node, root: string, ex: Exclusions, rel: string, dir: string)
    requires WellFormed(fs) && IsDirAt(fs, root)
    requires rel in Relativise(root, MapPath(fs, root, ex))
    ensures rel == Join(Split(rel)) && Split(rel) != []
    ensures Listed(root, Lookup(fs, root).value, ex, Split(rel))
    ensures Split(dir + rel) == Split(dir) + Split(rel)
  {
    var k :| 0 <= k < |Relativise(root, MapPath(fs, root, ex))| && Relativise(root, MapPath(fs, root, ex))[k] == rel;
    ListingShape(fs, root, ex, k);
    SplitConcat(dir, rel);
  }

  /** A source path the release does not list is not at or above a path the release lists. */
  lemma ObsoleteNotAbove(cfg: Config, fs: Node, x: string, i: nat)
    requires WellFormed(fs) && IsDirAt(fs, cfg.dir) && IsDirAt(fs, Stage(cfg))
    requires x in SourceList(cfg, fs) && x !in ReleaseList(cfg, fs) && i < |ReleaseList(cfg, fs)|
    ensures !(Split(cfg.dir + x) <= Split(cfg.dir + ReleaseList(cfg, fs)[i]))
  {
    ListedComponents(fs, cfg.dir, SourceExclusions(cfg), x, cfg.dir);
    NotAboveListed(fs, Stage(cfg), ReleaseExclusions(cfg), cfg.dir, x, ReleaseList(cfg, fs)[i]);
  }

  lemma NotAboveListed(fs: Node, root: string, ex: Exclusions, dir: string, x: string, rel: string)
    requires WellFormed(fs) && IsDirAt(fs, root)
    requires x == Join(Split(x)) && Split(x) != [] && Split(dir + x) == Split(dir) + Split(x)
    requires rel in Relativise(root, MapPath(fs, root, ex)) && x !in Relativise(root, MapPath(fs, root, ex))
    ensures !(Split(dir + x) <= Split(dir + rel))
  {
    ListedComponents(fs, root, ex, rel, dir);
    var qx := Split(x);
    var qr := Split(rel);
    PrefixCancel(Split(dir), qx, qr);
    if qx <= qr && qx != qr {
      ListingClosed(fs, root, ex, qr, qx);
    }
  }

  /** No deletion path is at or above an installation path the copy pass wrote. */
  lemma DeletionNotAbove(cfg: Config, fs: Node, applied: Node, j: nat, i: nat)
    requires WellFormed(fs) && IsDirAt(fs, cfg.dir) && IsDirAt(fs, Stage(cfg))
    requires j < |DeletionList(cfg, fs, applied)| && i < |ReleaseList(cfg, fs)|
    ensures !(Split(DeletionList(cfg, fs, applied)[j]) <= Split(cfg.dir + ReleaseList(cfg, fs)[i]))
  {
    DeletionFrom(cfg, fs, applied, j);
    var x :| x in SourceList(cfg, fs) && x !in ReleaseList(cfg, fs)
      && DeletionList(cfg, fs, applied)[j] == cfg.dir + x;
    ObsoleteNotAbove(cfg, fs, x, i);
  }

  /** `Upgrade` leaves as it was every path that is at or above none of the installation
      paths it copies to (so what the installation alone has below a release directory
      survives) and unrelated to all the paths it deletes. */
  lemma UpgradeFrame(cfg: Config, fs: Node, faults: set<string>, r: seq<string>)
    requires forall rel :: rel in ReleaseList(cfg, fs) ==> !(r <= Split(cfg.dir + rel))
    requires forall p :: p in DeletionList(cfg, fs, Applied(cfg, fs, faults)) ==> Unrelated(Split(p), r)
    ensures Get(Upgrade(cfg, fs, faults).fs, r) == Get(fs, r)
  {
    var rels := ReleaseList(cfg, fs);
    ApplyAllFrame(fs, cfg.dir, Stage(cfg), rels, faults, r);
    var applied := Applied(cfg, fs, faults);
    var dels := DeletionList(cfg, fs, applied);
    DeleteAllFrame(applied, dels, faults, r);
  }

  /** A failing upgrade stops at its first failing step: either a copy failed, leaving the
      later copies and every deletion undone, or the copy pass went through and a deletion
      failed, leaving the later deletions undone. */
  lemma UpgradeFailFast(cfg: Config, fs: Node, faults: set<string>)
    requires !Upgrade(cfg, fs, faults).ok
    ensures var rels := ReleaseList(cfg, fs);
      var copied := ApplyAll(fs, cfg.dir, Stage(cfg), rels, faults);
      var dels := DeletionList(cfg, fs, copied.fs);
      || (&& !copied.ok && Upgrade(cfg, fs, faults).fs == copied.fs
          && exists i :: 0 <= i < |rels| && ApplyStopsAt(fs, cfg.dir, Stage(cfg), rels, faults, i))
      || (&& copied.ok && Upgrade(cfg, fs, faults) == DeleteAll(copied.fs, dels, faults)
          && exists i :: 0 <= i < |dels| && DeleteStopsAt(copied.fs, dels, faults, i))
  {
    var rels := ReleaseList(cfg, fs);
    var copied := ApplyAll(fs, cfg.dir, Stage(cfg), rels, faults);
    if !copied.ok {
      ApplyAllFailFast(fs, cfg.dir, Stage(cfg), rels, faults);
    } else {
      DeleteAllFailFast(copied.fs, DeletionList(cfg, fs, copied.fs), faults);
    }
  }
}
