// The run-level state machine of the updater: Lock, Folder, the .htaccess
// guard, the version check, the bounded download retry, Extract, Upgrade and
// Unlock, and the mail decision in `update`.  Every external step is an
// outcome read from an `Env`; the version order is a relation passed in.

module Updater {
  import opened FileSystem

  /** The five status values of the updater. */
  datatype Status = Init | Updated | Latest | Error | Busy

  /** The three working folders below the installation directory. */
  datatype Folder = UpdateDir | LogDir | ExtractDir

  /** Externally visible calls a run makes, in order. */
  datatype Event =
    | MarkerWrite(attempt: nat)
    | Download(attempt: nat)
    | Extract
    | Upgrade
    | Unlock
    | Mail

  /**
   * Outcomes of everything outside the model: which folders exist and which
   * cannot be created, whether `update.lock` is already present, the result
   * of each attempt to write it, the `.htaccess` state, the release tag the
   * version lookup returns (None when it fails), the installed version, the
   * result of each archive download, and the outcomes of extraction, the
   * upgrade and the clean-up.
   */
  datatype Env = Env(
    folders: set<Folder>,
    unmakeable: set<Folder>,
    marker: bool,
    markerWrites: seq<bool>,
    htaccess: bool,
    htaccessWrite: bool,
    release: Option<string>,
    installed: string,
    downloads: seq<bool>,
    extract: bool,
    upgrade: bool,
    cleanup: bool)

  /** Attempt `i` to write the lock marker succeeds. */
  predicate Written(env: Env, i: nat) {
    i < |env.markerWrites| && env.markerWrites[i]
  }

  /** Call `k` to download the release archive succeeds. */
  predicate Downloaded(env: Env, k: nat) {
    k < |env.downloads| && env.downloads[k]
  }

  /** Folder `f` is present after asking for it. */
  predicate Obtainable(env: Env, f: Folder) {
    f in env.folders || f !in env.unmakeable
  }

  /** Number of download calls in a trace. */
  function Downloads(trace: seq<Event>): nat {
    if trace == [] then 0
    else Downloads(trace[..|trace| - 1]) + (if trace[|trace| - 1].Download? then 1 else 0)
  }

  lemma {:induction false} DownloadsConcat(a: seq<Event>, b: seq<Event>)
    ensures Downloads(a + b) == Downloads(a) + Downloads(b)
    decreases |b|
  {
    if b != [] {
      assert (a + b)[..|a + b| - 1] == a + b[..|b| - 1];
      DownloadsConcat(a, b[..|b| - 1]);
    } else {
      assert a + b == a;
    }
  }

  /** A trace of n download calls counts n; one without any counts 0. */
  lemma {:induction false} DownloadsAll(t: seq<Event>, all: bool)
    requires forall k :: 0 <= k < |t| ==> t[k].Download? == all
    ensures Downloads(t) == if all then |t| else 0
    decreases |t|
  {
    if t != [] {
      DownloadsAll(t[..|t| - 1], all);
    }
  }

  /** Downloads counted across the three segments of a run. */
  lemma DownloadsOf(a: seq<Event>, f: seq<Event>, b: seq<Event>)
    requires forall k :: 0 <= k < |a| ==> !a[k].Download?
    requires forall k :: 0 <= k < |f| ==> f[k].Download?
    requires forall k :: 0 <= k < |b| ==> !b[k].Download?
    ensures Downloads(a + f + b) == |f|
  {
    DownloadsAll(a, false);
    DownloadsAll(f, true);
    DownloadsAll(b, false);
    DownloadsConcat(a, f);
    DownloadsConcat(a + f, b);
  }

  /** Neither Unlock nor Mail occurs, and marker writes number their attempts below three. */
  predicate Quiet(t: seq<Event>) {
    forall k :: 0 <= k < |t| ==> t[k] != Unlock && t[k] != Mail && (t[k].MarkerWrite? ==> t[k].attempt < 3)
  }

  /** The events of a run that passes Lock: marker writes, downloads, later steps, Unlock. */
  lemma RunShape(l: seq<Event>, f: seq<Event>, rest: seq<Event>)
    requires forall k :: 0 <= k < |l| ==> l[k] == MarkerWrite(k)
    requires |l| <= 3
    requires forall k :: 0 <= k < |f| ==> f[k].Download?
    requires forall k :: 0 <= k < |rest| ==> rest[k] == Extract || rest[k] == Upgrade
    ensures Quiet(l + f + rest)
    ensures Extract in l + f + rest ==> Extract in rest
    ensures Downloads(l + f + rest + [Unlock]) == |f|
  {
    DownloadsOf(l, f, rest + [Unlock]);
    assert l + f + (rest + [Unlock]) == l + f + rest + [Unlock];
  }

  // ---------------------------------------------------------------------
  // Reference conditions, stated without the control flow
  // ---------------------------------------------------------------------

  /** The lock is taken: both folders obtainable, no marker, and one of three writes works. */
  predicate LockSucceeds(env: Env) {
    Obtainable(env, UpdateDir) && Obtainable(env, LogDir) && !env.marker
    && exists i :: 0 <= i < 3 && Written(env, i)
  }

  /** The run reaches the version comparison with a release tag in hand. */
  predicate Prepared(env: Env) {
    LockSucceeds(env) && Obtainable(env, ExtractDir)
    && (env.htaccess || env.htaccessWrite) && env.release.Some?
  }

  /** The release is newer than the installed version. */
  predicate Newer(env: Env, greater: (string, string) -> bool)
    requires env.release.Some?
  {
    greater(env.release.value, env.installed)
  }

  /** One of at most four download calls succeeds. */
  predicate DownloadSucceeds(env: Env) {
    exists k :: 0 <= k < 4 && Downloaded(env, k)
  }

  // ---------------------------------------------------------------------
  // Steps
  // ---------------------------------------------------------------------

  /** Creates folder `f` unless it is present; reports whether it is present afterwards. */
  function CreateFolder(folders: set<Folder>, unmakeable: set<Folder>, f: Folder): (r: (bool, set<Folder>))
    ensures r.0 <==> f in r.1
    ensures r.0 <==> f in folders || f !in unmakeable
    ensures folders <= r.1 <= folders + {f}
  {
    if f in folders then (true, folders)
    else if f in unmakeable then (false, folders)
    else (true, folders + {f})
  }

  /**
   * Creates the update and log folders, then makes at most three attempts to
   * write the marker, each only while no marker exists.
   */
  method Lock(env: Env) returns (ok: bool, folders: set<Folder>, trace: seq<Event>)
    ensures ok <==> LockSucceeds(env)
    ensures |trace| <= 3
    ensures forall i :: 0 <= i < |trace| ==> trace[i] == MarkerWrite(i)
    ensures env.marker ==> trace == []
    ensures ok ==> |trace| >= 1 && Written(env, |trace| - 1)
    ensures forall i :: 0 <= i < |trace| - 1 ==> !Written(env, i)
    ensures ok ==> UpdateDir in folders && LogDir in folders
    ensures env.folders <= folders <= env.folders + {UpdateDir, LogDir}
  {
    trace := [];
    var r := CreateFolder(env.folders, env.unmakeable, UpdateDir);
    folders := r.1;
    if !r.0 {
      return false, folders, trace;
    }
    r := CreateFolder(folders, env.unmakeable, LogDir);
    folders := r.1;
    if !r.0 {
      return false, folders, trace;
    }
    var i := 0;
    while i < 3
      invariant 0 <= i <= 3
      invariant env.marker ==> trace == []
      invariant !env.marker ==> |trace| == i
      invariant forall j :: 0 <= j < |trace| ==> trace[j] == MarkerWrite(j) && !Written(env, j)
      invariant forall j :: 0 <= j < i ==> env.marker || !Written(env, j)
    {
      if !env.marker {
        trace := trace + [MarkerWrite(i)];
        if Written(env, i) {
          return true, folders, trace;
        }
      }
      i := i + 1;
    }
    return false, folders, trace;
  }

  /** Ensures the update, log and extract folders exist. */
  function MakeFolders(env: Env, folders: set<Folder>): (r: (bool, set<Folder>))
    ensures r.0 <==> {UpdateDir, LogDir, ExtractDir} <= r.1
    ensures folders <= r.1
    ensures UpdateDir in folders && LogDir in folders ==>
      (r.0 <==> ExtractDir in folders || ExtractDir !in env.unmakeable)
  {
    var u := CreateFolder(folders, env.unmakeable, UpdateDir);
    if !u.0 then u
    else
      var l := CreateFolder(u.1, env.unmakeable, LogDir);
      if !l.0 then l
      else CreateFolder(l.1, env.unmakeable, ExtractDir)
  }

  /**
   * Retries the archive download: a call is made, and each failure bumps the
   * retry counter; a fourth failure gives up.
   */
  method Fetch(env: Env) returns (ok: bool, trace: seq<Event>)
    ensures ok <==> DownloadSucceeds(env)
    ensures 1 <= |trace| <= 4
    ensures forall k :: 0 <= k < |trace| ==> trace[k] == Download(k)
    ensures ok ==> Downloaded(env, |trace| - 1)
    ensures forall k :: 0 <= k < |trace| - 1 ==> !Downloaded(env, k)
    ensures !ok ==> |trace| == 4
  {
    var tries := 0;
    trace := [Download(0)];
    var got := Downloaded(env, 0);
    while !got
      invariant 0 <= tries <= 3
      invariant |trace| == tries + 1
      invariant forall k :: 0 <= k < |trace| ==> trace[k] == Download(k)
      invariant got == Downloaded(env, tries)
      invariant forall k :: 0 <= k < tries ==> !Downloaded(env, k)
      decreases 3 - tries
    {
      tries := tries + 1;
      if tries > 3 {
        return false, trace;
      }
      trace := trace + [Download(tries)];
      got := Downloaded(env, tries);
    }
    return true, trace;
  }

  /**
   * The steps between taking the lock and releasing it: folders, `.htaccess`, the version
   * check and comparison, the download retry, Extract and Upgrade.  Returns the status the
   * run reaches before Unlock, the download calls, and the later steps reached.
   */
  method Steps(env: Env, greater: (string, string) -> bool, locked: bool, folders: set<Folder>)
    returns (verdict: Status, fetchTrace: seq<Event>, rest: seq<Event>)
    requires locked <==> LockSucceeds(env)
    requires env.folders <= folders <= env.folders + {UpdateDir, LogDir}
    requires locked ==> UpdateDir in folders && LogDir in folders
    ensures verdict in {Updated, Latest, Error}
    ensures verdict == Latest <==> Prepared(env) && !Newer(env, greater)
    ensures verdict == Updated <==>
      Prepared(env) && Newer(env, greater) && DownloadSucceeds(env) && env.extract && env.upgrade
    ensures |fetchTrace| <= 4 && forall k :: 0 <= k < |fetchTrace| ==> fetchTrace[k].Download?
    ensures forall k :: 0 <= k < |rest| ==> rest[k] == Extract || rest[k] == Upgrade
    ensures Extract in rest ==> DownloadSucceeds(env)
  {
    fetchTrace := [];
    rest := [];
    if !locked {
      verdict := Error;
    } else if !MakeFolders(env, folders).0 {
      verdict := Error;
    } else if !env.htaccess && !env.htaccessWrite {
      verdict := Error;
    } else if env.release.None? {
      verdict := Error;
    } else if !greater(env.release.value, env.installed) {
      verdict := Latest;
    } else {
      var fetched;
      fetched, fetchTrace := Fetch(env);
      if !fetched {
        verdict := Error;
      } else {
        rest := [Extract];
        if !env.extract {
          verdict := Error;
        } else {
          rest := rest + [Upgrade];
          verdict := if env.upgrade then Updated else Error;
        }
      }
    }
  }

  /** One run of the updater. */
  method Install(env: Env, greater: (string, string) -> bool) returns (status: Status, trace: seq<Event>)
    ensures status in {Updated, Latest, Error, Busy}
    ensures status == Busy <==> !LockSucceeds(env) && env.marker
    ensures status == Busy ==> Quiet(trace)
    ensures status != Busy ==> |trace| >= 1 && trace[|trace| - 1] == Unlock && Quiet(trace[..|trace| - 1])
    ensures status != Busy && !env.cleanup ==> status == Error
    ensures status == Latest <==> Prepared(env) && !Newer(env, greater) && env.cleanup
    ensures status == Updated <==>
      Prepared(env) && Newer(env, greater) && DownloadSucceeds(env) && env.extract && env.upgrade && env.cleanup
    ensures Downloads(trace) <= 4
    ensures Extract in trace ==> DownloadSucceeds(env)
  {
    var locked, folders, lockTrace := Lock(env);
    if !locked && env.marker {
      return Busy, lockTrace;
    }
    // Every other exit reaches a status, then calls Unlock once; a failed clean-up in
    // Unlock turns the status into Error before the marker is removed.
    var verdict, fetchTrace, rest := Steps(env, greater, locked, folders);
    status := if env.cleanup then verdict else Error;
    RunShape(lockTrace, fetchTrace, rest);
    trace := lockTrace + fetchTrace + rest + [Unlock];
    assert trace[..|trace| - 1] == lockTrace + fetchTrace + rest;
  }

  /** Runs Install and mails the administrator when it ends in Error and both addresses are set. */
  method Update(env: Env, greater: (string, string) -> bool, admin: string, mailer: string)
    returns (status: Status, trace: seq<Event>)
    ensures status in {Updated, Latest, Error, Busy}
    ensures status == Busy <==> env.marker
    ensures Mail in trace <==> status == Error && admin != "" && mailer != ""
    ensures status != Busy && !env.cleanup ==> status == Error
  {
    status, trace := Install(env, greater);
    if status == Error && admin != "" && mailer != "" {
      trace := trace + [Mail];
    }
  }
}
