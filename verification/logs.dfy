// Log retention: before a new log file is written, the listing of the log
// folder (without `.htaccess`) is reversed and entries are popped off its end
// until fewer than `maxLogs` remain; each popped path is unlinked.

module LogRetention {
  import opened Paths
  import opened FileSystem
  import opened PathMap

  /** `s` back to front. */
  function Reverse<T>(s: seq<T>): (r: seq<T>)
    ensures |r| == |s|
    ensures forall i :: 0 <= i < |s| ==> r[i] == s[|s| - 1 - i]
  {
    if s == [] then [] else Reverse(s[1..]) + [s[0]]
  }

  /** The logs a listing loses to retention, given the bound: all of them when the bound is
      below one. */
  function Excess(n: nat, maxLogs: int): nat {
    if maxLogs < 1 then n else if n >= maxLogs then n - maxLogs + 1 else 0
  }

  /**
   * The retention loop over a listing in map order, stopping once the listing is empty.
   * Returns the paths popped (in popping order) and what is left of the reversed listing.
   */
  method PruneLogs(listing: seq<string>, maxLogs: int) returns (removed: seq<string>, kept: seq<string>)
    ensures |removed| == Excess(|listing|, maxLogs)
    ensures removed == listing[..|removed|]
    ensures kept == Reverse(listing[|removed|..])
    ensures maxLogs >= 1 ==> |kept| < maxLogs
    ensures maxLogs < 1 ==> kept == []
  {
    var files := Reverse(listing);
    removed := [];
    if |files| >= maxLogs {
      while |files| > 0 && |files| >= maxLogs
        invariant |removed| <= |listing|
        invariant removed == listing[..|removed|]
        invariant files == Reverse(listing[|removed|..])
        invariant |removed| <= Excess(|listing|, maxLogs)
        decreases |files|
      {
        var last := files[|files| - 1];
        ReverseDropLast(listing[|removed|..]);
        assert listing[|removed|..][1..] == listing[|removed| + 1..];
        files := files[..|files| - 1];
        removed := removed + [last];
      }
    }
    kept := files;
  }

  /**
   * The retention loop as the code writes it, run for at most `fuel` rounds over the
   * reversed listing `files`: it pops while at least `maxLogs` entries remain, and popping
   * an empty list leaves it empty.  `None` means the loop was still running.
   */
  function RetentionLoop(files: seq<string>, removed: seq<string>, maxLogs: int, fuel: nat): Option<(seq<string>, seq<string>)>
    decreases fuel
  {
    if |files| < maxLogs then Some((removed, files))
    else if fuel == 0 then None
    else if files == [] then RetentionLoop(files, removed, maxLogs, fuel - 1)
    else RetentionLoop(files[..|files| - 1], removed + [files[|files| - 1]], maxLogs, fuel - 1)
  }

  /** With a bound below one the loop as written never stops, whatever the listing and
      however many rounds it is given: once the list is empty its count 0 still reaches the bound. */
  lemma {:induction false} RetentionNeverEnds(files: seq<string>, removed: seq<string>, maxLogs: int, fuel: nat)
    requires maxLogs < 1
    ensures RetentionLoop(files, removed, maxLogs, fuel) == None
    decreases fuel
  {
    if fuel > 0 {
      if files == [] {
        RetentionNeverEnds(files, removed, maxLogs, fuel - 1);
      } else {
        RetentionNeverEnds(files[..|files| - 1], removed + [files[|files| - 1]], maxLogs, fuel - 1);
      }
    }
  }

  /** With a bound of at least one the loop as written stops within `Excess` rounds and
      ends where `PruneLogs` does: the first `Excess` logs popped, the rest kept reversed. */
  lemma {:induction false} RetentionLoopAgrees(listing: seq<string>, k: nat, maxLogs: int, fuel: nat)
    requires maxLogs >= 1 && k <= Excess(|listing|, maxLogs) <= |listing|
    requires fuel >= Excess(|listing|, maxLogs) - k
    ensures var e := Excess(|listing|, maxLogs);
      RetentionLoop(Reverse(listing[k..]), listing[..k], maxLogs, fuel) == Some((listing[..e], Reverse(listing[e..])))
    decreases fuel
  {
    var files := Reverse(listing[k..]);
    if |files| >= maxLogs {
      ReverseDropLast(listing[k..]);
      assert listing[k..][1..] == listing[k + 1..];
      assert listing[..k] + [listing[k]] == listing[..k + 1];
      RetentionLoopAgrees(listing, k + 1, maxLogs, fuel - 1);
    }
  }

  /** Popping the reversal of `s` yields its first element and leaves the reversal of the rest. */
  lemma ReverseDropLast<T>(s: seq<T>)
    requires s != []
    ensures Reverse(s)[|s| - 1] == s[0]
    ensures Reverse(s)[..|s| - 1] == Reverse(s[1..])
  {
  }

  /** Reversal is its own inverse. */
  lemma {:induction false} ReverseReverse<T>(s: seq<T>)
    ensures Reverse(Reverse(s)) == s
  {
    var r := Reverse(Reverse(s));
    assert forall i :: 0 <= i < |s| ==> r[i] == s[i];
  }

  /**
   * Retention splits the listing: the removed logs followed by what is kept,
   * read in map order, are exactly the listing, and the kept part is the
   * newest `|listing| - Excess` logs.
   */
  lemma PruneLogsPartition(listing: seq<string>, maxLogs: int, removed: seq<string>, kept: seq<string>)
    requires |removed| == Excess(|listing|, maxLogs)
    requires removed == listing[..|removed|]
    requires kept == Reverse(listing[|removed|..])
    ensures removed + Reverse(kept) == listing
    ensures |removed| + |kept| == |listing|
    ensures maxLogs >= 1 && |listing| >= maxLogs ==> |kept| == maxLogs - 1
    ensures |listing| < maxLogs ==> removed == [] && Reverse(kept) == listing
  {
    ReversedTail(listing, |removed|, kept);
  }

  lemma ReversedTail(listing: seq<string>, k: nat, kept: seq<string>)
    requires k <= |listing| && kept == Reverse(listing[k..])
    ensures listing[..k] + Reverse(kept) == listing
    ensures |kept| == |listing| - k
  {
    ReverseReverse(listing[k..]);
    assert listing[..k] + listing[k..] == listing;
  }

  /** The log folder below the installation directory. */
  function LogFolder(dir: string): string {
    dir + "/update/log"
  }

  /** The log folder's listing, the access-control file excluded by name. */
  function LogListing(fs: Node, dir: string): seq<string> {
    MapPath(fs, LogFolder(dir), Exclusions([], [".htaccess"]))
  }

  /** `.htaccess` is not a numeric string, so the loose `in_array` test of the log listing
      matches it byte-wise, as the model does. */
  lemma HtaccessNotNumeric()
    ensures !NumericString(".htaccess")
  {
    NotNumericStart(".htaccess");
  }

  /** Retention never picks the folder's `.htaccess`: every listed file lies below the log
      folder and has another basename. */
  lemma LogListingSparesHtaccess(fs: Node, dir: string, x: string)
    requires WellFormed(fs) && IsDirAt(fs, LogFolder(dir))
    requires x in LogListing(fs, dir)
    ensures StartsWith(x, LogFolder(dir) + "/")
    ensures IsFileAt(fs, x) ==> Basename(x) != ".htaccess"
  {
    MapPathSound(fs, LogFolder(dir), Exclusions([], [".htaccess"]), x);
  }

  /** Lists the log folder and applies retention ahead of writing a new log. */
  method Log(fs: Node, dir: string, maxLogs: int) returns (removed: seq<string>, kept: seq<string>)
    ensures |removed| == Excess(|LogListing(fs, dir)|, maxLogs)
    ensures removed + Reverse(kept) == LogListing(fs, dir)
    ensures maxLogs >= 1 ==> |kept| < maxLogs
    ensures maxLogs < 1 ==> kept == []
  {
    var listing := LogListing(fs, dir);
    removed, kept := PruneLogs(listing, maxLogs);
    PruneLogsPartition(listing, maxLogs, removed, kept);
  }
}
