# A Dafny model of the PHP GitHub self-updater

The updater keeps an installation directory (`dir`) in step with the latest
GitHub release of a repository. One run (`update`, then `Install`) does the following:

- takes a lock file `dir/update.lock`;
- makes the working folders `dir/update`, `dir/update/log` and `dir/update/extract`;
- guards the log folder with an `.htaccess` file;
- fetches the release tag and compares it with the installed version;
- downloads the release archive, retrying a bounded number of times;
- extracts the archive to `dir/update/extract/<repository>` (the *staging tree*);
- runs `Upgrade`, which synchronises the installation with the staging tree;
- unlocks, which cleans up and removes the lock file;
- mails the administrator when the run ends in ERROR.

`Upgrade` lists both trees with `MapPath` and strips the root prefix from every listed path.
It copies every release entry into place, failing fast. It then deletes every source path
that the release does not list. Before deleting, it prunes from that list whatever lies
below a directory that is itself being deleted. `Delete` removes a tree depth first. Before
each new log is written, the log folder is trimmed to fewer than `maxLogs` files.

The model is one Dafny project of nine modules:

| module | file | models |
|---|---|---|
| `Paths` | paths.dfy | path strings: `rtrim`, `basename`, `substr_replace`, splitting into components |
| `FileSystem` | filesystem.dfy | one directory tree rooted at `/`; lookup, replace or remove a node, `mkdir -p` |
| `PathMap` | mappath.dfy | `MapPath` |
| `Removal` | delete.dfy | `Delete` |
| `Plan` | plan.dfy | `array_unique`, relativising, `array_diff`, the pruning loop |
| `Apply` | apply.dfy | the copy pass and the deletion pass of `Upgrade` |
| `Upgrading` | upgrade.dfy | `Upgrade` put together, with the default exclusions |
| `Updater` | install.dfy | `Lock`, `Folder`, `Unlock`, `Install`, `update` |
| `LogRetention` | logs.dfy | the retention loop of `Log` |

Modelling choices:

- **Tree.** A node is `File(bytes)` or `Dir(entries)`. The walk visits a directory's entries
  in the order they are stored, and that order is arbitrary: `scandir`'s ascending sort is
  one possible order, and no lemma depends on it. `.` and `..` are not stored.
- **Paths.** A path is resolved by splitting on `/` and dropping empty components. Paths are
  canonical, so `realpath` is the identity.
- **Failures.** Failing filesystem calls are a set `faults` of absolute paths. A `mkdir`,
  write, read, `unlink` or `rmdir` on such a path fails.
- **Run outcomes.** The outcomes of the run's external steps are fields of `Updater.Env`,
  one per attempt where the code retries. The steps are folder creation, the marker write,
  `.htaccess`, the release lookup, the download, extraction, the upgrade and clean-up.
- **Version order.** `version_compare(…, '>')` is a relation `greater` passed to `Install`.

How the model reads the code:

- **Pruning.** The pruning loop compares plain string prefixes. So when `/a` is a directory
  being deleted, `/ab` is dropped from the deletion list as well. `Plan.PruneDropsSibling`
  exhibits this. The rest of the model keeps that behaviour, and `UpgradeRemovesObsolete`
  says accordingly that an obsolete path is gone, or a directory whose name is a string
  prefix of it is gone.
- **Exclusions under a deleted directory.** A directory picked for deletion is removed
  together with everything below it, excluded paths included. No lemma here claims that
  exclusions protect such paths.
- **Loose comparison.** PHP's `==`, `!=` and `in_array` compare two numeric strings by value
  and anything else byte-wise; `Paths.NumericString` is PHP 8's numeric-string syntax. The
  pruning loop compares relative paths, which begin with `/` and so are never numeric
  (`Paths.SlashedNotNumeric`); these comparisons are byte-wise here as in the code. The
  filename exclusions of `MapPath` use `in_array`, which the model reads as exact
  membership. That agrees with the code for every non-numeric excluded filename, which
  covers the built-in ones (`Upgrading.ReleaseDefaultsNotNumeric`,
  `LogRetention.HtaccessNotNumeric`). A configured numeric one such as `1` also hides
  `01`, `1.0` and `1e0` in the code, since these are numeric strings too
  (`Paths.NumericSamples`) and PHP compares them with `1` by value; the model does not; see
  "Left out".
- **Unlock after a lock failure.** The code calls `Unlock` when the lock could not be taken
  and no marker exists: it runs clean-up and tries to delete a marker that is not there. The
  model follows the code. Every exit except BUSY unlocks exactly once.
- **Busy.** If the marker exists, `Lock` fails whether the folders could be made or not, so
  BUSY happens exactly when the marker is present at the start.

## Model

| member | source | states |
|---|---|---|
| Paths.WithSlash | src/Updater.php:707-716 | the result extends the input by at most one character and ends in `/` |
| Paths.WithSlashShortest | src/Updater.php:707-716 | no `/`-terminated extension of the input is shorter than the result, so the input comes back unchanged when it already ends in `/` |
| Paths.TrimSlashes | src/Updater.php:726-728 | the result is a prefix of the input that does not end in `/`, and everything stripped was `/` |
| Paths.DropPrefix | src/Updater.php:480-482 | removing the first `n` characters leaves a string `n` characters shorter, or the empty string when `n` exceeds the length |
| Paths.DropPrefixRoundTrip | src/Updater.php:480-482 | for a path that starts with the root, the root followed by the relativised path is the original path |
| Paths.TrimWithSlash | src/Updater.php:705-728 | appending `/` to a listed child path and `rtrim`-ming it again gives the child path back |
| Paths.BasenameChild | src/Updater.php:741-745 | `basename` of `p/name` is `name` |
| Paths.SlashedNotNumeric | src/Updater.php:540 | a string starting with `/` is never a numeric string, so the loop's `!=` and `==` on relative paths compare byte-wise |
| Paths.NumericSamples | src/Updater.php:744 | `01`, `1.0` and `1e0` are PHP numeric strings |
| Paths.SplitJoin | src/Updater.php:502-503 | spelling valid components as a path and resolving it again gives the same components |
| FileSystem.MakeDirsGet | src/Updater.php:505-506 | after `mkdir -p` every proper ancestor of the target is a directory, the target is an empty directory, and every unrelated path is unchanged |
| FileSystem.GetSetFrame | src/Updater.php:520-527 | writing or removing the node at one path leaves every path that is neither above nor below it unchanged |
| PathMap.MapPathExactly | src/Updater.php:691-753 | a path is listed iff it is the root followed by the components of an existing node, no prefix of the way down is path-excluded, and a file's basename is not filename-excluded |
| PathMap.MapPathSound | src/Updater.php:705-749 | every listed path lies strictly below the start, is not path-excluded, has no trailing `/`, exists, and, if a file, has a non-excluded basename |
| PathMap.MapPathKeepsDirectories | src/Updater.php:733-738 | a directory that no path exclusion hides is listed, whatever the filename exclusions say |
| PathMap.MapPathTopDown | src/Updater.php:733-738 | the listing has no duplicates, and no entry is followed by one of its ancestors |
| Removal.DeleteNodeOrder | src/Updater.php:757-764 | a node is removed iff nothing of it is left; removal order is children before parent; a removed directory goes last; only existing nodes are removed |
| Removal.DeleteNodeSucceeds | src/Updater.php:757-764 | deleting a subtree succeeds iff no node in it refuses removal |
| Removal.DeleteNodeComplete | src/Updater.php:757-762 | when deletion succeeds, every node of the subtree was removed |
| Removal.DeleteEffect | src/Updater.php:755-767 | a path that is neither file nor directory gives false and no change; success leaves nothing at the path; paths neither above nor below it are unchanged |
| Removal.DeleteSucceeds | src/Updater.php:755-767 | for an existing non-root path, `Delete` returns true iff no node below refuses removal; removal is children first; on success every node went |
| Plan.Unique | src/Updater.php:469 | `array_unique` keeps exactly the values of the input, each once |
| Plan.UniqueDistinct | src/Updater.php:469 | a list without repetitions is unchanged by `array_unique` |
| Plan.Relativise | src/Updater.php:480-482 | the relative list has the same length, and the root followed by each relative path is the listed path |
| Plan.Absolutise | src/Updater.php:547-549 | every deletion path begins with the installation directory, one per relative path |
| Plan.RelativiseAbsolutise | src/Updater.php:547-549 | prefixing the root and relativising again gives the relative list back |
| Plan.AbsolutiseRelativise | src/Updater.php:480-482 | relativising a listing below the root and prefixing the root again gives the listing back |
| Plan.Difference | src/Updater.php:535 | a path is in the delete list iff the source lists it and the release does not |
| Plan.DifferenceBounds | src/Updater.php:535 | with no overlap the delete list is the whole source list; when the release lists everything the source lists it is empty |
| Plan.DifferenceKeepsOrder | src/Updater.php:535 | the delete list keeps source order |
| Plan.Uncovered | src/Updater.php:537-545 | the reference pruning keeps a candidate iff no candidate directory other than it is a string prefix of it |
| Plan.PruneExactly | src/Updater.php:537-545 | the pruning loop equals the reference pruning: a candidate survives iff no other candidate of the unpruned list is an installed directory and a string prefix of it; no survivor covers another |
| Plan.PruneCovers | src/Updater.php:537-545 | every candidate either survives or lies below a surviving directory candidate |
| Plan.PruneKeepsOrder | src/Updater.php:537-545 | survivors keep their relative order |
| Plan.PruneDropsSibling | src/Updater.php:540 | with `/a` an installed directory, pruning `["/a", "/ab"]` keeps only `/a`, although `/ab` is not below `/a` |
| Apply.ApplyEntryEffect | src/Updater.php:504-531 | a failed entry changes nothing; a successful one leaves a directory where the release has one and the release's file content where it has a file |
| Apply.ApplyEntryFrame | src/Updater.php:501-533 | an entry changes no path other than its installation path and the directories above it: unrelated paths, and whatever the installation already has below it, are as they were |
| Apply.ApplyEntryBelow | src/Updater.php:504-531 | below its installation path an entry changes nothing: an existing directory is skipped, and a new directory or file has nothing below it, as before |
| Apply.ApplyAllEffect | src/Updater.php:501-533 | after a successful copy pass, every release directory is a directory in the installation and every release file is there with the release's content |
| Apply.ApplyAllFrame | src/Updater.php:501-533 | the copy pass leaves unchanged every path that is at or above none of the installation paths, so installation-only content below a release directory survives |
| Apply.ApplyAllFailFast | src/Updater.php:501-533 | a failing copy pass stops at the first failing entry: the entries before it went through and nothing after it was applied |
| Apply.DeleteAllEffect | src/Updater.php:552-559 | after a successful deletion pass, nothing is left at any deleted path |
| Apply.DeleteAllKeeps | src/Updater.php:552-559 | what the copy pass installed survives deletions that are at or above none of it |
| Apply.DeleteAllFrame | src/Updater.php:552-559 | the deletion pass leaves every path unrelated to all deletion paths unchanged |
| Apply.DeleteAllFailFast | src/Updater.php:552-559 | a failing deletion pass stops at the first failing path, with every earlier path deleted and no later one attempted |
| Upgrading.SourceExclusions | src/Updater.php:466-473 | the source exclusions are the four defaults below `dir` (`.git`, `update`, `update.lock`, `vendor`) plus the configured paths, and exactly the configured filenames |
| Upgrading.ReleaseExclusions | src/Updater.php:484-489 | the release exclusions are the configured paths, and the filenames `composer.phar`, `.gitignore`, `.gitkeep` plus the configured ones |
| Upgrading.ReleaseDefaultsNotNumeric | src/Updater.php:487 | none of `composer.phar`, `.gitignore`, `.gitkeep` is a numeric string, so `in_array` matches them byte-wise |
| Upgrading.ListingShape | src/Updater.php:477-497 | each relative listed path is the components of a listed node spelled out, and the root plus it resolves below the root |
| Upgrading.ListingOrdered | src/Updater.php:492-501 | in the relative release list no entry comes after one of its own descendants, so parents are created before children |
| Upgrading.ReleaseClear | src/Updater.php:492-503 | when the release has no top-level `update` entry, no installation path of a release entry is at, above or below a staging path |
| Upgrading.DeletionsSpareExcluded | src/Updater.php:466-469 | every deletion path lies strictly below `dir`, is not excluded, and is below none of the four default source exclusions |
| Upgrading.DeletionNotAbove | src/Updater.php:535-549 | no deletion path is at or above the installation path of a release entry |
| Upgrading.UpgradeInstallsRelease | src/Updater.php:462-561 | after a successful upgrade every release directory is a directory of the installation, and every release file is there with its content |
| Upgrading.UpgradeRemovesObsolete | src/Updater.php:535-560 | after a successful upgrade, a path the source listed and the release did not is gone, or a deleted directory is a string prefix of it |
| Upgrading.UpgradeFrame | src/Updater.php:501-560 | an upgrade leaves unchanged every path that is at or above no installation path of a release entry and unrelated to every deletion path |
| Upgrading.UpgradeFailFast | src/Updater.php:501-560 | a failed upgrade stopped at its first failing copy, with no deletion done, or at its first failing deletion after a complete copy pass |
| Updater.CreateFolder | src/Updater.php:295-312 | the folder is reported present iff it was present or can be made; at most that folder is added |
| Updater.Lock | src/Updater.php:244-262 | the lock is taken iff both folders are obtainable, no marker exists and one of the first three writes works; at most three writes, none with a marker present, and the lock is taken on the first write that works |
| Updater.MakeFolders | src/Updater.php:281-293 | success iff the update, log and extract folders all exist afterwards; once Lock made the first two, iff the extract folder is obtainable |
| Updater.Fetch | src/Updater.php:661-673 | one to four download calls; success iff one of the first four works, on the first that does; four calls when all fail |
| Updater.Steps | src/Updater.php:629-684 | the steps after `Lock`, before `Unlock`: the verdict is UPDATED, LATEST or ERROR; LATEST iff the lock was taken, the folders, `.htaccess` and release tag are in place and the release is not newer; UPDATED iff it is newer and the download, extraction and upgrade all work; at most four downloads, and extraction only after one succeeded |
| Updater.Install | src/Updater.php:620-689 | the run ends in UPDATED, LATEST, ERROR or BUSY; BUSY iff the lock fails with the marker present, with no Unlock; otherwise Unlock exactly once, as the last event; failed clean-up forces ERROR; LATEST iff all steps up to the comparison work, the release is not newer and clean-up works; UPDATED iff every step works; at most four downloads; Extract only after a successful download |
| Updater.Update | src/Updater.php:144-154 | a mail is sent iff the run ended in ERROR and both addresses are set; BUSY iff the marker was present |
| LogRetention.PruneLogs | src/Updater.php:158-168 | the corrected loop (see "Findings"): with `maxLogs >= 1` exactly `max(0, n - maxLogs + 1)` logs are removed, the earliest in listing order, and fewer than `maxLogs` are left; with `maxLogs < 1` every log is removed |
| LogRetention.RetentionNeverEnds | src/Updater.php:162-168 | with `maxLogs < 1` the loop as written has not stopped after any number of rounds, for every listing including the empty one |
| LogRetention.RetentionLoopAgrees | src/Updater.php:158-168 | with `maxLogs >= 1` the loop as written stops and pops exactly the logs `PruneLogs` removes, leaving the same reversed remainder |
| LogRetention.PruneLogsPartition | src/Updater.php:158-168 | removed then kept (in listing order) is the whole listing; with `maxLogs >= 1` and at least `maxLogs` logs exactly `maxLogs - 1` are kept; with fewer than `maxLogs` logs nothing is removed |
| LogRetention.HtaccessNotNumeric | src/Updater.php:158 | `.htaccess` is not a numeric string, so the loose filename test matches it byte-wise |
| LogRetention.LogListingSparesHtaccess | src/Updater.php:158 | every retention candidate lies below the log folder, and no candidate file is named `.htaccess` |
| LogRetention.Log | src/Updater.php:156-168 | the log folder's listing splits into the removed logs followed by the kept ones, with the removal count above, fewer than `maxLogs` kept when `maxLogs >= 1` and none kept otherwise |

## Left out

- Network access. The release lookup and the archive download (`Download`, src/Updater.php:339-430) use curl and the GitHub API. They are modelled as outcomes: the tag, or none, and one success flag per download call.
- Archive handling. Extraction and the folder rename in `Extract`, and the re-archiving in `CleanUp` (src/Updater.php:432-460, 563-618), use ZipArchive and `glob`. They are modelled as boolean outcomes.
- Notification. The message body and `mail()` call in `Mail` (src/Updater.php:179-242) are left out; only the decision to mail is modelled.
- Time and logging. Timestamps, `sleep`, the log lines and writing the new log file are left out. They carry no decision.
- Version comparison. `version_compare` is a relation parameter, not PHP's algorithm.
- Filesystem details. `realpath` (beyond the root caveat under `PathMap.MapPathExactly` below), symbolic links, permission modes and `is_dir`/`is_file` on other node kinds are left out. Paths are canonical and the tree has only files and directories.
- Lock atomicity. The check-then-create on `update.lock` is not atomic across processes. One run is modelled, and the marker is a single boolean.
- `.htaccess` content. Checking it and writing it are two booleans, present-and-correct and write-succeeds. The text itself is not modelled.
- LogRetention.PruneLogs: it returns the paths it pops but does not apply `unlink` to the tree. Each popped path gets a no-op (nothing there), a file removal, or a failing `unlink` of a subdirectory, since `MapPath` also lists directories of the log folder; the loop ignores the result.
- LogRetention.PruneLogs: it models the loop with an added stop on an empty listing (see "Findings"). The code as written never stops when `maxLogs < 1`; `LogRetention.RetentionLoop` models that loop, and `LogRetention.RetentionNeverEnds` proves the hang.
- PathMap.MapPathExactly: filename exclusions are matched byte-wise. PHP's `in_array` also matches two numeric strings of equal value, so a configured numeric excluded filename such as `1` hides `01` or `1.0` in the code but not in the model. The built-in excluded filenames are not numeric, so for them the two agree. Modelling the numeric case needs PHP's float parsing.
- PathMap.MapPathSound: its filename clause has the same byte-wise reading of `in_array` as `PathMap.MapPathExactly`.
- PathMap.MapPathExactly: the lemmas hold for every root string, but they describe the code only for a canonical root (no trailing or doubled `/`, not `/` itself). The code recurses on `realpath` of each child, which rewrites a non-canonical prefix; the model keeps the root as spelled.
- Apply.ApplyEntryEffect: a failing entry changes nothing in the model; faults strike before any effect. In the code `mkdir($path, 0755, true)` keeps the parents it made when a deeper level fails, and `file_put_contents` and `copy` truncate the target first, so a write that fails part-way can leave a partial file. `Apply.ApplyEntryFrame` and `Apply.ApplyEntryBelow` still bound what a step may touch.
- Apply.ApplyAllFailFast: its "nothing after the failing entry" clause (`ApplyStopsAt`) includes the failing entry itself leaving the tree as it was, which rests on the all-or-nothing failures above; `Upgrading.UpgradeFailFast` inherits this.
- Upgrading.UpgradeInstallsRelease: it assumes the release tree has no top-level `update` entry. Such an entry would make the copy pass write into the staging tree it is reading from.
- Upgrading.UpgradeRemovesObsolete: it does not promise that exclusions protect what lies below a deleted directory, because the code removes such paths.
- Removal.Delete: it treats the filesystem root as never removable (its `rmdir` fails). No other `rmdir` or `unlink` failure is modelled beyond `faults`.
- Updater.Install: it takes the upgrade outcome as a boolean rather than calling `Upgrading.Upgrade`. The two are joined by their result: `Upgrade(...).ok`.

## Findings

| source | as written | input that shows it | evidently intended | confidence | as-written member | corrected member |
|---|---|---|---|---|---|---|
| src/Updater.php:162-168 | `while (count($logFiles) >= $this->maxLogs) array_pop(...)`, with `maxLogs` any `int` (constructor, src/Updater.php:53, 103) | `maxLogs = 0` and any log folder, even an empty one: the count falls to 0 and stays `>= 0`, so the loop never ends | the loop ends once nothing is left to remove, every old log then removed | medium: not executed | LogRetention.RetentionNeverEnds | LogRetention.PruneLogs |
