# nv: recursive delete and release packaging, modelled in Dafny

This project models two parts of the `nv` repository.

**`rmrf` (lib/rmrf.js)** removes a path recursively. It stats the path. A path that is not a directory is unlinked, and the unlink's result is the call's result. A directory goes to `rmdir`. `rmdir` reads the directory, then takes the entries off the front of the listing one at a time. It calls `rmrf` on `dirname/entry` for each, in listing order, and stops at the first error, which it passes up. No directory is ever removed: a successful call leaves every directory in place, emptied of everything that is not a directory.

The model has three layers:

- `FileTree` (file_tree.dfy) is a finite tree of `File`, `Other` and `Dir` nodes. Directories list their entries in order. Paths are sequences of names, and `path.join` appends a name. `Get` and `Put` read and replace the node at a path.
- `RemovalSpec` (removal_spec.dfy) gives the traversal as reference functions: `RmrfOutcome`, `RmdirOutcome` and `DrainOutcome`, the `whilst` loop. Each returns the new node, the ordered log of unlinked paths and the error. The lemmas about them are the properties listed below. A fault oracle `Faults` decides which stat, readdir or unlink fails at which path. A missing node always stats `NotFound`.
- `Rmrf` (rmrf.dfy) is the imperative code. Class `Volume` holds the tree and the unlink log as mutable state. It has methods `Stat`, `ReadDir`, `Unlink`, `Rmrf` and `Rmdir`. `Rmdir` consumes the listing with a shift in a `while` loop. Each method is proved to leave exactly the state that the reference functions give, at its own path, and nothing else.

The first lines of `rmrf` (lib/rmrf.js:26-28) test a variable `error` that is not bound in that scope. This is a defect, not a short-circuit on an earlier error, so the model leaves the test out. Errors travel only as results.

Take `a/` holding `a/b.txt` and `a/c/d.txt`. After the removal, `a` still holds the empty directory `c`, because no directory is ever removed. `TwoLevelExample` proves this exact result.

**scripts/pkg.js** is the release script. `series` shifts a task off the front of the task array and runs it. It repeats while tasks report success. It calls back when a task reports an error or the shifted slot is empty. The shift comes before the error test, so on an error one more task is taken off the array and never run. `build` names its artifacts `name-version-platform-arch`, with `.exe` added for `win`, and names the archive with `.tar.gz` added. The script maps the six targets to one task each and runs them with `series`. Module `Pkg` (pkg.dfy) models these parts. The task array is a class whose `Shift` method the `Series` loop calls.

## Model

| member | source | states |
|---|---|---|
| `Rmrf.Volume.Rmrf` | lib/rmrf.js:24-44 | The node at the path, and what is below it, becomes what `RmrfOutcome` gives. The rest of the tree is unchanged. The unlink log grows by exactly the paths that the call unlinked, in order. The returned error is the outcome's error. The tree stays well formed. |
| `Rmrf.Volume.Rmdir` | lib/rmrf.js:5-22 | The directory at the path becomes what `RmdirOutcome` gives. The loop consumes the listing front to back, one entry at a time, calling `Rmrf` on `path + [entry]`. It returns at the first error. The rest of the tree is unchanged and the log grows by the unlinks made. |
| `Rmrf.Volume.Stat` | lib/rmrf.js:30-35 | A missing path fails with `NotFound`. An injected stat fault is reported as is. Otherwise the result says whether the node is a directory. |
| `Rmrf.Volume.ReadDir` | lib/rmrf.js:7-11 | A missing path fails with `NotFound` and a non-directory with `NotADirectory`. An injected fault is reported. Otherwise the result is the entry names in listing order. |
| `Rmrf.Volume.Unlink` | lib/rmrf.js:39 | Succeeds exactly on an existing non-directory with no unlink fault. On success it removes that node and appends the path to the log. On failure nothing changes, and the error is `NotFound`, `IsADirectory` or the injected fault. |
| `RemovalSpec.StatFailureChangesNothing` | lib/rmrf.js:30-34 | When the stat fails, or the path is missing, the error is reported, nothing is unlinked and the node is unchanged. |
| `RemovalSpec.NonDirectoryUnlinkedOnce` | lib/rmrf.js:36-40 | A non-directory gets exactly one unlink, and the unlink's result is the call's result. It is gone and logged exactly when the unlink succeeds. |
| `RemovalSpec.ReadDirFailureTouchesNothing` | lib/rmrf.js:7-11 | When reading a directory fails, that error is reported, no entry is touched and nothing is unlinked. |
| `RemovalSpec.EmptyDirectory` | lib/rmrf.js:13-18 | An empty directory succeeds with zero unlinks and stays in place. |
| `RemovalSpec.DrainStep` | lib/rmrf.js:13-18 | One turn of the loop. Draining the listing from entry `k` means removing entry `k` first. On its error the loop stops, and entries `k+1..` stay verbatim. Otherwise it goes on with entry `k+1`. |
| `RemovalSpec.DrainStopsAtFirstFailure` | lib/rmrf.js:13-18 | Let `j` be the first entry whose removal fails. The loop reports no error exactly when there is no such entry. Otherwise it reports entry `j`'s error. The entries before `j` are reduced to their directory skeletons and all their leaves are unlinked. The entries after `j` are untouched. |
| `RemovalSpec.FirstFailure` | lib/rmrf.js:13-18 | The index where the loop stops: every earlier entry's removal succeeds, and the removal of the entry at the index fails. |
| `RemovalSpec.SuccessLeavesSkeleton` | lib/rmrf.js:5-44 | When the call reports no error, the node left is its directory skeleton (`Hollow`). Every directory remains and every non-directory is gone. The unlink log is exactly the leaf paths in traversal order. |
| `RemovalSpec.SkeletonSurvives` | lib/rmrf.js:5-44 | Whatever fails, no directory is removed: the directory skeleton after the call equals the one before. |
| `RemovalSpec.UnlinkedArePrefixOfLeaves` | lib/rmrf.js:13-40 | Whatever fails, the unlink log is a prefix of the leaf paths in depth-first listing order. So unlinks happen one at a time, in listing order, and stop at the first failure. |
| `RemovalSpec.UnlinkedAreDistinctLeaves` | lib/rmrf.js:13-40 | In a tree whose directories have distinct names (`WellFormed`), no path is unlinked twice. Every unlinked path lies below the starting path and named a non-directory before the call. |
| `RemovalSpec.NoFaultsSucceeds` | lib/rmrf.js:24-44 | With no faults, the call on an existing node reports no error. |
| `RemovalSpec.NoFaultsRemovesEveryLeafOnce` | lib/rmrf.js:13-40 | In a tree whose directories have distinct names (`WellFormed`) and with no faults, only the skeleton is left. Every non-directory below the path is unlinked, each exactly once. The number of unlinks equals the number of non-directories. |
| `RemovalSpec.LeavesComplete` | lib/rmrf.js:13-15 | Every non-directory below the path appears among the leaf paths that a complete traversal unlinks. |
| `RemovalSpec.LeavesAreNonDirectories` | lib/rmrf.js:36-40 | In a tree whose directories have distinct names (`WellFormed`), every leaf path lies below the starting path and names a non-directory of the tree. |
| `RemovalSpec.TwoLevelExample` | lib/rmrf.js:5-44 | Removing `a/` that holds `b.txt` and `c/d.txt` unlinks `a/b.txt`, then `a/c/d.txt`, and succeeds. It leaves `a` holding only the empty `c`. |
| `Pkg.TaskArray.Shift` | scripts/pkg.js:25 | Removes and returns the first slot. An empty array gives a missing slot and stays empty. |
| `Pkg.Series` | scripts/pkg.js:22-33 | Let `j` be the first slot that is missing or whose task reports an error. All tasks succeed: every task runs in order, the callback gets no error and the array ends empty. Missing slot at `j`: tasks before `j` run, the callback gets no error and the array keeps the slots after `j`. Error at `j`: tasks up to `j` run and the callback gets that error. The next slot is shifted off without running, and the rest of the array is unchanged. |
| `Pkg.FirstStop` | scripts/pkg.js:26-28 | Every slot before the stop holds a task that succeeds. The slot at the stop is missing or its task fails. |
| `Pkg.BinaryName` | scripts/pkg.js:37-38 | The binary name is the stem `name-version-platform-arch`, followed by `.exe` exactly when the platform is `win`. |
| `Pkg.ArchiveName` | scripts/pkg.js:68 | The archive name is the same stem followed by `.tar.gz`, on every platform. |
| `Pkg.ArtifactNamesIdentifyTarget` | scripts/pkg.js:37-38 | For one package, targets with no dash in their fields have equal binary names exactly when they are equal targets. The same holds for archive names. |
| `Pkg.ReleaseArtifactsDistinct` | scripts/pkg.js:80-92 | For any package, the six release targets get pairwise different binary names and archive names. |
| `Pkg.ReleasePathsDistinct` | scripts/pkg.js:37-68 | For any output directory and package, the paths the release writes are all different. The six binaries in `bin` are at pairwise different paths, and so are the six archives. No binary path equals an archive path, so no build overwrites another's output. |
| `Pkg.BuildTasks` | scripts/pkg.js:94-98 | One task per target, in target order. The task for a target reports what building that target reports. |
| `Pkg.Release` | scripts/pkg.js:94-103 | The tasks that ran are the first `built` tasks of the mapped list, in order. Running them in series reports no error exactly when every build succeeds, and then every build ran. Otherwise it reports the error of the first failed build, and the builds that ran are those up to and including it. |

## Left out

- Real filesystem semantics are not modelled. The tree has no symbolic links, so `fs.stat` following links, link cycles and escapes out of the tree cannot happen. There are no permissions, and nothing changes the tree concurrently between a stat and a readdir.
- `path.join` normalisation (`..`, repeated separators) is not modelled. A join appends one name.
- The Node.js callbacks and their scheduling are not modelled. Every call is a sequential call that returns its result.
- `async.whilst` (lib/async.js) is not part of this model. The `Rmdir` loop assumes its usual meaning: test, run the body, stop on the first error passed to `next`, and otherwise finish once the test fails.
- The test of the unbound `error` at lib/rmrf.js:26-28 is left out as a defect. As written, it would throw a `ReferenceError` before the stat.
- Everything `build` does past naming is not modelled (scripts/pkg.js:40-76): `pkg.exec` and its `node8-platform-arch` target string, the tar header built from `fs.statSync`, the streams and gzip, and the possible second callback from lines 61 and 71-72. A target's build is an abstract outcome passed to `Release`.
- The `fs.mkdirSync` calls that tolerate `EEXIST` (scripts/pkg.js:12-20) and the console output (scripts/pkg.js:100-103) are I/O and are left out. The output directory is a parameter of `BinaryPath` and `ArchivePath`.
- `Pkg.Series`: a JavaScript error value that is falsy (such as `''`) counts as no error in the source. The model's `None` stands for every falsy value, so such an error is not distinguished from success. A task that calls `next` more than once is not modelled.
