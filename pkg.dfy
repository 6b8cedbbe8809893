/**
 * scripts/pkg.js: the fail-fast task runner `series`, the names `build`
 * gives to its artifacts, and the mapping of the release targets to tasks.
 *
 * A task is known here only by what it reports to its `next` callback; the
 * work it does (running the packager, writing the archive) is outside the
 * model. A path is a sequence of segments and `path.join` appends segments.
 */
module Pkg {
  import opened Wrappers
  import opened Sequences

  /** An error a task reports; JavaScript values that are falsy count as no error. */
  datatype BuildError = BuildError(message: string)

  /**
   * One slot of the task array: `Missing` is a slot holding `null` or
   * `undefined`; `Job(outcome)` is a task that calls `next(outcome)`.
   */
  datatype Task = Missing | Job(outcome: Option<BuildError>)

  /** The array of tasks that `series` consumes from the front. */
  class TaskArray {
    var items: seq<Task>

    constructor (items: seq<Task>)
      ensures this.items == items
    {
      this.items := items;
    }

    /** `Array.prototype.shift`: removes and returns the first slot; `undefined` when empty. */
    method Shift() returns (t: Task)
      modifies this
      ensures old(items) == [] ==> t == Missing && items == []
      ensures old(items) != [] ==> t == old(items)[0] && items == old(items)[1..]
    {
      if items == [] {
        t := Missing;
      } else {
        t := items[0];
        items := items[1..];
      }
    }
  }

  /**
   * Where `series` stops: the first slot that is missing or whose task
   * reports an error, or `|ts|` when every task succeeds.
   */
  function FirstStop(ts: seq<Task>): (j: nat)
    ensures j <= |ts|
    ensures forall i | 0 <= i < j :: ts[i] == Job(None)
    ensures j < |ts| ==> ts[j] != Job(None)
  {
    if ts == [] || ts[0] != Job(None) then 0 else 1 + FirstStop(ts[1..])
  }

  /**
   * `series(tasks, callback)`: shifts a task off the front and runs it, and
   * does so again each time a task reports success; it calls back when a
   * task reports an error or the shifted slot is empty. The shift comes
   * before the error test, so on an error one more slot is taken off the
   * array without being run. `ran` lists the tasks run, in order; `error`
   * is what the callback receives.
   */
  method Series(tasks: TaskArray) returns (error: Option<BuildError>, ran: seq<Task>)
    modifies tasks
    ensures var ts, j := old(tasks.items), FirstStop(old(tasks.items));
      if j == |ts| then
        error == None && ran == ts && tasks.items == []
      else if ts[j].Missing? then
        error == None && ran == ts[..j] && tasks.items == ts[j + 1..]
      else
        error == ts[j].outcome && ran == ts[..j + 1] &&
        tasks.items == if j + 1 < |ts| then ts[j + 2..] else []
  {
    ghost var ts := tasks.items;
    error, ran := None, [];
    var task := tasks.Shift();
    while error.None? && task.Job?
      invariant |ran| <= |ts| && ran == ts[..|ran|]
      invariant forall i | 0 <= i < |ran| :: ts[i].Job?
      invariant forall i | 0 <= i < |ran| - 1 :: ts[i].outcome.None?
      invariant error == if ran == [] then None else ts[|ran| - 1].outcome
      invariant task == if |ran| < |ts| then ts[|ran|] else Missing
      invariant tasks.items == if |ran| < |ts| then ts[|ran| + 1..] else []
      decreases |tasks.items| + if task.Job? then 1 else 0
    {
      ran := ran + [task];
      // `task(run)`: the task reports through `next`, which is `run` again.
      error := task.outcome;
      task := tasks.Shift();
    }
    var n := |ran|;
    if error.Some? {
      assert FirstStop(ts) == n - 1;
    } else {
      assert FirstStop(ts) == n;
      assert n == |ts| ==> ran == ts;
    }
  }

  // ---------------------------------------------------------------------
  // Artifact names.

  /** The `name` and `version` fields of package.json. */
  datatype Package = Package(name: string, version: string)

  /** A release target. */
  datatype Target = Target(platform: string, arch: string)

  /** `${name}-${version}-${platform}-${arch}`: the stem of both artifacts. */
  function BaseName(pkg: Package, t: Target): string
  {
    pkg.name + "-" + pkg.version + "-" + t.platform + "-" + t.arch
  }

  /** The packaged binary's file name: the stem, plus `.exe` exactly for the `win` platform. */
  function BinaryName(pkg: Package, t: Target): (r: string)
    ensures BaseName(pkg, t) <= r
    ensures r[|BaseName(pkg, t)|..] == if t.platform == "win" then ".exe" else ""
  {
    BaseName(pkg, t) + (if t.platform == "win" then ".exe" else "")
  }

  /** The compressed archive's file name: the stem plus `.tar.gz`, whatever the platform. */
  function ArchiveName(pkg: Package, t: Target): (r: string)
    ensures BaseName(pkg, t) <= r && r[|BaseName(pkg, t)|..] == ".tar.gz"
  {
    BaseName(pkg, t) + ".tar.gz"
  }

  /** `bin`: the binary inside the `bin` directory of the output directory. */
  function BinaryPath(output: seq<string>, pkg: Package, t: Target): (r: seq<string>)
    ensures |r| == |output| + 2 && r[..|output|] == output && r[|output|..] == ["bin", BinaryName(pkg, t)]
  {
    output + ["bin"] + [BinaryName(pkg, t)]
  }

  /** The archive, directly inside the output directory. */
  function ArchivePath(output: seq<string>, pkg: Package, t: Target): (r: seq<string>)
    ensures |r| == |output| + 1 && r[..|output|] == output && r[|output|..] == [ArchiveName(pkg, t)]
  {
    output + [ArchiveName(pkg, t)]
  }

  /** The pieces of `s` between dashes, as `s.split('-')` gives them. */
  function SplitDash(s: string): (parts: seq<string>)
    ensures |parts| >= 1
  {
    if s == [] then [""]
    else
      var rest := SplitDash(s[1..]);
      if s[0] == '-' then [""] + rest else [[s[0]] + rest[0]] + rest[1..]
  }

  lemma {:induction false} SplitDashFree(a: string)
    requires '-' !in a
    ensures SplitDash(a) == [a]
  {
    if a != [] {
      assert '-' !in a[1..] by {
        assert forall c | c in a[1..] :: c in a;
      }
      SplitDashFree(a[1..]);
      assert [a[0]] + a[1..] == a;
    }
  }

  lemma {:induction false} SplitDashJoin(a: string, b: string)
    requires '-' !in a
    ensures SplitDash(a + "-" + b) == [a] + SplitDash(b)
  {
    if a == [] {
      assert a + "-" + b == "-" + b;
      assert ("-" + b)[1..] == b;
    } else {
      assert (a + "-" + b)[1..] == a[1..] + "-" + b;
      assert '-' !in a[1..] by {
        assert forall c | c in a[1..] :: c in a;
      }
      SplitDashJoin(a[1..], b);
      assert [a[0]] + a[1..] == a;
    }
  }

  /** A target whose platform and architecture contain no dash. */
  predicate DashFree(t: Target)
  {
    '-' !in t.platform && '-' !in t.arch
  }

  /**
   * The part of the artifact names that depends on the target: splitting it
   * at dashes gives the platform back, and the architecture with its
   * extension.
   */
  lemma TargetPartSplits(t: Target, ext: string)
    requires DashFree(t) && '-' !in ext
    ensures SplitDash(t.platform + "-" + (t.arch + ext)) == [t.platform, t.arch + ext]
  {
    SplitDashJoin(t.platform, t.arch + ext);
    assert '-' !in t.arch + ext;
    SplitDashFree(t.arch + ext);
  }

  /**
   * For one package, targets without dashes in their fields get different
   * binaries and different archives: no build overwrites another's output.
   */
  lemma ArtifactNamesIdentifyTarget(pkg: Package, t1: Target, t2: Target)
    requires DashFree(t1) && DashFree(t2)
    ensures BinaryName(pkg, t1) == BinaryName(pkg, t2) <==> t1 == t2
    ensures ArchiveName(pkg, t1) == ArchiveName(pkg, t2) <==> t1 == t2
  {
    if BinaryName(pkg, t1) == BinaryName(pkg, t2) {
      BinaryNamesIdentifyTarget(pkg, t1, t2);
    }
    if ArchiveName(pkg, t1) == ArchiveName(pkg, t2) {
      ArchiveNamesIdentifyTarget(pkg, t1, t2);
    }
  }

  lemma BinaryNamesIdentifyTarget(pkg: Package, t1: Target, t2: Target)
    requires DashFree(t1) && DashFree(t2) && BinaryName(pkg, t1) == BinaryName(pkg, t2)
    ensures t1 == t2
  {
    var e1 := if t1.platform == "win" then ".exe" else "";
    var e2 := if t2.platform == "win" then ".exe" else "";
    NameParts(pkg, t1, e1);
    NameParts(pkg, t2, e2);
    TargetPartIdentifies(pkg.name + "-" + pkg.version + "-", t1, e1, t2, e2);
    assert e1 == e2;
    CancelSuffix(t1.arch, t2.arch, e1);
  }

  lemma ArchiveNamesIdentifyTarget(pkg: Package, t1: Target, t2: Target)
    requires DashFree(t1) && DashFree(t2) && ArchiveName(pkg, t1) == ArchiveName(pkg, t2)
    ensures t1 == t2
  {
    NameParts(pkg, t1, ".tar.gz");
    NameParts(pkg, t2, ".tar.gz");
    TargetPartIdentifies(pkg.name + "-" + pkg.version + "-", t1, ".tar.gz", t2, ".tar.gz");
    CancelSuffix(t1.arch, t2.arch, ".tar.gz");
  }

  /** An artifact name splits into the package's stem and the target's part. */
  lemma NameParts(pkg: Package, t: Target, ext: string)
    ensures BaseName(pkg, t) + ext == (pkg.name + "-" + pkg.version + "-") + (t.platform + "-" + (t.arch + ext))
  {
    var a, b := pkg.name + "-" + pkg.version + "-", t.platform + "-";
    AppendAssociates(b, t.arch, ext);
    AppendAssociates(a, b + t.arch, ext);
    AppendAssociates(a, b, t.arch);
  }

  /** Equal names after a common stem have the same platform and the same architecture with extension. */
  lemma TargetPartIdentifies(stem: string, t1: Target, e1: string, t2: Target, e2: string)
    requires DashFree(t1) && DashFree(t2) && '-' !in e1 && '-' !in e2
    requires stem + (t1.platform + "-" + (t1.arch + e1)) == stem + (t2.platform + "-" + (t2.arch + e2))
    ensures t1.platform == t2.platform && t1.arch + e1 == t2.arch + e2
  {
    CancelPrefix(stem, t1.platform + "-" + (t1.arch + e1), t2.platform + "-" + (t2.arch + e2));
    TargetPartSplits(t1, e1);
    TargetPartSplits(t2, e2);
  }

  lemma CancelPrefix(a: string, x: string, y: string)
    requires a + x == a + y
    ensures x == y
  {
    assert x == (a + x)[|a|..];
  }

  lemma CancelSuffix(x: string, y: string, b: string)
    requires x + b == y + b
    ensures x == y
  {
    assert x == (x + b)[..|x|];
  }

  // ---------------------------------------------------------------------
  // The release: one task per target, run in series.

  /** The targets scripts/pkg.js builds, in order. */
  function Targets(): seq<Target>
  {
    [ Target("macos", "x64"), Target("macos", "x86"),
      Target("win", "x64"), Target("win", "x86"),
      Target("linux", "x64"), Target("linux", "x86") ]
  }

  /** No two release targets share a binary name or an archive name, whatever the package. */
  lemma ReleaseArtifactsDistinct(pkg: Package)
    ensures forall i, j | 0 <= i < j < |Targets()| ::
      BinaryName(pkg, Targets()[i]) != BinaryName(pkg, Targets()[j]) &&
      ArchiveName(pkg, Targets()[i]) != ArchiveName(pkg, Targets()[j])
  {
    var ts := Targets();
    forall i, j | 0 <= i < j < |ts|
      ensures BinaryName(pkg, ts[i]) != BinaryName(pkg, ts[j]) &&
              ArchiveName(pkg, ts[i]) != ArchiveName(pkg, ts[j])
    {
      assert DashFree(ts[i]) && DashFree(ts[j]);
      assert ts[i] != ts[j];
      ArtifactNamesIdentifyTarget(pkg, ts[i], ts[j]);
    }
  }

  /**
   * The files the release writes, for any output directory and package:
   * the six binaries are six different paths, so are the six archives, and
   * no binary is written where an archive is.
   */
  lemma ReleasePathsDistinct(output: seq<string>, pkg: Package)
    ensures forall i, j | 0 <= i < j < |Targets()| ::
      BinaryPath(output, pkg, Targets()[i]) != BinaryPath(output, pkg, Targets()[j]) &&
      ArchivePath(output, pkg, Targets()[i]) != ArchivePath(output, pkg, Targets()[j])
    ensures forall i, j | 0 <= i < |Targets()| && 0 <= j < |Targets()| ::
      BinaryPath(output, pkg, Targets()[i]) != ArchivePath(output, pkg, Targets()[j])
  {
    var ts := Targets();
    ReleaseArtifactsDistinct(pkg);
    forall i, j | 0 <= i < j < |ts|
      ensures BinaryPath(output, pkg, ts[i]) != BinaryPath(output, pkg, ts[j]) &&
              ArchivePath(output, pkg, ts[i]) != ArchivePath(output, pkg, ts[j])
    {
      assert BinaryPath(output, pkg, ts[i])[|output| + 1] == BinaryName(pkg, ts[i]);
      assert BinaryPath(output, pkg, ts[j])[|output| + 1] == BinaryName(pkg, ts[j]);
      assert ArchivePath(output, pkg, ts[i])[|output|] == ArchiveName(pkg, ts[i]);
      assert ArchivePath(output, pkg, ts[j])[|output|] == ArchiveName(pkg, ts[j]);
    }
  }

  /**
   * `targets.map(...)`: one task per target, in the order of the targets;
   * the task for a target reports what building that target reports.
   */
  function BuildTasks(targets: seq<Target>, build: Target -> Option<BuildError>): (tasks: seq<Task>)
    ensures |tasks| == |targets|
    ensures forall i | 0 <= i < |targets| :: tasks[i] == Job(build(targets[i]))
  {
    if targets == [] then [] else [Job(build(targets[0]))] + BuildTasks(targets[1..], build)
  }

  /**
   * The script's last step: run the build tasks of all targets in series.
   * It reports no error exactly when every build succeeds; otherwise it
   * reports the error of the first target whose build failed, and the
   * builds run are those of the targets up to and including that one.
   */
  method Release(targets: seq<Target>, build: Target -> Option<BuildError>)
    returns (error: Option<BuildError>, ran: seq<Task>, built: nat)
    ensures built <= |targets| && ran == BuildTasks(targets, build)[..built]
    ensures error.None? <==> forall i | 0 <= i < |targets| :: build(targets[i]).None?
    ensures error.None? ==> built == |targets|
    ensures error.Some? ==>
      0 < built <= |targets| && error == build(targets[built - 1]) &&
      forall i | 0 <= i < built - 1 :: build(targets[i]).None?
  {
    var tasks := new TaskArray(BuildTasks(targets, build));
    error, ran := Series(tasks);
    built := |ran|;
  }
}
