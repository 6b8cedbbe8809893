/**
 * lib/rmrf.js as imperative code over a volume: the filesystem tree and the
 * log of successful unlinks are the state that `fs.unlink` changes. `Rmrf`
 * and `Rmdir` call each other as the source's two functions do, and `Rmdir`
 * consumes the directory listing from the front, one entry at a time.
 * Each is proved against the reference functions of RemovalSpec.
 */
module Rmrf {
  import opened Wrappers
  import opened FileTree
  import opened RemovalSpec
  import opened Sequences

  class Volume {
    /** The tree from the root of the volume (`None`: nothing there). */
    var root: Option<Node>
    /** Every path removed by a successful unlink, in order. */
    var unlinked: seq<Path>
    /** Which primitive fails where, other than on a missing node. */
    const faults: Faults

    ghost predicate Valid()
      reads this
    {
      WellFormedAt(root)
    }

    constructor (root: Option<Node>, faults: Faults)
      requires WellFormedAt(root)
      ensures Valid()
      ensures this.root == root && this.faults == faults && unlinked == []
    {
      this.root := root;
      this.faults := faults;
      unlinked := [];
    }

    /** `fs.stat` followed by `stats.isDirectory()`. */
    method Stat(p: Path) returns (r: Result<bool, FsError>)
      ensures Get(root, p).None? ==> r == Err(NotFound)
      ensures Get(root, p).Some? && faults(Op.Stat, p).Some? ==> r == Err(faults(Op.Stat, p).value)
      ensures r.Ok? <==> Get(root, p).Some? && faults(Op.Stat, p).None?
      ensures r.Ok? ==> r.value == Get(root, p).value.Dir?
    {
      var n := Get(root, p);
      if n.None? {
        return Err(NotFound);
      }
      var fault := faults(Op.Stat, p);
      if fault.Some? {
        return Err(fault.value);
      }
      return Ok(n.value.Dir?);
    }

    /** `fs.readdir`: the entry names in listing order. */
    method ReadDir(p: Path) returns (r: Result<seq<Name>, FsError>)
      ensures Get(root, p).None? ==> r == Err(NotFound)
      ensures Get(root, p).Some? && !Get(root, p).value.Dir? ==> r == Err(NotADirectory)
      ensures r.Ok? <==> Get(root, p).Some? && Get(root, p).value.Dir? && faults(Op.ReadDir, p).None?
      ensures r.Ok? ==> r.value == Names(Get(root, p).value.entries)
      ensures Get(root, p).Some? && Get(root, p).value.Dir? && faults(Op.ReadDir, p).Some? ==>
                r == Err(faults(Op.ReadDir, p).value)
    {
      var n := Get(root, p);
      if n.None? {
        return Err(NotFound);
      }
      if !n.value.Dir? {
        return Err(NotADirectory);
      }
      var fault := faults(Op.ReadDir, p);
      if fault.Some? {
        return Err(fault.value);
      }
      return Ok(Names(n.value.entries));
    }

    /** `fs.unlink`: removes a non-directory and logs its path. */
    method Unlink(p: Path) returns (err: Option<FsError>)
      requires Valid()
      modifies this
      ensures Valid()
      ensures Get(old(root), p).None? ==> err == Some(NotFound)
      ensures Get(old(root), p).Some? && Get(old(root), p).value.Dir? ==> err == Some(IsADirectory)
      ensures err.None? <==> Get(old(root), p).Some? && !Get(old(root), p).value.Dir? && faults(Op.Unlink, p).None?
      ensures Get(old(root), p).Some? && !Get(old(root), p).value.Dir? && faults(Op.Unlink, p).Some? ==>
                err == faults(Op.Unlink, p)
      ensures root == if err.None? then Put(old(root), p, None) else old(root)
      ensures unlinked == old(unlinked) + if err.None? then [p] else []
    {
      var n := Get(root, p);
      if n.None? {
        return Some(NotFound);
      }
      if n.value.Dir? {
        return Some(IsADirectory);
      }
      err := faults(Op.Unlink, p);
      if err.None? {
        WellFormedPut(root, p, None);
        root := Put(root, p, None);
        unlinked := unlinked + [p];
      }
    }

    /**
     * `rmrf(filename, callback)`: the node at `p` and everything below it
     * goes as RmrfOutcome says; nothing outside `p` changes.
     */
    method Rmrf(p: Path) returns (err: Option<FsError>)
      requires Valid()
      modifies this
      ensures Valid()
      ensures var out := RmrfOutcome(faults, p, Get(old(root), p));
        root == Put(old(root), p, out.node) &&
        unlinked == old(unlinked) + out.unlinked &&
        err == out.error
      decreases SizeOf(Get(root, p)), 1
    {
      // The source first tests an `error` that is not bound in this scope
      // (lib/rmrf.js:26-28); that test is a defect and is not modelled.
      PutGet(root, p);
      var st := Stat(p);
      if st.Err? {
        return Some(st.error);
      }
      if st.value {
        err := Rmdir(p);
      } else {
        err := Unlink(p);
      }
    }

    /**
     * `rmdir(dirname, callback)`: reads the directory, then removes its
     * entries one at a time in listing order until the listing is used up
     * or a removal fails. The directory itself stays.
     */
    method Rmdir(p: Path) returns (err: Option<FsError>)
      requires Valid()
      requires Get(root, p).Some? && Get(root, p).value.Dir?
      modifies this
      ensures Valid()
      ensures var out := RmdirOutcome(faults, p, Get(old(root), p).value.entries);
        root == Put(old(root), p, out.node) &&
        unlinked == old(unlinked) + out.unlinked &&
        err == out.error
      decreases SizeOf(Get(root, p)), 0
    {
      ghost var root0, log0 := root, unlinked;
      ghost var es := Get(root, p).value.entries;
      PutGet(root, p);
      var listing := ReadDir(p);
      if listing.Err? {
        return Some(listing.error);
      }
      var ls := listing.value;
      ghost var final := DrainOutcome(faults, p, es);
      assert RmdirOutcome(faults, p, es) == Outcome(Some(Dir(final.kept)), final.unlinked, final.error);
      ghost var k: nat, done: seq<Entry>, log: seq<Path> := 0, [], [];
      assert Get(root0, p) == Some(Dir(es));
      assert SizeOf(Get(root0, p)) == 1 + EntriesSize(es);
      assert done + es[k..] == es;
      while ls != []
        invariant Valid()
        invariant k <= |es| && ls == Names(es[k..])
        invariant root == Put(root0, p, Some(Dir(done + es[k..])))
        invariant unlinked == log0 + log
        invariant var rest := DrainOutcome(faults, p, es[k..]);
          final == Progress(done + rest.kept, log + rest.unlinked, rest.error)
        decreases |ls|
      {
        assert ls[0] == es[k].name && ls[1..] == Names(es[k + 1..]) by {
          assert es[k..][0] == es[k] && es[k..][1..] == es[k + 1..];
        }
        var name := ls[0];
        ls := ls[1..];
        ghost var x := RmrfOutcome(faults, p + [name], Some(es[k].node));
        ghost var head := KeptEntry(name, x.node);
        ghost var rest := DrainOutcome(faults, p, es[k + 1..]);
        LoopStep(faults, root0, p, es, k, done, log, final, root);
        ghost var before := root;
        assert Get(before, p + [name]) == Some(es[k].node);
        err := Rmrf(p + [name]);
        assert RmrfOutcome(faults, p + [name], Get(before, p + [name])) == x;
        assert root == Put(root0, p, Some(Dir(done + head + es[k + 1..])));
        assert unlinked == log0 + log + x.unlinked;
        AppendAssociates(log0, log, x.unlinked);
        assert err == x.error;
        if err.Some? {
          assert final == Progress(done + head + es[k + 1..], log + x.unlinked, err);
          return;
        }
        done, log, k := done + head, log + x.unlinked, k + 1;
      }
      LoopDone(faults, p, es, k, done, log, final);
      assert old(root) == root0 && Get(old(root), p).value.entries == es;
      assert root == Put(old(root), p, Some(Dir(final.kept)));
      err := None;
    }
  }

  /** What `Rmdir` knows once its listing is used up. */
  lemma LoopDone(o: Faults, p: Path, es: seq<Entry>, k: nat, done: seq<Entry>, log: seq<Path>, final: Progress)
    requires k <= |es| && Names(es[k..]) == []
    requires var rest := DrainOutcome(o, p, es[k..]);
      final == Progress(done + rest.kept, log + rest.unlinked, rest.error)
    ensures done + es[k..] == final.kept && final.unlinked == log && final.error.None?
  {
    assert |es[k..]| == |Names(es[k..])| == 0;
    assert es[k..] == [];
    assert done + [] == done && log + [] == log;
  }

  /** What one turn of `Rmdir`'s loop needs to know before it removes entry `k`. */
  lemma LoopStep(o: Faults, root0: Option<Node>, p: Path, es: seq<Entry>, k: nat,
                 done: seq<Entry>, log: seq<Path>, final: Progress, root: Option<Node>)
    requires k < |es| && Get(root0, p).Some?
    requires WellFormedAt(root) && root == Put(root0, p, Some(Dir(done + es[k..])))
    requires var rest := DrainOutcome(o, p, es[k..]);
      final == DrainOutcome(o, p, es) && final == Progress(done + rest.kept, log + rest.unlinked, rest.error)
    ensures var x := RmrfOutcome(o, p + [es[k].name], Some(es[k].node));
      var head, rest := KeptEntry(es[k].name, x.node), DrainOutcome(o, p, es[k + 1..]);
      Get(root, p + [es[k].name]) == Some(es[k].node) &&
      Put(root, p + [es[k].name], x.node) == Put(root0, p, Some(Dir(done + head + es[k + 1..]))) &&
      Size(es[k].node) < EntriesSize(es) &&
      final == if x.error.Some? then Progress(done + head + es[k + 1..], log + x.unlinked, x.error)
               else Progress((done + head) + rest.kept, (log + x.unlinked) + rest.unlinked, rest.error)
  {
    var x := RmrfOutcome(o, p + [es[k].name], Some(es[k].node));
    GetPut(root0, p, Some(Dir(done + es[k..])));
    WellFormedGet(root, p);
    PutChild(root0, p, done, es, k, x.node);
    EntrySmaller(es, k);
    DrainStep(o, p, es, k, done, log);
  }
}
