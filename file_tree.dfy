/**
 * A finite filesystem tree addressed by paths of names.
 *
 * A directory lists its entries in the order the operating system's
 * directory read returns them. `path.join(dir, entry)` is modelled as
 * appending one name to the path: no `..` and no separator normalisation.
 * Symbolic links are not followed, so the tree is finite and acyclic by
 * construction.
 */
module FileTree {
  import opened Wrappers

  type Name = string

  /** The names from the root of a volume down to a node. */
  type Path = seq<Name>

  /** A node: a regular file, anything else that is not a directory, or a directory. */
  datatype Node = File | Other | Dir(entries: seq<Entry>)

  datatype Entry = Entry(name: Name, node: Node)

  /** Number of nodes and entries below and including `n`; it bounds the recursion. */
  function Size(n: Node): (s: nat)
    ensures s >= 1
  {
    match n
    case Dir(es) => 1 + EntriesSize(es)
    case _ => 1
  }

  function EntriesSize(es: seq<Entry>): nat
  {
    if es == [] then 0 else 1 + Size(es[0].node) + EntriesSize(es[1..])
  }

  function SizeOf(t: Option<Node>): nat
  {
    if t.Some? then Size(t.value) else 0
  }

  lemma {:induction false} EntrySmaller(es: seq<Entry>, k: nat)
    requires k < |es|
    ensures Size(es[k].node) < EntriesSize(es)
  {
    if k > 0 {
      EntrySmaller(es[1..], k - 1);
    }
  }

  /** The names of a directory's entries are pairwise different. */
  predicate DistinctNames(es: seq<Entry>)
  {
    forall i, j :: 0 <= i < j < |es| ==> es[i].name != es[j].name
  }

  /** Every directory in the tree has pairwise different entry names. */
  predicate WellFormed(n: Node)
  {
    match n
    case Dir(es) => DistinctNames(es) && forall i | 0 <= i < |es| :: WellFormed(es[i].node)
    case _ => true
  }

  predicate WellFormedAt(t: Option<Node>)
  {
    t.None? || WellFormed(t.value)
  }

  /** Position of the first entry called `name`, or `|es|` when there is none. */
  function IndexOf(es: seq<Entry>, name: Name): (i: nat)
    ensures i <= |es|
    ensures i < |es| ==> es[i].name == name
    ensures forall j | 0 <= j < i :: es[j].name != name
  {
    if es == [] then 0
    else if es[0].name == name then 0
    else 1 + IndexOf(es[1..], name)
  }

  /** The node at path `p` below `t`, if there is one. */
  function Get(t: Option<Node>, p: Path): Option<Node>
    decreases p
  {
    if p == [] then t
    else match t
      case Some(Dir(es)) =>
        var i := IndexOf(es, p[0]);
        if i < |es| then Get(Some(es[i].node), p[1..]) else None
      case _ => None
  }

  /** The entry `name` holding `x`, or no entry when `x` is gone. */
  function KeptEntry(name: Name, x: Option<Node>): seq<Entry>
  {
    if x.Some? then [Entry(name, x.value)] else []
  }

  /** Entry `i` replaced by node `x`, or dropped when `x` is `None`. */
  function Graft(es: seq<Entry>, i: nat, x: Option<Node>): seq<Entry>
    requires i < |es|
  {
    es[..i] + KeptEntry(es[i].name, x) + es[i + 1..]
  }

  /**
   * `t` with the node at `p` replaced by `s` (removed when `s` is `None`);
   * `t` itself when there is no node at `p`.
   */
  function Put(t: Option<Node>, p: Path, s: Option<Node>): Option<Node>
    decreases p
  {
    if p == [] then s
    else match t
      case Some(Dir(es)) =>
        var i := IndexOf(es, p[0]);
        if i < |es| then Some(Dir(Graft(es, i, Put(Some(es[i].node), p[1..], s)))) else t
      case _ => t
  }

  lemma {:induction false} GetAppend(t: Option<Node>, p: Path, q: Path)
    ensures Get(t, p + q) == Get(Get(t, p), q)
    decreases p
  {
    if p == [] {
      assert p + q == q;
    } else {
      assert (p + q)[0] == p[0] && (p + q)[1..] == p[1..] + q;
      match t
      case Some(Dir(es)) =>
        var i := IndexOf(es, p[0]);
        if i < |es| {
          GetAppend(Some(es[i].node), p[1..], q);
        } else {
          assert Get(t, p) == None;
          if q != [] {
            assert Get(None, q) == None;
          }
        }
      case _ =>
        if q != [] {
          assert Get(None, q) == None;
        }
    }
  }

  /** Writing back what is already there changes nothing. */
  lemma {:induction false} PutGet(t: Option<Node>, p: Path)
    ensures Put(t, p, Get(t, p)) == t
    decreases p
  {
    if p != [] {
      match t
      case Some(Dir(es)) =>
        var i := IndexOf(es, p[0]);
        if i < |es| {
          PutGet(Some(es[i].node), p[1..]);
          assert Graft(es, i, Some(es[i].node)) == es;
        }
      case _ =>
    }
  }

  lemma {:induction false} GetPut(t: Option<Node>, p: Path, s: Option<Node>)
    requires Get(t, p).Some? && s.Some?
    ensures Get(Put(t, p, s), p) == s
    decreases p
  {
    if p != [] {
      var es := t.value.entries;
      var i := IndexOf(es, p[0]);
      var x := Put(Some(es[i].node), p[1..], s);
      GetPut(Some(es[i].node), p[1..], s);
      PutKeeps(Some(es[i].node), p[1..], s);
      var es' := Graft(es, i, x);
      assert es'[i] == Entry(p[0], x.value);
      assert IndexOf(es', p[0]) == i;
    }
  }

  lemma {:induction false} PutPut(t: Option<Node>, p: Path, s1: Option<Node>, s2: Option<Node>)
    requires Get(t, p).Some?
    requires s1.Some?
    ensures Put(Put(t, p, s1), p, s2) == Put(t, p, s2)
    decreases p
  {
    if p != [] {
      var es := t.value.entries;
      var i := IndexOf(es, p[0]);
      var x1 := Put(Some(es[i].node), p[1..], s1);
      PutKeeps(Some(es[i].node), p[1..], s1);
      var es1 := Graft(es, i, x1);
      assert es1[i].name == p[0];
      assert IndexOf(es1, p[0]) == i;
      PutPut(Some(es[i].node), p[1..], s1, s2);
      assert es1[i].node == x1.value;
      GraftTwice(es, i, x1, Put(x1, p[1..], s2));
    }
  }

  /** Grafting twice at the same entry keeps only the second graft. */
  lemma GraftTwice(es: seq<Entry>, i: nat, a: Option<Node>, b: Option<Node>)
    requires i < |es| && a.Some?
    ensures i < |Graft(es, i, a)|
    ensures Graft(Graft(es, i, a), i, b) == Graft(es, i, b)
  {
    var g := Graft(es, i, a);
    assert g[..i] == es[..i] && g[i].name == es[i].name && g[i + 1..] == es[i + 1..];
  }

  /** Putting a node at an existing path leaves a node there and on the way. */
  lemma {:induction false} PutKeeps(t: Option<Node>, p: Path, s: Option<Node>)
    requires Get(t, p).Some? && s.Some?
    ensures Put(t, p, s).Some?
    ensures p != [] ==> Put(t, p, s).value.Dir?
    decreases p
  {
  }

  /** Putting at `p + q` is putting, at `p`, the subtree with `q` put into it. */
  lemma {:induction false} PutAppend(t: Option<Node>, p: Path, q: Path, x: Option<Node>)
    requires Get(t, p).Some?
    ensures Put(t, p + q, x) == Put(t, p, Put(Get(t, p), q, x))
    decreases p
  {
    if p == [] {
      assert p + q == q;
    } else {
      assert (p + q)[0] == p[0] && (p + q)[1..] == p[1..] + q;
      var es := t.value.entries;
      var i := IndexOf(es, p[0]);
      PutAppend(Some(es[i].node), p[1..], q, x);
    }
  }

  /** The names of a directory's entries, in listing order: what a directory read returns. */
  function Names(es: seq<Entry>): (ns: seq<Name>)
    ensures |ns| == |es|
    ensures forall i | 0 <= i < |es| :: ns[i] == es[i].name
  {
    if es == [] then [] else [es[0].name] + Names(es[1..])
  }

  lemma {:induction false} WellFormedGet(t: Option<Node>, p: Path)
    requires WellFormedAt(t)
    ensures WellFormedAt(Get(t, p))
    decreases p
  {
    if p != [] && t.Some? && t.value.Dir? {
      var es := t.value.entries;
      var i := IndexOf(es, p[0]);
      if i < |es| {
        WellFormedGet(Some(es[i].node), p[1..]);
      }
    }
  }

  lemma {:induction false} WellFormedPut(t: Option<Node>, p: Path, s: Option<Node>)
    requires WellFormedAt(t) && WellFormedAt(s)
    ensures WellFormedAt(Put(t, p, s))
    decreases p
  {
    if p != [] && t.Some? && t.value.Dir? {
      var es := t.value.entries;
      var i := IndexOf(es, p[0]);
      if i < |es| {
        var x := Put(Some(es[i].node), p[1..], s);
        WellFormedPut(Some(es[i].node), p[1..], s);
        GraftWellFormed(es, i, x);
      }
    }
  }

  lemma GraftWellFormed(es: seq<Entry>, i: nat, x: Option<Node>)
    requires i < |es| && WellFormed(Dir(es)) && WellFormedAt(x)
    ensures WellFormed(Dir(Graft(es, i, x)))
  {
    var g := Graft(es, i, x);
    var mid := KeptEntry(es[i].name, x);
    // Each entry of the graft is an entry of `es`, or the new one in place of entry `i`.
    ghost var from := seq(|g|, j requires 0 <= j < |g| =>
      if j < i then j else if j < i + |mid| then i else j - |mid| + 1);
    forall j | 0 <= j < |g|
      ensures from[j] < |es| && g[j].name == es[from[j]].name && WellFormed(g[j].node)
    {
      if j < i {
        assert g[j] == es[j];
      } else if j < i + |mid| {
        assert g[j] == mid[0];
      } else {
        assert g[j] == es[j - |mid| + 1];
      }
    }
    forall j1, j2 | 0 <= j1 < j2 < |g| ensures g[j1].name != g[j2].name {
      assert from[j1] < from[j2];
    }
  }

  /**
   * Inside the directory at `p` whose entries are now `done + es[k..]`, the
   * path `p + [es[k].name]` leads to entry `es[k]`, and replacing the node
   * there replaces that one entry of the directory.
   */
  lemma PutChild(t: Option<Node>, p: Path, done: seq<Entry>, es: seq<Entry>, k: nat, x: Option<Node>)
    requires Get(t, p).Some? && k < |es|
    requires DistinctNames(done + es[k..])
    ensures var cur := Put(t, p, Some(Dir(done + es[k..])));
      Get(cur, p + [es[k].name]) == Some(es[k].node) &&
      Put(cur, p + [es[k].name], x) == Put(t, p, Some(Dir(done + KeptEntry(es[k].name, x) + es[k + 1..])))
  {
    var d := done + es[k..];
    var cur := Put(t, p, Some(Dir(d)));
    var name := es[k].name;
    GetPut(t, p, Some(Dir(d)));
    assert d[|done|] == es[k];
    assert IndexOf(d, name) == |done|;
    GetAppend(cur, p, [name]);
    assert Get(Some(Dir(d)), [name]) == Get(Some(es[k].node), []);
    PutAppend(cur, p, [name], x);
    var g := Graft(d, |done|, x);
    assert Put(Some(Dir(d)), [name], x) == Some(Dir(g));
    assert d[..|done|] == done && d[|done| + 1..] == es[k + 1..];
    PutPut(t, p, Some(Dir(d)), Some(Dir(g)));
  }
}
