/** `clean(dir)` (src/clean.ts; the same code is src/file.ts `clean`): delete a
    directory tree, leaves first. The calls it makes are computed from the
    `lstat` snapshot as a sequence of primitive operations, applied in the
    order `readdir` lists the children; sibling subtrees are disjoint, so this
    order stands for the concurrent fan-out of the source. */
module Clean {
  import opened Wrappers
  import opened Paths
  import opened Tree
  import opened Primitives

  datatype Op = UnlinkOp(path: Path) | RmdirOp(path: Path)

  function Apply(root: Node, op: Op): Result<Node> {
    match op
    case UnlinkOp(p) => Unlink(root, p)
    case RmdirOp(p) => Rmdir(root, p)
  }

  /** Run the operations in order; the first failure aborts. */
  function ApplyAll(root: Node, ops: seq<Op>): Result<Node>
    decreases |ops|
  {
    if |ops| == 0 then Ok(root)
    else match Apply(root, ops[0])
      case Err(e) => Err(e)
      case Ok(next) => ApplyAll(next, ops[1..])
  }

  /** Every primitive keeps the tree well formed, so a run of them does too. */
  lemma {:induction false} ApplyAllWF(root: Node, ops: seq<Op>)
    requires WF(root) && ApplyAll(root, ops).Ok?
    ensures WF(ApplyAll(root, ops).value)
    decreases |ops|
  {
    if |ops| > 0 {
      ApplyAllWF(Apply(root, ops[0]).value, ops[1..]);
    }
  }

  lemma {:induction false} ApplyAllAppend(root: Node, a: seq<Op>, b: seq<Op>)
    ensures ApplyAll(root, a + b) == match ApplyAll(root, a) case Ok(s) => ApplyAll(s, b) case Err(e) => Err(e)
    decreases |a|
  {
    if |a| == 0 {
      assert a + b == b;
    } else {
      assert (a + b)[0] == a[0] && (a + b)[1..] == a[1..] + b;
      match Apply(root, a[0]) {
        case Err(_) =>
        case Ok(next) => ApplyAllAppend(next, a[1..], b);
      }
    }
  }

  /** The operations `clean` performs on the directory `n` found at `p`:
      every child directory is cleaned, every other child is unlinked, and the
      directory itself is removed last. */
  function CleanOps(n: Node, p: Path): seq<Op>
    requires n.Dir?
    decreases n, 1, 0
  {
    ChildOps(n, p, 0) + [RmdirOp(p)]
  }

  function ChildOps(n: Node, p: Path, i: nat): seq<Op>
    requires n.Dir? && i <= |n.entries|
    decreases n, 0, |n.entries| - i
  {
    if i == |n.entries| then []
    else
      var e := n.entries[i];
      (if e.node.Dir? then CleanOps(e.node, p + [e.name]) else [UnlinkOp(p + [e.name])])
      + ChildOps(n, p, i + 1)
  }

  /** Child `i` of the directory at `p` is found by its name. */
  lemma ChildLookup(s: Node, p: Path, es: seq<Entry>)
    requires LStat(s, p) == Ok(Dir(es)) && |es| >= 1
    ensures LStat(s, p + [es[0].name]) == Ok(es[0].node)
  {
    LStatAppend(s, p, [es[0].name]);
    FindIs(es, es[0].name, 0);
  }

  /** Cleaning a directory succeeds, every `rmdir` meeting an empty directory,
      and leaves exactly the tree with that directory removed. */
  lemma {:induction false} CleanOpsRemoves(s: Node, p: Path, n: Node)
    requires WF(s) && |p| >= 1 && LStat(s, p) == Ok(n) && n.Dir?
    ensures ApplyAll(s, CleanOps(n, p)) == Ok(RemoveAt(s, p))
    decreases n, 1, 0
  {
    SetAtSelf(s, p);
    ChildOpsEmpty(s, p, n, 0);
    ApplyAllAppend(s, ChildOps(n, p, 0), [RmdirOp(p)]);
    var t := SetAt(s, p, Dir([]));
    LStatSetAtBelow(s, p, Dir([]), []);
    assert p + [] == p;
    WFSetAt(s, p, Dir([]));
    RemoveAtAfterSetAt(s, p, Dir([]));
    assert Rmdir(t, p) == Ok(RemoveAt(t, p));
    assert ApplyAll(t, [RmdirOp(p)]) == Ok(RemoveAt(t, p));
  }

  /** Removing the children from entry `i` on empties the directory at `p`. */
  lemma {:induction false} ChildOpsEmpty(s: Node, p: Path, n: Node, i: nat)
    requires n.Dir? && i <= |n.entries|
    requires WF(s) && |p| >= 1 && LStat(s, p) == Ok(Dir(n.entries[i..]))
    ensures ApplyAll(s, ChildOps(n, p, i)) == Ok(SetAt(s, p, Dir([])))
    decreases n, 0, |n.entries| - i
  {
    var es := n.entries[i..];
    if i == |n.entries| {
      assert es == [];
      SetAtSelf(s, p);
    } else {
      var e := n.entries[i];
      assert es[0] == e;
      var c := p + [e.name];
      ChildLookup(s, p, es);
      assert Parent(c) == p && Last(c) == e.name;
      FindIs(es, e.name, 0);
      assert es[..0] + es[1..] == n.entries[i + 1..];
      var s' := SetAt(s, p, Dir(n.entries[i + 1..]));
      assert RemoveAt(s, c) == s';
      var head := if e.node.Dir? then CleanOps(e.node, c) else [UnlinkOp(c)];
      if e.node.Dir? {
        CleanOpsRemoves(s, c, e.node);
      } else {
        assert ApplyAll(s, [UnlinkOp(c)]) == Ok(RemoveAt(s, c));
      }
      WFRemoveAt(s, c);
      LStatSetAtBelow(s, p, Dir(n.entries[i + 1..]), []);
      assert p + [] == p;
      ChildOpsEmpty(s', p, n, i + 1);
      SetAtTwice(s, p, Dir(n.entries[i + 1..]), Dir([]));
      ApplyAllAppend(s, head, ChildOps(n, p, i + 1));
    }
  }

  /** `clean(dir)`: nothing happens when `dir` does not exist (existence
      follows links, as `existsSync` does); a directory is removed with its
      whole subtree and every other path keeps its status. */
  function Clean(root: Node, p: Path): (r: Result<Node>)
    ensures !Exists(root, p) ==> r == Ok(root)
    ensures WF(root) && |p| >= 1 && LStat(root, p).Ok? && LStat(root, p).value.Dir? ==>
      r.Ok? && forall q :: At(r.value, q) == if p <= q then None else At(root, q)
    ensures WF(root) && r.Ok? ==> WF(r.value)
  {
    if !Exists(root, p) then Ok(root)
    else match LStat(root, p)
      case Ok(Dir(es)) =>
        CleanDirEffect(root, p, Dir(es));
        ApplyAll(root, CleanOps(Dir(es), p))
      case Ok(_) => Err(NotADirectory)
      case Err(e) => Err(e)
  }

  /** The calls for a directory remove exactly its subtree from a well-formed
      tree, and no run of them breaks well-formedness. */
  lemma CleanDirEffect(root: Node, p: Path, n: Node)
    requires LStat(root, p) == Ok(n) && n.Dir?
    ensures WF(root) && |p| >= 1 ==>
      ApplyAll(root, CleanOps(n, p)).Ok?
      && forall q :: At(ApplyAll(root, CleanOps(n, p)).value, q) == if p <= q then None else At(root, q)
    ensures WF(root) && ApplyAll(root, CleanOps(n, p)).Ok? ==> WF(ApplyAll(root, CleanOps(n, p)).value)
  {
    if WF(root) && |p| >= 1 {
      CleanOpsRemoves(root, p, n);
      AtRemoveAtAll(root, p);
    }
    if WF(root) && ApplyAll(root, CleanOps(n, p)).Ok? {
      ApplyAllWF(root, CleanOps(n, p));
    }
  }

  /** A second `clean` of the same path finds nothing and changes nothing. */
  lemma CleanIdempotent(root: Node, p: Path)
    requires WF(root) && |p| >= 1
    requires Clean(root, p).Ok?
    ensures Clean(Clean(root, p).value, p) == Clean(root, p)
  {
    var after := Clean(root, p).value;
    if Exists(root, p) {
      assert At(after, p) == None;
      assert !Exists(after, p);
    }
  }
}
