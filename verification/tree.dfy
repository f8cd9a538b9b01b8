/** The filesystem as an immutable value. A directory keeps its entries in a
    sequence, whose order stands for the order `readdir` reports them in. The
    map view the library's properties are stated in is `At(root, p)`: what
    `lstat` reports at path `p` (a file and its bytes, a directory, or a
    symbolic link and its target), or nothing. */
module Tree {
  import opened Wrappers
  import opened Paths

  type Bytes = seq<bv8>

  datatype Node =
    | File(data: Bytes)
    | Dir(entries: seq<Entry>)
    | Link(target: Path, kind: string)   // `kind` is the link type handed to `symlink`

  datatype Entry = Entry(name: string, node: Node)

  /** What `lstat` reveals about a node: files and links fully, directories
      only by their kind. */
  datatype Status = IsFile(data: Bytes) | IsDir | IsLink(target: Path, kind: string)

  function StatusOf(n: Node): Status {
    match n
    case File(d) => IsFile(d)
    case Dir(_) => IsDir
    case Link(t, k) => IsLink(t, k)
  }

  /** Index of the first entry called `name`. */
  function Find(es: seq<Entry>, name: string): (r: Option<nat>)
    ensures r.Some? ==> r.value < |es| && es[r.value].name == name
  {
    if |es| == 0 then None
    else if es[0].name == name then Some(0)
    else match Find(es[1..], name)
      case None => None
      case Some(i) => Some(i + 1)
  }

  /** No entry before the one `Find` returns, and none at all when it returns
      nothing, is called `name`. */
  lemma {:induction false} FindFirst(es: seq<Entry>, name: string)
    ensures Find(es, name).Some? ==> forall j :: 0 <= j < Find(es, name).value ==> es[j].name != name
    ensures Find(es, name).None? ==> forall j :: 0 <= j < |es| ==> es[j].name != name
    decreases |es|
  {
    if |es| > 0 && es[0].name != name {
      FindFirst(es[1..], name);
      assert forall j :: 1 <= j < |es| ==> es[j] == es[1..][j - 1];
    }
  }

  /** `lstat`: walk the path from the root without following links. A missing
      name is `NoEntry`; a non-directory met before the end is `NotADirectory`. */
  function LStat(n: Node, p: Path): Result<Node>
    decreases |p|
  {
    if |p| == 0 then Ok(n)
    else match n
      case Dir(es) =>
        (match Find(es, p[0])
         case None => Err(NoEntry)
         case Some(i) => LStat(es[i].node, p[1..]))
      case _ => Err(NotADirectory)
  }

  /** The map view: the status of the entry at `p`, if there is one. */
  function At(n: Node, p: Path): Option<Status> {
    match LStat(n, p)
    case Ok(m) => Some(StatusOf(m))
    case Err(_) => None
  }

  /** Linux gives up after following this many symbolic links (MAXSYMLINKS). */
  const MaxSymlinkHops: nat := 40

  function StatFuel(root: Node, p: Path, fuel: nat): Result<Node>
    decreases fuel
  {
    match LStat(root, p)
    case Ok(Link(t, _)) => if fuel == 0 then Err(TooManyLinks) else StatFuel(root, t, fuel - 1)
    case other => other
  }

  /** `stat`: like `lstat`, but a link at the end of the path is followed. */
  function Stat(root: Node, p: Path): Result<Node> {
    StatFuel(root, p, MaxSymlinkHops)
  }

  /** `existsSync`: `stat` succeeds. A dangling link does not exist. */
  predicate Exists(root: Node, p: Path) {
    Stat(root, p).Ok?
  }

  /** Names are valid and unique within each directory; link targets are
      resolved paths. */
  predicate WF(n: Node)
    decreases n
  {
    match n
    case File(_) => true
    case Link(t, _) => ValidPath(t)
    case Dir(es) =>
      && (forall i, j :: 0 <= i < j < |es| ==> es[i].name != es[j].name)
      && (forall i :: 0 <= i < |es| ==> ValidName(es[i].name) && WF(es[i].node))
  }

  function Parent(p: Path): Path
    requires |p| >= 1
  {
    p[..|p| - 1]
  }

  function Last(p: Path): string
    requires |p| >= 1
  {
    p[|p| - 1]
  }

  /** Replace the node at `p` (no change when `p` does not exist). */
  function SetAt(n: Node, p: Path, m: Node): Node
    decreases |p|
  {
    if |p| == 0 then m
    else match n
      case Dir(es) =>
        (match Find(es, p[0])
         case None => n
         case Some(i) => Dir(es[i := Entry(p[0], SetAt(es[i].node, p[1..], m))]))
      case _ => n
  }

  /** Remove the entry at `p` together with everything below it. */
  function RemoveAt(n: Node, p: Path): Node
    requires |p| >= 1
  {
    match LStat(n, Parent(p))
    case Ok(Dir(es)) =>
      (match Find(es, Last(p))
       case None => n
       case Some(i) => SetAt(n, Parent(p), Dir(es[..i] + es[i + 1..])))
    case _ => n
  }

  /** Add a new entry at `p`, after the existing entries of its parent. */
  function AddAt(n: Node, p: Path, m: Node): Node
    requires |p| >= 1
  {
    match LStat(n, Parent(p))
    case Ok(Dir(es)) => SetAt(n, Parent(p), Dir(es + [Entry(Last(p), m)]))
    case _ => n
  }

  // ---------------------------------------------------------------------------
  // Lookup along concatenated paths

  lemma {:induction false} LStatAppend(n: Node, a: Path, b: Path)
    ensures LStat(n, a + b) == match LStat(n, a) case Ok(x) => LStat(x, b) case Err(e) => Err(e)
    decreases |a|
  {
    if |a| == 0 {
      assert a + b == b;
    } else {
      assert (a + b)[0] == a[0] && (a + b)[1..] == a[1..] + b;
      match n
      case Dir(es) =>
        match Find(es, a[0]) {
          case None =>
          case Some(i) => LStatAppend(es[i].node, a[1..], b);
        }
      case _ =>
    }
  }

  /** Every proper ancestor of an existing path is a directory. */
  lemma {:induction false} AncestorIsDir(n: Node, p: Path, k: nat)
    requires LStat(n, p).Ok?
    requires k < |p|
    ensures LStat(n, p[..k]).Ok? && LStat(n, p[..k]).value.Dir?
  {
    LStatAppend(n, p[..k], p[k..]);
    assert p[..k] + p[k..] == p;
    var x := LStat(n, p[..k]);
    assert p[k..][0] == p[k];
  }

  lemma {:induction false} WFLStat(n: Node, p: Path)
    requires WF(n) && LStat(n, p).Ok?
    ensures WF(LStat(n, p).value)
    decreases |p|
  {
    if |p| > 0 {
      var i := Find(n.entries, p[0]).value;
      WFLStat(n.entries[i].node, p[1..]);
    }
  }

  // ---------------------------------------------------------------------------
  // SetAt

  lemma FindIs(es: seq<Entry>, name: string, k: nat)
    requires k < |es| && es[k].name == name
    requires forall j :: 0 <= j < k ==> es[j].name != name
    ensures Find(es, name) == Some(k)
  {
    FindFirst(es, name);
  }

  lemma FindNone(es: seq<Entry>, name: string)
    requires forall j :: 0 <= j < |es| ==> es[j].name != name
    ensures Find(es, name) == None
  {
  }

  lemma FindSameNames(es: seq<Entry>, es': seq<Entry>, name: string)
    requires |es| == |es'|
    requires forall j :: 0 <= j < |es| ==> es[j].name == es'[j].name
    ensures Find(es, name) == Find(es', name)
  {
    FindFirst(es, name);
    match Find(es, name) {
      case Some(k) => FindIs(es', name, k);
      case None => FindNone(es', name);
    }
  }

  /** Below the replaced node, lookups see the replacement. */
  lemma {:induction false} LStatSetAtBelow(n: Node, p: Path, m: Node, r: Path)
    requires LStat(n, p).Ok?
    ensures LStat(SetAt(n, p, m), p + r) == LStat(m, r)
    decreases |p|
  {
    if |p| == 0 {
      assert p + r == r;
    } else {
      var es := n.entries;
      var i := Find(es, p[0]).value;
      var es' := es[i := Entry(p[0], SetAt(es[i].node, p[1..], m))];
      FindSameNames(es, es', p[0]);
      assert (p + r)[0] == p[0] && (p + r)[1..] == p[1..] + r;
      LStatSetAtBelow(es[i].node, p[1..], m, r);
    }
  }

  /** Replacing the node at an existing path `p` changes the map view below
      `p` only, and nothing else. */
  lemma {:induction false} AtSetAt(n: Node, p: Path, m: Node, q: Path)
    requires LStat(n, p).Ok?
    ensures At(SetAt(n, p, m), q) == if p <= q then At(m, q[|p|..]) else At(n, q)
    decreases |p|
  {
    if |p| == 0 {
      assert q[|p|..] == q;
    } else if |q| == 0 {
    } else {
      var es := n.entries;
      var i := Find(es, p[0]).value;
      var es' := es[i := Entry(p[0], SetAt(es[i].node, p[1..], m))];
      FindSameNames(es, es', q[0]);
      if q[0] == p[0] {
        AtSetAt(es[i].node, p[1..], m, q[1..]);
        assert p <= q <==> p[1..] <= q[1..];
        if p <= q {
          assert q[|p|..] == q[1..][|p| - 1..];
        }
      } else {
        assert !(p <= q);
      }
    }
  }

  lemma {:induction false} WFSetAt(n: Node, p: Path, m: Node)
    requires WF(n) && WF(m)
    ensures WF(SetAt(n, p, m))
    decreases |p|
  {
    if |p| > 0 && n.Dir? {
      var es := n.entries;
      match Find(es, p[0]) {
        case None =>
        case Some(i) =>
          WFSetAt(es[i].node, p[1..], m);
          var es' := es[i := Entry(p[0], SetAt(es[i].node, p[1..], m))];
          assert forall j :: 0 <= j < |es| ==> es'[j].name == es[j].name;
      }
    }
  }

  /** Replacing a node twice at the same place keeps only the second. */
  lemma {:induction false} SetAtTwice(n: Node, p: Path, a: Node, b: Node)
    ensures SetAt(SetAt(n, p, a), p, b) == SetAt(n, p, b)
    decreases |p|
  {
    if |p| > 0 && n.Dir? {
      var es := n.entries;
      match Find(es, p[0]) {
        case None =>
        case Some(i) =>
          var es' := es[i := Entry(p[0], SetAt(es[i].node, p[1..], a))];
          FindSameNames(es, es', p[0]);
          SetAtTwice(es[i].node, p[1..], a, b);
      }
    }
  }

  /** Replacing a node with itself changes nothing. */
  lemma {:induction false} SetAtSelf(n: Node, p: Path)
    requires LStat(n, p).Ok?
    ensures SetAt(n, p, LStat(n, p).value) == n
    decreases |p|
  {
    if |p| > 0 {
      var es := n.entries;
      var i := Find(es, p[0]).value;
      SetAtSelf(es[i].node, p[1..]);
      assert es[i := Entry(p[0], es[i].node)] == es;
    }
  }

  /** A replacement at an ancestor overrides an earlier one below it. */
  lemma {:induction false} SetAtUnder(n: Node, p: Path, r: Path, a: Node, b: Node)
    requires LStat(n, p).Ok?
    ensures SetAt(SetAt(n, p + r, a), p, b) == SetAt(n, p, b)
    decreases |p|
  {
    if |p| == 0 {
    } else {
      var es := n.entries;
      var i := Find(es, p[0]).value;
      assert (p + r)[0] == p[0] && (p + r)[1..] == p[1..] + r;
      var es' := es[i := Entry(p[0], SetAt(es[i].node, p[1..] + r, a))];
      FindSameNames(es, es', p[0]);
      SetAtUnder(es[i].node, p[1..], r, a, b);
    }
  }

  // ---------------------------------------------------------------------------
  // RemoveAt and AddAt

  lemma FindRemoved(es: seq<Entry>, i: nat, c: string)
    requires i < |es|
    requires forall a, b :: 0 <= a < b < |es| ==> es[a].name != es[b].name
    ensures var es' := es[..i] + es[i + 1..];
      && (c == es[i].name ==> Find(es', c).None?)
      && (c != es[i].name ==> Find(es', c).Some? == Find(es, c).Some?)
      && (c != es[i].name && Find(es, c).Some? ==> es'[Find(es', c).value] == es[Find(es, c).value])
  {
    var es' := es[..i] + es[i + 1..];
    assert forall j :: 0 <= j < |es'| ==> es'[j] == if j < i then es[j] else es[j + 1];
    FindFirst(es, c);
    if c == es[i].name {
      FindNone(es', c);
    } else {
      match Find(es, c) {
        case None => FindNone(es', c);
        case Some(k) =>
          var k' := if k < i then k else k - 1;
          FindIs(es', c, k');
      }
    }
  }

  /** Looking below a directory goes through the entry with that name. */
  lemma AtChild(es: seq<Entry>, c: string, r: Path)
    ensures At(Dir(es), [c] + r) == match Find(es, c) case None => None case Some(i) => At(es[i].node, r)
  {
    assert ([c] + r)[0] == c && ([c] + r)[1..] == r;
  }

  /** Removing entry `i` keeps the other entries' subtrees. */
  lemma AtRemovedEntry(es: seq<Entry>, i: nat, c: string, r: Path)
    requires i < |es|
    requires forall a, b :: 0 <= a < b < |es| ==> es[a].name != es[b].name
    ensures At(Dir(es[..i] + es[i + 1..]), [c] + r) == if c == es[i].name then None else At(Dir(es), [c] + r)
  {
    FindRemoved(es, i, c);
    AtChild(es, c, r);
    AtChild(es[..i] + es[i + 1..], c, r);
  }

  /** Removing an entry of a well-formed tree makes it and everything below it
      vanish from the map view, and leaves every other path as it was. */
  lemma AtRemoveAt(n: Node, p: Path, q: Path)
    requires WF(n) && |p| >= 1 && LStat(n, p).Ok?
    ensures At(RemoveAt(n, p), q) == if p <= q then None else At(n, q)
  {
    var P := Parent(p);
    AncestorIsDir(n, p, |p| - 1);
    LStatAppend(n, P, [Last(p)]);
    assert P + [Last(p)] == p;
    var es := LStat(n, P).value.entries;
    var i := Find(es, Last(p)).value;
    var es' := es[..i] + es[i + 1..];
    WFLStat(n, P);
    assert RemoveAt(n, p) == SetAt(n, P, Dir(es'));
    AtSetAt(n, P, Dir(es'), q);
    if P <= q && |q| > |P| {
      AtRemoveAtBelow(n, p, q, es, i);
    } else if P <= q {
      assert q == P && !(p <= q);
    } else {
      assert P == p[..|P|];
      assert !(p <= q);
    }
  }

  lemma AtRemoveAtBelow(n: Node, p: Path, q: Path, es: seq<Entry>, i: nat)
    requires WF(n) && |p| >= 1
    requires LStat(n, Parent(p)) == Ok(Dir(es)) && WF(Dir(es))
    requires i < |es| && es[i].name == Last(p)
    requires Parent(p) <= q && |q| > |Parent(p)|
    ensures At(Dir(es[..i] + es[i + 1..]), q[|Parent(p)|..]) == if p <= q then None else At(n, q)
  {
    var P := Parent(p);
    var c := q[|P|];
    var r := q[|P| + 1..];
    assert q == P + ([c] + r);
    assert q[|P|..] == [c] + r;
    LStatAppend(n, P, [c] + r);
    AtChild(es, c, r);
    AtRemovedEntry(es, i, c, r);
    assert p == P + [Last(p)];
    assert p <= q <==> c == Last(p);
  }

  lemma FindAppended(es: seq<Entry>, e: Entry, c: string)
    requires Find(es, e.name).None?
    ensures c != e.name ==> Find(es + [e], c) == Find(es, c)
    ensures c == e.name ==> Find(es + [e], c) == Some(|es|)
  {
    var es' := es + [e];
    FindFirst(es, e.name);
    FindFirst(es, c);
    if c == e.name {
      FindIs(es', c, |es|);
    } else {
      match Find(es, c) {
        case None => FindNone(es', c);
        case Some(k) => FindIs(es', c, k);
      }
    }
  }

  /** Adding a new entry makes it (and what it holds) appear in the map view
      and leaves every other path as it was. */
  lemma AtAddAt(n: Node, p: Path, m: Node, q: Path)
    requires |p| >= 1 && LStat(n, Parent(p)).Ok? && LStat(n, Parent(p)).value.Dir?
    requires LStat(n, p).Err?
    ensures At(AddAt(n, p, m), q) == if p <= q then At(m, q[|p|..]) else At(n, q)
    ensures LStat(AddAt(n, p, m), p) == Ok(m)
  {
    var P := Parent(p);
    LStatAppend(n, P, [Last(p)]);
    assert P + [Last(p)] == p;
    var es := LStat(n, P).value.entries;
    var e := Entry(Last(p), m);
    assert Find(es, Last(p)).None?;
    assert AddAt(n, p, m) == SetAt(n, P, Dir(es + [e]));
    AtSetAt(n, P, Dir(es + [e]), q);
    LStatSetAtBelow(n, P, Dir(es + [e]), [Last(p)]);
    FindAppended(es, e, Last(p));
    if P <= q && |q| > |P| {
      AtAddAtBelow(n, p, m, q, es);
    } else if P <= q {
      assert q == P && !(p <= q);
    } else {
      assert P == p[..|P|];
      assert !(p <= q);
    }
  }

  lemma AtAddAtBelow(n: Node, p: Path, m: Node, q: Path, es: seq<Entry>)
    requires |p| >= 1 && LStat(n, Parent(p)) == Ok(Dir(es))
    requires Find(es, Last(p)).None?
    requires Parent(p) <= q && |q| > |Parent(p)|
    ensures At(Dir(es + [Entry(Last(p), m)]), q[|Parent(p)|..]) == if p <= q then At(m, q[|p|..]) else At(n, q)
  {
    var P := Parent(p);
    var e := Entry(Last(p), m);
    var c := q[|P|];
    var r := q[|P| + 1..];
    assert q == P + ([c] + r);
    assert q[|P|..] == [c] + r;
    LStatAppend(n, P, [c] + r);
    AtChild(es, c, r);
    AtChild(es + [e], c, r);
    FindAppended(es, e, c);
    assert p == P + [Last(p)];
    assert p <= q <==> c == Last(p);
    if c == Last(p) {
      assert q[|p|..] == r;
    }
  }

  lemma WFRemoveAt(n: Node, p: Path)
    requires WF(n) && |p| >= 1
    ensures WF(RemoveAt(n, p))
  {
    match LStat(n, Parent(p)) {
      case Ok(Dir(es)) =>
        WFLStat(n, Parent(p));
        match Find(es, Last(p)) {
          case None =>
          case Some(i) =>
            var es' := es[..i] + es[i + 1..];
            assert forall j :: 0 <= j < |es'| ==> es'[j] == if j < i then es[j] else es[j + 1];
            assert WF(Dir(es')) by {
              forall a, b | 0 <= a < b < |es'| ensures es'[a].name != es'[b].name {
                var a', b' := if a < i then a else a + 1, if b < i then b else b + 1;
                assert es[a'].name != es[b'].name;
              }
            }
            WFSetAt(n, Parent(p), Dir(es'));
        }
      case _ =>
    }
  }

  lemma WFAddAt(n: Node, p: Path, m: Node)
    requires WF(n) && WF(m) && |p| >= 1 && ValidName(Last(p))
    requires LStat(n, p).Err?
    ensures WF(AddAt(n, p, m))
  {
    match LStat(n, Parent(p)) {
      case Ok(Dir(es)) =>
        WFLStat(n, Parent(p));
        LStatAppend(n, Parent(p), [Last(p)]);
        assert Parent(p) + [Last(p)] == p;
        assert Find(es, Last(p)).None?;
        FindFirst(es, Last(p));
        var es' := es + [Entry(Last(p), m)];
        assert WF(Dir(es'));
        WFSetAt(n, Parent(p), Dir(es'));
      case _ =>
    }
  }

  // ---------------------------------------------------------------------------
  // The same facts for every path at once

  lemma AtSetAtAll(n: Node, p: Path, m: Node)
    requires LStat(n, p).Ok?
    ensures forall q :: At(SetAt(n, p, m), q) == if p <= q then At(m, q[|p|..]) else At(n, q)
  {
    forall q {
      AtSetAt(n, p, m, q);
    }
  }

  lemma AtRemoveAtAll(n: Node, p: Path)
    requires WF(n) && |p| >= 1 && LStat(n, p).Ok?
    ensures forall q :: At(RemoveAt(n, p), q) == if p <= q then None else At(n, q)
  {
    forall q {
      AtRemoveAt(n, p, q);
    }
  }

  lemma AtAddAtAll(n: Node, p: Path, m: Node)
    requires |p| >= 1 && LStat(n, Parent(p)).Ok? && LStat(n, Parent(p)).value.Dir?
    requires LStat(n, p).Err?
    ensures forall q :: At(AddAt(n, p, m), q) == if p <= q then At(m, q[|p|..]) else At(n, q)
    ensures LStat(AddAt(n, p, m), p) == Ok(m)
  {
    forall q {
      AtAddAt(n, p, m, q);
    }
  }

  /** Nothing lies below a file or a link. */
  lemma BelowLeaf(n: Node, p: Path, q: Path)
    requires LStat(n, p).Ok? && !LStat(n, p).value.Dir?
    requires p < q
    ensures At(n, q) == None
  {
    LStatAppend(n, p, q[|p|..]);
    assert p + q[|p|..] == q;
  }

  /** Nothing lies below a file or a link. */
  lemma NothingBelowLeaf(n: Node, p: Path)
    requires LStat(n, p).Ok? && !LStat(n, p).value.Dir?
    ensures forall q :: p < q ==> At(n, q) == None
  {
    forall q | p < q ensures At(n, q) == None {
      BelowLeaf(n, p, q);
    }
  }

  /** Nothing lies below a missing path. */
  lemma BelowMissing(n: Node, p: Path, q: Path)
    requires LStat(n, p).Err?
    requires p <= q
    ensures At(n, q) == None
  {
    LStatAppend(n, p, q[|p|..]);
    assert p + q[|p|..] == q;
  }

  /** Replacing below `a` is replacing, at `a`, part of the node found there. */
  lemma {:induction false} SetAtAppend(n: Node, a: Path, b: Path, m: Node)
    requires LStat(n, a).Ok?
    ensures SetAt(n, a + b, m) == SetAt(n, a, SetAt(LStat(n, a).value, b, m))
    decreases |a|
  {
    if |a| == 0 {
      assert a + b == b;
    } else {
      var es := n.entries;
      var i := Find(es, a[0]).value;
      assert (a + b)[0] == a[0] && (a + b)[1..] == a[1..] + b;
      SetAtAppend(es[i].node, a[1..], b, m);
    }
  }

  /** Replacing an existing node replaces its entry in the parent directory. */
  lemma SetAtViaParent(n: Node, p: Path, m: Node)
    requires |p| >= 1 && LStat(n, p).Ok?
    ensures LStat(n, Parent(p)).Ok? && LStat(n, Parent(p)).value.Dir?
    ensures Find(LStat(n, Parent(p)).value.entries, Last(p)).Some?
    ensures var es := LStat(n, Parent(p)).value.entries;
      var i := Find(es, Last(p)).value;
      SetAt(n, p, m) == SetAt(n, Parent(p), Dir(es[i := Entry(Last(p), SetAt(es[i].node, [], m))]))
  {
    var P := Parent(p);
    var c := Last(p);
    AncestorIsDir(n, p, |p| - 1);
    LStatAppend(n, P, [c]);
    assert P + [c] == p;
    var es := LStat(n, P).value.entries;
    var i := Find(es, c).value;
    SetAtAppend(n, P, [c], m);
    assert SetAt(Dir(es), [c], m) == Dir(es[i := Entry(c, SetAt(es[i].node, [], m))]);
  }

  /** Removing a path does not depend on what was stored there. */
  lemma RemoveAtAfterSetAt(n: Node, p: Path, m: Node)
    requires |p| >= 1 && LStat(n, p).Ok?
    ensures RemoveAt(SetAt(n, p, m), p) == RemoveAt(n, p)
  {
    var P := Parent(p);
    var c := Last(p);
    SetAtViaParent(n, p, m);
    var es := LStat(n, P).value.entries;
    var i := Find(es, c).value;
    var es' := es[i := Entry(c, SetAt(es[i].node, [], m))];
    var s := SetAt(n, P, Dir(es'));
    LStatSetAtBelow(n, P, Dir(es'), []);
    assert P + [] == P;
    FindSameNames(es, es', c);
    assert es'[..i] + es'[i + 1..] == es[..i] + es[i + 1..];
    SetAtTwice(n, P, Dir(es'), Dir(es[..i] + es[i + 1..]));
  }

  /** An existing path is one `lstat` finds. */
  lemma ExistsHasEntry(n: Node, p: Path)
    requires Exists(n, p)
    ensures LStat(n, p).Ok?
  {
  }

  /** `b` keeps every entry of `a` as `lstat` sees it (it may add new ones). */
  ghost predicate Grows(a: Node, b: Node) {
    forall q :: At(a, q).Some? ==> At(b, q) == At(a, q)
  }

  /** Adding entries never makes an existing path vanish, even one reached
      through links. */
  lemma {:induction false} StatFuelGrows(a: Node, b: Node, p: Path, fuel: nat)
    requires Grows(a, b) && StatFuel(a, p, fuel).Ok?
    ensures StatFuel(b, p, fuel).Ok?
    decreases fuel
  {
    assert At(a, p).Some?;
    assert At(b, p) == At(a, p);
    var n := LStat(a, p).value;
    var m := LStat(b, p).value;
    assert StatusOf(m) == StatusOf(n);
    if n.Link? {
      assert m == n;
      StatFuelGrows(a, b, n.target, fuel - 1);
    } else {
      assert !m.Link?;
    }
  }

  /** A directory exists. */
  lemma DirExists(n: Node, p: Path)
    requires At(n, p) == Some(IsDir)
    ensures Exists(n, p)
  {
    assert LStat(n, p).Ok? && LStat(n, p).value.Dir?;
  }

  /** Nothing that `lstat` cannot find exists. */
  lemma NoEntryNotExists(n: Node, p: Path)
    requires At(n, p) == None
    ensures !Exists(n, p)
  {
  }
}
