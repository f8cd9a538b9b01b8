/** The filesystem primitives the library calls (`mkdir`, `unlink`, `rmdir`,
    `symlink`, `readFile`/`writeFile` as used by `copyFile`), each a function
    from one filesystem value to the next, failing as the host would. */
module Primitives {
  import opened Wrappers
  import opened Paths
  import opened Tree

  /** Create the new entry `m` at `p`: refused when something is already there
      (even a dangling link), or when the parent is missing or not a directory. */
  function Create(root: Node, p: Path, m: Node): (r: Result<Node>)
    ensures r.Ok? <==> |p| >= 1 && LStat(root, p).Err?
                       && LStat(root, Parent(p)).Ok? && LStat(root, Parent(p)).value.Dir?
    ensures r.Ok? ==> r.value == AddAt(root, p, m)
  {
    if |p| == 0 then Err(AlreadyExists)
    else match LStat(root, p)
      case Ok(_) => Err(AlreadyExists)
      case Err(_) =>
        match LStat(root, Parent(p))
        case Ok(Dir(_)) => Ok(AddAt(root, p, m))
        case Ok(_) => Err(NotADirectory)
        case Err(e) => Err(e)
  }

  /** What a successful `Create` leaves: `m` at `p`, everything else as it
      was, and well-formedness kept. */
  lemma CreateEffect(root: Node, p: Path, m: Node)
    requires Create(root, p, m).Ok?
    ensures LStat(Create(root, p, m).value, p) == Ok(m)
    ensures forall q :: At(Create(root, p, m).value, q) == if p <= q then At(m, q[|p|..]) else At(root, q)
    ensures WF(root) && WF(m) && ValidPath(p) ==> WF(Create(root, p, m).value)
  {
    AtAddAtAll(root, p, m);
    if WF(root) && WF(m) && ValidPath(p) {
      WFAddAt(root, p, m);
    }
  }

  /** `mkdir` (not recursive). */
  function Mkdir(root: Node, p: Path): (r: Result<Node>)
    ensures r.Ok? <==> |p| >= 1 && LStat(root, p).Err?
                       && LStat(root, Parent(p)).Ok? && LStat(root, Parent(p)).value.Dir?
  {
    Create(root, p, Dir([]))
  }

  /** A successful `mkdir` adds an empty directory at `p` and changes nothing
      else; well-formedness is kept. */
  lemma MkdirEffect(root: Node, p: Path)
    requires Mkdir(root, p).Ok?
    ensures forall q :: At(Mkdir(root, p).value, q) == if q == p then Some(IsDir) else At(root, q)
    ensures WF(root) && ValidPath(p) ==> WF(Mkdir(root, p).value)
  {
    var r := Create(root, p, Dir([]));
    CreateEffect(root, p, Dir([]));
    forall q ensures At(r.value, q) == if q == p then Some(IsDir) else At(root, q) {
      assert At(r.value, q) == if p <= q then At(Dir([]), q[|p|..]) else At(root, q);
      if p <= q && q != p {
        var rest := q[|p|..];
        assert |rest| > 0;
        BelowMissing(root, p, q);
        assert LStat(Dir([]), rest).Err?;
      } else if q == p {
        assert q[|p|..] == [];
      }
    }
  }

  /** `unlink`: removes a file or a link (never what the link points to);
      a directory is refused. */
  function Unlink(root: Node, p: Path): (r: Result<Node>)
    ensures r.Ok? <==> LStat(root, p).Ok? && !LStat(root, p).value.Dir? && |p| >= 1
    ensures r.Ok? && WF(root) ==> forall q :: At(r.value, q) == if q == p then None else At(root, q)
    ensures r.Ok? && WF(root) ==> WF(r.value)
  {
    match LStat(root, p)
    case Err(e) => Err(e)
    case Ok(Dir(_)) => Err(IsADirectory)
    case Ok(_) =>
      if |p| == 0 then Err(IsADirectory)
      else
        RemoveLeafEffect(root, p);
        Ok(RemoveAt(root, p))
  }

  /** Removing a file or a link from a well-formed tree removes that one path
      and nothing else. */
  lemma RemoveLeafEffect(root: Node, p: Path)
    requires LStat(root, p).Ok? && !LStat(root, p).value.Dir? && |p| >= 1
    ensures WF(root) ==> forall q :: At(RemoveAt(root, p), q) == if q == p then None else At(root, q)
    ensures WF(root) ==> WF(RemoveAt(root, p))
  {
    if WF(root) {
      AtRemoveAtAll(root, p);
      WFRemoveAt(root, p);
      NothingBelowLeaf(root, p);
    }
  }

  /** `rmdir`: removes an empty directory; the root cannot be removed. */
  function Rmdir(root: Node, p: Path): (r: Result<Node>)
    ensures r.Ok? <==> |p| >= 1 && LStat(root, p) == Ok(Dir([]))
    ensures r.Ok? && WF(root) ==> forall q :: At(r.value, q) == if q == p then None else At(root, q)
    ensures r.Ok? && WF(root) ==> WF(r.value)
  {
    match LStat(root, p)
    case Err(e) => Err(e)
    case Ok(Dir(es)) =>
      if |es| > 0 then Err(NotEmpty)
      else if |p| == 0 then Err(Busy)
      else if WF(root) then
        AtRemoveAtAll(root, p);
        WFRemoveAt(root, p);
        forall q | p < q ensures At(root, q) == None {
          LStatAppend(root, p, q[|p|..]);
          assert p + q[|p|..] == q;
        }
        Ok(RemoveAt(root, p))
      else Ok(RemoveAt(root, p))
    case Ok(_) => Err(NotADirectory)
  }

  /** `symlink(target, p, kind)`: a new link entry; refused over an existing one. */
  function Symlink(root: Node, target: Path, p: Path, kind: string): (r: Result<Node>)
    ensures r.Ok? <==> |p| >= 1 && LStat(root, p).Err?
                       && LStat(root, Parent(p)).Ok? && LStat(root, Parent(p)).value.Dir?
    ensures r.Ok? ==> forall q :: At(r.value, q) == if q == p then Some(IsLink(target, kind)) else At(root, q)
    ensures r.Ok? && WF(root) && ValidPath(p) && ValidPath(target) ==> WF(r.value)
  {
    var r := Create(root, p, Link(target, kind));
    if r.Ok? then
      CreateEffect(root, p, Link(target, kind));
      forall q ensures At(r.value, q) == if q == p then Some(IsLink(target, kind)) else At(root, q) {
        assert At(r.value, q) == if p <= q then At(Link(target, kind), q[|p|..]) else At(root, q);
        if p <= q && q != p {
          var rest := q[|p|..];
          assert |rest| > 0;
          BelowMissing(root, p, q);
          assert LStat(Link(target, kind), rest).Err?;
        } else if q == p {
          assert q[|p|..] == [];
        }
      }
      r
    else r
  }

  /** Reading a file follows links; a directory is refused. */
  function ReadFile(root: Node, p: Path): (r: Result<Bytes>)
    ensures r.Ok? <==> Stat(root, p).Ok? && Stat(root, p).value.File?
    ensures r.Ok? ==> Stat(root, p) == Ok(File(r.value))
    ensures r.Ok? && LStat(root, p).Ok? && LStat(root, p).value.File? ==> LStat(root, p) == Ok(File(r.value))
  {
    match Stat(root, p)
    case Ok(File(d)) => Ok(d)
    case Ok(Dir(_)) => Err(IsADirectory)
    case Ok(Link(_, _)) => Err(TooManyLinks)
    case Err(e) => Err(e)
  }

  /** Writing a file (the destination side of `copyFile`): an existing file is
      overwritten, a link is followed, a missing entry is created, a directory
      is refused. */
  function WriteFile(root: Node, p: Path, data: Bytes, fuel: nat): (r: Result<Node>)
    ensures !(LStat(root, p).Ok? && LStat(root, p).value.Link?) ==>
      (r.Ok? <==> (LStat(root, p).Ok? && LStat(root, p).value.File?)
                  || (|p| >= 1 && LStat(root, p).Err?
                      && LStat(root, Parent(p)).Ok? && LStat(root, Parent(p)).value.Dir?))
    ensures r.Ok? && !(LStat(root, p).Ok? && LStat(root, p).value.Link?) ==>
      forall q :: At(r.value, q) == if q == p then Some(IsFile(data)) else At(root, q)
    ensures r.Ok? && WF(root) && ValidPath(p) ==> WF(r.value)
    decreases fuel
  {
    match LStat(root, p)
    case Ok(File(_)) =>
      OverwriteEffect(root, p, data);
      Ok(SetAt(root, p, File(data)))
    case Ok(Dir(_)) => Err(IsADirectory)
    case Ok(Link(t, _)) =>
      if fuel == 0 then Err(TooManyLinks)
      else
        LinkTargetValid(root, p);
        WriteFile(root, t, data, fuel - 1)
    case Err(_) =>
      var r := Create(root, p, File(data));
      if r.Ok? then CreateFileEffect(root, p, data); r else r
  }

  /** Overwriting an existing file changes that one path and nothing else. */
  lemma OverwriteEffect(root: Node, p: Path, data: Bytes)
    requires LStat(root, p).Ok? && LStat(root, p).value.File?
    ensures forall q :: At(SetAt(root, p, File(data)), q) == if q == p then Some(IsFile(data)) else At(root, q)
    ensures WF(root) ==> WF(SetAt(root, p, File(data)))
  {
    AtSetAtAll(root, p, File(data));
    NothingBelowLeaf(root, p);
    if WF(root) {
      WFSetAt(root, p, File(data));
    }
  }

  /** A new file where nothing was adds that one path and nothing else. */
  lemma CreateFileEffect(root: Node, p: Path, data: Bytes)
    requires LStat(root, p).Err? && Create(root, p, File(data)).Ok?
    ensures forall q :: At(Create(root, p, File(data)).value, q) == if q == p then Some(IsFile(data)) else At(root, q)
    ensures WF(root) && ValidPath(p) ==> WF(Create(root, p, File(data)).value)
  {
    CreateEffect(root, p, File(data));
    forall q ensures At(Create(root, p, File(data)).value, q) == if q == p then Some(IsFile(data)) else At(root, q) {
      if p <= q && q != p {
        assert |q[|p|..]| > 0;
        BelowMissing(root, p, q);
        assert LStat(File(data), q[|p|..]).Err?;
      } else if q == p {
        assert q[|p|..] == [];
      }
    }
  }

  /** The target of a link in a well-formed tree is a resolved path. */
  lemma LinkTargetValid(root: Node, p: Path)
    ensures WF(root) && LStat(root, p).Ok? && LStat(root, p).value.Link? ==> ValidPath(LStat(root, p).value.target)
  {
    if WF(root) && LStat(root, p).Ok? {
      WFLStat(root, p);
    }
  }

  /** `copyFile(src, dest)`: the destination receives the source's bytes. The
      source is read through links; when the destination is not a link, the
      copy succeeds exactly when the source reads as a file and the
      destination is a file, or is free with a directory as its parent. */
  function CopyFile(root: Node, src: Path, dest: Path): (r: Result<Node>)
    ensures r.Ok? ==> Stat(root, src).Ok? && Stat(root, src).value.File?
    ensures Stat(root, src).Ok? && Stat(root, src).value.File?
            && !(LStat(root, dest).Ok? && LStat(root, dest).value.Link?) ==>
      (r.Ok? <==> (LStat(root, dest).Ok? && LStat(root, dest).value.File?)
                  || (|dest| >= 1 && LStat(root, dest).Err?
                      && LStat(root, Parent(dest)).Ok? && LStat(root, Parent(dest)).value.Dir?))
    ensures r.Ok? && !(LStat(root, dest).Ok? && LStat(root, dest).value.Link?) ==>
      forall q :: At(r.value, q) == if q == dest then Some(IsFile(Stat(root, src).value.data)) else At(root, q)
    ensures r.Ok? && LStat(root, src).Ok? && LStat(root, src).value.File?
            && !(LStat(root, dest).Ok? && LStat(root, dest).value.Link?) ==>
      forall q :: At(r.value, q) == if q == dest then Some(IsFile(LStat(root, src).value.data)) else At(root, q)
    ensures r.Ok? && WF(root) && ValidPath(dest) ==> WF(r.value)
  {
    match ReadFile(root, src)
    case Err(e) => Err(e)
    case Ok(d) => WriteFile(root, dest, d, MaxSymlinkHops)
  }
}
