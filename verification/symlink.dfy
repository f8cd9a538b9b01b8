/** `symlink`/`unlink` and their exported forms (src/symlink.ts): make room at
    the destination, then create a link of the requested type, using a
    junction for directory links on Windows. The platform name and the
    working directory are parameters. */
module Links {
  import opened Wrappers
  import opened Strings
  import opened Paths
  import opened Tree
  import Primitives
  import opened Clean

  /** The link type handed to `symlink`: a requested type mentioning `dir`
      becomes a junction on a platform whose name mentions `win32`. */
  function LinkKind(platform: string, kind: string): (k: string)
    ensures Contains(platform, "win32") && Contains(kind, "dir") ==> k == "junction"
    ensures !(Contains(platform, "win32") && Contains(kind, "dir")) ==> k == kind
  {
    if Contains(platform, "win32") && Contains(kind, "dir") then "junction" else kind
  }

  /** `unlink(dest)`: nothing when the destination does not exist (a dangling
      link counts as missing); a directory is cleaned; a file or a link is
      unlinked, never what the link points to. */
  function Unlink(root: Node, cwd: Path, dest: string): (r: Result<Node>)
    ensures !Exists(root, ResolveString(cwd, dest)) ==> r == Ok(root)
    ensures var d := ResolveString(cwd, dest);
      WF(root) && Exists(root, d) && |d| >= 1 ==>
        r.Ok? && forall q :: At(r.value, q) == if d <= q then None else At(root, q)
    ensures WF(root) && r.Ok? ==> WF(r.value)
  {
    var d := ResolveString(cwd, dest);
    if !Exists(root, d) then Ok(root)
    else match LStat(root, d)
      case Err(e) => Err(e)
      case Ok(Dir(_)) => Clean.Clean(root, d)
      case Ok(_) =>
        NothingBelowLeaf(root, d);
        Primitives.Unlink(root, d)
  }

  /** `symlink(src, dest, type)`: both paths are resolved, the destination is
      unlinked, then the link is created. */
  function Symlink(root: Node, cwd: Path, platform: string, src: string, dest: string, kind: string): Result<Node> {
    var source := ResolveString(cwd, src);
    var destination := ResolveString(cwd, dest);
    match Unlink(root, cwd, AbsString(destination))
    case Err(e) => Err(e)
    case Ok(cleared) => Primitives.Symlink(cleared, source, destination, LinkKind(platform, kind))
  }

  function SymlinkDir(root: Node, cwd: Path, platform: string, src: string, dest: string): Result<Node> {
    Symlink(root, cwd, platform, src, dest, "dir")
  }

  function SymlinkFile(root: Node, cwd: Path, platform: string, src: string, dest: string): Result<Node> {
    Symlink(root, cwd, platform, src, dest, "file")
  }

  function UnlinkDir(root: Node, cwd: Path, dest: string): Result<Node> {
    Unlink(root, cwd, dest)
  }

  function UnlinkFile(root: Node, cwd: Path, dest: string): Result<Node> {
    Unlink(root, cwd, dest)
  }

  // ---------------------------------------------------------------------------
  // Properties

  /** A directory link on Windows is a junction; elsewhere, and for file
      links, the requested type is passed through. */
  lemma LinkKindCases(platform: string)
    ensures Contains(platform, "win32") ==> LinkKind(platform, "dir") == "junction"
    ensures !Contains(platform, "win32") ==> LinkKind(platform, "dir") == "dir"
    ensures LinkKind(platform, "file") == "file"
  {
    assert OccursAt("dir", "dir", 0);
    assert !Contains("file", "dir") by {
      ContainsIff("file", "dir");
      assert forall i :: 0 <= i <= 4 ==> !OccursAt("file", "dir", i) by {
        assert "file"[0] != 'd' && "file"[1] != 'd';
      }
    }
  }

  /** A link that points to itself never resolves. */
  lemma {:induction false} SelfLinkMissing(root: Node, d: Path, k: string, fuel: nat)
    requires LStat(root, d) == Ok(Link(d, k))
    ensures StatFuel(root, d, fuel).Err?
    decreases fuel
  {
    if fuel > 0 {
      SelfLinkMissing(root, d, k, fuel - 1);
    }
  }

  /** Unlinking a link leaves whatever it points to as it was. */
  lemma UnlinkKeepsTarget(root: Node, cwd: Path, dest: string, t: Path, k: string)
    requires WF(root)
    requires LStat(root, ResolveString(cwd, dest)) == Ok(Link(t, k))
    ensures Unlink(root, cwd, dest).Ok?
    ensures At(Unlink(root, cwd, dest).value, t) == At(root, t)
  {
    var d := ResolveString(cwd, dest);
    if t == d {
      SelfLinkMissing(root, d, k, MaxSymlinkHops);
    } else if |d| == 0 {
      assert LStat(root, t).Err?;
    } else if d < t {
      BelowLeaf(root, d, t);
    }
  }

  /** A dangling link at the destination is not removed (it does not exist
      for `existsSync`), so linking over it fails. */
  lemma SymlinkOverDangling(root: Node, cwd: Path, platform: string, src: string, dest: string, kind: string)
    requires LStat(root, ResolveString(cwd, dest)).Ok? && LStat(root, ResolveString(cwd, dest)).value.Link?
    requires !Exists(root, ResolveString(cwd, dest))
    requires ValidPath(cwd)
    ensures Unlink(root, cwd, dest) == Ok(root)
    ensures Symlink(root, cwd, platform, src, dest, kind).Err?
  {
    var d := ResolveString(cwd, dest);
    ResolveStringValid(cwd, dest);
    AbsStringRoundTrip(cwd, d);
  }

  /** With room to create it (an existing parent directory and no dangling
      link in the way), `symlink` succeeds: the destination becomes a link to
      the resolved source with the chosen type, whatever was at or below the
      destination is gone, and everything else is unchanged. */
  lemma SymlinkSpec(root: Node, cwd: Path, platform: string, src: string, dest: string, kind: string)
    requires WF(root) && ValidPath(cwd)
    requires var d := ResolveString(cwd, dest);
      && |d| >= 1
      && LStat(root, Parent(d)).Ok? && LStat(root, Parent(d)).value.Dir?
      && (Exists(root, d) || LStat(root, d).Err?)
    ensures var d := ResolveString(cwd, dest);
      var r := Symlink(root, cwd, platform, src, dest, kind);
      && r.Ok?
      && At(r.value, d) == Some(IsLink(ResolveString(cwd, src), LinkKind(platform, kind)))
      && (forall q :: !(d <= q) ==> At(r.value, q) == At(root, q))
      && (forall q :: d < q ==> At(r.value, q) == None)
      && WF(r.value)
  {
    var d := ResolveString(cwd, dest);
    var s := ResolveString(cwd, src);
    ResolveStringValid(cwd, dest);
    ResolveStringValid(cwd, src);
    AbsStringRoundTrip(cwd, d);
    var cleared := Unlink(root, cwd, AbsString(d)).value;
    assert forall q :: At(cleared, q) == if d <= q then None else At(root, q) by {
      if !Exists(root, d) {
        forall q | d <= q ensures At(root, q) == None {
          BelowMissing(root, d, q);
        }
      }
    }
    assert At(cleared, d) == None;
    assert At(cleared, Parent(d)) == At(root, Parent(d));
    var r := Primitives.Symlink(cleared, s, d, LinkKind(platform, kind));
    forall q | d < q ensures At(r.value, q) == None {
      assert At(cleared, q) == None;
    }
  }

  /** `symlinkDir` makes a junction on Windows and a `dir` link elsewhere;
      `symlinkFile` always makes a `file` link. */
  lemma SymlinkDirFileKinds(root: Node, cwd: Path, platform: string, src: string, dest: string)
    requires WF(root) && ValidPath(cwd)
    requires var d := ResolveString(cwd, dest);
      && |d| >= 1
      && LStat(root, Parent(d)).Ok? && LStat(root, Parent(d)).value.Dir?
      && (Exists(root, d) || LStat(root, d).Err?)
    ensures SymlinkDir(root, cwd, platform, src, dest).Ok?
    ensures At(SymlinkDir(root, cwd, platform, src, dest).value, ResolveString(cwd, dest))
            == Some(IsLink(ResolveString(cwd, src), if Contains(platform, "win32") then "junction" else "dir"))
    ensures SymlinkFile(root, cwd, platform, src, dest).Ok?
    ensures At(SymlinkFile(root, cwd, platform, src, dest).value, ResolveString(cwd, dest))
            == Some(IsLink(ResolveString(cwd, src), "file"))
  {
    SymlinkSpec(root, cwd, platform, src, dest, "dir");
    SymlinkSpec(root, cwd, platform, src, dest, "file");
    LinkKindCases(platform);
  }

  /** Linking the same destination twice succeeds when the first link
      resolves, because the first link is unlinked before the second is made;
      the result is the same. */
  lemma SymlinkTwice(root: Node, cwd: Path, platform: string, src: string, dest: string, kind: string)
    requires WF(root) && ValidPath(cwd)
    requires Symlink(root, cwd, platform, src, dest, kind).Ok?
    requires Exists(Symlink(root, cwd, platform, src, dest, kind).value, ResolveString(cwd, dest))
    ensures var once := Symlink(root, cwd, platform, src, dest, kind).value;
      var twice := Symlink(once, cwd, platform, src, dest, kind);
      twice.Ok? && forall q :: At(twice.value, q) == At(once, q)
  {
    var d := ResolveString(cwd, dest);
    var s := ResolveString(cwd, src);
    ResolveStringValid(cwd, dest);
    ResolveStringValid(cwd, src);
    AbsStringRoundTrip(cwd, d);
    var once := Symlink(root, cwd, platform, src, dest, kind).value;
    var cleared := Unlink(root, cwd, AbsString(d)).value;
    assert At(once, d) == Some(IsLink(s, LinkKind(platform, kind)));
    assert WF(once);
    var parentDir := LStat(cleared, Parent(d)).Ok? && LStat(cleared, Parent(d)).value.Dir?;
    assert parentDir;
    SymlinkSpecAfter(once, cwd, platform, src, dest, kind, cleared);
  }

  /** The second call of `SymlinkTwice`: the link is unlinked and made again. */
  lemma SymlinkSpecAfter(once: Node, cwd: Path, platform: string, src: string, dest: string, kind: string, cleared: Node)
    requires WF(once) && ValidPath(cwd)
    requires var d := ResolveString(cwd, dest);
      && |d| >= 1
      && At(once, d) == Some(IsLink(ResolveString(cwd, src), LinkKind(platform, kind)))
      && Exists(once, d)
      && LStat(cleared, Parent(d)).Ok? && LStat(cleared, Parent(d)).value.Dir?
      && (forall q :: At(once, q) == if q == d then Some(IsLink(ResolveString(cwd, src), LinkKind(platform, kind))) else At(cleared, q))
    ensures var twice := Symlink(once, cwd, platform, src, dest, kind);
      twice.Ok? && forall q :: At(twice.value, q) == At(once, q)
  {
    var d := ResolveString(cwd, dest);
    assert LStat(once, Parent(d)).Ok? && LStat(once, Parent(d)).value.Dir? by {
      assert At(once, Parent(d)) == At(cleared, Parent(d)) == Some(IsDir);
    }
    SymlinkSpec(once, cwd, platform, src, dest, kind);
    var twice := Symlink(once, cwd, platform, src, dest, kind).value;
    forall q ensures At(twice, q) == At(once, q) {
      if d < q {
        BelowLeaf(once, d, q);
      }
    }
  }
}
