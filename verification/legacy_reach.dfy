/** What the older recursive walk (src/file.ts `walkAsync`) finds, stated
    without its string handling: a reference walk over paths relative to the
    walked directory, the paths it reaches characterised through `stat`, and
    the agreement of the walk's printed results with that reference. */
module LegacyReach {
  import opened Wrappers
  import opened Strings
  import opened Paths
  import opened Tree
  import opened Glob
  import opened Legacy

  // ---------------------------------------------------------------------------
  // Reaching a path the way the older walk does

  /** Follow the names of `rel` from the directory `n`, classifying every
      entry on the way with `stat`, so a link to a directory is entered and a
      link at the end counts as what it points to. */
  function Reach(root: Node, n: Node, rel: Path): (r: Result<Node>)
    ensures r.Ok? && |rel| >= 1 ==> !r.value.Link?
    decreases |rel|
  {
    if |rel| == 0 then Ok(n)
    else match n
      case Dir(es) =>
        (match Find(es, rel[0])
         case None => Err(NoEntry)
         case Some(i) =>
           match Follow(root, es[i].node)
           case Err(e) => Err(e)
           case Ok(m) => Reach(root, m, rel[1..]))
      case _ => Err(NotADirectory)
  }

  /** Reference definition of what the older walk lists below the directory
      `n`: a file, reached through links and seen through a final link, at
      depth one, or at any depth when recursive, whose name matches. */
  predicate LegacySelected(root: Node, n: Node, rel: Path, o: GlobOptions, matches: (string, string) -> bool) {
    && |rel| >= 1
    && (o.isRecursive || |rel| == 1)
    && Reach(root, n, rel).Ok? && Reach(root, n, rel).value.File?
    && matches(rel[|rel| - 1], o.pattern)
  }

  /** The walk's own recursion over paths instead of strings, with the same
      order, the same failures and the same bound on link descents. */
  function Reached(root: Node, es: seq<Entry>, o: GlobOptions, matches: (string, string) -> bool,
                   fuel: nat): (r: Result<seq<Path>>)
    ensures r.Ok? ==> forall x :: x in r.value ==> |x| >= 1
    decreases fuel, es, 1
  {
    if |es| == 0 then Ok([])
    else match ReachedFirst(root, es, o, matches, fuel)
      case Err(e) => Err(e)
      case Ok(xs) =>
        match Reached(root, es[1..], o, matches, fuel)
        case Err(e) => Err(e)
        case Ok(ys) => Ok(xs + ys)
  }

  /** The paths below the first entry, then the entry itself. */
  function ReachedFirst(root: Node, es: seq<Entry>, o: GlobOptions, matches: (string, string) -> bool,
                        fuel: nat): (r: Result<seq<Path>>)
    requires |es| >= 1
    ensures r.Ok? ==> forall x :: x in r.value ==> |x| >= 1 && x[0] == es[0].name
    decreases fuel, es, 0
  {
    var e := es[0];
    match Follow(root, e.node)
    case Err(err) => Err(err)
    case Ok(s) =>
      var below :=
        if s.Dir? && o.isRecursive then
          if e.node.Dir? then Reached(root, e.node.entries, o, matches, fuel)
          else if fuel == 0 then Err(TooManyLinks)
          else Reached(root, s.entries, o, matches, fuel - 1)
        else Ok([]);
      match below
      case Err(err) => Err(err)
      case Ok(sub) => Ok(Under(e.name, sub) + OwnPath(s, e.name, o, matches))
  }

  /** The entry itself, when `stat` finds a matching file. */
  function OwnPath(s: Node, name: string, o: GlobOptions, matches: (string, string) -> bool): seq<Path> {
    if s.File? && matches(name, o.pattern) then [[name]] else []
  }

  // ---------------------------------------------------------------------------
  // The reference walk lists exactly the selected paths

  /** What `stat` finds for a well-formed entry is well formed. */
  lemma FollowWF(root: Node, n: Node)
    requires WF(root) && WF(n) && Follow(root, n).Ok?
    ensures WF(Follow(root, n).value)
  {
    if n.Link? {
      WFStatFuel(root, n.target, MaxSymlinkHops - 1);
    }
  }

  /** The names of a reached path are valid names. */
  lemma {:induction false} ReachValid(root: Node, n: Node, rel: Path)
    requires WF(root) && WF(n) && Reach(root, n, rel).Ok?
    ensures ValidPath(rel)
    decreases |rel|
  {
    if |rel| > 0 {
      var i := Find(n.entries, rel[0]).value;
      FollowWF(root, n.entries[i].node);
      ReachValid(root, Follow(root, n.entries[i].node).value, rel[1..]);
      assert forall k :: 1 <= k < |rel| ==> rel[k] == rel[1..][k - 1];
    }
  }

  /** Through the first entry's name, a path is selected exactly when the
      rest of it is selected below what `stat` finds for that entry. */
  lemma SelectedHead(root: Node, es: seq<Entry>, s: Node, rel: Path, o: GlobOptions,
                     matches: (string, string) -> bool)
    requires |es| >= 1 && |rel| >= 2 && rel[0] == es[0].name
    requires Follow(root, es[0].node) == Ok(s)
    ensures LegacySelected(root, Dir(es), rel, o, matches)
            <==> o.isRecursive && s.Dir? && LegacySelected(root, s, rel[1..], o, matches)
  {
    assert Reach(root, Dir(es), rel) == Reach(root, s, rel[1..]);
    assert rel[|rel| - 1] == rel[1..][|rel[1..]| - 1];
  }

  /** The first entry's paths are exactly the selected paths through its name. */
  lemma {:induction false} ReachedFirstIff(root: Node, es: seq<Entry>, o: GlobOptions,
                                           matches: (string, string) -> bool, fuel: nat, rel: Path)
    requires |es| >= 1 && WF(root) && WF(Dir(es))
    requires ReachedFirst(root, es, o, matches, fuel).Ok?
    ensures rel in ReachedFirst(root, es, o, matches, fuel).value
            <==> |rel| >= 1 && rel[0] == es[0].name && LegacySelected(root, Dir(es), rel, o, matches)
    decreases fuel, es, 0
  {
    var e := es[0];
    var first := ReachedFirst(root, es, o, matches, fuel).value;
    var s := Follow(root, e.node).value;
    var down := s.Dir? && o.isRecursive;
    var f := if e.node.Dir? || !down then fuel else fuel - 1;
    var sub := if down then Reached(root, s.entries, o, matches, f).value else [];
    assert first == Under(e.name, sub) + OwnPath(s, e.name, o, matches);
    if |rel| >= 1 && rel[0] == e.name {
      if |rel| == 1 {
        assert Reach(root, Dir(es), rel) == Ok(s);
        if s.File? && matches(e.name, o.pattern) {
          assert rel == [e.name];
          assert first[|sub|] == rel;
        }
      } else {
        SelectedHead(root, es, s, rel, o, matches);
        UnderIff(e.name, sub, rel);
        if down {
          FollowWF(root, e.node);
          ReachedIff(root, s.entries, o, matches, f, rel[1..]);
        }
      }
    }
  }

  /** A path is under `c` exactly when it starts with `c` and its rest is listed. */
  lemma UnderIff(c: string, sub: seq<Path>, rel: Path)
    requires |rel| >= 2 && rel[0] == c
    ensures forall xs: seq<Path> :: |xs| <= 1 && (forall x :: x in xs ==> |x| == 1) ==>
      (rel in Under(c, sub) + xs <==> rel[1..] in sub)
  {
    var u := Under(c, sub);
    if rel in u {
      var k :| 0 <= k < |u| && u[k] == rel;
      assert rel[1..] == sub[k];
    }
    if rel[1..] in sub {
      var k :| 0 <= k < |sub| && sub[k] == rel[1..];
      assert u[k] == rel;
    }
  }

  /** The reference walk lists exactly the selected paths. */
  lemma {:induction false} ReachedIff(root: Node, es: seq<Entry>, o: GlobOptions,
                                      matches: (string, string) -> bool, fuel: nat, rel: Path)
    requires WF(root) && WF(Dir(es))
    requires Reached(root, es, o, matches, fuel).Ok?
    ensures rel in Reached(root, es, o, matches, fuel).value <==> LegacySelected(root, Dir(es), rel, o, matches)
    decreases fuel, es, 1
  {
    if |es| > 0 {
      var e := es[0];
      var first := ReachedFirst(root, es, o, matches, fuel).value;
      var rest := Reached(root, es[1..], o, matches, fuel).value;
      assert Reached(root, es, o, matches, fuel).value == first + rest;
      WFTail(es);
      ReachedIff(root, es[1..], o, matches, fuel, rel);
      ReachedFirstIff(root, es, o, matches, fuel, rel);
      if |rel| >= 1 && rel[0] == e.name {
        ReachNotRest(root, es, rel);
      } else if |rel| >= 1 {
        ReachOther(root, es, rel);
      }
    }
  }

  /** In a directory with unique names, the other entries cannot reach a path
      through the first entry's name. */
  lemma ReachNotRest(root: Node, es: seq<Entry>, rel: Path)
    requires WF(Dir(es)) && |es| >= 1 && |rel| >= 1 && rel[0] == es[0].name
    ensures Reach(root, Dir(es[1..]), rel).Err?
  {
    FindNone(es[1..], es[0].name);
  }

  /** A path through another name skips the first entry. */
  lemma ReachOther(root: Node, es: seq<Entry>, rel: Path)
    requires |es| >= 1 && |rel| >= 1 && rel[0] != es[0].name
    ensures Reach(root, Dir(es), rel) == Reach(root, Dir(es[1..]), rel)
  {
  }

  // ---------------------------------------------------------------------------
  // How the walk prints what it reaches

  predicate CommaFree(p: Path) {
    forall i :: 0 <= i < |p| ==> Comma !in p[i]
  }

  /** How the walk of `dir` prints the file at `dir + rel`: the absolute path
      for a file directly in `dir` or when relative paths were not asked for,
      otherwise `./` and the path relative to the working directory. A nested
      result is made relative once per level it passes through; the passes
      after the first give the same string back (`ShownStep`). */
  function Shown(cwd: Path, dir: Path, rel: Path, o: GlobOptions): string {
    if o.relative && |rel| >= 2 then "." + [Sep] + Join(Relative(cwd, dir + rel), Sep)
    else AbsString(dir + rel)
  }

  function ShowAll(cwd: Path, dir: Path, o: GlobOptions, rels: seq<Path>): (r: seq<string>)
    ensures |r| == |rels|
    ensures forall k :: 0 <= k < |rels| ==> r[k] == Shown(cwd, dir, rels[k], o)
  {
    seq(|rels|, k requires 0 <= k < |rels| => Shown(cwd, dir, rels[k], o))
  }

  lemma ShowAllAppend(cwd: Path, dir: Path, o: GlobOptions, a: seq<Path>, b: seq<Path>)
    ensures ShowAll(cwd, dir, o, a + b) == ShowAll(cwd, dir, o, a) + ShowAll(cwd, dir, o, b)
  {
    var l := ShowAll(cwd, dir, o, a + b);
    var r := ShowAll(cwd, dir, o, a) + ShowAll(cwd, dir, o, b);
    forall k | 0 <= k < |l| ensures l[k] == r[k] {
      if k < |a| {
        assert (a + b)[k] == a[k];
      } else {
        assert (a + b)[k] == b[k - |a|];
      }
    }
  }

  /** The names of a relative path are `..` or names of the target. */
  lemma RelativeNames(cwd: Path, p: Path, ch: char)
    requires ch != '.'
    requires forall i :: 0 <= i < |p| ==> ch !in p[i]
    ensures forall i :: 0 <= i < |Relative(cwd, p)| ==> ch !in Relative(cwd, p)[i]
  {
    var k := CommonPrefixLen(cwd, p);
    var u := |cwd| - k;
    forall i | 0 <= i < |Relative(cwd, p)| ensures ch !in Relative(cwd, p)[i] {
      if i >= u {
        assert Relative(cwd, p)[i] == p[k + i - u];
      }
    }
  }

  /** A `./` path printed relative to the working directory resolves back. */
  lemma RelativePrintResolves(cwd: Path, p: Path)
    requires ValidPath(cwd) && ValidPath(p)
    ensures ResolveString(cwd, "." + [Sep] + Join(Relative(cwd, p), Sep)) == p
  {
    var rs := Relative(cwd, p);
    RelativeNames(cwd, p, Sep);
    var t := Join(rs, Sep);
    SplitSepAfter(".", Sep, t);
    var segs := Split("." + [Sep] + t, Sep);
    if |rs| == 0 {
      assert segs == [".", ""];
      assert NormSegs(cwd, segs, true) == NormSegs(cwd, [""], true);
    } else {
      SplitJoin(rs, Sep);
      assert segs[1..] == rs;
    }
    RelativeRoundTrip(cwd, p);
  }

  /** Whatever form a result takes, resolving it gives the file's path. */
  lemma ShownResolves(cwd: Path, dir: Path, rel: Path, o: GlobOptions)
    requires ValidPath(cwd) && ValidPath(dir + rel)
    ensures ResolveString(cwd, Shown(cwd, dir, rel, o)) == dir + rel
  {
    if o.relative && |rel| >= 2 {
      RelativePrintResolves(cwd, dir + rel);
    } else {
      AbsStringRoundTrip(cwd, dir + rel);
    }
  }

  /** A printed result is never empty and has a comma only where a name does. */
  lemma ShownCommaFree(cwd: Path, dir: Path, rel: Path, o: GlobOptions)
    requires CommaFree(dir + rel)
    ensures Shown(cwd, dir, rel, o) != "" && Comma !in Shown(cwd, dir, rel, o)
  {
    if o.relative && |rel| >= 2 {
      RelativeNames(cwd, dir + rel, Comma);
      JoinAvoids(Relative(cwd, dir + rel), Comma);
    } else {
      JoinAvoids(dir + rel, Comma);
    }
  }

  /** One level up, the walk makes a nested result relative (when asked);
      that gives the result as printed for the parent directory. */
  lemma ShownStep(cwd: Path, dir: Path, n: string, rel: Path, o: GlobOptions)
    requires ValidPath(cwd) && ValidPath(dir + [n] + rel) && |rel| >= 1
    ensures (if o.relative then RelativeString(cwd, Shown(cwd, dir + [n], rel, o)) else Shown(cwd, dir + [n], rel, o))
            == Shown(cwd, dir, [n] + rel, o)
  {
    assert dir + [n] + rel == dir + ([n] + rel);
    if o.relative {
      ShownResolves(cwd, dir + [n], rel, o);
    }
  }

  /** The results of a subdirectory, as the parent's walk shows them. */
  lemma ShownBelow(cwd: Path, dir: Path, n: string, sub: seq<Path>, values: seq<string>, o: GlobOptions)
    requires ValidPath(cwd)
    requires values == ShowAll(cwd, dir + [n], o, sub)
    requires forall r :: r in sub ==> |r| >= 1 && ValidPath(dir + [n] + r)
    ensures (if o.relative then RelativeAll(cwd, values) else values) == ShowAll(cwd, dir, o, Under(n, sub))
  {
    var l := if o.relative then RelativeAll(cwd, values) else values;
    forall k | 0 <= k < |sub| ensures l[k] == ShowAll(cwd, dir, o, Under(n, sub))[k] {
      assert sub[k] in sub;
      ShownStep(cwd, dir, n, sub[k], o);
    }
  }

  // ---------------------------------------------------------------------------
  // The walk agrees with the reference

  /** A path the reference walk lists is made of valid names. */
  lemma ReachedValid(root: Node, es: seq<Entry>, o: GlobOptions, matches: (string, string) -> bool,
                     fuel: nat, rel: Path)
    requires WF(root) && WF(Dir(es))
    requires Reached(root, es, o, matches, fuel).Ok? && rel in Reached(root, es, o, matches, fuel).value
    ensures ValidPath(rel)
  {
    ReachedIff(root, es, o, matches, fuel, rel);
    ReachValid(root, Dir(es), rel);
  }

  lemma ValidAppend(a: Path, b: Path)
    requires ValidPath(a) && ValidPath(b)
    ensures ValidPath(a + b)
  {
    assert forall i :: 0 <= i < |a + b| ==> (a + b)[i] == if i < |a| then a[i] else b[i - |a|];
  }

  /** Every path the reference walk lists is made of valid names. */
  lemma ReachedAllValid(root: Node, es: seq<Entry>, o: GlobOptions, matches: (string, string) -> bool, fuel: nat)
    requires WF(root) && WF(Dir(es)) && Reached(root, es, o, matches, fuel).Ok?
    ensures forall r :: r in Reached(root, es, o, matches, fuel).value ==> ValidPath(r)
  {
    forall r | r in Reached(root, es, o, matches, fuel).value ensures ValidPath(r) {
      ReachedValid(root, es, o, matches, fuel, r);
    }
  }

  /** The entry's own path, as printed: always absolute. */
  lemma OwnShown(root: Node, cwd: Path, dir: Path, e: Entry, s: Node, o: GlobOptions, matches: (string, string) -> bool)
    requires Follow(root, e.node) == Ok(s)
    ensures ShowAll(cwd, dir, o, OwnPath(s, e.name, o, matches)) == Own(root, dir, e, o, matches)
  {
  }

  /** Comma-free parent paths make comma-free paths below the subdirectory. */
  lemma SubCommaFree(dir: Path, n: string, sub: seq<Path>, own: seq<Path>)
    requires forall rel :: rel in Under(n, sub) + own ==> CommaFree(dir + rel)
    ensures forall r :: r in sub ==> CommaFree(dir + [n] + r)
  {
    var u := Under(n, sub);
    forall r | r in sub ensures CommaFree(dir + [n] + r) {
      var k :| 0 <= k < |sub| && sub[k] == r;
      assert u[k] in u + own;
      assert dir + u[k] == dir + [n] + r;
    }
  }

  /** The first entry's list, given the subdirectory's results as printed. */
  lemma FirstShown(cwd: Path, dir: Path, n: string, sub: seq<Path>, values: seq<string>, own: seq<Path>, o: GlobOptions)
    requires ValidPath(cwd) && ValidPath(dir + [n])
    requires values == ShowAll(cwd, dir + [n], o, sub)
    requires forall r :: r in sub ==> |r| >= 1 && ValidPath(r)
    ensures (if o.relative then RelativeAll(cwd, values) else values) + ShowAll(cwd, dir, o, own)
            == ShowAll(cwd, dir, o, Under(n, sub) + own)
  {
    forall r | r in sub ensures ValidPath(dir + [n] + r) {
      ValidAppend(dir + [n], r);
    }
    ShownBelow(cwd, dir, n, sub, values, o);
    ShowAllAppend(cwd, dir, o, Under(n, sub), own);
  }

  /** The first entry's list: the same failure as the reference, or the
      reference's paths as printed. */
  lemma {:induction false} EntryFilesAgrees(root: Node, cwd: Path, dir: Path, es: seq<Entry>, o: GlobOptions,
                                            matches: (string, string) -> bool, fuel: nat)
    requires |es| >= 1 && WF(root) && WF(Dir(es)) && ValidPath(cwd) && ValidPath(dir)
    ensures var w := EntryFiles(root, cwd, dir, es, o, matches, fuel);
      var t := ReachedFirst(root, es, o, matches, fuel);
      && (w.Ok? <==> t.Ok?)
      && (w.Err? ==> w.error == t.error)
      && (w.Ok? && (forall rel :: rel in t.value ==> CommaFree(dir + rel)) ==> w.value == ShowAll(cwd, dir, o, t.value))
    decreases fuel, es, 1
  {
    var e := es[0];
    match Follow(root, e.node)
    case Err(_) =>
    case Ok(s) =>
      var own := OwnPath(s, e.name, o, matches);
      OwnShown(root, cwd, dir, e, s, o, matches);
      if s.Dir? && o.isRecursive && (e.node.Dir? || fuel > 0) {
        BelowAgrees(root, cwd, dir, es, o, matches, fuel, s);
      } else {
        assert Under(e.name, []) + own == own;
      }
  }

  /** The first entry is a directory, or a link to one, that the recursive
      walk descends into. */
  lemma {:induction false} BelowAgrees(root: Node, cwd: Path, dir: Path, es: seq<Entry>, o: GlobOptions,
                                       matches: (string, string) -> bool, fuel: nat, s: Node)
    requires |es| >= 1 && WF(root) && WF(Dir(es)) && ValidPath(cwd) && ValidPath(dir)
    requires Follow(root, es[0].node) == Ok(s) && s.Dir? && o.isRecursive && (es[0].node.Dir? || fuel > 0)
    ensures var w := EntryFiles(root, cwd, dir, es, o, matches, fuel);
      var t := ReachedFirst(root, es, o, matches, fuel);
      && (w.Ok? <==> t.Ok?)
      && (w.Err? ==> w.error == t.error)
      && (w.Ok? && (forall rel :: rel in t.value ==> CommaFree(dir + rel)) ==> w.value == ShowAll(cwd, dir, o, t.value))
    decreases fuel, es, 0
  {
    var e := es[0];
    var w := EntryFiles(root, cwd, dir, es, o, matches, fuel);
    var t := ReachedFirst(root, es, o, matches, fuel);
    assert ValidName(e.name) && WF(e.node);
    var d := dir + [e.name];
    ValidAppend(dir, [e.name]);
    var own := OwnPath(s, e.name, o, matches);
    OwnShown(root, cwd, dir, e, s, o, matches);
    var f := if e.node.Dir? then fuel else fuel - 1;
    FollowWF(root, e.node);
    var wb := WalkDir(root, cwd, d, s.entries, o, matches, f);
    var tb := Reached(root, s.entries, o, matches, f);
    assert w == match wb
      case Err(x) => Err(x)
      case Ok(values) => Ok((if o.relative then RelativeAll(cwd, values) else values) + Own(root, dir, e, o, matches));
    assert t == match tb
      case Err(x) => Err(x)
      case Ok(sub) => Ok(Under(e.name, sub) + own);
    WalkDirAgrees(root, cwd, d, s.entries, o, matches, f);
    if w.Ok? && (forall rel :: rel in t.value ==> CommaFree(dir + rel)) {
      SubCommaFree(dir, e.name, tb.value, own);
      ReachedAllValid(root, s.entries, o, matches, f);
      FirstShown(cwd, dir, e.name, tb.value, wb.value, own, o);
    }
  }

  /** The lists of all entries: the same failure as the reference, or, once
      flattened, the reference's paths as printed. */
  lemma {:induction false} EntryListsAgrees(root: Node, cwd: Path, dir: Path, es: seq<Entry>, o: GlobOptions,
                                            matches: (string, string) -> bool, fuel: nat)
    requires WF(root) && WF(Dir(es)) && ValidPath(cwd) && ValidPath(dir)
    ensures var w := EntryLists(root, cwd, dir, es, o, matches, fuel);
      var t := Reached(root, es, o, matches, fuel);
      && (w.Ok? <==> t.Ok?)
      && (w.Err? ==> w.error == t.error)
      && (w.Ok? && (forall rel :: rel in t.value ==> CommaFree(dir + rel)) ==> Flatten(w.value) == ShowAll(cwd, dir, o, t.value))
    decreases fuel, es, 2
  {
    if |es| > 0 {
      WFTail(es);
      EntryFilesAgrees(root, cwd, dir, es, o, matches, fuel);
      EntryListsAgrees(root, cwd, dir, es[1..], o, matches, fuel);
      var w := EntryLists(root, cwd, dir, es, o, matches, fuel);
      var t := Reached(root, es, o, matches, fuel);
      if w.Ok? && (forall rel :: rel in t.value ==> CommaFree(dir + rel)) {
        var xs := EntryFiles(root, cwd, dir, es, o, matches, fuel).value;
        var xss := EntryLists(root, cwd, dir, es[1..], o, matches, fuel).value;
        var a := ReachedFirst(root, es, o, matches, fuel).value;
        var b := Reached(root, es[1..], o, matches, fuel).value;
        assert w.value == [xs] + xss && ([xs] + xss)[1..] == xss;
        assert t.value == a + b;
        ShowAllAppend(cwd, dir, o, a, b);
      }
    }
  }

  /** The recursive older walk fails exactly when the reference walk fails,
      with the same error. When no name on a listed path has a comma, the
      comma round trip changes nothing and the walk returns the reference's
      paths as printed, in the same order. */
  lemma {:induction false} WalkDirAgrees(root: Node, cwd: Path, dir: Path, es: seq<Entry>, o: GlobOptions,
                                         matches: (string, string) -> bool, fuel: nat)
    requires WF(root) && WF(Dir(es)) && ValidPath(cwd) && ValidPath(dir)
    ensures var w := WalkDir(root, cwd, dir, es, o, matches, fuel);
      var t := Reached(root, es, o, matches, fuel);
      && (w.Ok? <==> t.Ok?)
      && (w.Err? ==> w.error == t.error)
      && (w.Ok? && (forall rel :: rel in t.value ==> CommaFree(dir + rel)) ==> w.value == ShowAll(cwd, dir, o, t.value))
    decreases fuel, es, 3
  {
    EntryListsAgrees(root, cwd, dir, es, o, matches, fuel);
    var w := WalkDir(root, cwd, dir, es, o, matches, fuel);
    var t := Reached(root, es, o, matches, fuel);
    if w.Ok? && (forall rel :: rel in t.value ==> CommaFree(dir + rel)) {
      PrintedFlatten(EntryLists(root, cwd, dir, es, o, matches, fuel).value, cwd, dir, o, t.value);
    }
  }

  /** Lists that flatten to printed comma-free paths survive the comma round
      trip unchanged. */
  lemma PrintedFlatten(xss: seq<seq<string>>, cwd: Path, dir: Path, o: GlobOptions, rels: seq<Path>)
    requires Flatten(xss) == ShowAll(cwd, dir, o, rels)
    requires forall rel :: rel in rels ==> CommaFree(dir + rel)
    ensures CommaFlatten(xss) == Flatten(xss)
  {
    var shown := ShowAll(cwd, dir, o, rels);
    forall i | 0 <= i < |xss| ensures forall x :: x in xss[i] ==> Comma !in x && x != "" {
      forall x | x in xss[i] ensures Comma !in x && x != "" {
        assert x in Flatten(xss);
        var k :| 0 <= k < |shown| && shown[k] == x;
        assert rels[k] in rels;
        ShownCommaFree(cwd, dir, rels[k], o);
      }
    }
    CommaFreeFlatten(xss);
  }

  lemma CommaFreeAppend(a: Path, b: Path)
    requires CommaFree(a) && CommaFree(b)
    ensures CommaFree(a + b)
  {
    assert forall i :: 0 <= i < |a + b| ==> (a + b)[i] == if i < |a| then a[i] else b[i - |a|];
  }

  /** With no comma in a name on a selected path, a successful walk returns
      the reference walk's paths, printed, in the same order. */
  lemma WalkDirShown(root: Node, cwd: Path, dir: Path, es: seq<Entry>, o: GlobOptions,
                     matches: (string, string) -> bool, fuel: nat)
    requires WF(root) && WF(Dir(es)) && ValidPath(cwd) && ValidPath(dir) && CommaFree(dir)
    requires forall rel :: LegacySelected(root, Dir(es), rel, o, matches) ==> CommaFree(rel)
    requires WalkDir(root, cwd, dir, es, o, matches, fuel).Ok?
    ensures Reached(root, es, o, matches, fuel).Ok?
    ensures WalkDir(root, cwd, dir, es, o, matches, fuel).value
            == ShowAll(cwd, dir, o, Reached(root, es, o, matches, fuel).value)
  {
    WalkDirAgrees(root, cwd, dir, es, o, matches, fuel);
    var t := Reached(root, es, o, matches, fuel).value;
    forall rel | rel in t ensures CommaFree(dir + rel) {
      ReachedIff(root, es, o, matches, fuel, rel);
      CommaFreeAppend(dir, rel);
    }
  }

  lemma InShowAll(cwd: Path, dir: Path, o: GlobOptions, t: seq<Path>, s: string)
    ensures s in ShowAll(cwd, dir, o, t) <==> exists rel :: rel in t && s == Shown(cwd, dir, rel, o)
  {
    var shown := ShowAll(cwd, dir, o, t);
    if exists rel :: rel in t && s == Shown(cwd, dir, rel, o) {
      var rel :| rel in t && s == Shown(cwd, dir, rel, o);
      var k :| 0 <= k < |t| && t[k] == rel;
      assert shown[k] == s;
    }
  }

  /** The recursive older walk of a directory, when it succeeds and no name
      on a selected path has a comma, lists exactly the selected files,
      printed as `Shown` prints them. */
  lemma WalkDirIff(root: Node, cwd: Path, dir: Path, es: seq<Entry>, o: GlobOptions,
                   matches: (string, string) -> bool, fuel: nat, s: string)
    requires WF(root) && WF(Dir(es)) && ValidPath(cwd) && ValidPath(dir) && CommaFree(dir)
    requires forall rel :: LegacySelected(root, Dir(es), rel, o, matches) ==> CommaFree(rel)
    requires WalkDir(root, cwd, dir, es, o, matches, fuel).Ok?
    ensures s in WalkDir(root, cwd, dir, es, o, matches, fuel).value
            <==> exists rel :: LegacySelected(root, Dir(es), rel, o, matches) && s == Shown(cwd, dir, rel, o)
  {
    WalkDirShown(root, cwd, dir, es, o, matches, fuel);
    var t := Reached(root, es, o, matches, fuel).value;
    InShowAll(cwd, dir, o, t, s);
    forall rel ensures rel in t <==> LegacySelected(root, Dir(es), rel, o, matches) {
      ReachedIff(root, es, o, matches, fuel, rel);
    }
  }

  /** `walkAsync(options)`: with the base read through `stat`, the results are
      exactly the selected files below the base, under the same conditions. */
  lemma LegacyWalkIff(root: Node, cwd: Path, o: GlobOptions, matches: (string, string) -> bool, s: string)
    requires WF(root) && ValidPath(cwd) && CommaFree(Base(cwd, o))
    requires LegacyWalk(root, cwd, o, matches).Ok?
    requires forall rel :: LegacySelected(root, Stat(root, Base(cwd, o)).value, rel, o, matches) ==> CommaFree(rel)
    ensures s in LegacyWalk(root, cwd, o, matches).value
            <==> exists rel :: LegacySelected(root, Stat(root, Base(cwd, o)).value, rel, o, matches)
                               && s == Shown(cwd, Base(cwd, o), rel, o)
  {
    ResolveStringValid(cwd, o.dir);
    WFStatFuel(root, Base(cwd, o), MaxSymlinkHops);
    var es := Stat(root, Base(cwd, o)).value.entries;
    WalkDirIff(root, cwd, Base(cwd, o), es, o, matches, MaxLinkDescents, s);
  }

  /** Below a link to a directory the recursive older walk reaches files that
      the newer walk, which does not follow links, never selects. */
  lemma LinkedDirDiffers(root: Node, es: seq<Entry>, i: nat, rel: Path, o: GlobOptions,
                         matches: (string, string) -> bool)
    requires WF(Dir(es)) && i < |es| && es[i].node.Link? && |rel| >= 1 && o.isRecursive
    requires Follow(root, es[i].node).Ok?
    requires LegacySelected(root, Follow(root, es[i].node).value, rel, o, matches)
    ensures LegacySelected(root, Dir(es), [es[i].name] + rel, o, matches)
    ensures !Selected(Dir(es), [es[i].name] + rel, o, matches)
  {
    FindIs(es, es[i].name, i);
    var p := [es[i].name] + rel;
    assert p[1..] == rel && p[|p| - 1] == rel[|rel| - 1];
    assert LStat(Dir(es), p) == LStat(es[i].node, rel);
  }
}
