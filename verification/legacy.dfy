/** The older single-file variant of the library (src/file.ts). Its `clean`
    and `mkdirp` are the same code as the split modules and are modelled by
    `Clean.Clean` and `Mkdirp.Mkdirp`. What differs: the glob options are
    derived from the resolved path, the walk classifies entries with `stat`
    (following links), only subdirectory results are made relative, results
    are flattened by joining with commas and splitting again, and the
    directory-link helpers choose the junction type and treat regular files
    differently. */
module Legacy {
  import opened Wrappers
  import opened Strings
  import opened Paths
  import opened Tree
  import Primitives
  import opened Glob
  import Clean
  import Copy
  import Links

  const Comma: char := ','

  // ---------------------------------------------------------------------------
  // Flattening through a comma-joined string

  /** Each inner list joined with commas (`Array.prototype.join` renders an
      inner array the same way). */
  function JoinEach(xss: seq<seq<string>>): (ys: seq<string>)
    ensures |ys| == |xss|
    decreases |xss|
  {
    if |xss| == 0 then [] else [Join(xss[0], Comma)] + JoinEach(xss[1..])
  }

  /** `lists.join(',').split(',').filter(s => s)`. */
  function CommaFlatten(xss: seq<seq<string>>): seq<string> {
    Truthy(Split(Join(JoinEach(xss), Comma), Comma))
  }

  /** Plain concatenation, the reference the comma round trip is compared to. */
  function Flatten(xss: seq<seq<string>>): (r: seq<string>)
    ensures forall s :: s in r <==> exists i :: 0 <= i < |xss| && s in xss[i]
    decreases |xss|
  {
    if |xss| == 0 then []
    else
      var rest := Flatten(xss[1..]);
      assert forall i :: 1 <= i < |xss| ==> xss[i] == xss[1..][i - 1];
      xss[0] + rest
  }

  lemma {:induction false} TruthyAppend(xs: seq<string>, ys: seq<string>)
    ensures Truthy(xs + ys) == Truthy(xs) + Truthy(ys)
    decreases |xs|
  {
    if |xs| == 0 {
      assert xs + ys == ys;
    } else {
      assert (xs + ys)[1..] == xs[1..] + ys;
      TruthyAppend(xs[1..], ys);
    }
  }

  lemma {:induction false} OuterPieces(xss: seq<seq<string>>)
    ensures Truthy(Pieces(JoinEach(xss), Comma)) == Truthy(Pieces(Flatten(xss), Comma))
    decreases |xss|
  {
    if |xss| > 0 {
      var x := xss[0];
      OuterPieces(xss[1..]);
      assert JoinEach(xss)[1..] == JoinEach(xss[1..]);
      TruthyAppend(Split(Join(x, Comma), Comma), Pieces(JoinEach(xss[1..]), Comma));
      PiecesAppend(x, Flatten(xss[1..]), Comma);
      TruthyAppend(Pieces(x, Comma), Pieces(Flatten(xss[1..]), Comma));
      if |x| == 0 {
        assert Split(Join(x, Comma), Comma) == [""];
      } else {
        SplitJoinPieces(x, Comma);
      }
    }
  }

  /** The comma round trip splits every path at its commas and drops the
      empty pieces. */
  lemma CommaFlattenPieces(xss: seq<seq<string>>)
    ensures CommaFlatten(xss) == Truthy(Pieces(Flatten(xss), Comma))
  {
    if |xss| == 0 {
      assert Split(Join(JoinEach(xss), Comma), Comma) == [""];
      assert Truthy([""]) == Truthy([""][1..]) == [];
    } else {
      SplitJoinPieces(JoinEach(xss), Comma);
      OuterPieces(xss);
    }
  }

  /** So it equals plain concatenation when no path contains a comma and none
      is empty. */
  lemma CommaFreeFlatten(xss: seq<seq<string>>)
    requires forall i :: 0 <= i < |xss| ==> forall s :: s in xss[i] ==> Comma !in s && s != ""
    ensures CommaFlatten(xss) == Flatten(xss)
  {
    var f := Flatten(xss);
    CommaFlattenPieces(xss);
    forall k | 0 <= k < |f| ensures Comma !in f[k] && f[k] != "" {
      assert f[k] in f;
    }
    PiecesNoSep(f, Comma);
    TruthyKeepsNonEmpty(f);
  }

  /** A non-empty path without a comma survives the round trip, whatever the
      other paths look like. */
  lemma {:induction false} PiecesMember(xs: seq<string>, s: string)
    requires s in xs && Comma !in s
    ensures s in Pieces(xs, Comma)
    decreases |xs|
  {
    if xs[0] == s {
      SplitNoSep(s, Comma);
    } else {
      PiecesMember(xs[1..], s);
    }
  }

  lemma CommaFlattenKeeps(xss: seq<seq<string>>, i: nat, s: string)
    requires i < |xss| && s in xss[i] && Comma !in s && s != ""
    ensures s in CommaFlatten(xss)
  {
    CommaFlattenPieces(xss);
    PiecesMember(Flatten(xss), s);
  }

  /** A path with a comma in its name comes out as two paths. */
  lemma CommaSplitExample(x: string)
    requires x == "a,b.ts"
    ensures CommaFlatten([[x]]) == ["a", "b.ts"]
  {
    CommaFlattenPieces([[x]]);
    assert Flatten([[x]]) == [x];
    assert x == "a" + [Comma] + "b.ts";
    SplitSepAfter("a", Comma, "b.ts");
    SplitNoSep("b.ts", Comma);
    assert Pieces([x], Comma) == Split(x, Comma) + Pieces([], Comma) == ["a", "b.ts"];
    TruthyKeepsNonEmpty(["a", "b.ts"]);
  }

  // ---------------------------------------------------------------------------
  // Option derivation

  // The options of the older `globFiles`: the directory part of the resolved
  // glob after its first "/**" is removed, recursive when the glob contains
  // "**" anywhere, and the last segment as the pattern.
  function LegacyOptions(cwd: Path, file: string, relative: bool): (o: GlobOptions)
    ensures o.isRecursive <==> exists i :: 0 <= i <= |file| && OccursAt(file, "**", i)
    ensures o.relative == relative
  {
    ContainsIff(file, "**");
    GlobOptions(Dirname(ReplaceFirst(AbsString(ResolveString(cwd, file)), [Sep, '*', '*'], "")),
                Contains(file, "**"), Basename(file), relative)
  }

  /** A string whose only `*` can be its last character has no `**`. */
  lemma NoDoubleStar(s: string, pat: string)
    requires forall k :: 0 <= k < |s| - 1 ==> s[k] != '*'
    requires |pat| >= 2 && pat[|pat| - 2] == '*' && pat[|pat| - 1] == '*'
    ensures !Contains(s, pat)
  {
    ContainsIff(s, pat);
    forall i | 0 <= i <= |s| ensures !OccursAt(s, pat, i) {
      if i + |pat| <= |s| {
        var k := i + |pat| - 2;
        assert s[i..i + |pat|][|pat| - 2] == s[k];
      }
    }
  }

  /** A join of names without a character has no such character. */
  lemma {:induction false} JoinAvoids(p: Path, ch: char)
    requires ch != Sep
    requires forall i :: 0 <= i < |p| ==> ch !in p[i]
    ensures ch !in Join(p, Sep)
    decreases |p|
  {
    if |p| > 1 {
      JoinAvoids(p[1..], ch);
    }
  }

  // "src/elements/input/*" searches the directory cwd/src/elements/input,
  // not recursively, for the pattern "*".
  lemma LegacyOptionsExample(cwd: Path, file: string)
    requires file == "src/elements/input/*"
    requires ValidPath(cwd) && forall i :: 0 <= i < |cwd| ==> '*' !in cwd[i]
    ensures LegacyOptions(cwd, file, false)
            == GlobOptions(AbsString(cwd + ["src", "elements", "input"]), false, "*", false)
  {
    ExampleDirPart(cwd, file);
    ExampleFileStars(file);
    NoDoubleStar(file, "**");
    ExampleJoin(file, ["src", "elements", "input", "*"]);
    BasenameJoin(["src", "elements", "input", "*"]);
  }

  lemma ExampleDirPart(cwd: Path, file: string)
    requires file == "src/elements/input/*"
    requires ValidPath(cwd) && forall i :: 0 <= i < |cwd| ==> '*' !in cwd[i]
    ensures Dirname(ReplaceFirst(AbsString(ResolveString(cwd, file)), [Sep, '*', '*'], ""))
            == AbsString(cwd + ["src", "elements", "input"])
  {
    var dir := cwd + ["src", "elements", "input"];
    var segs := ["src", "elements", "input", "*"];
    ExampleResolves(cwd, file, segs);
    assert cwd + segs == dir + ["*"];
    assert ValidPath(dir) by {
      assert forall i :: 0 <= i < |cwd| ==> dir[i] == cwd[i];
    }
    var s := AbsString(dir + ["*"]);
    ExampleNoStarBefore(dir);
    NoDoubleStar(s, [Sep, '*', '*']);
    DirnameAbs(dir, "*");
  }

  lemma ExampleFileStars(file: string)
    requires file == "src/elements/input/*"
    ensures forall k :: 0 <= k < |file| - 1 ==> file[k] != '*'
  {
  }

  lemma ExampleResolves(cwd: Path, file: string, segs: Path)
    requires file == "src/elements/input/*" && segs == ["src", "elements", "input", "*"]
    requires ValidPath(cwd)
    ensures Join(segs, Sep) == file
    ensures ResolveString(cwd, file) == cwd + segs
  {
    ExampleJoin(file, segs);
    RelativeStringResolves(cwd, segs);
  }

  lemma ExampleJoin(file: string, segs: Path)
    requires file == "src/elements/input/*" && segs == ["src", "elements", "input", "*"]
    ensures Join(segs, Sep) == file && ValidPath(segs)
  {
    JoinHead("src", ["elements", "input", "*"], Sep);
    JoinHead("elements", ["input", "*"], Sep);
    JoinHead("input", ["*"], Sep);
  }

  lemma ExampleNoStarBefore(dir: Path)
    requires |dir| >= 1 && forall i :: 0 <= i < |dir| ==> '*' !in dir[i]
    ensures var s := AbsString(dir + ["*"]);
      forall k :: 0 <= k < |s| - 1 ==> s[k] != '*'
  {
    JoinAvoids(dir, '*');
    JoinAppend(dir, "*", Sep);
    var a := AbsString(dir);
    assert AbsString(dir + ["*"]) == a + [Sep] + "*";
    assert '*' !in a;
  }

  // The two derivations disagree on a leading "**": the older one treats
  // "./**/*" as recursive, the newer one does not.
  lemma LeadingStarsDiffer(cwd: Path, file: string)
    requires file == "./**/*"
    ensures LegacyOptions(cwd, file, false).isRecursive
    ensures !CreateOptions(file, false).isRecursive
  {
    assert OccursAt(file, "**", 2);
    LeadingStarsNotRecursive();
  }

  // ---------------------------------------------------------------------------
  // The walk

  /** How many directory links one walk descends through before it gives up.
      At nesting depth k, `stat` resolves a path that passes through k links,
      and Linux refuses a lookup that crosses more than 40 of them (`ELOOP`).
      So on a one-link cycle the original fails at the 41st nested descent,
      and so does this bound. A chain of links met at one step is counted
      separately, by `MaxSymlinkHops`. */
  const MaxLinkDescents: nat := 40

  lemma {:induction false} StatFuelNotLink(root: Node, p: Path, fuel: nat)
    ensures StatFuel(root, p, fuel).Ok? ==> !StatFuel(root, p, fuel).value.Link?
    decreases fuel
  {
    match LStat(root, p)
    case Ok(Link(t, _)) =>
      if fuel > 0 {
        StatFuelNotLink(root, t, fuel - 1);
      }
    case _ =>
  }

  /** `stat` on a directory entry: a link is followed from its target, one hop
      being spent on the entry itself; the result is never a link. */
  function Follow(root: Node, n: Node): (r: Result<Node>)
    ensures !n.Link? ==> r == Ok(n)
    ensures r.Ok? ==> !r.value.Link?
  {
    match n
    case Link(t, _) =>
      StatFuelNotLink(root, t, MaxSymlinkHops - 1);
      StatFuel(root, t, MaxSymlinkHops - 1)
    case _ => Ok(n)
  }

  /** `'.' + sep + relative(resolve(), v)`. */
  function RelativeString(cwd: Path, v: string): (s: string)
    ensures |s| >= 2 && s[..2] == "." + [Sep]
  {
    "." + [Sep] + Join(Relative(cwd, ResolveString(cwd, v)), Sep)
  }

  function RelativeAll(cwd: Path, vs: seq<string>): (r: seq<string>)
    ensures |r| == |vs|
    ensures forall k :: 0 <= k < |vs| ==> r[k] == RelativeString(cwd, vs[k])
  {
    seq(|vs|, k requires 0 <= k < |vs| => RelativeString(cwd, vs[k]))
  }

  /** `walkAsync` inside the directory `dir`, whose entries are `es`: the lists
      of the entries, joined with commas, split again and filtered. `fuel`
      counts the directory links the walk may still descend through. Every
      path it returns is non-empty and free of commas. */
  function WalkDir(root: Node, cwd: Path, dir: Path, es: seq<Entry>, o: GlobOptions,
                   matches: (string, string) -> bool, fuel: nat): (r: Result<seq<string>>)
    ensures r.Ok? ==> forall s :: s in r.value ==> s != "" && Comma !in s
    decreases fuel, es, 2
  {
    match EntryLists(root, cwd, dir, es, o, matches, fuel)
    case Err(e) => Err(e)
    case Ok(xss) =>
      var parts := Split(Join(JoinEach(xss), Comma), Comma);
      SplitParts(Join(JoinEach(xss), Comma), Comma);
      assert forall s :: s in parts ==> Comma !in s;
      Ok(CommaFlatten(xss))
  }

  /** The lists of the entries in `readdir` order; the first failing entry
      fails the directory. */
  function EntryLists(root: Node, cwd: Path, dir: Path, es: seq<Entry>, o: GlobOptions,
                      matches: (string, string) -> bool, fuel: nat): (r: Result<seq<seq<string>>>)
    ensures r.Ok? ==> |r.value| == |es|
    decreases fuel, es, 1
  {
    if |es| == 0 then Ok([])
    else match EntryFiles(root, cwd, dir, es, o, matches, fuel)
      case Err(e) => Err(e)
      case Ok(xs) =>
        match EntryLists(root, cwd, dir, es[1..], o, matches, fuel)
        case Err(e) => Err(e)
        case Ok(xss) => Ok([xs] + xss)
  }

  /** The list of the first entry of `es`. The entry is classified by `stat`,
      so a link counts as what it points to and a dangling link fails the
      walk. A directory is walked when the walk is recursive, its results made
      relative to the working directory when asked; a file whose name matches
      the pattern contributes its absolute path, never made relative. */
  function EntryFiles(root: Node, cwd: Path, dir: Path, es: seq<Entry>, o: GlobOptions,
                      matches: (string, string) -> bool, fuel: nat): (r: Result<seq<string>>)
    requires |es| >= 1
    decreases fuel, es, 0
  {
    var e := es[0];
    var result := dir + [e.name];
    match Follow(root, e.node)
    case Err(err) => Err(err)
    case Ok(s) =>
      var below :=
        if s.Dir? && o.isRecursive then
          if e.node.Dir? then WalkDir(root, cwd, result, e.node.entries, o, matches, fuel)
          else if fuel == 0 then Err(TooManyLinks)
          else WalkDir(root, cwd, result, s.entries, o, matches, fuel - 1)
        else Ok([]);
      match below
      case Err(err) => Err(err)
      case Ok(values) =>
        var shown := if o.relative then RelativeAll(cwd, values) else values;
        Ok(shown + Own(root, dir, e, o, matches))
  }

  /** The entry's own contribution: its absolute path when `stat` finds a file
      whose name matches the pattern. */
  function Own(root: Node, dir: Path, e: Entry, o: GlobOptions, matches: (string, string) -> bool): seq<string> {
    if Follow(root, e.node).Ok? && Follow(root, e.node).value.File? && matches(e.name, o.pattern)
    then [AbsString(dir + [e.name])]
    else []
  }

  /** `walkAsync(options)`: the base is read with `readdir`, following a link
      at the base; a missing base or a non-directory fails. */
  function LegacyWalk(root: Node, cwd: Path, o: GlobOptions, matches: (string, string) -> bool): (r: Result<seq<string>>)
    ensures o.dir == "" ==> r == Err(NoEntry)
    ensures r.Ok? ==> Stat(root, Base(cwd, o)).Ok? && Stat(root, Base(cwd, o)).value.Dir?
    ensures r.Ok? ==> forall s :: s in r.value ==> s != "" && Comma !in s
  {
    if o.dir == "" then Err(NoEntry)
    else match Stat(root, Base(cwd, o))
      case Err(e) => Err(e)
      case Ok(Dir(es)) => WalkDir(root, cwd, Base(cwd, o), es, o, matches, MaxLinkDescents)
      case Ok(_) => Err(NotADirectory)
  }

  // ---------------------------------------------------------------------------
  // Properties of the walk

  /** Reference definition of a non-recursive walk: the absolute paths of the
      entries that `stat` finds to be matching files, in `readdir` order. */
  function DirectFiles(root: Node, dir: Path, es: seq<Entry>, o: GlobOptions,
                       matches: (string, string) -> bool): (r: seq<string>)
    ensures forall s :: s in r <==> exists i :: 0 <= i < |es| && s in Own(root, dir, es[i], o, matches)
    decreases |es|
  {
    if |es| == 0 then []
    else
      var rest := DirectFiles(root, dir, es[1..], o, matches);
      assert forall i :: 1 <= i < |es| ==> es[i] == es[1..][i - 1];
      Own(root, dir, es[0], o, matches) + rest
  }

  /** The i-th list of a successful directory is the list of its i-th entry. */
  lemma {:induction false} EntryListsAt(root: Node, cwd: Path, dir: Path, es: seq<Entry>, o: GlobOptions,
                                        matches: (string, string) -> bool, fuel: nat, i: nat)
    requires i < |es|
    requires EntryLists(root, cwd, dir, es, o, matches, fuel).Ok?
    ensures EntryFiles(root, cwd, dir, es[i..], o, matches, fuel).Ok?
    ensures EntryLists(root, cwd, dir, es, o, matches, fuel).value[i]
            == EntryFiles(root, cwd, dir, es[i..], o, matches, fuel).value
    decreases i
  {
    if i > 0 {
      EntryListsAt(root, cwd, dir, es[1..], o, matches, fuel, i - 1);
      assert es[1..][i - 1..] == es[i..];
    }
  }

  lemma {:induction false} FlatLists(root: Node, cwd: Path, dir: Path, es: seq<Entry>, o: GlobOptions,
                                     matches: (string, string) -> bool, fuel: nat)
    requires !o.isRecursive
    ensures EntryLists(root, cwd, dir, es, o, matches, fuel).Ok?
            <==> forall i :: 0 <= i < |es| ==> Follow(root, es[i].node).Ok?
    ensures EntryLists(root, cwd, dir, es, o, matches, fuel).Ok? ==>
      Flatten(EntryLists(root, cwd, dir, es, o, matches, fuel).value) == DirectFiles(root, dir, es, o, matches)
    decreases |es|
  {
    if |es| > 0 {
      FlatLists(root, cwd, dir, es[1..], o, matches, fuel);
      assert forall i :: 1 <= i < |es| ==> es[i] == es[1..][i - 1];
      var r := EntryLists(root, cwd, dir, es, o, matches, fuel);
      if r.Ok? {
        assert r.value[1..] == EntryLists(root, cwd, dir, es[1..], o, matches, fuel).value;
      }
    }
  }

  /** A non-recursive walk succeeds exactly when every entry can be classified
      by `stat`, and returns the direct matching files through the comma round
      trip. */
  lemma NonRecursiveWalk(root: Node, cwd: Path, dir: Path, es: seq<Entry>, o: GlobOptions,
                         matches: (string, string) -> bool, fuel: nat)
    requires !o.isRecursive
    ensures WalkDir(root, cwd, dir, es, o, matches, fuel).Ok?
            <==> forall i :: 0 <= i < |es| ==> Follow(root, es[i].node).Ok?
    ensures WalkDir(root, cwd, dir, es, o, matches, fuel).Ok? ==>
      WalkDir(root, cwd, dir, es, o, matches, fuel).value == Truthy(Pieces(DirectFiles(root, dir, es, o, matches), Comma))
  {
    FlatLists(root, cwd, dir, es, o, matches, fuel);
    var r := EntryLists(root, cwd, dir, es, o, matches, fuel);
    if r.Ok? {
      CommaFlattenPieces(r.value);
    }
  }

  /** So, without commas in the directory or the names, a non-recursive walk
      returns exactly the direct matching files, absolute even when relative
      paths were asked for. */
  lemma NonRecursiveCommaFree(root: Node, cwd: Path, dir: Path, es: seq<Entry>, o: GlobOptions,
                              matches: (string, string) -> bool, fuel: nat)
    requires !o.isRecursive
    requires forall i :: 0 <= i < |dir| ==> Comma !in dir[i]
    requires forall i :: 0 <= i < |es| ==> Comma !in es[i].name
    requires WalkDir(root, cwd, dir, es, o, matches, fuel).Ok?
    ensures WalkDir(root, cwd, dir, es, o, matches, fuel).value == DirectFiles(root, dir, es, o, matches)
    ensures WalkDir(root, cwd, dir, es, o.(relative := !o.relative), matches, fuel)
            == WalkDir(root, cwd, dir, es, o, matches, fuel)
  {
    NonRecursiveWalk(root, cwd, dir, es, o, matches, fuel);
    NonRecursiveWalk(root, cwd, dir, es, o.(relative := !o.relative), matches, fuel);
    var f := DirectFiles(root, dir, es, o, matches);
    assert DirectFiles(root, dir, es, o.(relative := !o.relative), matches) == f by {
      SamePattern(root, dir, es, o, o.(relative := !o.relative), matches);
    }
    forall k | 0 <= k < |f| ensures Comma !in f[k] && f[k] != "" {
      assert f[k] in f;
      var i :| 0 <= i < |es| && f[k] in Own(root, dir, es[i], o, matches);
      OwnCommaFree(root, dir, es[i], o, matches);
    }
    PiecesNoSep(f, Comma);
    TruthyKeepsNonEmpty(f);
  }

  lemma {:induction false} SamePattern(root: Node, dir: Path, es: seq<Entry>, o: GlobOptions, o': GlobOptions,
                                       matches: (string, string) -> bool)
    requires o.pattern == o'.pattern
    ensures DirectFiles(root, dir, es, o, matches) == DirectFiles(root, dir, es, o', matches)
    decreases |es|
  {
    if |es| > 0 {
      SamePattern(root, dir, es[1..], o, o', matches);
    }
  }

  lemma OwnCommaFree(root: Node, dir: Path, e: Entry, o: GlobOptions, matches: (string, string) -> bool)
    requires forall i :: 0 <= i < |dir| ==> Comma !in dir[i]
    requires Comma !in e.name
    ensures forall s :: s in Own(root, dir, e, o, matches) ==> s != "" && Comma !in s
  {
    var p := dir + [e.name];
    assert forall i :: 0 <= i < |p| ==> Comma !in p[i] by {
      assert forall i :: 0 <= i < |dir| ==> p[i] == dir[i];
    }
    JoinAvoids(p, Comma);
  }

  /** A matching file directly in the directory (a link to a file included)
      is reported by its absolute path, even when the walk is recursive and
      relative paths were asked for. */
  lemma TopLevelAbsolute(root: Node, cwd: Path, dir: Path, es: seq<Entry>, o: GlobOptions,
                         matches: (string, string) -> bool, fuel: nat, i: nat)
    requires i < |es|
    requires WalkDir(root, cwd, dir, es, o, matches, fuel).Ok?
    requires Follow(root, es[i].node).Ok? && Follow(root, es[i].node).value.File?
    requires matches(es[i].name, o.pattern)
    requires Comma !in AbsString(dir + [es[i].name])
    ensures AbsString(dir + [es[i].name]) in WalkDir(root, cwd, dir, es, o, matches, fuel).value
  {
    EntryListsAt(root, cwd, dir, es, o, matches, fuel, i);
    var xss := EntryLists(root, cwd, dir, es, o, matches, fuel).value;
    var s := AbsString(dir + [es[i].name]);
    assert es[i..][0] == es[i];
    assert s in xss[i];
    CommaFlattenKeeps(xss, i, s);
  }

  /** A path found below a subdirectory is found by the walk of its parent,
      made relative when relative paths were asked for. */
  lemma NestedKept(root: Node, cwd: Path, dir: Path, es: seq<Entry>, o: GlobOptions,
                   matches: (string, string) -> bool, fuel: nat, i: nat, s: string)
    requires i < |es| && es[i].node.Dir? && o.isRecursive
    requires WalkDir(root, cwd, dir, es, o, matches, fuel).Ok?
    requires var sub := WalkDir(root, cwd, dir + [es[i].name], es[i].node.entries, o, matches, fuel);
      sub.Ok? && s in sub.value
    requires o.relative ==> Comma !in RelativeString(cwd, s)
    ensures (if o.relative then RelativeString(cwd, s) else s) in WalkDir(root, cwd, dir, es, o, matches, fuel).value
  {
    EntryListsAt(root, cwd, dir, es, o, matches, fuel, i);
    var xss := EntryLists(root, cwd, dir, es, o, matches, fuel).value;
    var sub := WalkDir(root, cwd, dir + [es[i].name], es[i].node.entries, o, matches, fuel);
    assert es[i..][0] == es[i];
    var k :| 0 <= k < |sub.value| && sub.value[k] == s;
    var t := if o.relative then RelativeString(cwd, s) else s;
    if o.relative {
      assert RelativeAll(cwd, sub.value)[k] == t;
    }
    assert t in xss[i];
    CommaFlattenKeeps(xss, i, t);
  }

  /** A directory holding only a link to itself: the recursive walk descends
      through the link until the bound is spent and fails, while the newer
      walk, which does not follow links, finds nothing there. */
  lemma {:induction false} CycleFails(root: Node, cwd: Path, dir: Path, p: Path, es: seq<Entry>, name: string,
                                      k: string, o: GlobOptions, matches: (string, string) -> bool, fuel: nat)
    requires es == [Entry(name, Link(p, k))]
    requires LStat(root, p) == Ok(Dir(es))
    requires o.isRecursive
    ensures WalkDir(root, cwd, dir, es, o, matches, fuel) == Err(TooManyLinks)
    ensures Collect(es, o, matches) == []
    decreases fuel
  {
    assert Follow(root, es[0].node) == Ok(Dir(es));
    if fuel > 0 {
      CycleFails(root, cwd, dir + [name], p, es, name, k, o, matches, fuel - 1);
    }
    assert EntryFiles(root, cwd, dir, es, o, matches, fuel) == Err(TooManyLinks);
    assert EntryLists(root, cwd, dir, es, o, matches, fuel) == Err(TooManyLinks);
  }

  /** A link to a matching file is listed by this walk but not by the newer
      one, which sees the link itself. */
  lemma LinkedFileDiffers(root: Node, cwd: Path, dir: Path, es: seq<Entry>, o: GlobOptions,
                          matches: (string, string) -> bool, fuel: nat, i: nat)
    requires WF(Dir(es))
    requires i < |es| && es[i].node.Link?
    requires WalkDir(root, cwd, dir, es, o, matches, fuel).Ok?
    requires Follow(root, es[i].node).Ok? && Follow(root, es[i].node).value.File?
    requires matches(es[i].name, o.pattern)
    requires Comma !in AbsString(dir + [es[i].name])
    ensures AbsString(dir + [es[i].name]) in WalkDir(root, cwd, dir, es, o, matches, fuel).value
    ensures !Selected(Dir(es), [es[i].name], o, matches)
  {
    TopLevelAbsolute(root, cwd, dir, es, o, matches, fuel, i);
    FindIs(es, es[i].name, i);
    assert LStat(Dir(es), [es[i].name]) == LStat(es[i].node, []);
  }

  // ---------------------------------------------------------------------------
  // globFiles

  function LegacyWalks(root: Node, cwd: Path, gs: seq<string>, relative: bool,
                       matches: (string, string) -> bool): (rs: seq<Result<seq<string>>>)
    ensures |rs| == |gs|
    ensures forall i :: 0 <= i < |gs| ==> rs[i] == LegacyWalk(root, cwd, LegacyOptions(cwd, gs[i], relative), matches)
  {
    seq(|gs|, i requires 0 <= i < |gs| => LegacyWalk(root, cwd, LegacyOptions(cwd, gs[i], relative), matches))
  }

  /** `Promise.all`: the values in order, or the first failure. */
  function Gather(rs: seq<Result<seq<string>>>): (r: Result<seq<seq<string>>>)
    ensures r.Ok? <==> forall i :: 0 <= i < |rs| ==> rs[i].Ok?
    ensures r.Ok? ==> |r.value| == |rs| && forall i :: 0 <= i < |rs| ==> r.value[i] == rs[i].value
    decreases |rs|
  {
    if |rs| == 0 then Ok([])
    else match rs[0]
      case Err(e) => Err(e)
      case Ok(xs) =>
        assert forall i :: 1 <= i < |rs| ==> rs[i] == rs[1..][i - 1];
        match Gather(rs[1..])
        case Err(e) => Err(e)
        case Ok(xss) => Ok([xs] + xss)
  }

  /** The older `globFiles(src, relative)`: every glob is walked with the
      older options and the results are flattened through the comma round
      trip, which drops nothing because no walk returns an empty path or one
      with a comma. */
  function LegacyGlobFiles(root: Node, cwd: Path, src: Src, relative: bool,
                           matches: (string, string) -> bool): (r: Result<seq<string>>)
    ensures var rs := LegacyWalks(root, cwd, Globs(src), relative, matches);
      r.Ok? <==> forall i :: 0 <= i < |rs| ==> rs[i].Ok?
    ensures var rs := LegacyWalks(root, cwd, Globs(src), relative, matches);
      r.Ok? ==> forall s :: s in r.value <==> exists i :: 0 <= i < |rs| && s in rs[i].value
    ensures var rs := LegacyWalks(root, cwd, Globs(src), relative, matches);
      r.Ok? ==> r.value == Flatten(Gather(rs).value) && |r.value| == TotalLength(rs)
    ensures r == ConcatAll(LegacyWalks(root, cwd, Globs(src), relative, matches))
  {
    var rs := LegacyWalks(root, cwd, Globs(src), relative, matches);
    GatherConcat(rs);
    match Gather(rs)
    case Err(e) => Err(e)
    case Ok(xss) =>
      WalksClean(rs);
      GatheredFlatten(rs, xss);
      Ok(CommaFlatten(xss))
  }

  /** `Promise.all` followed by concatenation is the newer walk's `ConcatAll`:
      the same first failure, or the same values in the same order. */
  lemma {:induction false} GatherConcat(rs: seq<Result<seq<string>>>)
    ensures Gather(rs).Err? ==> ConcatAll(rs) == Err(Gather(rs).error)
    ensures Gather(rs).Ok? ==> ConcatAll(rs) == Ok(Flatten(Gather(rs).value))
    decreases |rs|
  {
    if |rs| > 0 && rs[0].Ok? {
      GatherConcat(rs[1..]);
      if Gather(rs).Ok? {
        assert Gather(rs).value[1..] == Gather(rs[1..]).value;
      }
    }
  }

  /** No successful walk lists an empty path or one with a comma. */
  lemma WalksClean(rs: seq<Result<seq<string>>>)
    requires forall i :: 0 <= i < |rs| ==> exists root, cwd, o, matches :: rs[i] == LegacyWalk(root, cwd, o, matches)
    ensures forall i :: 0 <= i < |rs| && rs[i].Ok? ==> forall s :: s in rs[i].value ==> s != "" && Comma !in s
  {
    forall i | 0 <= i < |rs| && rs[i].Ok? ensures forall s :: s in rs[i].value ==> s != "" && Comma !in s {
      var root, cwd, o, matches :| rs[i] == LegacyWalk(root, cwd, o, matches);
    }
  }

  /** The comma round trip of gathered clean lists lists exactly their entries. */
  lemma GatheredFlatten(rs: seq<Result<seq<string>>>, xss: seq<seq<string>>)
    requires Gather(rs) == Ok(xss)
    requires forall i :: 0 <= i < |rs| && rs[i].Ok? ==> forall s :: s in rs[i].value ==> s != "" && Comma !in s
    ensures CommaFlatten(xss) == Flatten(xss)
    ensures |Flatten(xss)| == TotalLength(rs)
  {
    assert forall i :: 0 <= i < |xss| ==> xss[i] == rs[i].value;
    CommaFreeFlatten(xss);
    GatherConcat(rs);
    ConcatAllLength(rs);
  }

  // ---------------------------------------------------------------------------
  // unlinkDir, symlinkDir and copyFiles

  predicate IsFileAt(root: Node, p: Path) {
    LStat(root, p).Ok? && LStat(root, p).value.File?
  }

  /** The older `unlinkDir(dest)`: nothing when the destination does not
      exist; a directory is cleaned and a link unlinked, but a regular file is
      left in place. */
  function LegacyUnlinkDir(root: Node, cwd: Path, dest: string): (r: Result<Node>)
    ensures !Exists(root, ResolveString(cwd, dest)) ==> r == Ok(root)
    ensures var d := ResolveString(cwd, dest);
      WF(root) && Exists(root, d) && |d| >= 1 ==>
        r.Ok? && forall q :: At(r.value, q) == if d <= q && !IsFileAt(root, d) then None else At(root, q)
    ensures WF(root) && r.Ok? ==> WF(r.value)
  {
    var d := ResolveString(cwd, dest);
    if !Exists(root, d) then Ok(root)
    else match LStat(root, d)
      case Err(e) => Err(e)
      case Ok(Dir(_)) => Clean.Clean(root, d)
      case Ok(Link(_, _)) =>
        var r := Primitives.Unlink(root, d);
        if r.Ok? && WF(root) then
          forall q | d < q ensures At(root, q) == None {
            BelowLeaf(root, d, q);
          }
          r
        else r
      case Ok(File(_)) => Ok(root)
  }

  /** Except on a regular file, it does what the newer `unlink` does. */
  lemma LegacyUnlinkAgrees(root: Node, cwd: Path, dest: string)
    requires !IsFileAt(root, ResolveString(cwd, dest))
    ensures LegacyUnlinkDir(root, cwd, dest) == Links.Unlink(root, cwd, dest)
  {
  }

  /** The link type: a junction when the platform is exactly `win32`. */
  function LegacyKind(platform: string): (k: string)
    ensures platform == "win32" ==> k == "junction"
    ensures platform != "win32" ==> k == "dir"
  {
    if platform == "win32" then "junction" else "dir"
  }

  /** The older and newer choices agree on `win32` and on every platform name
      that does not mention `win32`. */
  lemma LegacyKindAgrees(platform: string)
    requires platform == "win32" || !Contains(platform, "win32")
    ensures LegacyKind(platform) == Links.LinkKind(platform, "dir")
  {
    Links.LinkKindCases(platform);
    if platform == "win32" {
      assert OccursAt(platform, "win32", 0);
    }
  }

  /** The older `symlinkDir(src, dest)`. */
  function LegacySymlinkDir(root: Node, cwd: Path, platform: string, src: string, dest: string): Result<Node> {
    var source := ResolveString(cwd, src);
    var destination := ResolveString(cwd, dest);
    match LegacyUnlinkDir(root, cwd, AbsString(destination))
    case Err(e) => Err(e)
    case Ok(cleared) => Primitives.Symlink(cleared, source, destination, LegacyKind(platform))
  }

  /** Linking over a regular file fails, because the file is not removed,
      where the newer `symlinkDir` replaces the file. */
  lemma LegacySymlinkOverFile(root: Node, cwd: Path, platform: string, src: string, dest: string)
    requires WF(root) && ValidPath(cwd)
    requires var d := ResolveString(cwd, dest);
      |d| >= 1 && IsFileAt(root, d) && LStat(root, Parent(d)).Ok? && LStat(root, Parent(d)).value.Dir?
    ensures LegacySymlinkDir(root, cwd, platform, src, dest).Err?
    ensures Links.SymlinkDir(root, cwd, platform, src, dest).Ok?
  {
    var d := ResolveString(cwd, dest);
    ResolveStringValid(cwd, dest);
    AbsStringRoundTrip(cwd, d);
    assert Exists(root, d);
    Links.SymlinkSpec(root, cwd, platform, src, dest, "dir");
  }

  /** Away from regular files it behaves like the newer `symlink` asked for
      the older link type: the destination becomes a link to the resolved
      source, whatever was at or below it is gone, the rest is unchanged. */
  lemma LegacySymlinkSpec(root: Node, cwd: Path, platform: string, src: string, dest: string)
    requires WF(root) && ValidPath(cwd)
    requires var d := ResolveString(cwd, dest);
      && |d| >= 1
      && LStat(root, Parent(d)).Ok? && LStat(root, Parent(d)).value.Dir?
      && !IsFileAt(root, d)
      && (Exists(root, d) || LStat(root, d).Err?)
    ensures var d := ResolveString(cwd, dest);
      var r := LegacySymlinkDir(root, cwd, platform, src, dest);
      && r.Ok?
      && At(r.value, d) == Some(IsLink(ResolveString(cwd, src), LegacyKind(platform)))
      && (forall q :: !(d <= q) ==> At(r.value, q) == At(root, q))
      && (forall q :: d < q ==> At(r.value, q) == None)
      && WF(r.value)
  {
    var d := ResolveString(cwd, dest);
    ResolveStringValid(cwd, dest);
    AbsStringRoundTrip(cwd, d);
    LegacyUnlinkAgrees(root, cwd, AbsString(d));
    NoWin32("");
    assert Links.LinkKind("", LegacyKind(platform)) == LegacyKind(platform);
    Links.SymlinkSpec(root, cwd, "", src, dest, LegacyKind(platform));
  }

  lemma NoWin32(platform: string)
    requires |platform| < 5
    ensures !Contains(platform, "win32")
  {
    ContainsIff(platform, "win32");
  }

  /** The older `copyFiles(src, destRootDir)`: the same per-file rewrite and
      copy as the newer one, over the older glob. */
  function LegacyCopyFiles(root: Node, cwd: Path, src: Src, destRootDir: string,
                           matches: (string, string) -> bool): (r: Result<Node>)
    requires ValidPath(cwd)
    ensures LegacyGlobFiles(root, cwd, src, false, matches).Err? ==> r.Err?
    ensures var g := LegacyGlobFiles(root, cwd, src, false, matches);
      r.Ok? && g.Ok? && Copy.Separate(root, cwd, g.value, destRootDir) ==>
        && (forall i :: 0 <= i < |g.value| ==>
              At(r.value, Copy.DestOf(cwd, g.value[i], destRootDir))
              == Some(IsFile(LStat(root, Copy.SrcOf(cwd, g.value[i])).value.data)))
        && (forall q :: q !in Copy.Dests(cwd, g.value, destRootDir) && At(root, q).Some? ==> At(r.value, q) == At(root, q))
        && Copy.NoNewLinks(root, r.value)
    ensures var g := LegacyGlobFiles(root, cwd, src, false, matches);
      g.Ok? && Copy.Separate(root, cwd, g.value, destRootDir) && Copy.Landable(root, cwd, g.value, destRootDir) ==> r.Ok?
  {
    match LegacyGlobFiles(root, cwd, src, false, matches)
    case Err(e) => Err(e)
    case Ok(files) =>
      Copy.CopyEachEffect(root, cwd, files, destRootDir);
      Copy.CopyEach(root, cwd, files, destRootDir)
  }
}
