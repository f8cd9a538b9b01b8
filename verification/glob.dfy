/** `globFiles` (src/glob.ts): split each glob into a base directory, a
    recursive flag and a last-segment pattern, walk the base directory, keep
    the regular files whose name matches, and concatenate the results.
    Pattern matching (`minimatch`) is a parameter `matches(name, pattern)`. */
module Glob {
  import opened Wrappers
  import opened Strings
  import opened Paths
  import opened Tree

  datatype GlobOptions = GlobOptions(dir: string, isRecursive: bool, pattern: string, relative: bool)

  /** The characters JavaScript's `.` does not match. */
  predicate LineTerminator(c: char) {
    c == '\n' || c == '\r' || c == '\U{2028}' || c == '\U{2029}'
  }

  /** The end of the run of non-terminators starting at `i` (what `.*` eats). */
  function LineEnd(s: string, i: nat): (j: nat)
    requires i <= |s|
    ensures i <= j <= |s|
    ensures forall k :: i <= k < j ==> !LineTerminator(s[k])
    ensures j < |s| ==> LineTerminator(s[j])
    decreases |s| - i
  {
    if i == |s| || LineTerminator(s[i]) then i else LineEnd(s, i + 1)
  }

  /** `s.replace(/(\*.*)|(\*.[a-z]{2})/g, '')`: every `*` is deleted together
      with the rest of its line. The second alternative can never win, since
      the first matches wherever the second would. */
  function StripStars(s: string): (r: string)
    ensures '*' !in r
    ensures |r| <= |s|
    ensures '*' !in s ==> r == s
    decreases |s|
  {
    if |s| == 0 then ""
    else if s[0] == '*' then
      var j := LineEnd(s, 1);
      StripStars(s[j..])
    else [s[0]] + StripStars(s[1..])
  }

  predicate OneLine(s: string) {
    forall k :: 0 <= k < |s| ==> !LineTerminator(s[k])
  }

  /** On a one-line glob the base directory is the glob cut at its first `*`. */
  lemma {:induction false} StripStarsCuts(s: string)
    ensures OneLine(s) ==> StripStars(s) <= s && (StripStars(s) == s || s[|StripStars(s)|] == '*')
    decreases |s|
  {
    if OneLine(s) && |s| > 0 && s[0] != '*' {
      StripStarsCuts(s[1..]);
      assert s == [s[0]] + s[1..];
    }
  }

  /** `createOptions(file, relative)`. */
  function CreateOptions(file: string, relative: bool): (o: GlobOptions)
    ensures '*' !in o.dir && |o.dir| <= |file|
    ensures OneLine(file) ==> o.dir <= file && (o.dir == file || file[|o.dir|] == '*')
    ensures o.isRecursive <==> exists i :: 0 <= i <= |Normalize(file)| && OccursAt(Normalize(file), [Sep, '*', '*'], i)
    ensures o.relative == relative
  {
    StripStarsCuts(file);
    ContainsIff(Normalize(file), [Sep, '*', '*']);
    GlobOptions(StripStars(file), Contains(Normalize(file), [Sep, '*', '*']), Basename(file), relative)
  }

  /** The pattern is the last segment of the glob. */
  lemma CreateOptionsPattern(segs: seq<string>, relative: bool)
    requires |segs| >= 1 && ValidPath(segs)
    ensures CreateOptions(Join(segs, Sep), relative).pattern == Last(segs)
  {
    BasenameJoin(segs);
  }

  // ---------------------------------------------------------------------------
  // The walk

  /** Prefix every path with the directory name `c`. */
  function Under(c: string, xs: seq<Path>): (r: seq<Path>)
    ensures |r| == |xs|
    ensures forall k :: 0 <= k < |xs| ==> r[k] == [c] + xs[k]
  {
    seq(|xs|, k requires 0 <= k < |xs| => [c] + xs[k])
  }

  /** What one entry contributes, given what the walk found below it (`sub`,
      only consulted for a directory of a recursive walk). */
  function Here(e: Entry, sub: seq<Path>, o: GlobOptions, matches: (string, string) -> bool): seq<Path> {
    if e.node.Dir? && o.isRecursive then Under(e.name, sub)
    else if e.node.File? && matches(e.name, o.pattern) then [[e.name]]
    else []
  }

  /** The paths, relative to the directory whose entries are `es`, of the files
      the walk keeps, in `readdir` order: a directory is descended only when
      the walk is recursive, a regular file is kept when its name matches, and
      a symbolic link contributes nothing (the entry kinds are `lstat` kinds). */
  function Collect(es: seq<Entry>, o: GlobOptions, matches: (string, string) -> bool): seq<Path>
    decreases es
  {
    if |es| == 0 then []
    else
      var e := es[0];
      var sub := if e.node.Dir? && o.isRecursive then Collect(e.node.entries, o, matches) else [];
      Here(e, sub, o, matches) + Collect(es[1..], o, matches)
  }

  /** Reference definition of what the walk keeps below the directory `n`: a
      regular file (seen without following links) at depth one, or at any
      depth when recursive, whose name matches the pattern. */
  predicate Selected(n: Node, rel: Path, o: GlobOptions, matches: (string, string) -> bool) {
    && |rel| >= 1
    && (o.isRecursive || |rel| == 1)
    && LStat(n, rel).Ok? && LStat(n, rel).value.File?
    && matches(rel[|rel| - 1], o.pattern)
  }

  predicate NoDuplicates<T(==)>(xs: seq<T>) {
    forall i, j :: 0 <= i < j < |xs| ==> xs[i] != xs[j]
  }

  lemma WFTail(es: seq<Entry>)
    requires WF(Dir(es)) && |es| >= 1
    ensures WF(Dir(es[1..]))
  {
  }

  /** Looking up a path whose first name is not the first entry's skips that entry. */
  lemma LStatTail(es: seq<Entry>, rel: Path)
    requires |es| >= 1 && |rel| >= 1 && rel[0] != es[0].name
    ensures LStat(Dir(es), rel) == LStat(Dir(es[1..]), rel)
  {
  }

  lemma LStatHead(es: seq<Entry>, rel: Path)
    requires |es| >= 1 && |rel| >= 1 && rel[0] == es[0].name
    ensures LStat(Dir(es), rel) == LStat(es[0].node, rel[1..])
  {
  }

  /** One entry contributes exactly the selected files below it, given that
      the walk below it does. */
  lemma HereIff(e: Entry, sub: seq<Path>, o: GlobOptions, matches: (string, string) -> bool, rel: Path)
    requires forall x :: x in sub ==> |x| >= 1
    requires e.node.Dir? && o.isRecursive && |rel| >= 2 ==>
      (rel[1..] in sub <==> Selected(e.node, rel[1..], o, matches))
    ensures rel in Here(e, sub, o, matches) <==>
      |rel| >= 1 && rel[0] == e.name && Selected(Dir([e]), rel, o, matches)
  {
    var h := Here(e, sub, o, matches);
    if |rel| >= 1 && rel[0] == e.name {
      LStatHead([e], rel);
      if e.node.Dir? && o.isRecursive {
        if |rel| >= 2 {
          assert rel[|rel| - 1] == rel[1..][|rel| - 2];
          assert Selected(Dir([e]), rel, o, matches) <==> Selected(e.node, rel[1..], o, matches);
          if rel in h {
            var k :| 0 <= k < |h| && h[k] == rel;
            assert rel[1..] == sub[k];
          }
          if rel[1..] in sub {
            var k :| 0 <= k < |sub| && sub[k] == rel[1..];
            assert rel == [e.name] + rel[1..];
            assert h[k] == rel;
          }
        } else {
          assert LStat(Dir([e]), rel) == Ok(e.node);
          forall k | 0 <= k < |h| ensures h[k] != rel {
            assert sub[k] in sub;
            assert |h[k]| == 1 + |sub[k]|;
          }
          assert rel !in h;
        }
      } else if |rel| >= 2 && !e.node.Dir? {
        assert LStat(e.node, rel[1..]).Err?;
      } else if |rel| == 1 {
        assert rel == [e.name];
        assert LStat(Dir([e]), rel) == Ok(e.node);
      }
    } else {
      forall k | 0 <= k < |h| ensures |h[k]| >= 1 && h[k][0] == e.name {
      }
    }
  }

  /** The walk keeps exactly the selected files. */
  lemma {:induction false} CollectIff(es: seq<Entry>, o: GlobOptions, matches: (string, string) -> bool, rel: Path)
    requires WF(Dir(es))
    ensures rel in Collect(es, o, matches) <==> Selected(Dir(es), rel, o, matches)
    decreases es
  {
    if |es| > 0 {
      var e := es[0];
      var sub := if e.node.Dir? && o.isRecursive then Collect(e.node.entries, o, matches) else [];
      var here := Here(e, sub, o, matches);
      var rest := Collect(es[1..], o, matches);
      assert Collect(es, o, matches) == here + rest;
      WFTail(es);
      CollectIff(es[1..], o, matches, rel);
      if e.node.Dir? && o.isRecursive {
        CollectNames(e.node.entries, o, matches);
        if |rel| >= 2 {
          CollectIff(e.node.entries, o, matches, rel[1..]);
        }
      }
      HereIff(e, sub, o, matches, rel);
      if |rel| >= 1 && rel[0] == e.name {
        LStatHead(es, rel);
        LStatHead([e], rel);
        CollectNames(es[1..], o, matches);
        forall x | x in rest ensures x[0] != e.name {
          var i :| 0 <= i < |es[1..]| && es[1..][i].name == x[0];
          assert es[i + 1].name == x[0];
        }
      } else if |rel| >= 1 {
        LStatTail(es, rel);
      } else {
        CollectNames(es[1..], o, matches);
      }
    }
  }

  /** Every kept path starts with the name of one of the entries. */
  lemma {:induction false} CollectNames(es: seq<Entry>, o: GlobOptions, matches: (string, string) -> bool)
    ensures forall x :: x in Collect(es, o, matches) ==> |x| >= 1 && exists i :: 0 <= i < |es| && es[i].name == x[0]
    decreases es
  {
    if |es| > 0 {
      var e := es[0];
      var sub := if e.node.Dir? && o.isRecursive then Collect(e.node.entries, o, matches) else [];
      var here := Here(e, sub, o, matches);
      assert Collect(es, o, matches) == here + Collect(es[1..], o, matches);
      CollectNames(es[1..], o, matches);
      forall x | x in here ensures |x| >= 1 && x[0] == es[0].name {
        var k :| 0 <= k < |here| && here[k] == x;
      }
      forall x | x in Collect(es[1..], o, matches)
        ensures exists i :: 0 <= i < |es| && es[i].name == x[0]
      {
        var i :| 0 <= i < |es[1..]| && es[1..][i].name == x[0];
        assert es[i + 1].name == x[0];
      }
    }
  }

  /** No file is listed twice by one walk. */
  lemma {:induction false} CollectNoDuplicates(es: seq<Entry>, o: GlobOptions, matches: (string, string) -> bool)
    requires WF(Dir(es))
    ensures NoDuplicates(Collect(es, o, matches))
    decreases es
  {
    if |es| > 0 {
      var e := es[0];
      var sub := if e.node.Dir? && o.isRecursive then Collect(e.node.entries, o, matches) else [];
      var here := Here(e, sub, o, matches);
      var rest := Collect(es[1..], o, matches);
      assert Collect(es, o, matches) == here + rest;
      WFTail(es);
      CollectNoDuplicates(es[1..], o, matches);
      if e.node.Dir? && o.isRecursive {
        CollectNoDuplicates(e.node.entries, o, matches);
      }
      CollectNames(es[1..], o, matches);
      forall x | x in rest ensures |x| >= 1 && x[0] != e.name {
        var i :| 0 <= i < |es[1..]| && es[1..][i].name == x[0];
        assert es[i + 1].name == x[0];
      }
      HereNoDuplicates(e, sub, o, matches);
      AppendNoDuplicates(here, rest, e.name);
    }
  }

  /** One entry's contribution has no repeats and starts with its name. */
  lemma HereNoDuplicates(e: Entry, sub: seq<Path>, o: GlobOptions, matches: (string, string) -> bool)
    requires NoDuplicates(sub)
    ensures NoDuplicates(Here(e, sub, o, matches))
    ensures forall x :: x in Here(e, sub, o, matches) ==> |x| >= 1 && x[0] == e.name
  {
    var here := Here(e, sub, o, matches);
    if e.node.Dir? && o.isRecursive {
      forall i, j | 0 <= i < j < |here| ensures here[i] != here[j] {
        assert here[i][1..] == sub[i] && here[j][1..] == sub[j];
      }
    }
  }

  /** Paths under one name followed by paths under other names repeat nothing. */
  lemma AppendNoDuplicates(a: seq<Path>, b: seq<Path>, name: string)
    requires NoDuplicates(a) && NoDuplicates(b)
    requires forall x :: x in a ==> |x| >= 1 && x[0] == name
    requires forall x :: x in b ==> |x| >= 1 && x[0] != name
    ensures NoDuplicates(a + b)
  {
    forall i, j | 0 <= i < j < |a + b| ensures (a + b)[i] != (a + b)[j] {
      if j < |a| {
      } else if i < |a| {
        assert (a + b)[j] in b;
        assert a[i] in a;
      } else {
        assert (a + b)[i] == b[i - |a|] && (a + b)[j] == b[j - |a|];
      }
    }
  }

  /** The directory a walk reads: `options.dir` resolved against the working
      directory (`readdir` resolves relative paths). */
  function Base(cwd: Path, o: GlobOptions): Path {
    ResolveString(cwd, o.dir)
  }

  /** How a kept file `rel` (below the base) is printed: `./` followed by its
      path relative to the working directory, or `join(cwd, res)`, where `res`
      is the base directory string joined with the names of `rel`. */
  function Emit(cwd: Path, o: GlobOptions, rel: Path): (s: string)
    ensures |s| >= 1
  {
    if o.relative then "." + [Sep] + Join(Relative(cwd, Base(cwd, o) + rel), Sep)
    else AbsString(Resolve(cwd, Split(o.dir, Sep) + rel))
  }

  function EmitAll(cwd: Path, o: GlobOptions, rels: seq<Path>): (r: seq<string>)
    ensures |r| == |rels|
    ensures forall k :: 0 <= k < |rels| ==> r[k] == Emit(cwd, o, rels[k])
  {
    seq(|rels|, k requires 0 <= k < |rels| => Emit(cwd, o, rels[k]))
  }

  lemma WFStatFuel(root: Node, p: Path, fuel: nat)
    requires WF(root) && StatFuel(root, p, fuel).Ok?
    ensures WF(StatFuel(root, p, fuel).value)
    decreases fuel
  {
    WFLStat(root, p);
    if LStat(root, p).value.Link? && fuel > 0 {
      WFStatFuel(root, LStat(root, p).value.target, fuel - 1);
    }
  }

  /** `walk(options)`. The base is read with `readdir`, which follows a link
      at the base and fails on a missing base (`NoEntry`, also for the empty
      string) or on a non-directory (`NotADirectory`). */
  function Walk(root: Node, cwd: Path, o: GlobOptions, matches: (string, string) -> bool): (r: Result<seq<string>>)
    ensures r.Ok? <==> o.dir != "" && Stat(root, Base(cwd, o)).Ok? && Stat(root, Base(cwd, o)).value.Dir?
    ensures o.dir == "" ==> r == Err(NoEntry)
    ensures o.dir != "" && Stat(root, Base(cwd, o)) == Ok(Dir([])) ==> r == Ok([])
    ensures r.Ok? ==> forall s :: s in r.value ==> s != ""
    ensures r.Ok? && WF(root) ==> forall s :: s in r.value <==>
      exists rel :: Selected(Stat(root, Base(cwd, o)).value, rel, o, matches) && s == Emit(cwd, o, rel)
  {
    if o.dir == "" then Err(NoEntry)
    else match Stat(root, Base(cwd, o))
      case Err(e) => Err(e)
      case Ok(Dir(es)) =>
        var rels := Collect(es, o, matches);
        var r := EmitAll(cwd, o, rels);
        if WF(root) then
          WFStatFuel(root, Base(cwd, o), MaxSymlinkHops);
          EmitAllIff(es, cwd, o, matches);
          Ok(r)
        else Ok(r)
      case Ok(_) => Err(NotADirectory)
  }

  /** The printed walk lists exactly the printed forms of the selected files. */
  lemma EmitAllIff(es: seq<Entry>, cwd: Path, o: GlobOptions, matches: (string, string) -> bool)
    requires WF(Dir(es))
    ensures forall s :: s in EmitAll(cwd, o, Collect(es, o, matches)) <==>
      exists rel :: Selected(Dir(es), rel, o, matches) && s == Emit(cwd, o, rel)
  {
    var rels := Collect(es, o, matches);
    var r := EmitAll(cwd, o, rels);
    forall s ensures s in r <==> exists rel :: Selected(Dir(es), rel, o, matches) && s == Emit(cwd, o, rel) {
      if s in r {
        var k :| 0 <= k < |r| && r[k] == s;
        CollectIff(es, o, matches, rels[k]);
      }
      if exists rel :: Selected(Dir(es), rel, o, matches) && s == Emit(cwd, o, rel) {
        var rel :| Selected(Dir(es), rel, o, matches) && s == Emit(cwd, o, rel);
        CollectIff(es, o, matches, rel);
        var k :| 0 <= k < |rels| && rels[k] == rel;
        assert r[k] == s;
      }
    }
  }

  /** A relative result, resolved against the working directory, names the
      file the walk read. */
  lemma EmitRelativeResolves(cwd: Path, o: GlobOptions, rel: Path)
    requires o.relative && ValidPath(cwd) && ValidPath(rel)
    ensures ResolveString(cwd, Emit(cwd, o, rel)) == Base(cwd, o) + rel
  {
    var to := Base(cwd, o) + rel;
    ResolveStringValid(cwd, o.dir);
    var xs := Relative(cwd, to);
    RelativeRoundTrip(cwd, to);
    var s := Emit(cwd, o, rel);
    assert s == "." + [Sep] + Join(xs, Sep);
    if |xs| == 0 {
      assert s == "." + [Sep] + "";
      SplitSepAfter(".", Sep, "");
      assert Split(s, Sep) == [".", ""];
      assert NormSegs(cwd, [".", ""], true) == NormSegs(cwd, [""], true) == cwd;
      assert Resolve(cwd, xs) == to;
    } else {
      var k := CommonPrefixLen(cwd, to);
      assert forall i :: 0 <= i < |xs| ==> xs[i] == ".." || xs[i] == to[k..][i - (|cwd| - k)];
      SplitJoin(xs, Sep);
      SplitSepAfter(".", Sep, Join(xs, Sep));
      assert s == "." + [Sep] + Join(xs, Sep);
      assert Split(s, Sep) == ["."] + xs;
      assert NormSegs(cwd, ["."] + xs, true) == NormSegs(cwd, xs, true);
    }
  }

  /** For a relative base directory, an absolute result is the absolute path of
      the file the walk read. */
  lemma EmitAbsoluteRelativeBase(cwd: Path, o: GlobOptions, rel: Path)
    requires !o.relative && !IsAbsolute(o.dir) && ValidPath(rel)
    ensures Emit(cwd, o, rel) == AbsString(Base(cwd, o) + rel)
  {
    NormSegsAppend(cwd, Split(o.dir, Sep), rel, true);
    NormSegsValid(Base(cwd, o), rel, true);
  }

  /** An absolute base directory is printed below the working directory
      (`join` does not restart at a leading separator), although the walk read
      it from the root. */
  lemma EmitAbsoluteBaseQuirk()
    ensures Base(["home"], GlobOptions("/data/", false, "*", false)) == ["data"]
    ensures Emit(["home"], GlobOptions("/data/", false, "*", false), ["a"]) == "/home/data/a"
  {
    QuirkBase();
    QuirkEmit();
  }

  lemma QuirkBase()
    ensures Base(["home"], GlobOptions("/data/", false, "*", false)) == ["data"]
  {
    QuirkSplit();
    assert IsAbsolute("/data/");
    assert Resolve([], ["", "data", ""]) == ["data"];
  }

  lemma QuirkEmit()
    ensures Emit(["home"], GlobOptions("/data/", false, "*", false), ["a"]) == "/home/data/a"
  {
    var segs := Split("/data/", Sep) + ["a"];
    QuirkSplit();
    assert segs == ["", "data", "", "a"];
    QuirkResolve();
    QuirkJoin();
    assert Emit(["home"], GlobOptions("/data/", false, "*", false), ["a"]) == AbsString(["home", "data", "a"]);
  }

  lemma QuirkJoin()
    ensures AbsString(["home", "data", "a"]) == "/home/data/a"
  {
    JoinHead("home", ["data", "a"], Sep);
    JoinHead("data", ["a"], Sep);
  }

  lemma QuirkResolve()
    ensures Resolve(["home"], ["", "data", "", "a"]) == ["home", "data", "a"]
  {
  }

  lemma QuirkSplit()
    ensures Split("/data/", Sep) == ["", "data", ""]
  {
    SplitSepAfter("data", Sep, "");
    SplitSepAfter("", Sep, "data/");
    assert "/data/" == "" + [Sep] + "data/";
    assert "data/" == "data" + [Sep] + "";
  }

  // ---------------------------------------------------------------------------
  // Several globs

  datatype Src = One(glob: string) | Many(globs: seq<string>)

  function Globs(src: Src): seq<string> {
    match src
    case One(g) => [g]
    case Many(gs) => gs
  }

  function WalkGlob(root: Node, cwd: Path, g: string, relative: bool, matches: (string, string) -> bool): Result<seq<string>> {
    Walk(root, cwd, CreateOptions(g, relative), matches)
  }

  /** The walks of the globs, in input order. */
  function Walks(root: Node, cwd: Path, gs: seq<string>, relative: bool, matches: (string, string) -> bool): (rs: seq<Result<seq<string>>>)
    ensures |rs| == |gs|
    ensures forall i :: 0 <= i < |gs| ==> rs[i] == WalkGlob(root, cwd, gs[i], relative, matches)
  {
    seq(|gs|, i requires 0 <= i < |gs| => WalkGlob(root, cwd, gs[i], relative, matches))
  }

  /** `Promise.all` over the walks, results flattened in input order: the
      first failing walk fails the whole call. */
  function ConcatAll(rs: seq<Result<seq<string>>>): (r: Result<seq<string>>)
    ensures r.Ok? <==> forall i :: 0 <= i < |rs| ==> rs[i].Ok?
    ensures r.Ok? ==> forall s :: s in r.value <==> exists i :: 0 <= i < |rs| && s in rs[i].value
    decreases |rs|
  {
    if |rs| == 0 then Ok([])
    else match rs[0]
      case Err(e) => Err(e)
      case Ok(xs) =>
        var rest := ConcatAll(rs[1..]);
        assert forall i :: 1 <= i < |rs| ==> rs[i] == rs[1..][i - 1];
        match rest
        case Err(e) => Err(e)
        case Ok(ys) => Ok(xs + ys)
  }

  /** The sum of the lengths of the successful results. */
  function TotalLength(rs: seq<Result<seq<string>>>): nat
    decreases |rs|
  {
    if |rs| == 0 then 0
    else (if rs[0].Ok? then |rs[0].value| else 0) + TotalLength(rs[1..])
  }

  /** Adding a glob appends its walk: results keep input order. */
  lemma {:induction false} ConcatAllAppend(rs: seq<Result<seq<string>>>, x: Result<seq<string>>)
    requires ConcatAll(rs + [x]).Ok?
    ensures ConcatAll(rs).Ok? && x.Ok?
    ensures ConcatAll(rs + [x]).value == ConcatAll(rs).value + x.value
    decreases |rs|
  {
    assert (rs + [x])[|rs|] == x;
    assert forall i :: 0 <= i < |rs| ==> (rs + [x])[i] == rs[i];
    if |rs| == 0 {
      assert rs + [x] == [x];
      assert [x][1..] == [];
    } else {
      assert (rs + [x])[0] == rs[0] && (rs + [x])[1..] == rs[1..] + [x];
      ConcatAllAppend(rs[1..], x);
    }
  }

  /** Nothing is deduplicated: every result of every walk is counted. */
  lemma {:induction false} ConcatAllLength(rs: seq<Result<seq<string>>>)
    requires ConcatAll(rs).Ok?
    ensures |ConcatAll(rs).value| == TotalLength(rs)
    decreases |rs|
  {
    if |rs| > 0 {
      ConcatAllLength(rs[1..]);
    }
  }

  /** Keep the truthy strings (`filter(value => value)`). */
  function Truthy(xs: seq<string>): (r: seq<string>)
    ensures forall s :: s in r <==> s in xs && s != ""
  {
    if |xs| == 0 then []
    else (if xs[0] == "" then [] else [xs[0]]) + Truthy(xs[1..])
  }

  /** Walk results are never empty strings, so the final filter keeps them all. */
  lemma {:induction false} TruthyKeepsNonEmpty(xs: seq<string>)
    requires forall i :: 0 <= i < |xs| ==> xs[i] != ""
    ensures Truthy(xs) == xs
  {
    if |xs| > 0 {
      TruthyKeepsNonEmpty(xs[1..]);
      assert [xs[0]] + xs[1..] == xs;
    }
  }

  /** Flatten the walks and keep the truthy strings; walks never produce an
      empty string, so this is their plain concatenation. */
  function FlattenTruthy(rs: seq<Result<seq<string>>>): (r: Result<seq<string>>)
    requires forall i :: 0 <= i < |rs| && rs[i].Ok? ==> forall s :: s in rs[i].value ==> s != ""
    ensures r == ConcatAll(rs)
  {
    match ConcatAll(rs)
    case Err(e) => Err(e)
    case Ok(xs) =>
      forall j | 0 <= j < |xs| ensures xs[j] != "" {
        assert xs[j] in xs;
        var i :| 0 <= i < |rs| && xs[j] in rs[i].value;
      }
      TruthyKeepsNonEmpty(xs);
      Ok(Truthy(xs))
  }

  /** `globFiles(src, relative)`: the walks concatenated in input order, with
      nothing dropped by the final filter. */
  function GlobFiles(root: Node, cwd: Path, src: Src, relative: bool, matches: (string, string) -> bool): (r: Result<seq<string>>)
    ensures r.Ok? <==> forall i :: 0 <= i < |Globs(src)| ==> WalkGlob(root, cwd, Globs(src)[i], relative, matches).Ok?
    ensures r.Ok? ==> forall s :: s in r.value <==>
      exists i :: 0 <= i < |Globs(src)| && s in WalkGlob(root, cwd, Globs(src)[i], relative, matches).value
    ensures r.Ok? ==> |r.value| == TotalLength(Walks(root, cwd, Globs(src), relative, matches))
    ensures r == ConcatAll(Walks(root, cwd, Globs(src), relative, matches))
  {
    var rs := Walks(root, cwd, Globs(src), relative, matches);
    var r := FlattenTruthy(rs);
    if r.Ok? then ConcatAllLength(rs); r else r
  }

  // ---------------------------------------------------------------------------
  // Worked examples

  // "src/**/*.ts" is split into the base "src/", recursive, pattern "*.ts".
  lemma CreateOptionsExample()
    ensures CreateOptions("src/**/*.ts", false) == GlobOptions("src/", true, "*.ts", false)
  {
    var f := "src/**/*.ts";
    ExampleDir(f);
    ExampleSegments(f);
  }

  lemma ExampleDir(f: string)
    requires f == "src/**/*.ts"
    ensures StripStars(f) == "src/"
  {
    assert OneLine(f) && f[..4] == "src/" && f[4] == '*';
    assert forall k :: 0 <= k < 4 ==> f[k] != '*';
    StripStarsCuts(f);
    var d := StripStars(f);
    assert |d| == 4 by {
      assert d != f;
      assert f[4] in f[..5];
    }
    assert d == f[..4];
  }

  lemma ExampleSegments(f: string)
    requires f == "src/**/*.ts"
    ensures Contains(Normalize(f), [Sep, '*', '*']) && Basename(f) == "*.ts"
  {
    var segs := ["src", "**", "*.ts"];
    ExampleJoin(f, segs);
    NormalizeNormal(segs);
    BasenameJoin(segs);
    ExampleContains(f);
  }

  lemma ExampleJoin(f: string, segs: seq<string>)
    requires f == "src/**/*.ts" && segs == ["src", "**", "*.ts"]
    ensures Join(segs, Sep) == f && ValidPath(segs)
  {
    JoinHead("src", ["**", "*.ts"], Sep);
    JoinHead("**", ["*.ts"], Sep);
  }

  lemma ExampleContains(f: string)
    requires f == "src/**/*.ts"
    ensures Contains(f, [Sep, '*', '*'])
  {
    ContainsIff(f, [Sep, '*', '*']);
    assert f[3..6] == [Sep, '*', '*'];
    assert OccursAt(f, [Sep, '*', '*'], 3);
  }

  // A leading "**" has no separator in front of it once "./" is normalised
  // away, so "./**/*" is not recursive.
  lemma LeadingStarsNotRecursive()
    ensures !CreateOptions("./**/*", false).isRecursive
  {
    var f := "./**/*";
    LeadingStarsSplit(f);
    assert NormSegs([], [".", "**", "*"], false) == ["**", "*"];
    assert Join(["**", "*"], Sep) == "**/*";
    var n := Normalize(f);
    assert n == "**/*";
    forall i | 0 <= i <= |n| ensures !OccursAt(n, [Sep, '*', '*'], i) {
      if i + 3 <= |n| {
        assert n[i..i + 3][0] == n[i];
      }
    }
  }

  lemma LeadingStarsSplit(f: string)
    requires f == "./**/*"
    ensures Split(f, Sep) == [".", "**", "*"]
  {
    SplitSepAfter("**", Sep, "*");
    SplitSepAfter(".", Sep, "**/*");
    SplitNoSep("*", Sep);
    assert f == "." + [Sep] + ("**" + [Sep] + "*");
  }

  // A glob that is a name, a separator and a star reads the directory of that
  // name, does not descend, and keeps what the pattern `*` matches.
  lemma DirGlobOptions(n: string)
    requires ValidName(n) && '*' !in n && OneLine(n)
    ensures CreateOptions(n + [Sep] + "*", false) == GlobOptions(n + [Sep], false, "*", false)
  {
    var f := n + [Sep] + "*";
    DirGlobStrip(n, f);
    DirGlobFlat(n, f);
    var segs := [n, "*"];
    JoinHead(n, ["*"], Sep);
    assert Join(segs, Sep) == f;
    CreateOptionsPattern(segs, false);
  }

  lemma DirGlobStrip(n: string, f: string)
    requires ValidName(n) && '*' !in n && OneLine(n) && f == n + [Sep] + "*"
    ensures StripStars(f) == n + [Sep]
  {
    forall k | 0 <= k < |f| ensures !LineTerminator(f[k]) && (k < |f| - 1 ==> f[k] != '*') {
      if k < |n| {
        assert f[k] == n[k];
      }
    }
    StripStarsCuts(f);
    var d := StripStars(f);
    assert d != f by {
      assert f[|f| - 1] in f;
    }
    assert d == f[..|f| - 1];
  }

  lemma DirGlobFlat(n: string, f: string)
    requires ValidName(n) && '*' !in n && f == n + [Sep] + "*"
    ensures !Contains(Normalize(f), [Sep, '*', '*'])
  {
    var segs := [n, "*"];
    JoinHead(n, ["*"], Sep);
    assert Join(segs, Sep) == f;
    NormalizeNormal(segs);
    ContainsIff(f, [Sep, '*', '*']);
    forall i | 0 <= i <= |f| ensures !OccursAt(f, [Sep, '*', '*'], i) {
      if i + 3 <= |f| {
        assert f[i..i + 3][1] == f[i + 1];
        if i + 1 < |n| {
          assert f[i + 1] == n[i + 1];
        }
      }
    }
  }

  /** The base directory `name/` resolves to `cwd/name`. */
  lemma DirGlobBase(cwd: Path, n: string)
    requires ValidName(n)
    ensures ResolveString(cwd, n + [Sep]) == cwd + [n]
  {
    SplitNoSep("", Sep);
    SplitSepAfter(n, Sep, "");
    assert n + [Sep] == n + [Sep] + "";
    assert Split(n + [Sep], Sep) == [n, ""];
    assert !IsAbsolute(n + [Sep]) by {
      assert (n + [Sep])[0] == n[0];
      assert n[0] in n;
    }
    assert NormStep(cwd, n, true) == cwd + [n];
    assert [n, ""][1..] == [""];
    assert NormSegs(cwd + [n], [""], true) == cwd + [n];
  }

  // globFiles of such a glob, on a directory holding one file the pattern
  // matches, gives that file's absolute path.
  lemma DirGlobFiles(root: Node, cwd: Path, n: string, name: string, data: Bytes, matches: (string, string) -> bool)
    requires ValidPath(cwd) && ValidName(n) && '*' !in n && OneLine(n) && ValidName(name)
    requires LStat(root, cwd + [n]) == Ok(Dir([Entry(name, File(data))]))
    requires matches(name, "*")
    ensures GlobFiles(root, cwd, One(n + [Sep] + "*"), false, matches) == Ok([AbsString(cwd + [n, name])])
  {
    var g := n + [Sep] + "*";
    DirGlobOptions(n);
    DirGlobWalk(root, cwd, n, name, data, matches);
    GlobOne(root, cwd, g, false, matches);
  }

  /** A single glob gives exactly its walk. */
  lemma GlobOne(root: Node, cwd: Path, g: string, relative: bool, matches: (string, string) -> bool)
    ensures GlobFiles(root, cwd, One(g), relative, matches) == WalkGlob(root, cwd, g, relative, matches)
  {
    var w := WalkGlob(root, cwd, g, relative, matches);
    assert Walks(root, cwd, Globs(One(g)), relative, matches) == [w];
    ConcatAllOne(w);
  }

  lemma ConcatAllOne(w: Result<seq<string>>)
    ensures ConcatAll([w]) == w
  {
    assert [w][1..] == [];
    if w.Ok? {
      assert w.value + [] == w.value;
    }
  }

  lemma DirGlobWalk(root: Node, cwd: Path, n: string, name: string, data: Bytes, matches: (string, string) -> bool)
    requires ValidName(n) && ValidName(name)
    requires LStat(root, cwd + [n]) == Ok(Dir([Entry(name, File(data))]))
    requires matches(name, "*")
    ensures Walk(root, cwd, GlobOptions(n + [Sep], false, "*", false), matches) == Ok([AbsString(cwd + [n, name])])
  {
    var o := GlobOptions(n + [Sep], false, "*", false);
    DirGlobBase(cwd, n);
    assert Base(cwd, o) == cwd + [n];
    assert Stat(root, Base(cwd, o)) == Ok(Dir([Entry(name, File(data))]));
    var es := [Entry(name, File(data))];
    assert Collect(es, o, matches) == [[name]] by {
      assert es[1..] == [];
    }
    assert !IsAbsolute(o.dir) by {
      assert o.dir[0] == n[0];
      assert n[0] in n;
    }
    EmitAbsoluteRelativeBase(cwd, o, [name]);
    assert cwd + [n] + [name] == cwd + [n, name];
    assert EmitAll(cwd, o, [[name]]) == [AbsString(cwd + [n, name])];
  }

  /** The entries of `src` in the glob tests. */
  const TestSrc: seq<Entry> := [
    Entry("app.element.ts", File([])),
    Entry("app.element.html", File([])),
    Entry("app.element.scss", File([])),
    Entry("elements", Dir([Entry("index.ts", File([]))]))]

  lemma NonRecursiveOptions(f: string)
    requires f == "./src/*"
    ensures CreateOptions(f, false) == GlobOptions("./src/", false, "*", false)
  {
    NonRecursiveDir(f);
    NonRecursiveNormalize(f);
    var n := Normalize(f);
    forall i | 0 <= i <= |n| ensures !OccursAt(n, [Sep, '*', '*'], i) {
      if i + 3 <= |n| {
        assert n[i..i + 3][1] == n[i + 1];
      }
    }
    assert TrimTrailingSeps(f) == f;
    assert f == "./src" + [Sep] + "*";
    AfterLastSepOf("./src", "*");
  }

  lemma NonRecursiveDir(f: string)
    requires f == "./src/*"
    ensures StripStars(f) == "./src/"
  {
    StripStarsCuts(f);
    assert f[6] == '*' && f[6] in f;
    assert forall k :: 0 <= k < 6 ==> f[k] != '*';
  }

  lemma NonRecursiveNormalize(f: string)
    requires f == "./src/*"
    ensures Normalize(f) == "src/*"
  {
    NonRecursiveSplit(f);
    assert NormSegs([], [".", "src", "*"], false) == ["src", "*"];
    assert Join(["src", "*"], Sep) == "src/*";
  }

  lemma NonRecursiveSplit(f: string)
    requires f == "./src/*"
    ensures Split(f, Sep) == [".", "src", "*"]
  {
    SplitNoSep("*", Sep);
    SplitSepAfter("src", Sep, "*");
    SplitSepAfter(".", Sep, "src/*");
    assert f == "." + [Sep] + ("src" + [Sep] + "*");
  }

  lemma NonRecursiveCollect(o: GlobOptions, matches: (string, string) -> bool)
    requires !o.isRecursive && matches("app.element.ts", o.pattern)
    requires matches("app.element.html", o.pattern) && matches("app.element.scss", o.pattern)
    ensures Collect(TestSrc, o, matches) == [["app.element.ts"], ["app.element.html"], ["app.element.scss"]]
  {
    assert TestSrc[3..] == [TestSrc[3]];
    assert Collect(TestSrc[3..], o, matches) == [];
    assert TestSrc[2..][1..] == TestSrc[3..];
    assert TestSrc[1..][1..] == TestSrc[2..];
  }

  // A recursive walk of the same entries also lists src/elements/index.ts,
  // after the three files of src, in entry order.
  lemma RecursiveCollect(o: GlobOptions, matches: (string, string) -> bool)
    requires o.isRecursive && forall n :: matches(n, o.pattern)
    ensures Collect(TestSrc, o, matches)
            == [["app.element.ts"], ["app.element.html"], ["app.element.scss"], ["elements", "index.ts"]]
  {
    var sub := [Entry("index.ts", File([]))];
    assert Collect(sub, o, matches) == [["index.ts"]] by {
      assert sub[1..] == [];
    }
    assert TestSrc[3..] == [TestSrc[3]];
    assert Collect(TestSrc[3..], o, matches) == [["elements", "index.ts"]] by {
      assert TestSrc[3..][1..] == [];
      assert TestSrc[3].node.entries == sub;
      var u := Under("elements", [["index.ts"]]);
      assert |u| == 1 && u[0] == ["elements"] + ["index.ts"];
      assert ["elements"] + ["index.ts"] == ["elements", "index.ts"];
      assert u == [["elements", "index.ts"]];
    }
    assert TestSrc[2..][1..] == TestSrc[3..];
    assert TestSrc[1..][1..] == TestSrc[2..];
  }

  lemma NonRecursiveBase(o: GlobOptions)
    requires o.dir == "./src/"
    ensures Base(["w"], o) == ["w", "src"]
  {
    BaseSplit(o.dir);
    assert !IsAbsolute(o.dir);
    assert Resolve(["w"], [".", "src", ""]) == ["w", "src"];
  }

  lemma BaseSplit(d: string)
    requires d == "./src/"
    ensures Split(d, Sep) == [".", "src", ""]
  {
    var t := "src" + [Sep] + "";
    assert t == "src/";
    SplitNoSep("", Sep);
    SplitSepAfter("src", Sep, "");
    assert d == "." + [Sep] + t;
    SplitSepAfter(".", Sep, t);
  }

  lemma NonRecursiveWalk(root: Node, o: GlobOptions, matches: (string, string) -> bool)
    requires o.dir == "./src/" && !o.isRecursive && o.pattern == "*"
    requires Stat(root, ["w", "src"]) == Ok(Dir(TestSrc))
    requires forall n :: matches(n, "*")
    ensures Walk(root, ["w"], o, matches).Ok?
    ensures |Walk(root, ["w"], o, matches).value| == 3
  {
    NonRecursiveBase(o);
    assert Stat(root, Base(["w"], o)) == Ok(Dir(TestSrc));
    NonRecursiveCollect(o, matches);
    assert Walk(root, ["w"], o, matches).value == EmitAll(["w"], o, Collect(TestSrc, o, matches));
  }

  // In a tree whose /w/src holds the test entries, "./src/*" (every name
  // matches "*") lists the three files of src and does not descend into
  // src/elements.
  lemma NonRecursiveExample(root: Node, f: string, matches: (string, string) -> bool)
    requires f == "./src/*"
    requires Stat(root, ["w", "src"]) == Ok(Dir(TestSrc))
    requires forall n :: matches(n, "*")
    ensures GlobFiles(root, ["w"], One(f), false, matches).Ok?
    ensures |GlobFiles(root, ["w"], One(f), false, matches).value| == 3
  {
    NonRecursiveOptions(f);
    NonRecursiveWalk(root, CreateOptions(f, false), matches);
    var rs := Walks(root, ["w"], [f], false, matches);
    assert TotalLength(rs) == 3 by {
      assert rs[1..] == [];
    }
  }
}
