/** `mkdirp(directory)` (src/mkdrip.ts; the same code is src/file.ts
    `mkdirp`): resolve the directory, drop one trailing separator, split it at
    the separator, and for each prefix of the pieces, shortest first, create
    the directory when `existsSync` says it is missing. */
module Mkdirp {
  import opened Wrappers
  import opened Strings
  import opened Paths
  import opened Tree
  import opened Primitives

  /** The tree afterwards, and the paths handed to `mkdirSync`, in call order. */
  datatype Made = Made(root: Node, made: seq<Path>)

  /** `s.replace(/\/$/, '')`. */
  function DropTrailingSep(s: string): (r: string)
    ensures |s| > 0 && s[|s| - 1] == Sep ==> r + [Sep] == s
    ensures !(|s| > 0 && s[|s| - 1] == Sep) ==> r == s
  {
    if |s| > 0 && s[|s| - 1] == Sep then s[..|s| - 1] else s
  }

  /** `resolve(directory).replace(/\/$/, '').split(sep)`. */
  function DirParts(cwd: Path, directory: string): seq<string> {
    Split(DropTrailingSep(AbsString(ResolveString(cwd, directory))), Sep)
  }

  /** The loop `for (i = 1; i <= dirPath.length; i++)`. */
  function MkdirpLoop(root: Node, cwd: Path, parts: seq<string>, i: nat): Result<Made>
    requires 1 <= i <= |parts| + 1
    decreases |parts| + 1 - i
  {
    if i > |parts| then Ok(Made(root, []))
    else
      var segment := Join(parts[..i], Sep);
      if !Exists(root, ResolveString(cwd, segment)) && |segment| > 0 then
        match Mkdir(root, ResolveString(cwd, segment))
        case Err(e) => Err(e)
        case Ok(next) =>
          match MkdirpLoop(next, cwd, parts, i + 1)
          case Err(e) => Err(e)
          case Ok(m) => Ok(Made(m.root, [ResolveString(cwd, segment)] + m.made))
      else MkdirpLoop(root, cwd, parts, i + 1)
  }

  // ---------------------------------------------------------------------------
  // Reference definitions

  /** The prefixes `t[..k]` for `k` from `from` to `|t|`, shortest first. */
  function Prefixes(t: Path, from: nat): (ps: seq<Path>)
    requires 1 <= from <= |t| + 1
    ensures |ps| == |t| + 1 - from
    ensures forall i :: 0 <= i < |ps| ==> ps[i] == t[..from + i]
    decreases |t| + 1 - from
  {
    if from > |t| then [] else [t[..from]] + Prefixes(t, from + 1)
  }

  /** The non-empty prefixes `t[..k]`, `k >= from`, that do not exist in `root`,
      shortest first. */
  function Missing(root: Node, t: Path, from: nat): (ms: seq<Path>)
    requires 1 <= from <= |t| + 1
    decreases |t| + 1 - from
  {
    if from > |t| then []
    else (if Exists(root, t[..from]) then [] else [t[..from]]) + Missing(root, t, from + 1)
  }

  /** Each listed prefix is a missing prefix of `t` of length at least `from`. */
  lemma {:induction false} MissingShape(root: Node, t: Path, from: nat)
    requires 1 <= from <= |t| + 1
    ensures forall i :: 0 <= i < |Missing(root, t, from)| ==>
      var m := Missing(root, t, from)[i]; from <= |m| <= |t| && m == t[..|m|] && !Exists(root, m)
    decreases |t| + 1 - from
  {
    if from <= |t| {
      MissingShape(root, t, from + 1);
      var rest := Missing(root, t, from + 1);
      var ms := Missing(root, t, from);
      if !Exists(root, t[..from]) {
        assert ms == [t[..from]] + rest;
        forall i | 1 <= i < |ms|
          ensures ms[i] == rest[i - 1]
        {
        }
      }
    }
  }

  /** The listed prefixes are ordered by length, shortest first. */
  lemma {:induction false} MissingOrdered(root: Node, t: Path, from: nat)
    requires 1 <= from <= |t| + 1
    ensures forall i, j :: 0 <= i < j < |Missing(root, t, from)| ==>
      |Missing(root, t, from)[i]| < |Missing(root, t, from)[j]|
    decreases |t| + 1 - from
  {
    if from <= |t| {
      MissingOrdered(root, t, from + 1);
      MissingShape(root, t, from + 1);
      var rest := Missing(root, t, from + 1);
      var ms := Missing(root, t, from);
      if !Exists(root, t[..from]) {
        assert ms == [t[..from]] + rest;
        forall i, j | 0 <= i < j < |ms| ensures |ms[i]| < |ms[j]| {
          assert ms[j] == rest[j - 1];
          if i > 0 {
            assert ms[i] == rest[i - 1];
          }
        }
      }
    }
  }

  /** A prefix is listed exactly when it is missing. */
  lemma {:induction false} MissingIff(root: Node, t: Path, from: nat, k: nat)
    requires 1 <= from <= k <= |t|
    ensures t[..k] in Missing(root, t, from) <==> !Exists(root, t[..k])
    decreases |t| + 1 - from
  {
    MissingShape(root, t, from + 1);
    if from < k {
      MissingIff(root, t, from + 1, k);
      assert |t[..from]| != |t[..k]|;
    }
  }

  lemma {:induction false} MissingAll(root: Node, t: Path, from: nat)
    requires 1 <= from <= |t| + 1
    requires forall j :: from <= j <= |t| ==> !Exists(root, t[..j])
    ensures Missing(root, t, from) == Prefixes(t, from)
    decreases |t| + 1 - from
  {
    if from <= |t| {
      MissingAll(root, t, from + 1);
    }
  }

  /** The first `mkdir` succeeds exactly when the first missing prefix is
      absent even to `lstat` and its parent is a directory; every later one
      goes into the directory just made. */
  predicate FirstCreatable(root: Node, ms: seq<Path>) {
    |ms| == 0 ||
      (|ms[0]| >= 1 && LStat(root, ms[0]).Err?
       && LStat(root, Parent(ms[0])).Ok? && LStat(root, Parent(ms[0])).value.Dir?)
  }

  // ---------------------------------------------------------------------------
  // The loop against the reference

  /** The piece list is the empty piece before the root, then the names. */
  lemma DirPartsSegments(cwd: Path, directory: string)
    requires ValidPath(cwd)
    ensures DirParts(cwd, directory) == [""] + ResolveString(cwd, directory)
  {
    var t := ResolveString(cwd, directory);
    ResolveStringValid(cwd, directory);
    if |t| == 0 {
      RootParts();
    } else {
      PathParts(t);
    }
  }

  lemma RootParts()
    ensures Split(DropTrailingSep(AbsString([])), Sep) == [""]
  {
    assert AbsString([]) == [Sep];
    assert DropTrailingSep([Sep]) == "";
  }

  lemma PathParts(t: Path)
    requires ValidPath(t) && |t| >= 1
    ensures Split(DropTrailingSep(AbsString(t)), Sep) == [""] + t
  {
    var s := AbsString(t);
    JoinNonEmpty(t);
    assert s[|s| - 1] != Sep;
    assert DropTrailingSep(s) == s;
    assert s == "" + [Sep] + Join(t, Sep);
    SplitSepAfter("", Sep, Join(t, Sep));
    SplitJoin(t, Sep);
  }

  /** Piece prefix `i` names the path prefix `t[..i-1]`; the first one is empty. */
  lemma SegmentOf(t: Path, i: nat)
    requires 1 <= i <= |t| + 1
    ensures i == 1 ==> Join(([""] + t)[..i], Sep) == ""
    ensures i >= 2 ==> Join(([""] + t)[..i], Sep) == AbsString(t[..i - 1])
  {
    var ps := ([""] + t)[..i];
    if i >= 2 {
      assert ps[1..] == t[..i - 1];
    } else {
      assert ps == [""];
    }
  }

  /** Piece `i >= 2` resolves to the path prefix `t[..i-1]`. */
  lemma SegmentResolves(cwd: Path, t: Path, i: nat)
    requires ValidPath(t) && 2 <= i <= |t| + 1
    ensures ResolveString(cwd, Join(([""] + t)[..i], Sep)) == t[..i - 1]
    ensures |Join(([""] + t)[..i], Sep)| > 0
  {
    SegmentOf(t, i);
    AbsStringRoundTrip(cwd, t[..i - 1]);
  }

  /** One turn of the loop (piece `k + 1`) at an existing prefix `t[..k]`:
      nothing happens. */
  lemma LoopSkip(root: Node, cwd: Path, t: Path, k: nat)
    requires ValidPath(t) && 1 <= k <= |t|
    requires Exists(root, t[..k])
    ensures MkdirpLoop(root, cwd, [""] + t, k + 1) == MkdirpLoop(root, cwd, [""] + t, k + 1 + 1)
  {
    SegmentResolves(cwd, t, k + 1);
  }

  /** One turn of the loop at a missing prefix `t[..k]`: it is made, then the
      rest runs; a failing `mkdirSync` ends the loop with its error. */
  lemma LoopMake(root: Node, cwd: Path, t: Path, k: nat)
    requires ValidPath(t) && 1 <= k <= |t|
    requires !Exists(root, t[..k])
    ensures Mkdir(root, t[..k]).Err? ==>
      MkdirpLoop(root, cwd, [""] + t, k + 1) == Err(Mkdir(root, t[..k]).error)
    ensures Mkdir(root, t[..k]).Ok? ==>
      var rest := MkdirpLoop(Mkdir(root, t[..k]).value, cwd, [""] + t, k + 1 + 1);
      MkdirpLoop(root, cwd, [""] + t, k + 1) ==
        if rest.Ok? then Ok(Made(rest.value.root, [t[..k]] + rest.value.made)) else rest
  {
    SegmentResolves(cwd, t, k + 1);
  }

  /** Reference: `mkdirSync` each path of `ms` in turn, stopping at the first
      failure. On success the calls are exactly `ms`. */
  function MakeAll(root: Node, ms: seq<Path>): (r: Result<Made>)
    ensures r.Ok? ==> r.value.made == ms
    decreases |ms|
  {
    if |ms| == 0 then Ok(Made(root, []))
    else match Mkdir(root, ms[0])
      case Err(e) => Err(e)
      case Ok(next) =>
        match MakeAll(next, ms[1..])
        case Err(e) => Err(e)
        case Ok(m) => Ok(Made(m.root, [ms[0]] + m.made))
  }

  /** From piece `k + 1` on, the loop makes the missing prefixes of length at
      least `k`, shortest first, and nothing else. */
  lemma {:induction false} LoopSpec(root: Node, cwd: Path, t: Path, k: nat)
    requires ValidPath(t) && 1 <= k <= |t| + 1
    ensures MkdirpLoop(root, cwd, [""] + t, k + 1) == MakeAll(root, Missing(root, t, k))
    decreases |t| + 1 - k, 1
  {
    if k == |t| + 1 {
      assert Missing(root, t, |t| + 1) == [];
    } else if Exists(root, t[..k]) {
      LoopSkipSpec(root, cwd, t, k);
    } else {
      LoopMakeSpec(root, cwd, t, k);
    }
  }

  /** The induction step of `LoopSpec` at an existing prefix. */
  lemma {:induction false} LoopSkipSpec(root: Node, cwd: Path, t: Path, k: nat)
    requires ValidPath(t) && 1 <= k <= |t|
    requires Exists(root, t[..k])
    ensures MkdirpLoop(root, cwd, [""] + t, k + 1) == MakeAll(root, Missing(root, t, k))
    decreases |t| + 1 - k, 0
  {
    LoopSkip(root, cwd, t, k);
    LoopSpec(root, cwd, t, k + 1);
    MissingSkip(root, t, k);
  }

  /** An existing prefix is not missing. */
  lemma MissingSkip(root: Node, t: Path, k: nat)
    requires 1 <= k <= |t| && Exists(root, t[..k])
    ensures Missing(root, t, k) == Missing(root, t, k + 1)
  {
    assert Missing(root, t, k) == [] + Missing(root, t, k + 1);
  }

  /** The induction step of `LoopSpec` at a missing prefix. */
  lemma {:induction false} LoopMakeSpec(root: Node, cwd: Path, t: Path, k: nat)
    requires ValidPath(t) && 1 <= k <= |t|
    requires !Exists(root, t[..k])
    ensures MkdirpLoop(root, cwd, [""] + t, k + 1) == MakeAll(root, Missing(root, t, k))
    decreases |t| + 1 - k, 0
  {
    var p := t[..k];
    LoopMake(root, cwd, t, k);
    var ms := Missing(root, t, k + 1);
    assert Missing(root, t, k) == [p] + ms;
    MakeAllCons(root, p, ms);
    match Mkdir(root, p)
    case Err(_) =>
    case Ok(next) =>
      MkdirStep(root, next, t, k);
      LoopSpec(next, cwd, t, k + 1);
  }

  /** One step of the reference. */
  lemma MakeAllCons(root: Node, p: Path, ms: seq<Path>)
    ensures Mkdir(root, p).Err? ==> MakeAll(root, [p] + ms) == Err(Mkdir(root, p).error)
    ensures Mkdir(root, p).Ok? ==>
      var rest := MakeAll(Mkdir(root, p).value, ms);
      MakeAll(root, [p] + ms) == if rest.Ok? then Ok(Made(rest.value.root, [p] + rest.value.made)) else rest
  {
    assert ([p] + ms)[0] == p && ([p] + ms)[1..] == ms;
  }

  /** The first piece is empty and skipped, so the whole loop makes every
      missing non-empty prefix. */
  lemma LoopFirstSpec(root: Node, cwd: Path, t: Path)
    requires ValidPath(t)
    ensures MkdirpLoop(root, cwd, [""] + t, 1) == MakeAll(root, Missing(root, t, 1))
  {
    LoopSpec(root, cwd, t, 1);
    SegmentOf(t, 1);
    assert MkdirpLoop(root, cwd, [""] + t, 1) == MkdirpLoop(root, cwd, [""] + t, 1 + 1);
  }

  /** After making `t[..k]`, the longer missing prefixes are the same as before. */
  lemma MkdirStep(root: Node, next: Node, t: Path, k: nat)
    requires ValidPath(t) && 1 <= k <= |t|
    requires Mkdir(root, t[..k]) == Ok(next)
    ensures Missing(next, t, k + 1) == Missing(root, t, k + 1)
  {
    var p := t[..k];
    assert LStat(root, p).Err?;
    MkdirEffect(root, p);
    forall j | k + 1 <= j <= |t| ensures !Exists(root, t[..j]) && !Exists(next, t[..j]) {
      assert p < t[..j];
      BelowMissing(root, p, t[..j]);
      assert At(next, t[..j]) == At(root, t[..j]);
      NoEntryNotExists(root, t[..j]);
      NoEntryNotExists(next, t[..j]);
    }
    MissingAll(root, t, k + 1);
    MissingAll(next, t, k + 1);
  }

  // ---------------------------------------------------------------------------
  // The reference against the tree

  /** The outcome `r` of making `ms` in `root`: it succeeds exactly when the
      first can be made, it makes exactly those, each becomes a directory,
      nothing else changes, and well-formedness is kept. */
  ghost predicate LoopMeets(root: Node, r: Result<Made>, ms: seq<Path>) {
    && (r.Ok? <==> FirstCreatable(root, ms))
    && (r.Ok? ==> r.value.made == ms && MadeDirs(root, r.value.root, ms))
  }

  /** `after` is `root` with exactly the (absent) paths `ms` made into
      directories, and is well-formed when `root` is. */
  ghost predicate MadeDirs(root: Node, after: Node, ms: seq<Path>) {
    && (forall q :: At(after, q) == if q in ms then Some(IsDir) else At(root, q))
    && (forall m :: m in ms ==> At(root, m) == None)
    && (WF(root) ==> WF(after))
  }

  /** `ms` are nested paths, each one name longer than and inside the one
      before, and all but the first are absent even to `lstat`. */
  ghost predicate Chain(root: Node, ms: seq<Path>) {
    && (forall k :: 0 <= k < |ms| ==> |ms[k]| >= 1 && ValidPath(ms[k]) && |ms[k]| == |ms[0]| + k)
    && (forall k {:trigger Parent(ms[k])} :: 1 <= k < |ms| ==> Parent(ms[k]) == ms[k - 1])
    && (forall k :: 1 <= k < |ms| ==> At(root, ms[k]) == None)
  }

  /** Making a chain: it succeeds exactly when the first can be made, and then
      exactly the chain becomes directories. */
  lemma {:induction false} MakeAllMeets(root: Node, ms: seq<Path>)
    requires Chain(root, ms)
    ensures LoopMeets(root, MakeAll(root, ms), ms)
    decreases |ms|
  {
    if |ms| > 0 {
      match Mkdir(root, ms[0])
      case Err(_) =>
      case Ok(next) =>
        var rest := ms[1..];
        ChainRest(root, next, ms);
        MakeAllMeets(next, rest);
        MakeThenRest(root, next, ms[0], MakeAll(next, rest), rest);
        assert [ms[0]] + rest == ms;
    }
  }

  /** After making the head of a chain, the rest is a chain that can be
      started, all absent before. */
  lemma ChainRest(root: Node, next: Node, ms: seq<Path>)
    requires Chain(root, ms) && |ms| >= 1 && Mkdir(root, ms[0]) == Ok(next)
    ensures Chain(next, ms[1..]) && FirstCreatable(next, ms[1..])
    ensures forall m :: m in ms[1..] ==> At(root, m) == None
  {
    var rest := ms[1..];
    MkdirEffect(root, ms[0]);
    forall k | 0 <= k < |rest|
      ensures rest[k] == ms[k + 1] && At(root, rest[k]) == None && At(next, rest[k]) == None
    {
      assert |ms[k + 1]| != |ms[0]|;
    }
    if |rest| > 0 {
      assert Parent(rest[0]) == ms[0];
      assert At(next, ms[0]) == Some(IsDir);
    }
  }

  /** Once a prefix of `t` does not exist, no longer prefix exists even for
      `lstat`. */
  lemma AbsentBelow(root: Node, t: Path, k: nat, j: nat)
    requires 1 <= k < j <= |t| && !Exists(root, t[..k])
    ensures At(root, t[..j]) == None
  {
    var r := t[k..j];
    assert t[..k] + r == t[..j];
    LStatAppend(root, t[..k], r);
    match LStat(root, t[..k]) {
      case Err(_) =>
      case Ok(n) =>
        assert n.Link?;
        assert LStat(n, r).Err?;
    }
  }

  /** The first `k >= from` whose prefix `t[..k]` does not exist, or `|t| + 1`. */
  function FirstMissing(root: Node, t: Path, from: nat): (f: nat)
    requires 1 <= from <= |t| + 1
    ensures from <= f <= |t| + 1
    ensures forall j :: from <= j < f ==> Exists(root, t[..j])
    ensures f <= |t| ==> !Exists(root, t[..f])
    decreases |t| + 1 - from
  {
    if from > |t| || !Exists(root, t[..from]) then from else FirstMissing(root, t, from + 1)
  }

  /** Prefixes that exist are skipped. */
  lemma {:induction false} MissingSkipTo(root: Node, t: Path, from: nat, f: nat)
    requires 1 <= from <= f <= |t| + 1
    requires forall j :: from <= j < f ==> Exists(root, t[..j])
    ensures Missing(root, t, from) == Missing(root, t, f)
    decreases f - from
  {
    if from < f {
      MissingSkip(root, t, from);
      MissingSkipTo(root, t, from + 1, f);
    }
  }

  /** The missing prefixes of `t` form a chain. */
  lemma MissingChain(root: Node, t: Path, from: nat)
    requires ValidPath(t) && 1 <= from <= |t| + 1
    ensures Chain(root, Missing(root, t, from))
  {
    var f := FirstMissing(root, t, from);
    MissingSkipTo(root, t, from, f);
    if f <= |t| {
      MissingChainStart(root, t, f);
    }
    SameChain(root, Missing(root, t, f), Missing(root, t, from));
  }

  lemma MissingChainStart(root: Node, t: Path, from: nat)
    requires ValidPath(t) && 1 <= from <= |t| && !Exists(root, t[..from])
    ensures Chain(root, Missing(root, t, from))
  {
    MissingFromAbsent(root, t, from);
    PrefixesChain(root, t, from);
    SameChain(root, Prefixes(t, from), Missing(root, t, from));
  }

  lemma SameChain(root: Node, ms1: seq<Path>, ms2: seq<Path>)
    requires ms1 == ms2 && Chain(root, ms1)
    ensures Chain(root, ms2)
  {
  }

  /** From the first missing prefix on, every prefix is missing. */
  lemma MissingFromAbsent(root: Node, t: Path, from: nat)
    requires ValidPath(t) && 1 <= from <= |t| && !Exists(root, t[..from])
    ensures Missing(root, t, from) == Prefixes(t, from)
    ensures forall j :: from < j <= |t| ==> At(root, t[..j]) == None
  {
    forall j | from < j <= |t| ensures !Exists(root, t[..j]) && At(root, t[..j]) == None {
      AbsentBelow(root, t, from, j);
      NoEntryNotExists(root, t[..j]);
    }
    MissingAll(root, t, from);
  }

  /** The prefixes from a missing one on form a chain. */
  lemma PrefixesChain(root: Node, t: Path, from: nat)
    requires ValidPath(t) && 1 <= from <= |t|
    requires forall j :: from < j <= |t| ==> At(root, t[..j]) == None
    ensures Chain(root, Prefixes(t, from))
  {
    var ps := Prefixes(t, from);
    forall k | 0 <= k < |ps|
      ensures |ps[k]| >= 1 && ValidPath(ps[k]) && |ps[k]| == |ps[0]| + k
    {
      assert forall x :: 0 <= x < |ps[k]| ==> ps[k][x] == t[x];
    }
    forall k | 1 <= k < |ps| ensures Parent(ps[k]) == ps[k - 1] && At(root, ps[k]) == None {
      assert ps[k] == t[..from + k];
    }
  }

  /** Making `p` and then meeting `ms` meets `[p] + ms`. */
  lemma MakeThenRest(root: Node, next: Node, p: Path, rest: Result<Made>, ms: seq<Path>)
    requires ValidPath(p) && Mkdir(root, p) == Ok(next)
    requires LoopMeets(next, rest, ms) && FirstCreatable(next, ms)
    requires forall m :: m in ms ==> At(root, m) == None
    ensures rest.Ok?
    ensures LoopMeets(root, Ok(Made(rest.value.root, [p] + rest.value.made)), [p] + ms)
  {
    assert At(root, p) == None;
    MkdirEffect(root, p);
    var r := rest.value.root;
    forall q ensures At(r, q) == if q in [p] + ms then Some(IsDir) else At(root, q) {
      assert At(r, q) == if q in ms then Some(IsDir) else At(next, q);
    }
  }

  /** `mkdirp(directory)` in the working directory `cwd`. On success the
      `mkdirSync` calls are exactly the missing non-empty prefixes of the
      resolved path, shortest first; only they change (each becomes a new
      directory), and afterwards every non-empty prefix exists. */
  function Mkdirp(root: Node, cwd: Path, directory: string): (r: Result<Made>)
    requires ValidPath(cwd)
    ensures var t := ResolveString(cwd, directory);
      && (r.Ok? <==> FirstCreatable(root, Missing(root, t, 1)))
      && (r.Ok? ==> r.value.made == Missing(root, t, 1))
      && (r.Ok? ==> forall q :: At(r.value.root, q) == if q in r.value.made then Some(IsDir) else At(root, q))
      && (r.Ok? ==> Grows(root, r.value.root))
      && (r.Ok? ==> forall k :: 1 <= k <= |t| ==> Exists(r.value.root, t[..k]))
      && (r.Ok? && WF(root) ==> WF(r.value.root))
  {
    var t := ResolveString(cwd, directory);
    DirPartsSegments(cwd, directory);
    ResolveStringValid(cwd, directory);
    LoopFirstSpec(root, cwd, t);
    MissingChain(root, t, 1);
    MakeAllMeets(root, Missing(root, t, 1));
    var r := MkdirpLoop(root, cwd, DirParts(cwd, directory), 1);
    if r.Ok? then
      var after := r.value.root;
      assert Grows(root, after) by {
        forall q | At(root, q).Some? ensures At(after, q) == At(root, q) {
          assert q !in r.value.made;
        }
      }
      forall k | 1 <= k <= |t| ensures Exists(after, t[..k]) {
        MissingIff(root, t, 1, k);
        if t[..k] in r.value.made {
          DirExists(after, t[..k]);
        } else {
          StatFuelGrows(root, after, t[..k], MaxSymlinkHops);
        }
      }
      r
    else r
  }

  /** The directory itself exists afterwards. */
  lemma MkdirpTarget(root: Node, cwd: Path, directory: string)
    requires ValidPath(cwd) && Mkdirp(root, cwd, directory).Ok?
    requires |ResolveString(cwd, directory)| >= 1
    ensures Exists(Mkdirp(root, cwd, directory).value.root, ResolveString(cwd, directory))
  {
    var t := ResolveString(cwd, directory);
    assert t[..|t|] == t;
  }

  /** Every entry afterwards is either as before or a new directory. */
  lemma MkdirpOnlyDirs(root: Node, cwd: Path, directory: string)
    requires ValidPath(cwd) && Mkdirp(root, cwd, directory).Ok?
    ensures var after := Mkdirp(root, cwd, directory).value.root;
      Grows(root, after) && forall q :: At(after, q) == At(root, q) || At(after, q) == Some(IsDir)
  {
  }

  /** When the directory is already there, every prefix exists, so `mkdirp`
      makes no `mkdirSync` call and changes nothing. */
  lemma MkdirpExisting(root: Node, cwd: Path, directory: string)
    requires ValidPath(cwd)
    requires At(root, ResolveString(cwd, directory)) == Some(IsDir)
    ensures Mkdirp(root, cwd, directory).Ok?
    ensures Mkdirp(root, cwd, directory).value.made == []
    ensures forall q :: At(Mkdirp(root, cwd, directory).value.root, q) == At(root, q)
  {
    NoneMissing(root, ResolveString(cwd, directory));
  }

  /** No prefix of an existing directory is missing. */
  lemma NoneMissing(root: Node, t: Path)
    requires At(root, t) == Some(IsDir)
    ensures Missing(root, t, 1) == []
  {
    MissingShape(root, t, 1);
    var ms := Missing(root, t, 1);
    if |ms| > 0 {
      var m := ms[0];
      if |m| == |t| {
        assert m == t;
        DirExists(root, t);
      } else {
        AncestorIsDir(root, t, |m|);
        assert LStat(root, m).Ok?;
      }
      assert false;
    }
  }

  /** A second `mkdirp` of the same directory makes no `mkdirSync` call and
      changes nothing. */
  lemma MkdirpIdempotent(root: Node, cwd: Path, directory: string)
    requires ValidPath(cwd)
    requires Mkdirp(root, cwd, directory).Ok?
    ensures Mkdirp(Mkdirp(root, cwd, directory).value.root, cwd, directory).Ok?
    ensures Mkdirp(Mkdirp(root, cwd, directory).value.root, cwd, directory).value.made == []
    ensures forall q :: At(Mkdirp(Mkdirp(root, cwd, directory).value.root, cwd, directory).value.root, q)
                        == At(Mkdirp(root, cwd, directory).value.root, q)
  {
    MissingShape(Mkdirp(root, cwd, directory).value.root, ResolveString(cwd, directory), 1);
  }

  /** When every non-empty prefix of the working directory exists and
      `cwd/.tmp` does not, `mkdirp(".tmp/elements/input")` calls `mkdirSync`
      three times. */
  lemma ThreeLevelsExample(root: Node, cwd: Path, directory: string)
    requires directory == ".tmp/elements/input"
    requires ValidPath(cwd) && |cwd| >= 1
    requires forall k :: 1 <= k <= |cwd| ==> Exists(root, cwd[..k])
    requires !Exists(root, cwd + [".tmp"])
    ensures ResolveString(cwd, directory) == cwd + [".tmp", "elements", "input"]
    ensures |Missing(root, ResolveString(cwd, directory), 1)| == 3
  {
    ThreeLevelsResolve(cwd, directory);
    var t := cwd + [".tmp", "elements", "input"];
    ThreeLevelsMissing(root, cwd, t);
    MissingCount(root, t, 1, |cwd|);
  }

  lemma ThreeLevelsResolve(cwd: Path, directory: string)
    requires directory == ".tmp/elements/input"
    requires ValidPath(cwd)
    ensures ResolveString(cwd, directory) == cwd + [".tmp", "elements", "input"]
  {
    var segs := [".tmp", "elements", "input"];
    assert Join(segs, Sep) == directory;
    RelativeStringResolves(cwd, segs);
  }

  lemma ThreeLevelsMissing(root: Node, cwd: Path, t: Path)
    requires t == cwd + [".tmp", "elements", "input"]
    requires forall k :: 1 <= k <= |cwd| ==> Exists(root, cwd[..k])
    requires !Exists(root, cwd + [".tmp"])
    ensures forall k :: 1 <= k <= |cwd| ==> Exists(root, t[..k])
    ensures forall k :: |cwd| < k <= |t| ==> !Exists(root, t[..k])
  {
    var n := |cwd|;
    var p := cwd + [".tmp"];
    assert t[..n + 1] == p;
    NotExistsBelow(root, p, ["elements"]);
    assert t[..n + 2] == p + ["elements"];
    NotExistsBelow(root, p, ["elements", "input"]);
    assert t[..n + 3] == p + ["elements", "input"];
    forall k | 1 <= k <= n ensures t[..k] == cwd[..k] { }
  }

  /** Below a path that does not exist nothing exists. */
  lemma NotExistsBelow(root: Node, p: Path, r: Path)
    requires !Exists(root, p) && |r| >= 1
    ensures !Exists(root, p + r)
  {
    LStatAppend(root, p, r);
    match LStat(root, p) {
      case Err(_) =>
      case Ok(n) =>
        assert n.Link?;
        assert LStat(n, r).Err?;
    }
  }

  /** Counting: the existing prefixes up to `n` contribute nothing, the rest
      one call each. */
  lemma {:induction false} MissingCount(root: Node, t: Path, from: nat, n: nat)
    requires 1 <= from <= n + 1 && n <= |t|
    requires forall k :: from <= k <= n ==> Exists(root, t[..k])
    requires forall k :: n < k <= |t| ==> !Exists(root, t[..k])
    ensures |Missing(root, t, from)| == |t| - n
    decreases |t| + 1 - from
  {
    if from <= n {
      MissingCount(root, t, from + 1, n);
    } else {
      MissingAll(root, t, from);
    }
  }
}
