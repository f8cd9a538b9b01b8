/** POSIX path strings as the library's `path` calls see them: `resolve`,
    `normalize`, `relative`, `basename`, `dirname`. A resolved path is a
    sequence of segment names from the root. */
module Paths {
  import opened Wrappers
  import opened Strings

  const Sep: char := '/'

  /** A resolved absolute path: the names of its segments, root first. */
  type Path = seq<string>

  /** A name a directory entry can have. */
  predicate ValidName(n: string) {
    |n| > 0 && n != "." && n != ".." && Sep !in n
  }

  predicate ValidPath(p: Path) {
    forall i :: 0 <= i < |p| ==> ValidName(p[i])
  }

  predicate IsAbsolute(s: string) {
    |s| > 0 && s[0] == Sep
  }

  /** The string form of a resolved path, as `path.resolve` prints it. */
  function AbsString(p: Path): string {
    [Sep] + Join(p, Sep)
  }

  /** One step of Node's segment normalisation: `""` and `"."` vanish, `".."`
      removes the previous segment (or is kept when a relative path climbs
      above its start; dropped at the root of an absolute path). */
  function NormStep(stack: seq<string>, s: string, abs: bool): seq<string> {
    if s == "" || s == "." then stack
    else if s == ".." then
      if |stack| > 0 && stack[|stack| - 1] != ".." then stack[..|stack| - 1]
      else if abs then stack
      else stack + [".."]
    else stack + [s]
  }

  function NormSegs(stack: seq<string>, segs: seq<string>, abs: bool): seq<string>
    decreases |segs|
  {
    if |segs| == 0 then stack
    else NormSegs(NormStep(stack, segs[0], abs), segs[1..], abs)
  }

  /** Resolving segments against an absolute base. */
  function Resolve(base: Path, segs: seq<string>): Path {
    NormSegs(base, segs, true)
  }

  /** `path.resolve(s)` with the working directory `cwd`. */
  function ResolveString(cwd: Path, s: string): Path {
    Resolve(if IsAbsolute(s) then [] else cwd, Split(s, Sep))
  }

  /** `path.normalize(s)` (POSIX): collapse separators, `.` and `..`, keep a
      leading separator and a trailing one, and give `.` for an empty result. */
  function Normalize(s: string): string {
    if |s| == 0 then "."
    else
      var abs := s[0] == Sep;
      var trailing := s[|s| - 1] == Sep;
      var body := Join(NormSegs([], Split(s, Sep), abs), Sep);
      var body1 := if body == "" && !abs then "." else body;
      var body2 := if body1 != "" && trailing then body1 + [Sep] else body1;
      if abs then [Sep] + body2 else body2
  }

  lemma {:induction false} NormSegsAppend(stack: seq<string>, a: seq<string>, b: seq<string>, abs: bool)
    ensures NormSegs(stack, a + b, abs) == NormSegs(NormSegs(stack, a, abs), b, abs)
    decreases |a|
  {
    if |a| > 0 {
      assert (a + b)[1..] == a[1..] + b;
      NormSegsAppend(NormStep(stack, a[0], abs), a[1..], b, abs);
    } else {
      assert a + b == b;
    }
  }

  /** Normalising valid names only appends them. */
  lemma {:induction false} NormSegsValid(stack: seq<string>, p: Path, abs: bool)
    requires ValidPath(p)
    ensures NormSegs(stack, p, abs) == stack + p
    decreases |p|
  {
    if |p| > 0 {
      NormSegsValid(stack + [p[0]], p[1..], abs);
      assert stack + [p[0]] + p[1..] == stack + p;
    }
  }

  /** `n` copies of `".."`. */
  function Ups(n: nat): (r: seq<string>)
    ensures |r| == n
    ensures forall i :: 0 <= i < n ==> r[i] == ".."
  {
    if n == 0 then [] else [".."] + Ups(n - 1)
  }

  /** Climbing `n` levels from a valid path drops its last `n` names. */
  lemma {:induction false} NormSegsUps(stack: Path, n: nat)
    requires ValidPath(stack)
    requires n <= |stack|
    ensures NormSegs(stack, Ups(n), true) == stack[..|stack| - n]
    decreases n
  {
    if n > 0 {
      assert Ups(n)[1..] == Ups(n - 1);
      NormSegsUps(stack[..|stack| - 1], n - 1);
      assert stack[..|stack| - 1][..|stack| - 1 - (n - 1)] == stack[..|stack| - n];
    }
  }

  /** Length of the longest common prefix of two paths. */
  function CommonPrefixLen(a: Path, b: Path): (k: nat)
    ensures k <= |a| && k <= |b|
    ensures a[..k] == b[..k]
    ensures k < |a| && k < |b| ==> a[k] != b[k]
  {
    if |a| == 0 || |b| == 0 || a[0] != b[0] then 0
    else
      var k := 1 + CommonPrefixLen(a[1..], b[1..]);
      assert a[..k] == [a[0]] + a[1..][..k - 1];
      assert b[..k] == [b[0]] + b[1..][..k - 1];
      k
  }

  /** `path.relative(from, to)` on resolved paths: climb out of `from` to the
      common ancestor, then descend to `to`. */
  function Relative(from: Path, to: Path): seq<string> {
    var k := CommonPrefixLen(from, to);
    Ups(|from| - k) + to[k..]
  }

  /** Resolving a relative path against the directory it was computed from
      gives back the target: `resolve(from, relative(from, to)) == to`. */
  lemma RelativeRoundTrip(from: Path, to: Path)
    requires ValidPath(from) && ValidPath(to)
    ensures Resolve(from, Relative(from, to)) == to
  {
    var k := CommonPrefixLen(from, to);
    NormSegsAppend(from, Ups(|from| - k), to[k..], true);
    NormSegsUps(from, |from| - k);
    NormSegsValid(from[..k], to[k..], true);
    assert from[..k] + to[k..] == to;
  }

  lemma JoinNonEmpty(p: Path)
    requires |p| >= 1 && ValidPath(p)
    ensures |Join(p, Sep)| > 0
    ensures Join(p, Sep)[0] == p[0][0]
    ensures Join(p, Sep)[|Join(p, Sep)| - 1] == p[|p| - 1][|p[|p| - 1]| - 1]
  {
    if |p| > 1 {
      assert Join(p, Sep) == p[0] + [Sep] + Join(p[1..], Sep);
      JoinAppend(p[..|p| - 1], p[|p| - 1], Sep);
      assert p[..|p| - 1] + [p[|p| - 1]] == p;
    }
  }

  /** The string form of a valid path resolves back to that path, whatever the
      working directory. */
  lemma AbsStringRoundTrip(cwd: Path, p: Path)
    requires ValidPath(p)
    ensures ResolveString(cwd, AbsString(p)) == p
  {
    var s := AbsString(p);
    if |p| == 0 {
      assert s == [Sep] && s[1..] == "";
      assert Split(s, Sep) == ["", ""];
      assert Resolve([], ["", ""]) == NormSegs([], [""], true);
    } else {
      SplitSepAfter("", Sep, Join(p, Sep));
      assert s == "" + [Sep] + Join(p, Sep);
      SplitJoin(p, Sep);
      assert Split(s, Sep) == [""] + p;
      NormSegsValid([], p, true);
    }
  }

  /** A relative glob written with valid names resolves to those names below
      the working directory. */
  lemma RelativeStringResolves(cwd: Path, p: Path)
    requires ValidPath(p) && |p| >= 1
    ensures ResolveString(cwd, Join(p, Sep)) == cwd + p
  {
    JoinNonEmpty(p);
    SplitJoin(p, Sep);
    NormSegsValid(cwd, p, true);
  }

  /** A relative path spelled with valid names only is already normal. */
  lemma NormalizeNormal(p: Path)
    requires ValidPath(p) && |p| >= 1
    ensures Normalize(Join(p, Sep)) == Join(p, Sep)
  {
    var s := Join(p, Sep);
    JoinNonEmpty(p);
    assert s[0] != Sep && s[|s| - 1] != Sep;
    SplitJoin(p, Sep);
    NormSegsValid([], p, false);
    assert NormSegs([], Split(s, Sep), false) == p;
  }

  /** Drop trailing separators. */
  function TrimTrailingSeps(s: string): (r: string)
    ensures |r| <= |s| && r == s[..|r|]
    ensures |r| == 0 || r[|r| - 1] != Sep
  {
    if |s| > 0 && s[|s| - 1] == Sep then TrimTrailingSeps(s[..|s| - 1]) else s
  }

  /** The text after the last separator. */
  function AfterLastSep(t: string): (r: string)
    ensures Sep !in r
    ensures |r| <= |t| && r == t[|t| - |r|..]
  {
    if |t| == 0 || t[|t| - 1] == Sep then ""
    else AfterLastSep(t[..|t| - 1]) + [t[|t| - 1]]
  }

  /** `path.basename(s)` (POSIX, no extension argument). */
  function Basename(s: string): string {
    AfterLastSep(TrimTrailingSeps(s))
  }

  lemma {:induction false} AfterLastSepOf(x: string, n: string)
    requires Sep !in n
    ensures AfterLastSep(x + [Sep] + n) == n
    decreases |n|
  {
    if |n| > 0 {
      var t := x + [Sep] + n;
      assert t[..|t| - 1] == x + [Sep] + n[..|n| - 1];
      AfterLastSepOf(x, n[..|n| - 1]);
      assert n[..|n| - 1] + [n[|n| - 1]] == n;
    }
  }

  lemma {:induction false} AfterLastSepNoSep(n: string)
    requires Sep !in n
    ensures AfterLastSep(n) == n
    decreases |n|
  {
    if |n| > 0 {
      AfterLastSepNoSep(n[..|n| - 1]);
      assert n[..|n| - 1] + [n[|n| - 1]] == n;
    }
  }

  lemma BasenameOf(x: string, n: string)
    requires |n| > 0 && Sep !in n
    ensures Basename(x + [Sep] + n) == n
  {
    var s := x + [Sep] + n;
    assert s[|s| - 1] == n[|n| - 1];
    assert TrimTrailingSeps(s) == s;
    AfterLastSepOf(x, n);
  }

  lemma BasenameNoSep(n: string)
    requires |n| > 0 && Sep !in n
    ensures Basename(n) == n
  {
    assert n[|n| - 1] in n;
    assert TrimTrailingSeps(n) == n;
    AfterLastSepNoSep(n);
  }

  /** The basename of a joined path is its last segment. */
  lemma BasenameJoin(p: Path)
    requires ValidPath(p) && |p| >= 1
    ensures Basename(Join(p, Sep)) == p[|p| - 1]
  {
    assert ValidName(p[|p| - 1]);
    if |p| == 1 {
      JoinOne(p);
    } else {
      JoinLast(p);
    }
  }

  lemma JoinLast(p: Path)
    requires |p| >= 2 && |p[|p| - 1]| > 0 && Sep !in p[|p| - 1]
    ensures Basename(Join(p, Sep)) == p[|p| - 1]
  {
    var init := p[..|p| - 1];
    var last := p[|p| - 1];
    assert init + [last] == p;
    JoinAppend(init, last, Sep);
    BasenameOf(Join(init, Sep), last);
  }

  lemma JoinOne(p: Path)
    requires |p| == 1 && |p[0]| > 0 && Sep !in p[0]
    ensures Basename(Join(p, Sep)) == p[0]
  {
    assert Join(p, Sep) == p[0];
    BasenameNoSep(p[0]);
  }

  /** The basename of a resolved path string is its last segment. */
  lemma BasenameAbs(p: Path)
    requires ValidPath(p) && |p| >= 1
    ensures Basename(AbsString(p)) == p[|p| - 1]
  {
    var last := p[|p| - 1];
    if |p| == 1 {
      assert AbsString(p) == "" + [Sep] + last;
      BasenameOf("", last);
    } else {
      JoinAppend(p[..|p| - 1], last, Sep);
      assert p[..|p| - 1] + [last] == p;
      assert AbsString(p) == [Sep] + Join(p[..|p| - 1], Sep) + [Sep] + last;
      BasenameOf([Sep] + Join(p[..|p| - 1], Sep), last);
    }
  }

  /** Node's `dirname` scan: from index `i` down to 1, skip the trailing
      separators, then the last name, and stop at the separator before it. */
  function DirEnd(s: string, i: int, matchedSlash: bool): (r: Option<nat>)
    requires i < |s|
    ensures r.Some? ==> 1 <= r.value <= i && s[r.value] == Sep
    decreases i
  {
    if i < 1 then None
    else if s[i] == Sep then
      if !matchedSlash then Some(i) else DirEnd(s, i - 1, matchedSlash)
    else DirEnd(s, i - 1, false)
  }

  /** `path.dirname(s)` (POSIX). */
  function Dirname(s: string): string {
    if |s| == 0 then "."
    else
      var hasRoot := s[0] == Sep;
      match DirEnd(s, |s| - 1, true)
      case None => if hasRoot then [Sep] else "."
      case Some(e) => if hasRoot && e == 1 then [Sep, Sep] else s[..e]
  }

  lemma {:induction false} DirEndFinds(s: string, i: int, e: nat, m: bool)
    requires 1 <= e < |s| && e <= i < |s| && s[e] == Sep
    requires forall j :: e < j <= i ==> s[j] != Sep
    requires !m || e < i
    ensures DirEnd(s, i, m) == Some(e)
    decreases i
  {
    if i > e {
      DirEndFinds(s, i - 1, e, false);
    }
  }

  lemma {:induction false} DirEndNone(s: string, i: int, m: bool)
    requires i < |s|
    requires forall j :: 1 <= j <= i ==> s[j] != Sep
    ensures DirEnd(s, i, m) == None
    decreases i
  {
    if i >= 1 {
      DirEndNone(s, i - 1, false);
    }
  }

  /** The directory part of a resolved file path is its parent. */
  lemma DirnameAbs(p: Path, n: string)
    requires ValidPath(p) && ValidName(n)
    ensures Dirname(AbsString(p + [n])) == AbsString(p)
  {
    if |p| == 0 {
      var s := AbsString(p + [n]);
      assert s == [Sep] + n;
      DirEndNone(s, |s| - 1, true);
    } else {
      JoinAppend(p, n, Sep);
      JoinNonEmpty(p);
      var a := [Sep] + Join(p, Sep);
      assert AbsString(p + [n]) == a + [Sep] + n;
      DirnameOf(a, n);
    }
  }

  lemma DirnameOf(a: string, n: string)
    requires |a| >= 2 && a[0] == Sep && |n| > 0 && Sep !in n
    ensures Dirname(a + [Sep] + n) == a
  {
    var s := a + [Sep] + n;
    forall j | |a| < j <= |s| - 1 ensures s[j] != Sep {
      assert s[j] == n[j - |a| - 1];
    }
    DirEndFinds(s, |s| - 1, |a|, true);
    assert s[..|a|] == a;
  }

  /** Resolving split segments against a valid base gives a valid path. */
  lemma {:induction false} NormSegsKeepsValid(stack: Path, segs: seq<string>)
    requires ValidPath(stack)
    requires forall i :: 0 <= i < |segs| ==> Sep !in segs[i]
    ensures ValidPath(NormSegs(stack, segs, true))
    decreases |segs|
  {
    if |segs| > 0 {
      NormSegsKeepsValid(NormStep(stack, segs[0], true), segs[1..]);
    }
  }

  /** `path.resolve` always yields a valid path. */
  lemma ResolveStringValid(cwd: Path, s: string)
    requires ValidPath(cwd)
    ensures ValidPath(ResolveString(cwd, s))
  {
    SplitParts(s, Sep);
    NormSegsKeepsValid(if IsAbsolute(s) then [] else cwd, Split(s, Sep));
  }
}
