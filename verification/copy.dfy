/** `copyFiles(src, destRootDir)` (src/copy.ts; the same steps are src/file.ts
    `copyFiles`): glob the sources, rewrite each absolute file path by
    replacing its first segment below the working directory with the
    destination root, create the destination's directory, and copy the bytes.
    The per-file steps run one after the other, in the order `globFiles`
    returns the files. The destination's directory is made with
    `Mkdirp.Mkdirp`, which accepts an existing directory and refuses an
    existing file only when it continues below it: when the directory part of
    a destination is an existing file, the original fails at `mkdir` with
    `EEXIST`, and the model fails one step later, at `copyFile`, with
    `ENOTDIR`. */
module Copy {
  import opened Wrappers
  import opened Strings
  import opened Paths
  import opened Tree
  import opened Primitives
  import opened Glob
  import opened Mkdirp

  /** The first segment of `file` below the working directory: the text after
      the first occurrence of `resolve() + sep`, up to the next separator. */
  function SrcRootDir(cwd: Path, file: string): (r: string)
    ensures Sep !in r
  {
    SplitParts(ReplaceFirst(file, AbsString(cwd) + [Sep], ""), Sep);
    Split(ReplaceFirst(file, AbsString(cwd) + [Sep], ""), Sep)[0]
  }

  /** The destination string: the first textual occurrence of the source root
      segment replaced by the destination root. */
  function DestPath(cwd: Path, file: string, destRootDir: string): string {
    ReplaceFirst(file, SrcRootDir(cwd, file), destRootDir)
  }

  function SrcOf(cwd: Path, file: string): Path {
    ResolveString(cwd, file)
  }

  function DestOf(cwd: Path, file: string, destRootDir: string): Path {
    ResolveString(cwd, DestPath(cwd, file, destRootDir))
  }

  /** The directory `mkdirp` makes for the destination: `dirname(destPath)`,
      resolved. */
  function DirOf(cwd: Path, file: string, destRootDir: string): Path {
    ResolveString(cwd, Dirname(DestPath(cwd, file, destRootDir)))
  }

  function Dests(cwd: Path, files: seq<string>, destRootDir: string): (ds: seq<Path>)
    ensures |ds| == |files|
    ensures forall i :: 0 <= i < |files| ==> ds[i] == DestOf(cwd, files[i], destRootDir)
    decreases |files|
  {
    if |files| == 0 then []
    else
      assert forall i :: 1 <= i < |files| ==> files[i] == files[1..][i - 1];
      [DestOf(cwd, files[0], destRootDir)] + Dests(cwd, files[1..], destRootDir)
  }

  /** One file: create the destination's directory, then copy. */
  function CopyOne(root: Node, cwd: Path, file: string, destRootDir: string): Result<Node>
    requires ValidPath(cwd)
  {
    var dest := DestPath(cwd, file, destRootDir);
    match Mkdirp.Mkdirp(root, cwd, Dirname(dest))
    case Err(e) => Err(e)
    case Ok(m) => CopyFile(m.root, SrcOf(cwd, file), ResolveString(cwd, dest))
  }

  /** The files in order; the first failure fails the whole call. */
  function CopyEach(root: Node, cwd: Path, files: seq<string>, destRootDir: string): Result<Node>
    requires ValidPath(cwd)
    decreases |files|
  {
    if |files| == 0 then Ok(root)
    else match CopyOne(root, cwd, files[0], destRootDir)
      case Err(e) => Err(e)
      case Ok(next) => CopyEach(next, cwd, files[1..], destRootDir)
  }

  // ---------------------------------------------------------------------------
  // The destination rewrite

  lemma AbsConcat(p: Path, q: Path)
    requires |p| >= 1 && |q| >= 1
    ensures AbsString(p + q) == AbsString(p) + [Sep] + Join(q, Sep)
  {
    JoinConcat(p, q, Sep);
    var jp, jq := Join(p, Sep), Join(q, Sep);
    Assoc([Sep], jp + [Sep], jq);
    Assoc([Sep], jp, [Sep]);
  }

  /** For a file below the working directory, the source root is the first
      segment below it. */
  lemma SrcRootDirBelow(cwd: Path, first: string, rest: Path)
    requires ValidPath(cwd) && |cwd| >= 1 && ValidName(first) && ValidPath(rest)
    ensures SrcRootDir(cwd, AbsString(cwd + [first] + rest)) == first
  {
    var file := AbsString(cwd + [first] + rest);
    var a := AbsString(cwd) + [Sep];
    var j := Join([first] + rest, Sep);
    assert cwd + [first] + rest == cwd + ([first] + rest);
    AbsConcat(cwd, [first] + rest);
    assert file == a + j;
    assert file[..|a|] == a;
    ReplaceFirstAt(file, a, "", 0);
    assert file[|a|..] == j;
    assert ReplaceFirst(file, a, "") == j;
    assert ValidPath([first] + rest) by {
      assert forall i :: 1 <= i < |rest| + 1 ==> ([first] + rest)[i] == rest[i - 1];
    }
    SplitJoin([first] + rest, Sep);
  }

  /** When the source root segment does not occur in the working directory's
      own path, the destination is the file's path with that one segment
      replaced: `cwd/first/rest` is copied to `cwd/destRootDir/rest`. */
  lemma DestBelow(cwd: Path, first: string, rest: Path, destRootDir: string)
    requires ValidPath(cwd) && |cwd| >= 1 && ValidName(first) && ValidPath(rest)
    requires !Contains(AbsString(cwd), first)
    ensures DestPath(cwd, AbsString(cwd + [first] + rest), destRootDir) == AbsString(cwd + [destRootDir] + rest)
    ensures ValidName(destRootDir) ==>
      DestOf(cwd, AbsString(cwd + [first] + rest), destRootDir) == cwd + [destRootDir] + rest
  {
    DestPathBelow(cwd, first, rest, destRootDir);
    if ValidName(destRootDir) {
      ValidBelow(cwd, destRootDir, rest);
      AbsStringRoundTrip(cwd, cwd + [destRootDir] + rest);
    }
  }

  lemma DestPathBelow(cwd: Path, first: string, rest: Path, destRootDir: string)
    requires ValidPath(cwd) && |cwd| >= 1 && ValidName(first) && ValidPath(rest)
    requires !Contains(AbsString(cwd), first)
    ensures DestPath(cwd, AbsString(cwd + [first] + rest), destRootDir) == AbsString(cwd + [destRootDir] + rest)
  {
    var c := AbsString(cwd);
    var tail := JoinTail(rest, Sep);
    var file := AbsString(cwd + [first] + rest);
    SrcRootDirBelow(cwd, first, rest);
    FileString(cwd, first, rest);
    JoinHead(first, rest, Sep);
    var j := first + tail;
    assert file == c + [Sep] + j;
    assert j[..|first|] == first;
    NoEarlierOccurrence(c, first, j);
    ReplaceFirstAt(file, first, destRootDir, |c| + 1);
    Slices(file, c, first, tail);
    DestString(cwd, destRootDir, rest);
  }

  lemma Slices(file: string, c: string, first: string, tail: string)
    requires file == c + [Sep] + (first + tail)
    ensures file[..|c| + 1] == c + [Sep] && file[|c| + 1 + |first|..] == tail
  {
  }

  lemma FileString(cwd: Path, first: string, rest: Path)
    requires |cwd| >= 1
    ensures AbsString(cwd + [first] + rest) == AbsString(cwd) + [Sep] + Join([first] + rest, Sep)
  {
    assert cwd + [first] + rest == cwd + ([first] + rest);
    AbsConcat(cwd, [first] + rest);
  }

  /** A name without separators that does not occur in `c` first occurs in
      `c + "/" + first + ...` right after the separator. */
  lemma NoEarlierOccurrence(c: string, first: string, j: string)
    requires ValidName(first) && !Contains(c, first)
    requires |j| >= |first| && j[..|first|] == first
    ensures OccursAt(c + [Sep] + j, first, |c| + 1)
    ensures forall i :: 0 <= i < |c| + 1 ==> !OccursAt(c + [Sep] + j, first, i)
  {
    var file := c + [Sep] + j;
    assert file[|c| + 1..|c| + 1 + |first|] == j[..|first|];
    ContainsIff(c, first);
    forall i | 0 <= i < |c| + 1 ensures !OccursAt(file, first, i) {
      if i + |first| <= |c| {
        assert file[i..i + |first|] == c[i..i + |first|];
        assert !OccursAt(c, first, i);
      } else if i + |first| <= |file| {
        var w := file[i..i + |first|];
        assert w[|c| - i] == Sep;
        assert Sep in w;
      }
    }
  }

  lemma DestString(cwd: Path, d: string, rest: Path)
    requires |cwd| >= 1
    ensures AbsString(cwd) + [Sep] + d + JoinTail(rest, Sep) == AbsString(cwd + [d] + rest)
  {
    assert cwd + [d] + rest == cwd + ([d] + rest);
    AbsConcat(cwd, [d] + rest);
    JoinHead(d, rest, Sep);
  }

  lemma ValidBelow(cwd: Path, d: string, rest: Path)
    requires ValidPath(cwd) && ValidName(d) && ValidPath(rest)
    ensures ValidPath(cwd + [d] + rest)
  {
    var p := cwd + [d] + rest;
    assert forall i :: 0 <= i < |cwd| ==> p[i] == cwd[i];
    assert forall i :: |cwd| < i < |p| ==> p[i] == rest[i - |cwd| - 1];
  }

  /** For a file below the working directory, the directory made for the
      destination is the destination's parent. */
  lemma DirOfBelow(cwd: Path, first: string, rest: Path, destRootDir: string)
    requires ValidPath(cwd) && |cwd| >= 1 && ValidName(first) && ValidPath(rest) && |rest| >= 1
    requires !Contains(AbsString(cwd), first) && ValidName(destRootDir)
    ensures DestOf(cwd, AbsString(cwd + [first] + rest), destRootDir) == cwd + [destRootDir] + rest
    ensures DirOf(cwd, AbsString(cwd + [first] + rest), destRootDir) == cwd + [destRootDir] + Parent(rest)
  {
    var file := AbsString(cwd + [first] + rest);
    var d := cwd + [destRootDir] + rest;
    DestBelow(cwd, first, rest, destRootDir);
    ValidBelow(cwd, destRootDir, rest);
    var p := cwd + [destRootDir] + Parent(rest);
    assert d == p + [Last(rest)];
    assert ValidPath(p) by {
      assert forall i :: 0 <= i < |p| ==> p[i] == d[i];
    }
    DirnameAbs(p, Last(rest));
    AbsStringRoundTrip(cwd, p);
  }

  /** `src/elements/input/src/index.ts` copied to `.tmp`: only the first `src`
      is replaced. */
  lemma NestedSourceExample(cwd: Path, first: string, d: string)
    requires first == "src" && d == ".tmp"
    requires ValidPath(cwd) && |cwd| >= 1 && !Contains(AbsString(cwd), first)
    ensures DestOf(cwd, AbsString(cwd + [first, "elements", "input", "src", "index.ts"]), d)
            == cwd + [".tmp", "elements", "input", "src", "index.ts"]
  {
    var rest := ["elements", "input", "src", "index.ts"];
    NestedNames(first, d, rest);
    assert cwd + [first, "elements", "input", "src", "index.ts"] == cwd + [first] + rest;
    assert cwd + [".tmp", "elements", "input", "src", "index.ts"] == cwd + [d] + rest;
    DestBelow(cwd, first, rest, d);
  }

  lemma NestedNames(first: string, d: string, rest: Path)
    requires first == "src" && d == ".tmp" && rest == ["elements", "input", "src", "index.ts"]
    ensures ValidName(first) && ValidName(d) && ValidPath(rest)
  {
    assert Sep !in "elements" && Sep !in "input" && Sep !in "index.ts";
  }

  /** When the working directory itself is called `src`, the first `src` in
      `/src/src/a.ts` is the working directory's own name: the copy goes to
      `/.tmp/src/a.ts`, outside the working directory, not to
      `/src/.tmp/a.ts`. */
  lemma ShadowedRootExample(file: string, d: string)
    requires file == "/src/src/a.ts" && d == ".tmp"
    ensures file == AbsString(["src", "src", "a.ts"])
    ensures DestOf(["src"], file, d) == [".tmp", "src", "a.ts"]
  {
    var p := ["src", "src", "a.ts"];
    ShadowedPath("src", file, p);
    assert ["src"] + ["src"] + ["a.ts"] == p;
    SrcRootDirBelow(["src"], "src", ["a.ts"]);
    var dest := ShadowedReplace(file, d);
    assert DestPath(["src"], file, d) == dest;
    ShadowedPath(".tmp", dest, [".tmp", "src", "a.ts"]);
    AbsStringRoundTrip(["src"], [".tmp", "src", "a.ts"]);
  }

  /** The example's source and destination strings are the absolute forms of
      their paths. */
  lemma ShadowedPath(first: string, s: string, p: Path)
    requires p == [first, "src", "a.ts"]
    requires (first == "src" && s == "/src/src/a.ts") || (first == ".tmp" && s == "/.tmp/src/a.ts")
    ensures s == AbsString(p)
  {
    assert Join(p[2..], Sep) == "a.ts";
    assert Join(p[1..], Sep) == "src/a.ts";
  }

  lemma ShadowedReplace(file: string, d: string) returns (dest: string)
    requires file == "/src/src/a.ts" && d == ".tmp"
    ensures ReplaceFirst(file, "src", d) == dest
    ensures dest == "/.tmp/src/a.ts"
  {
    ShadowedOccurs(file);
    ReplaceFirstAt(file, "src", d, 1);
    dest := "/.tmp/src/a.ts";
    ShadowedPieces(file, d, dest);
  }

  lemma ShadowedOccurs(file: string)
    requires file == "/src/src/a.ts"
    ensures OccursAt(file, "src", 1)
    ensures forall j :: 0 <= j < 1 ==> !OccursAt(file, "src", j)
  {
    var w := file[1..4];
    assert |w| == 3 && w[0] == file[1] == 's' && w[1] == file[2] == 'r' && w[2] == file[3] == 'c';
    assert w == "src";
    assert file[0] == '/';
  }

  lemma ShadowedPieces(file: string, d: string, dest: string)
    requires file == "/src/src/a.ts" && d == ".tmp" && dest == "/.tmp/src/a.ts"
    ensures file[..1] + d + file[1 + |"src"|..] == dest
  {
    assert file[..1] == "/";
    assert file[4..] == "/src/a.ts";
  }

  // ---------------------------------------------------------------------------
  // What a copy leaves behind

  predicate IsLinkAt(n: Node, p: Path) {
    At(n, p).Some? && At(n, p).value.IsLink?
  }

  /** Every link of `b` was already in `a`, unchanged. */
  ghost predicate NoNewLinks(a: Node, b: Node) {
    forall q :: IsLinkAt(b, q) ==> At(b, q) == At(a, q)
  }

  /** The parent of the destination exists when the copy starts. */
  lemma ParentMadeFirst(root: Node, cwd: Path, dest: Path)
    requires ValidPath(cwd) && ValidPath(dest) && |dest| >= 2
    requires Mkdirp.Mkdirp(root, cwd, Dirname(AbsString(dest))).Ok?
    ensures Exists(Mkdirp.Mkdirp(root, cwd, Dirname(AbsString(dest))).value.root, Parent(dest))
  {
    var p := Parent(dest);
    assert dest == p + [Last(dest)];
    assert ValidPath(p) by {
      assert forall i :: 0 <= i < |p| ==> p[i] == dest[i];
    }
    DirnameAbs(p, Last(dest));
    var s := Dirname(AbsString(dest));
    assert s == AbsString(p);
    AbsStringRoundTrip(cwd, p);
    assert ResolveString(cwd, s) == p;
    MkdirpTarget(root, cwd, s);
  }

  /** One copy from a regular file to a destination that is not a link: the
      destination then holds the source's bytes, every other existing entry is
      unchanged, and no link appears. */
  lemma CopyOneSpec(root: Node, cwd: Path, file: string, destRootDir: string)
    requires ValidPath(cwd)
    requires LStat(root, SrcOf(cwd, file)).Ok? && LStat(root, SrcOf(cwd, file)).value.File?
    requires !IsLinkAt(root, DestOf(cwd, file, destRootDir))
    requires DestOf(cwd, file, destRootDir) != SrcOf(cwd, file)
    requires CopyOne(root, cwd, file, destRootDir).Ok?
    ensures var r := CopyOne(root, cwd, file, destRootDir).value;
      && At(r, DestOf(cwd, file, destRootDir)) == Some(IsFile(LStat(root, SrcOf(cwd, file)).value.data))
      && (forall q :: q != DestOf(cwd, file, destRootDir) && At(root, q).Some? ==> At(r, q) == At(root, q))
      && NoNewLinks(root, r)
  {
    var src := SrcOf(cwd, file);
    var dest := DestOf(cwd, file, destRootDir);
    var dir := Dirname(DestPath(cwd, file, destRootDir));
    var after := Mkdirp.Mkdirp(root, cwd, dir).value.root;
    MkdirpOnlyDirs(root, cwd, dir);
    var data := LStat(root, src).value.data;
    CopyFromGrown(root, after, src, dest, data);
  }

  /** The copy step, once the destination's directory has been made. */
  lemma CopyFromGrown(root: Node, after: Node, src: Path, dest: Path, data: Bytes)
    requires LStat(root, src) == Ok(File(data))
    requires Grows(root, after) && forall q :: At(after, q) == At(root, q) || At(after, q) == Some(IsDir)
    requires !IsLinkAt(root, dest)
    requires CopyFile(after, src, dest).Ok?
    ensures var r := CopyFile(after, src, dest).value;
      && At(r, dest) == Some(IsFile(data))
      && (forall q :: q != dest && At(root, q).Some? ==> At(r, q) == At(root, q))
      && NoNewLinks(root, r)
  {
    assert At(root, src) == Some(IsFile(data));
    assert At(after, src) == Some(IsFile(data));
    assert LStat(after, src) == Ok(File(data)) by {
      assert LStat(after, src).Ok?;
    }
    assert At(after, dest) == At(root, dest) || At(after, dest) == Some(IsDir);
    assert !(LStat(after, dest).Ok? && LStat(after, dest).value.Link?);
  }

  /** When one copy succeeds: the source is a regular file, the first
      directory `mkdirp` has to make can be made, the directory it makes is the
      destination's parent and is not already a file or a link, and the
      destination is free or a file. When that directory is already there, the
      copy changes the destination and nothing else. */
  lemma CopyOneLands(root: Node, cwd: Path, file: string, destRootDir: string)
    requires ValidPath(cwd)
    requires LStat(root, SrcOf(cwd, file)).Ok? && LStat(root, SrcOf(cwd, file)).value.File?
    requires FirstCreatable(root, Missing(root, DirOf(cwd, file, destRootDir), 1))
    requires At(root, DirOf(cwd, file, destRootDir)).None? || At(root, DirOf(cwd, file, destRootDir)) == Some(IsDir)
    requires |DestOf(cwd, file, destRootDir)| >= 1 && Parent(DestOf(cwd, file, destRootDir)) == DirOf(cwd, file, destRootDir)
    requires At(root, DestOf(cwd, file, destRootDir)).None? || At(root, DestOf(cwd, file, destRootDir)).value.IsFile?
    ensures CopyOne(root, cwd, file, destRootDir).Ok?
    ensures At(root, DirOf(cwd, file, destRootDir)) == Some(IsDir) ==>
      forall q :: At(CopyOne(root, cwd, file, destRootDir).value, q)
                  == if q == DestOf(cwd, file, destRootDir)
                     then Some(IsFile(LStat(root, SrcOf(cwd, file)).value.data)) else At(root, q)
  {
    var src := SrcOf(cwd, file);
    var d := DestOf(cwd, file, destRootDir);
    var dir := Dirname(DestPath(cwd, file, destRootDir));
    AfterMkdirp(root, cwd, dir, src, d);
    var after := Mkdirp.Mkdirp(root, cwd, dir).value.root;
    CopyInto(after, src, d, LStat(root, src).value.data);
    assert CopyOne(root, cwd, file, destRootDir) == CopyFile(after, src, d);
    if At(root, DirOf(cwd, file, destRootDir)) == Some(IsDir) {
      MkdirpExisting(root, cwd, dir);
    }
  }

  /** A regular file copied to a free or file destination under a directory. */
  lemma CopyInto(after: Node, src: Path, d: Path, data: Bytes)
    requires LStat(after, src) == Ok(File(data))
    requires |d| >= 1 && LStat(after, Parent(d)).Ok? && LStat(after, Parent(d)).value.Dir?
    requires At(after, d).None? || At(after, d).value.IsFile?
    ensures CopyFile(after, src, d).Ok?
    ensures forall q :: At(CopyFile(after, src, d).value, q) == if q == d then Some(IsFile(data)) else At(after, q)
  {
    assert Stat(after, src) == Ok(File(data));
    assert LStat(after, d).Err? || LStat(after, d).value.File?;
  }

  /** After `mkdirp` of a directory that is missing or already a directory, it
      is a directory, an entry one level below it is as it was, and so is
      every existing entry. */
  lemma AfterMkdirp(root: Node, cwd: Path, directory: string, src: Path, d: Path)
    requires ValidPath(cwd) && Mkdirp.Mkdirp(root, cwd, directory).Ok?
    requires At(root, ResolveString(cwd, directory)).None? || At(root, ResolveString(cwd, directory)) == Some(IsDir)
    requires |d| == |ResolveString(cwd, directory)| + 1
    requires LStat(root, src).Ok? && LStat(root, src).value.File?
    ensures var after := Mkdirp.Mkdirp(root, cwd, directory).value.root;
      && LStat(after, ResolveString(cwd, directory)).Ok? && LStat(after, ResolveString(cwd, directory)).value.Dir?
      && At(after, d) == At(root, d)
      && LStat(after, src) == LStat(root, src)
  {
    var t := ResolveString(cwd, directory);
    var m := Mkdirp.Mkdirp(root, cwd, directory).value;
    MissingShape(root, t, 1);
    GrownDir(root, m.root, m.made, t);
    GrownBelow(root, m.root, m.made, t, d);
    GrownFile(root, m.root, src);
  }

  lemma GrownFile(root: Node, after: Node, src: Path)
    requires Grows(root, after) && LStat(root, src).Ok? && LStat(root, src).value.File?
    ensures LStat(after, src) == LStat(root, src)
  {
    assert At(after, src) == At(root, src) == Some(IsFile(LStat(root, src).value.data));
    assert LStat(after, src).Ok?;
  }

  lemma GrownDir(root: Node, after: Node, made: seq<Path>, t: Path)
    requires forall q :: At(after, q) == if q in made then Some(IsDir) else At(root, q)
    requires |t| >= 1 ==> Exists(after, t[..|t|])
    requires At(root, t).None? || At(root, t) == Some(IsDir)
    ensures LStat(after, t).Ok? && LStat(after, t).value.Dir?
  {
    if t !in made && |t| >= 1 {
      assert t[..|t|] == t;
      assert Exists(after, t);
    }
    assert At(after, t) == Some(IsDir);
  }

  lemma GrownBelow(root: Node, after: Node, made: seq<Path>, t: Path, d: Path)
    requires forall q :: At(after, q) == if q in made then Some(IsDir) else At(root, q)
    requires forall i :: 0 <= i < |made| ==> |made[i]| <= |t|
    requires |d| == |t| + 1
    ensures At(after, d) == At(root, d)
  {
    forall i | 0 <= i < |made| ensures made[i] != d { }
    assert d !in made;
  }

  /** The conditions under which every copy lands and stays: the sources are
      regular files, no destination is a link, the destinations are distinct,
      and no destination is also a source. */
  predicate Separate(root: Node, cwd: Path, files: seq<string>, destRootDir: string) {
    && (forall i :: 0 <= i < |files| ==>
          LStat(root, SrcOf(cwd, files[i])).Ok? && LStat(root, SrcOf(cwd, files[i])).value.File?)
    && (forall i :: 0 <= i < |files| ==> !IsLinkAt(root, DestOf(cwd, files[i], destRootDir)))
    && (forall i, j :: 0 <= i < j < |files| ==>
          DestOf(cwd, files[i], destRootDir) != DestOf(cwd, files[j], destRootDir))
    && (forall i, j :: 0 <= i < |files| && 0 <= j < |files| ==>
          DestOf(cwd, files[i], destRootDir) != SrcOf(cwd, files[j]))
  }

  /** Every destination's directory is its parent and is already a directory,
      and every destination is free or a file. */
  predicate Landable(root: Node, cwd: Path, files: seq<string>, destRootDir: string) {
    forall i :: 0 <= i < |files| ==>
      && |DestOf(cwd, files[i], destRootDir)| >= 1
      && Parent(DestOf(cwd, files[i], destRootDir)) == DirOf(cwd, files[i], destRootDir)
      && At(root, DirOf(cwd, files[i], destRootDir)) == Some(IsDir)
      && (At(root, DestOf(cwd, files[i], destRootDir)).None?
          || At(root, DestOf(cwd, files[i], destRootDir)).value.IsFile?)
  }

  /** Separate files whose destinations' directories already exist are all
      copied: the whole call succeeds. */
  lemma {:induction false} CopyEachLands(root: Node, cwd: Path, files: seq<string>, destRootDir: string)
    requires ValidPath(cwd)
    requires Separate(root, cwd, files, destRootDir) && Landable(root, cwd, files, destRootDir)
    ensures CopyEach(root, cwd, files, destRootDir).Ok?
    decreases |files|
  {
    if |files| > 0 {
      var f := files[0];
      NoneMissing(root, DirOf(cwd, f, destRootDir));
      CopyOneLands(root, cwd, f, destRootDir);
      var next := CopyOne(root, cwd, f, destRootDir).value;
      CopyOneSpec(root, cwd, f, destRootDir);
      SeparateStep(root, next, cwd, files, destRootDir);
      LandableStep(root, next, cwd, files, destRootDir);
      CopyEachLands(next, cwd, files[1..], destRootDir);
    }
  }

  /** After the first copy the remaining destinations can still land. */
  lemma LandableStep(root: Node, next: Node, cwd: Path, files: seq<string>, destRootDir: string)
    requires |files| >= 1 && Separate(root, cwd, files, destRootDir) && Landable(root, cwd, files, destRootDir)
    requires forall q :: At(next, q) == if q == DestOf(cwd, files[0], destRootDir)
                         then Some(IsFile(LStat(root, SrcOf(cwd, files[0])).value.data)) else At(root, q)
    ensures Landable(next, cwd, files[1..], destRootDir)
  {
    var d0 := DestOf(cwd, files[0], destRootDir);
    forall i | 1 <= i < |files|
      ensures At(next, DirOf(cwd, files[i], destRootDir)) == Some(IsDir)
      ensures At(next, DestOf(cwd, files[i], destRootDir)) == At(root, DestOf(cwd, files[i], destRootDir))
    {
      assert DirOf(cwd, files[i], destRootDir) != d0;
    }
    forall i | 0 <= i < |files[1..]| ensures files[1..][i] == files[i + 1] { }
  }

  /** Copying a list of separate files: each destination ends up holding its
      own source's original bytes, every existing entry that is not a
      destination is unchanged, and no link appears. */
  lemma {:induction false} CopyEachSpec(root: Node, cwd: Path, files: seq<string>, destRootDir: string)
    requires ValidPath(cwd)
    requires Separate(root, cwd, files, destRootDir)
    requires CopyEach(root, cwd, files, destRootDir).Ok?
    ensures var r := CopyEach(root, cwd, files, destRootDir).value;
      && (forall i :: 0 <= i < |files| ==>
            At(r, DestOf(cwd, files[i], destRootDir))
            == Some(IsFile(LStat(root, SrcOf(cwd, files[i])).value.data)))
      && (forall q :: q !in Dests(cwd, files, destRootDir) && At(root, q).Some? ==> At(r, q) == At(root, q))
      && NoNewLinks(root, r)
    decreases |files|
  {
    if |files| > 0 {
      var f := files[0];
      var next := CopyOne(root, cwd, f, destRootDir).value;
      CopyOneSpec(root, cwd, f, destRootDir);
      var rest := files[1..];
      var d0 := DestOf(cwd, f, destRootDir);
      SeparateStep(root, next, cwd, files, destRootDir);
      CopyEachSpec(next, cwd, rest, destRootDir);
      var r := CopyEach(root, cwd, files, destRootDir).value;
      assert r == CopyEach(next, cwd, rest, destRootDir).value;
      DestsCons(cwd, files, destRootDir);
      Compose(root, next, r, d0, LStat(root, SrcOf(cwd, f)).value.data, Dests(cwd, rest, destRootDir));
      RestLands(root, next, r, cwd, files, destRootDir);
    }
  }

  /** The later destinations, landed from `next`, hold the original bytes. */
  lemma RestLands(root: Node, next: Node, r: Node, cwd: Path, files: seq<string>, destRootDir: string)
    requires |files| >= 1
    requires forall i :: 1 <= i < |files| ==>
      LStat(root, SrcOf(cwd, files[i])).Ok? && LStat(root, SrcOf(cwd, files[i])).value.File?
    requires forall i :: 1 <= i < |files| ==> LStat(next, SrcOf(cwd, files[i])) == LStat(root, SrcOf(cwd, files[i]))
    requires forall i :: 0 <= i < |files[1..]| ==>
      At(r, DestOf(cwd, files[1..][i], destRootDir)) == Some(IsFile(LStat(next, SrcOf(cwd, files[1..][i])).value.data))
    ensures forall i :: 1 <= i < |files| ==>
      At(r, DestOf(cwd, files[i], destRootDir)) == Some(IsFile(LStat(root, SrcOf(cwd, files[i])).value.data))
  {
    forall i | 1 <= i < |files|
      ensures At(r, DestOf(cwd, files[i], destRootDir)) == Some(IsFile(LStat(root, SrcOf(cwd, files[i])).value.data))
    {
      assert files[i] == files[1..][i - 1];
    }
  }

  lemma DestsCons(cwd: Path, files: seq<string>, destRootDir: string)
    requires |files| >= 1
    ensures Dests(cwd, files, destRootDir) == [DestOf(cwd, files[0], destRootDir)] + Dests(cwd, files[1..], destRootDir)
  {
  }

  /** After the first copy the remaining files are still separate, and their
      sources are untouched. */
  lemma SeparateStep(root: Node, next: Node, cwd: Path, files: seq<string>, destRootDir: string)
    requires |files| >= 1 && Separate(root, cwd, files, destRootDir)
    requires forall q :: q != DestOf(cwd, files[0], destRootDir) && At(root, q).Some? ==> At(next, q) == At(root, q)
    requires NoNewLinks(root, next)
    ensures Separate(next, cwd, files[1..], destRootDir)
    ensures forall i :: 1 <= i < |files| ==> LStat(next, SrcOf(cwd, files[i])) == LStat(root, SrcOf(cwd, files[i]))
    ensures forall i :: 1 <= i < |files| ==> DestOf(cwd, files[0], destRootDir) != DestOf(cwd, files[i], destRootDir)
  {
    var rest := files[1..];
    forall i | 1 <= i < |files|
      ensures LStat(next, SrcOf(cwd, files[i])) == LStat(root, SrcOf(cwd, files[i]))
      ensures !IsLinkAt(next, DestOf(cwd, files[i], destRootDir))
    {
      var s := SrcOf(cwd, files[i]);
      assert At(root, s).Some?;
      assert At(next, s) == At(root, s);
      assert LStat(next, s).Ok?;
    }
    forall i | 0 <= i < |rest| ensures rest[i] == files[i + 1] { }
  }

  /** Chaining two steps' guarantees. */
  lemma Compose(root: Node, next: Node, r: Node, d0: Path, data0: Bytes, ds: seq<Path>)
    requires At(next, d0) == Some(IsFile(data0))
    requires forall q :: q != d0 && At(root, q).Some? ==> At(next, q) == At(root, q)
    requires NoNewLinks(root, next)
    requires d0 !in ds
    requires forall q :: q !in ds && At(next, q).Some? ==> At(r, q) == At(next, q)
    requires NoNewLinks(next, r)
    ensures At(r, d0) == Some(IsFile(data0))
    ensures forall q :: q !in [d0] + ds && At(root, q).Some? ==> At(r, q) == At(root, q)
    ensures NoNewLinks(root, r)
  {
    forall q | IsLinkAt(r, q) ensures At(r, q) == At(root, q) {
      assert At(r, q) == At(next, q);
      assert IsLinkAt(next, q);
    }
  }

  /** `copyFiles(src, destRootDir)`: `globFiles(src)` (absolute paths), then
      every file it returns is copied. A failing glob fails the call; when the
      globbed files are separate, each destination ends up holding its
      source's bytes. */
  function CopyFiles(root: Node, cwd: Path, src: Src, destRootDir: string,
                     matches: (string, string) -> bool): (r: Result<Node>)
    requires ValidPath(cwd)
    ensures GlobFiles(root, cwd, src, false, matches).Err? ==> r.Err?
    ensures var g := GlobFiles(root, cwd, src, false, matches);
      r.Ok? && g.Ok? && Separate(root, cwd, g.value, destRootDir) ==>
        && (forall i :: 0 <= i < |g.value| ==>
              At(r.value, DestOf(cwd, g.value[i], destRootDir))
              == Some(IsFile(LStat(root, SrcOf(cwd, g.value[i])).value.data)))
        && (forall q :: q !in Dests(cwd, g.value, destRootDir) && At(root, q).Some? ==> At(r.value, q) == At(root, q))
        && NoNewLinks(root, r.value)
    ensures var g := GlobFiles(root, cwd, src, false, matches);
      g.Ok? && Separate(root, cwd, g.value, destRootDir) && Landable(root, cwd, g.value, destRootDir) ==> r.Ok?
  {
    match GlobFiles(root, cwd, src, false, matches)
    case Err(e) => Err(e)
    case Ok(files) =>
      CopyEachEffect(root, cwd, files, destRootDir);
      CopyEach(root, cwd, files, destRootDir)
  }

  /** What copying the globbed files promises, in one place for both forms of
      `copyFiles`. */
  lemma CopyEachEffect(root: Node, cwd: Path, files: seq<string>, destRootDir: string)
    requires ValidPath(cwd)
    ensures var r := CopyEach(root, cwd, files, destRootDir);
      r.Ok? && Separate(root, cwd, files, destRootDir) ==>
        && (forall i :: 0 <= i < |files| ==>
              At(r.value, DestOf(cwd, files[i], destRootDir))
              == Some(IsFile(LStat(root, SrcOf(cwd, files[i])).value.data)))
        && (forall q :: q !in Dests(cwd, files, destRootDir) && At(root, q).Some? ==> At(r.value, q) == At(root, q))
        && NoNewLinks(root, r.value)
    ensures Separate(root, cwd, files, destRootDir) && Landable(root, cwd, files, destRootDir) ==>
      CopyEach(root, cwd, files, destRootDir).Ok?
  {
    if Separate(root, cwd, files, destRootDir) {
      if Landable(root, cwd, files, destRootDir) {
        CopyEachLands(root, cwd, files, destRootDir);
      }
      if CopyEach(root, cwd, files, destRootDir).Ok? {
        CopyEachSpec(root, cwd, files, destRootDir);
      }
    }
  }

  // ---------------------------------------------------------------------------
  // Worked example

  /** In a working directory holding `copy-files-dir/package.json` and an
      empty `dest-folder`, copying the glob `copy-files-dir/` followed by `*`
      to `dest-folder` succeeds, and `dest-folder/package.json` then holds the
      source's bytes. */
  lemma CopyFilesExample(root: Node, cwd: Path, g: string, data: Bytes, matches: (string, string) -> bool)
    requires g == "copy-files-dir" + [Sep] + "*"
    requires ValidPath(cwd) && |cwd| >= 1 && !Contains(AbsString(cwd), "copy-files-dir")
    requires LStat(root, cwd + ["copy-files-dir"]) == Ok(Dir([Entry("package.json", File(data))]))
    requires LStat(root, cwd + ["dest-folder"]) == Ok(Dir([]))
    requires matches("package.json", "*")
    ensures CopyFiles(root, cwd, One(g), "dest-folder", matches).Ok?
    ensures At(CopyFiles(root, cwd, One(g), "dest-folder", matches).value, cwd + ["dest-folder", "package.json"])
            == Some(IsFile(data))
  {
    var n, d, name := "copy-files-dir", "dest-folder", "package.json";
    ExampleNames(n, d, name);
    DirGlobFiles(root, cwd, n, name, data, matches);
    var file := AbsString(cwd + [n, name]);
    ExampleSeparate(root, cwd, n, d, name, data);
    var r := CopyFiles(root, cwd, One(g), d, matches);
    assert r.Ok?;
    assert [file][0] == file;
    assert At(r.value, DestOf(cwd, file, d)) == Some(IsFile(LStat(root, SrcOf(cwd, file)).value.data));
  }

  lemma ExampleSeparate(root: Node, cwd: Path, n: string, d: string, name: string, data: Bytes)
    requires ValidPath(cwd) && |cwd| >= 1 && !Contains(AbsString(cwd), n)
    requires ValidName(n) && ValidName(d) && ValidName(name) && n != d
    requires LStat(root, cwd + [n]) == Ok(Dir([Entry(name, File(data))]))
    requires LStat(root, cwd + [d]) == Ok(Dir([]))
    ensures var file := AbsString(cwd + [n, name]);
      && Separate(root, cwd, [file], d) && Landable(root, cwd, [file], d)
      && DestOf(cwd, file, d) == cwd + [d, name]
      && LStat(root, SrcOf(cwd, file)) == Ok(File(data))
  {
    ExampleLands(root, cwd, n, d, name, data);
    var file := AbsString(cwd + [n, name]);
    assert [file][0] == file;
    assert cwd + [d, name] != cwd + [n, name] by {
      assert (cwd + [d, name])[|cwd|] == d;
    }
    assert Parent(cwd + [d, name]) == cwd + [d];
  }

  lemma ExampleNames(n: string, d: string, name: string)
    requires n == "copy-files-dir" && d == "dest-folder" && name == "package.json"
    ensures ValidName(n) && ValidName(d) && ValidName(name) && n != d
    ensures '*' !in n && OneLine(n)
  {
    assert Sep !in n && Sep !in d && Sep !in name;
    assert n[0] != d[0];
  }

  /** The one file of the example is separate and can land. */
  lemma ExampleLands(root: Node, cwd: Path, n: string, d: string, name: string, data: Bytes)
    requires ValidPath(cwd) && |cwd| >= 1 && !Contains(AbsString(cwd), n)
    requires ValidName(n) && ValidName(d) && ValidName(name) && n != d
    requires LStat(root, cwd + [n]) == Ok(Dir([Entry(name, File(data))]))
    requires LStat(root, cwd + [d]) == Ok(Dir([]))
    ensures var file := AbsString(cwd + [n, name]);
      && SrcOf(cwd, file) == cwd + [n, name]
      && LStat(root, cwd + [n, name]) == Ok(File(data))
      && DestOf(cwd, file, d) == cwd + [d, name]
      && DirOf(cwd, file, d) == cwd + [d]
      && At(root, cwd + [d]) == Some(IsDir)
      && At(root, cwd + [d, name]).None?
  {
    assert cwd + [n, name] == cwd + [n] + [name];
    assert cwd + [d, name] == cwd + [d] + [name];
    DirOfBelow(cwd, n, [name], d);
    ValidBelow(cwd, n, [name]);
    AbsStringRoundTrip(cwd, cwd + [n, name]);
    LStatAppend(root, cwd + [n], [name]);
    LStatAppend(root, cwd + [d], [name]);
    assert [name][1..] == [];
  }
}
