# aria-fs, modelled in Dafny

aria-fs is a small Node.js library of filesystem helpers for build scripts:
- `globFiles` lists the files that one or more glob strings select;
- `clean` removes a directory tree;
- `mkdirp` creates a directory and its missing parents;
- `copyFiles` copies the globbed files under a new root directory;
- `symlinkDir`, `symlinkFile`, `unlinkDir` and `unlinkFile` replace or remove links.

The library ships these twice. `src/glob.ts`, `src/clean.ts`, `src/mkdrip.ts`, `src/copy.ts` and `src/symlink.ts` hold the current forms. `src/file.ts` holds an older promise-based set. The project models both sets and proves what each operation does to the filesystem.

The filesystem is an immutable value (`Tree.Node`): a file with its bytes, a directory with its entries in `readdir` order, or a symbolic link with its target and link type.

Every property is stated through a map view. `Tree.At(root, p)` is what `lstat` reports at path `p`: a file and its bytes, a directory, a link, or nothing.

These Node calls become functions over that value:
- `lstat` never follows links;
- `stat` follows a final link, giving up after 40 hops as Linux does;
- `existsSync` is `stat` succeeding, so a dangling link does not exist;
- `readdir` has no member of its own. Where the code calls it, the model looks the directory up and takes the entries of the directory it finds, in order. `Glob.Walk` and `Legacy.LegacyWalk` look it up with `stat` and fail with `ENOENT` or `ENOTDIR`. `Clean.Clean` uses `existsSync`, then `lstat`;
- `mkdir`, `rmdir`, `unlink`, `symlink`, `copyFile`, `readFile` and `writeFile` (module `Primitives`) fail with Node's error codes. Each contract states exactly when the call succeeds; for `writeFile` and `copyFile` this is stated when the destination is not a link.

Paths are sequences of names. The working directory (`process.cwd()`) and the platform name (`process.platform`) are parameters. The glob matcher `minimatch` is a parameter `matches(name, pattern)`. Node's `path.resolve`, `relative`, `normalize`, `basename` and `dirname`, and JavaScript's `split`, `join`, `includes` and `replace`, are modelled in `Paths` and `Strings`.

Modules:
- `Wrappers`: `Option`, `Result` and the error codes.
- `Strings` and `Paths`: string and path helpers.
- `Tree`: the filesystem value, `lstat`, `stat` and the map view.
- `Primitives`: the single-call `fs` operations.
- `Glob`: `src/glob.ts`.
- `Clean`: `src/clean.ts`.
- `Mkdirp`: `src/mkdrip.ts`.
- `Copy`: `src/copy.ts`.
- `Links`: `src/symlink.ts`.
- `Legacy`: `src/file.ts`, stated against the current forms where they agree.
- `LegacyReach`: which files the recursive older walk of `src/file.ts` returns. A reference recursion on paths is characterised through `stat`, and the walk's printed strings are shown to agree with it.

`Promise.all` over several filesystem calls is modelled as the calls in input order. The first failure in that order is the result.

## Model

| member | source | states |
|---|---|---|
| Glob.StripStars | src/glob.ts:15 | the `dir` option contains no `*`, is never longer than the glob, and equals the glob when the glob has no `*` |
| Glob.StripStarsCuts | src/glob.ts:15 | on a one-line glob, `dir` is the glob cut just before its first `*`, so it is a prefix of the glob |
| Glob.CreateOptions | src/glob.ts:13-21 | `dir` is the glob up to its first `*`; the walk is recursive exactly when the normalized glob contains `/**`; the `relative` flag is passed through |
| Glob.CreateOptionsPattern | src/glob.ts:17 | the pattern is the glob's last segment |
| Glob.DirGlobOptions | src/glob.ts:13-21 | a name followed by `/*` gives the base `name/`, a non-recursive walk and the pattern `*` |
| Glob.DirGlobFiles | src/glob.ts:23-46 | such a glob over a directory holding one matching file lists exactly that file's absolute path |
| Glob.CreateOptionsExample | src/glob.ts:13-21 | `src/**/*.ts` gives base `src/`, a recursive walk and pattern `*.ts` |
| Glob.LeadingStarsNotRecursive | src/glob.ts:16 | `./**/*` is not recursive, because `normalize` drops the `./` and with it the `/` before `**` |
| Glob.CollectIff | src/glob.ts:25-35 | a path below the base is collected exactly when it is a regular file (seen without following links) whose name matches, lying directly in the base or, for a recursive walk, in a subdirectory reached without links |
| Glob.Collect | src/glob.ts:25-35 | the entries the walk keeps, in `readdir` order; what it keeps is stated by `Glob.CollectIff`, `Glob.CollectNames` and `Glob.CollectNoDuplicates` |
| Glob.CollectNames | src/glob.ts:26-34 | every collected path starts with the name of an entry of the base directory |
| Glob.CollectNoDuplicates | src/glob.ts:26-35 | one walk never lists a file twice |
| Glob.Walk | src/glob.ts:23-36 | the walk succeeds exactly when `stat` finds a directory at the base; an empty `dir` fails with `ENOENT`; an empty base directory gives an empty list; no result is empty; the results are exactly the printed forms of the selected files |
| Glob.EmitAllIff | src/glob.ts:31-32 | the printed list of a walk holds exactly the printed forms of the selected files |
| Glob.EmitRelativeResolves | src/glob.ts:32 | a relative result, resolved against the working directory, names the file the walk found |
| Glob.Emit | src/glob.ts:32 | a printed result is never empty; `Glob.EmitRelativeResolves`, `Glob.EmitAbsoluteRelativeBase` and `Glob.EmitAbsoluteBaseQuirk` state which file each form names |
| Glob.EmitAbsoluteRelativeBase | src/glob.ts:32 | for a relative base, an absolute result is the absolute path of the file the walk found |
| Glob.EmitAbsoluteBaseQuirk | src/glob.ts:27-32 | for an absolute base, the printed path is the base re-rooted below the working directory (base `/data/`, cwd `/home` gives `/home/data/a`) |
| Glob.ConcatAll | src/glob.ts:35 | the concatenation succeeds exactly when every part succeeds, and holds exactly the members of the parts |
| Glob.ConcatAllAppend | src/glob.ts:35 | concatenating one more list appends its members in order |
| Glob.ConcatAllLength | src/glob.ts:35 | the concatenation's length is the sum of the parts' lengths |
| Glob.Truthy | src/glob.ts:45 | the filter keeps exactly the non-empty strings |
| Glob.TruthyKeepsNonEmpty | src/glob.ts:45 | the filter changes nothing when every string is non-empty |
| Glob.FlattenTruthy | src/glob.ts:45 | flattening then filtering walk results is plain concatenation, because walks never produce empty strings |
| Glob.GlobFiles | src/glob.ts:38-46 | succeeds exactly when every glob's walk succeeds; the result is the walks' results concatenated in input order (`ConcatAll`), so it lists exactly the files of the walks, keeping duplicates, with length the sum of the walks' lengths |
| Glob.NonRecursiveCollect | src/glob.spec.ts:22-25 | a non-recursive walk of the test's `src` lists its three files and skips the subdirectory |
| Glob.RecursiveCollect | src/glob.spec.ts:27-30 | a recursive walk of the test's `src` lists all four files, including `elements/index.ts` |
| Glob.NonRecursiveWalk | src/glob.spec.ts:22-25 | walking `./src/` without recursion returns three results |
| Glob.NonRecursiveExample | src/glob.spec.ts:22-25 | `globFiles('./src/*')` returns three files |
| Clean.CleanOpsRemoves | src/clean.ts:6-16 | the `unlink`/`rmdir` calls `clean` issues for an existing directory all succeed, and together remove exactly that subtree |
| Clean.CleanOps | src/clean.ts:7-16 | the `unlink`/`rmdir` calls `clean` issues for a directory, children first and the directory last; `Clean.CleanOpsRemoves` and `Clean.ChildOpsEmpty` state that they succeed and what they remove |
| Clean.ChildOpsEmpty | src/clean.ts:7-15 | after the children are processed the directory is empty, so the final `rmdir` can succeed |
| Clean.ApplyAllAppend | src/clean.ts:7-16 | running two call lists in a row is running their concatenation, stopping at the first failure |
| Clean.ApplyAllWF | src/clean.ts:7-16 | a sequence of successful calls keeps directories well formed |
| Clean.Clean | src/clean.ts:4-18 | a missing path is left as it is; a directory and everything below it disappear, nothing else changes, and a link inside is removed without touching its target |
| Clean.CleanDirEffect | src/clean.ts:6-16 | the calls for a directory remove exactly its subtree from a well-formed tree, and no run of them breaks well-formedness |
| Clean.CleanIdempotent | src/clean.ts:5 | cleaning twice is the same as cleaning once |
| Mkdirp.DropTrailingSep | src/mkdrip.ts:5 | one trailing `/` is dropped and nothing else changes |
| Mkdirp.DirPartsSegments | src/mkdrip.ts:5 | the split path is an empty first part followed by the names of the resolved directory |
| Mkdirp.SegmentResolves | src/mkdrip.ts:7 | the i-th joined segment names the path's first i-1 directories |
| Mkdirp.MissingIff | src/mkdrip.ts:8-9 | a prefix of the target is created exactly when `existsSync` reports it missing |
| Mkdirp.MissingShape | src/mkdrip.ts:6-9 | every created directory is a prefix of the target that did not exist |
| Mkdirp.MissingOrdered | src/mkdrip.ts:6 | directories are created parents first |
| Mkdirp.LoopSpec | src/mkdrip.ts:6-11 | the loop from any index creates exactly the missing prefixes from that index on, in order |
| Mkdirp.MkdirpLoop | src/mkdrip.ts:6-11 | the loop over the prefixes; `Mkdirp.LoopSpec` states that from any index it creates exactly the missing prefixes, shortest first |
| Mkdirp.Mkdirp | src/mkdrip.ts:4-12 | succeeds exactly when the first missing prefix is free even to `lstat` (no dangling link there) and its parent is a directory; creates exactly the missing prefixes; adds only directories and changes nothing else; afterwards every prefix of the target exists |
| Mkdirp.MkdirpExisting | src/mkdrip.ts:6-10 | when the target is already a directory, every prefix exists, so no `mkdirSync` call is made and nothing changes |
| Mkdirp.MkdirpIdempotent | src/mkdrip.ts:8 | a second call creates nothing and changes nothing |
| Mkdirp.MissingCount | src/mkdrip.ts:6-11 | when the first n prefixes exist and the rest do not, exactly the rest are created |
| Mkdirp.ThreeLevelsExample | src/mkdrip.spec.ts:20-25 | `.tmp/elements/input` under a working directory without `.tmp` creates three directories |
| Copy.SrcRootDir | src/copy.ts:8 | the source root is a single name, free of `/` |
| Copy.SrcRootDirBelow | src/copy.ts:8 | for a file below the working directory, the source root is the first name below it |
| Copy.DestPathBelow | src/copy.ts:9 | the destination replaces that first name with the destination root, when the name does not already occur in the working directory's path |
| Copy.DestBelow | src/copy.ts:9 | as above, stated on paths |
| Copy.DestPath | src/copy.ts:9 | the destination string; `Copy.DestPathBelow`, `Copy.NestedSourceExample` and `Copy.ShadowedRootExample` state which occurrence is replaced |
| Copy.NestedSourceExample | src/copy.spec.ts:42-57 | `src/elements/input/src/index.ts` copies to `.tmp/elements/input/src/index.ts`; only the first `src` is replaced |
| Copy.ShadowedRootExample | src/copy.ts:9 | when the working directory's own path contains the source root's name, the replacement hits the working directory instead |
| Copy.DirOfBelow | src/copy.ts:8-10 | for a file below the working directory, the directory `mkdir` makes is the destination's parent |
| Copy.ParentMadeFirst | src/copy.ts:10 | the recursive `mkdir` makes the destination's parent directory exist |
| Copy.CopyOneSpec | src/copy.ts:8-11 | once it succeeds (which `Copy.CopyOneLands` establishes), copying one file puts the source bytes at the destination, keeps every other existing entry, and creates no links |
| Copy.CopyEachSpec | src/copy.ts:7-12 | when the sources are regular files and the destinations differ from each other and from the sources, every destination holds its source's bytes and nothing else that existed changes |
| Copy.CopyOneLands | src/copy.ts:8-11 | one copy succeeds when the source is a regular file, the first missing directory can be made, the directory made is the destination's parent and not a file or link, and the destination is free or a file; with that directory already there, only the destination changes |
| Copy.CopyEachLands | src/copy.ts:7-12 | separate files whose destinations' directories already exist, with each destination free or a file, are all copied |
| Copy.CopyOne | src/copy.ts:8-11 | one file: `mkdir` of the destination's directory, then `copyFile`; `Copy.CopyOneSpec` states the effect of a success and `Copy.CopyOneLands` when it succeeds |
| Copy.CopyEach | src/copy.ts:7-12 | the files in order, the first failure failing the call; `Copy.CopyEachSpec` states the effect and `Copy.CopyEachLands` when it succeeds |
| Copy.CopyFiles | src/copy.ts:5-13 | a failing glob fails the copy; separate globbed files whose destinations' directories exist are copied successfully; on success, under the same separation, every globbed file's bytes are at its destination, every existing path that is not a destination keeps its status, and no link appears |
| Copy.CopyFilesExample | src/copy.spec.ts:37-40 | with `copy-files-dir/package.json` and an empty `dest-folder`, copying `copy-files-dir/*` to `dest-folder` succeeds and `dest-folder/package.json` holds the source's bytes |
| Links.LinkKind | src/symlink.ts:11 | a requested type containing `dir` becomes `junction` on a platform whose name contains `win32`, and is passed through otherwise |
| Links.LinkKindCases | src/symlink.ts:11 | directory links are junctions exactly on Windows; file links always keep the `file` type |
| Links.Unlink | src/symlink.ts:14-26 | a missing destination, including a dangling link, is left alone; an existing destination and everything below it disappear and nothing else changes |
| Links.UnlinkKeepsTarget | src/symlink.ts:22-24 | removing a link leaves what it points to unchanged |
| Links.SelfLinkMissing | src/symlink.ts:16 | a link to itself never resolves, so `existsSync` reports it missing |
| Links.SymlinkOverDangling | src/symlink.ts:7-12 | a dangling link at the destination is not removed, so creating the link fails |
| Links.SymlinkSpec | src/symlink.ts:7-12 | with an existing parent directory and no dangling link in the way, the destination becomes a link to the resolved source with the chosen type; its old subtree is gone and nothing else changes |
| Links.Symlink | src/symlink.ts:7-12 | unlink the resolved destination, then create the link of the chosen type; `Links.SymlinkSpec`, `Links.SymlinkOverDangling` and `Links.SymlinkTwice` state its outcome |
| Links.SymlinkDirFileKinds | src/symlink.ts:28-29 | `symlinkDir` makes a junction on Windows and a `dir` link elsewhere; `symlinkFile` always makes a `file` link |
| Links.SymlinkTwice | src/symlink.ts:7-12 | linking the same destination again yields the same filesystem |
| Legacy.LegacyOptions | src/file.ts:61-66 | the older walk is recursive exactly when the glob contains `**` anywhere; the relative flag is passed through |
| Legacy.LegacyOptionsExample | src/file.ts:61-66 | `src/elements/input/*` gives base `<cwd>/src/elements/input`, no recursion and pattern `*` |
| Legacy.LeadingStarsDiffer | src/file.ts:63 | `./**/*` is recursive for the older walk but not for the current one |
| Legacy.Follow | src/file.ts:34 | `stat` on an entry follows links, and never yields a link |
| Legacy.RelativeString | src/file.ts:41-43 | a relative result always starts with `./` |
| Legacy.WalkDir | src/file.ts:28-56 | every result is non-empty and free of commas (which files come back: `LegacyReach.WalkDirShown`, `LegacyReach.WalkDirIff`) |
| Legacy.LegacyWalk | src/file.ts:28-56 | an empty base fails with `ENOENT`; success needs `stat` to find a directory at the base; results are non-empty and comma-free (which files come back: `LegacyReach.LegacyWalkIff`) |
| Legacy.NonRecursiveWalk | src/file.ts:32-55 | a non-recursive walk succeeds exactly when every entry resolves, and returns the matching files, rejoined and split at commas |
| Legacy.EntryFiles | src/file.ts:32-53 | what one entry contributes to the older walk; `LegacyReach.EntryFilesAgrees` relates it to the reference recursion, and `Legacy.TopLevelAbsolute` and `Legacy.NestedKept` state how its results reach the walk of the directory |
| Legacy.NonRecursiveCommaFree | src/file.ts:41-55 | without commas in names, a non-recursive walk returns exactly the matching files, and the relative flag makes no difference |
| Legacy.TopLevelAbsolute | src/file.ts:47-50 | a matching file directly in the base, even one reached through a link, is listed by its absolute path |
| Legacy.NestedKept | src/file.ts:35-46 | every result of a subdirectory's walk reaches the parent's list, rewritten as `./`-relative when asked |
| Legacy.CycleFails | src/file.ts:34-39 | a directory that links back to itself makes the recursive walk fail after too many links, where the current walk lists nothing |
| Legacy.LinkedFileDiffers | src/file.ts:34 | a linked file is listed by the older walk but not selected by the current one |
| Legacy.CommaFlattenPieces | src/file.ts:54-55 | the join and split at commas, then the filter, equals splitting every result at its commas and dropping empty pieces |
| Legacy.CommaFreeFlatten | src/file.ts:54-55 | with no commas and no empty strings, the join and split is plain flattening |
| Legacy.CommaFlattenKeeps | src/file.ts:54-55 | a non-empty comma-free result survives the join and split |
| Legacy.CommaSplitExample | src/file.ts:54 | a file named `a,b.ts` comes out as two results, `a` and `b.ts` |
| Legacy.Gather | src/file.ts:60-68 | gathering succeeds exactly when every walk succeeds, keeping the results in order |
| Legacy.LegacyGlobFiles | src/file.ts:58-71 | succeeds exactly when every walk succeeds; the comma round trip then loses and splits nothing, so the result is the walks' results concatenated in glob order, its length the sum of theirs, the same as the current `Glob.ConcatAll` |
| Legacy.GatherConcat | src/file.ts:58-71 | `Promise.all` followed by concatenation fails with the first failing walk, or concatenates the walks' values in order |
| Legacy.GatheredFlatten | src/file.ts:69-70 | with walk results that are non-empty and comma-free, the final join and split is plain concatenation, as long as the walks' results together |
| Legacy.LegacyUnlinkDir | src/file.ts:108-119 | a missing destination is left alone; a directory or a link disappears with everything below it; a regular file is kept |
| Legacy.LegacyUnlinkAgrees | src/file.ts:108-119 | except on a regular file, the older `unlinkDir` behaves as the current one |
| Legacy.LegacyKind | src/file.ts:103-104 | the older link type is `junction` exactly when the platform name is `win32`, otherwise `dir` |
| Legacy.LegacyKindAgrees | src/file.ts:103-104 | for `win32` and for names not containing `win32`, the older and current directory link types agree |
| Legacy.LegacySymlinkOverFile | src/file.ts:100-106 | linking over a regular file fails in the older form but succeeds in the current one |
| Legacy.LegacySymlinkSpec | src/file.ts:100-106 | away from regular files, the older `symlinkDir` replaces the destination by a link of the older type and changes nothing else |
| Legacy.LegacySymlinkDir | src/file.ts:100-106 | the older `symlinkDir`; `Legacy.LegacySymlinkSpec` and `Legacy.LegacySymlinkOverFile` state its outcome |
| Legacy.LegacyCopyFiles | src/file.ts:89-98 | a failing glob fails the copy; separate globbed files whose destinations' directories exist are copied successfully; on success, under the same separation as the current copy, every globbed file's bytes are at its destination, every existing path that is not a destination keeps its status, and no link appears |
| LegacyReach.Reach | src/file.ts:33-35 | following names from a directory classifies every entry with `stat`, so links are entered; a reached path of one or more names is never a link |
| LegacyReach.ReachedFirst | src/file.ts:33-52 | every path one entry contributes starts with that entry's name |
| LegacyReach.ReachValid | src/file.ts:31-34 | in a well-formed tree every reached path is made of valid names |
| LegacyReach.ReachedFirstIff | src/file.ts:33-52 | one entry contributes exactly the selected paths through its name |
| LegacyReach.ReachedIff | src/file.ts:32-53 | the walk's recursion, on paths, lists exactly the files `stat` reaches (links followed) at depth one, or at any depth when recursive, whose name matches |
| LegacyReach.RelativePrintResolves | src/file.ts:41-43 | a `./`-relative result resolves back to the file's path |
| LegacyReach.ShownResolves | src/file.ts:41-49 | every printed result, absolute or relative, resolves to the file's path |
| LegacyReach.ShownCommaFree | src/file.ts:41-49 | a printed result is never empty and has a comma only where a name on its path does |
| LegacyReach.ShownStep | src/file.ts:40-45 | making a nested result relative again one level up gives the result as the parent prints it |
| LegacyReach.WalkDirAgrees | src/file.ts:28-56 | the older walk fails exactly when its recursion on paths fails, with the same error; with comma-free names it returns that recursion's paths as printed, in the same order |
| LegacyReach.WalkDirShown | src/file.ts:28-56 | with no comma in a name on a selected path, a successful walk is the printed flattening of the selected paths in `readdir` order |
| LegacyReach.WalkDirIff | src/file.ts:28-56 | with no comma in a name on a selected path, a string is in a successful walk exactly when it is the printed form of a selected file |
| LegacyReach.LegacyWalkIff | src/file.ts:28-56 | the same for the walk from its base, read with `stat` |
| LegacyReach.LinkedDirDiffers | src/file.ts:34-39 | a file below a link to a directory is selected by the older walk but not by the current one |
| Primitives.Create | src/copy.ts:10-11 | creating an entry succeeds exactly when the path is free and its parent is a directory |
| Primitives.CreateEffect | src/copy.ts:10-11 | the new entry appears at the path and nothing else changes |
| Primitives.MkdirEffect | src/mkdrip.ts:9 | `mkdirSync` adds one directory and changes nothing else |
| Primitives.Mkdir | src/mkdrip.ts:9 | `mkdirSync` succeeds exactly when the path is free even to `lstat` and its parent is a directory |
| Primitives.Unlink | src/clean.ts:13 | `unlink` succeeds exactly on an existing non-directory, and removes only that entry |
| Primitives.RemoveLeafEffect | src/clean.ts:13 | removing a file or a link removes that one path and nothing else |
| Primitives.Rmdir | src/clean.ts:16 | `rmdir` succeeds exactly on an empty directory, and removes only that entry |
| Primitives.Symlink | src/symlink.ts:10-11 | `symlink` succeeds exactly when the path is free and its parent is a directory, and adds only the link |
| Primitives.CopyFile | src/copy.ts:11 | fails unless the source reads through links as a file; for a destination that is not a link, succeeds exactly when the destination is a file, or is free under a directory, and then writes the source's bytes there and changes nothing else |
| Primitives.OverwriteEffect | src/copy.ts:11 | overwriting an existing file changes that one path and nothing else |
| Primitives.CreateFileEffect | src/copy.ts:11 | a new file where nothing was adds that one path and nothing else |
| Paths.RelativeRoundTrip | src/glob.ts:32 | resolving `relative(from, to)` against `from` gives `to` back |
| Paths.AbsStringRoundTrip | src/symlink.ts:8 | resolving a printed absolute path gives the path back |
| Paths.NormalizeNormal | src/glob.ts:16 | `normalize` leaves a plain relative path unchanged |
| Paths.BasenameJoin | src/glob.ts:17 | `basename` of a joined path is its last name |
| Paths.DirnameAbs | src/copy.ts:10 | `dirname` of an absolute path is its parent |
| Strings.ReplaceFirstAt | src/copy.ts:9 | `replace` with a string pattern replaces the first occurrence only |
| Strings.SplitJoin | src/mkdrip.ts:5-7 | splitting joined names without separators gives the names back |
| Strings.JoinSplit | src/mkdrip.ts:5-7 | joining the pieces of a split gives the string back |

## Left out

- A link in the middle of a path is not followed. `lstat` and `stat` follow at most the final link, so a path that continues below a link does not resolve (`ENOTDIR`). In Node it resolves through the link. For example, `mkdirp` below a linked directory fails in the model.
- `Promise.all` concurrency is not modelled. The calls run in input order and the first failure is the result. In Node several calls may have started before one fails.
- JavaScript's `replace` treats `$&`, `$1` and `$$` in the replacement string specially. `Strings.ReplaceFirst` inserts the replacement literally.
- Only the POSIX separator `/` is modelled. On Windows, paths with drive letters and `\` are not modelled; the platform name only selects the link type.
- `minimatch` internals are not modelled. Matching is the parameter `matches(name, pattern)`.
- File permissions, modes, timestamps, `EACCES`-style failures and the operating system's concurrent changes to the disk are not modelled. File contents are byte sequences.
- `src/cli.ts`, `src/file-async.ts`, `build.ts`, `aria.config.ts` and `tools/` are not part of this model.
- The working directory is required to be a resolved path (`ValidPath(cwd)`), as `process.cwd()` always is.
- Legacy.WalkDir: its own contract states only the shape of the results. Which files come back is stated by `LegacyReach.WalkDirAgrees`, `LegacyReach.WalkDirShown` and `LegacyReach.WalkDirIff`, and only when no name on a selected path contains a comma. With such a name, the comma round trip splits the path into pieces (`Legacy.CommaSplitExample`).
- Legacy.LegacyWalk: the same, through `LegacyReach.LegacyWalkIff`.
- The older walk follows directory links through `stat`. At nesting depth k, the path it stats passes through k links, and Linux refuses a lookup that crosses more than 40 links with `ELOOP`. On a one-link cycle the original therefore fails at the 41st nested descent. The bound `Legacy.MaxLinkDescents` = 40 reproduces that limit: `Legacy.WalkDir` fails at that step with `ELOOP`. On other shapes the model differs. It counts the links crossed by nested descents separately from a chain of links followed at one step (`Tree.MaxSymlinkHops`), whereas Linux counts every link on one path.
- Copy.SrcRootDir: when the working directory is the filesystem root, `resolve() + sep` is `//`. That edge is modelled as written, without further properties.
- Links.UnlinkDir, Links.UnlinkFile, Links.SymlinkDir and Links.SymlinkFile are the one-line exports. Their properties are those of `Links.Unlink` and `Links.Symlink`, plus `Links.SymlinkDirFileKinds`.
- Primitives.CopyFile: when the destination is a link, the write follows it; when that succeeds is not stated, only that a failing read fails the copy.
- Copy.CopyOne: the recursive `mkdir` of the destination's directory is modelled by `Mkdirp.Mkdirp`, which accepts an existing file as the target. When that directory is an existing file, Node fails at `mkdir` with `EEXIST`; the model fails one step later, at `copyFile`, with `ENOTDIR`. Both fail and change nothing; only the error code differs.
- Copy.CopyFiles: success is stated only when every destination's directory already exists (`Copy.Landable`). When `mkdir` has to create it, `Copy.CopyOneLands` states when a single copy succeeds, but the list is not lifted, because an earlier copy's new directories change what a later one finds.
- Copy.CopyFiles: the effect on success is stated only under `Copy.Separate`. Every source must be a regular file by `lstat`. No destination may be a link. The destinations must differ from each other and from every source. Outside these conditions, the outcome can depend on the order in which the concurrent copies finish, for example when a later copy overwrites an earlier destination or reads a source an earlier copy wrote. A link at a destination is written through.
- Legacy.LegacyCopyFiles: the effect is stated under the same `Copy.Separate` conditions as the current form, for the same reason. Success of the whole list is stated only when every destination's directory already exists (`Copy.Landable`), as for `Copy.CopyFiles`.
- Clean.Clean: a link to a directory fails at once with `ENOTDIR` in the model and changes nothing. In Node, `existsSync` and `readdir` follow the link, each child is then unlinked or cleaned through the link, and only the final `rmdir` of the link fails with `ENOTDIR`. So Node empties the linked directory before it fails. The model does not delete those files.
- Glob.Walk: the exact set of results is stated for well-formed trees, where names in a directory are unique. For other trees only success, emptiness and non-empty results are stated.
- `src/file.spec.ts` imports `unlinkFile` and `symlinkFile` from `src/file.ts`, which does not export them. Its file counts for the older `globFiles` are not restated; only the options of its first case are (`Legacy.LegacyOptionsExample`).

## Behaviour worth knowing

These points follow from the code.
- Walking a base directory that does not exist fails with `ENOENT`, because `readdir` rejects; `globFiles` then fails rather than returning an empty list (`Glob.Walk`). An existing empty directory gives an empty list.
- `globFiles` does not remove duplicates when several globs select the same file. One walk never repeats a file (`Glob.CollectNoDuplicates`), but overlapping globs each list it.
- The current walk classifies entries with the `Dirent` types, which do not follow links. Linked files and linked directories are skipped. The older walk uses `stat` and follows them (`Legacy.LinkedFileDiffers`).
- A glob with an absolute base prints absolute results re-rooted below the working directory (`Glob.EmitAbsoluteBaseQuirk`). This is because `join` of two absolute paths concatenates them.
- `copyFiles` computes a destination by replacing the first occurrence of the source root's name anywhere in the absolute path. That can be inside the working directory's own path (`Copy.ShadowedRootExample`).
- The older `unlinkDir` leaves a regular file in place, so the older `symlinkDir` fails over a file (`Legacy.LegacySymlinkOverFile`).
