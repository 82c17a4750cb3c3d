# waypoint-plugin-archive builder, modelled in Dafny

This models the build step of a Waypoint plugin that packs project files into a
zip archive. The step has three parts.

- **Source expansion** (`expandSource`) walks a source root in lexical
  pre-order. It applies an ignore list to every node's path relative to that
  root. An ignored directory prunes its subtree, directories are never
  listed, and a file is listed unless its relative path is ignored exactly.
- **Archive writing** (`archive`) writes one zip entry per listed file, in
  order. Each entry is named by the file's path relative to a base path and
  holds the file's bytes. A source that is the output archive itself is
  skipped. The first failure ends the loop.
- **Orchestration** (`build`, with `ConfigSet` and `fileExists`):
  - refuses an empty source list;
  - refuses an existing output unless overwriting;
  - expands every configured source below the project directory, concatenating the lists in order;
  - picks the base path: the project directory when the top-level folder is collapsed, the working directory otherwise;
  - calls `archive`.

The filesystem is an in-memory tree (`FileTree.Node`): a file with its bytes,
a directory whose listing is sorted and free of duplicates (as the sorted
`readDirNames` listing is), or an entry the process may not read. Paths are
strings. `Paths` models Go's `filepath.Clean`, `Join`, `Abs` and `Rel` on a
Unix host. It works by splitting and normalising into a canonical
`CleanPath`, and proves the round trip `Clean(Format(c)) == c`.

Modules, following the program:

| file | module | what |
|---|---|---|
| outcomes.dfy | Outcomes | `Option`, `Result`, the builder's errors |
| paths.dfy | Paths | path cleaning, joining, absolutising, relativising |
| filetree.dfy | FileTree | the filesystem tree; `Lookup`, `Resolve`, `FileExists` |
| expand.dfy | Expand | the walk as a specification (`WalkNode`, `ExpandSpec`), its properties, and the imperative expander (`Expander`, `ExpandSource`) |
| archive.dfy | Archive | the archive loop as a specification (`SourceStep`, `Run`, `ArchiveSpec`), its properties, and the zip writer and output file classes with `WriteArchive` |
| build.dfy | Build | `Config`, `ConfigSet`, `BuildSpec`, the imperative `Build`, and its properties |
| fixtures.dfy | Fixtures | small trees shaped like the repository's test data, and the walk's result on them |

Each imperative method is proved equal to its specification function:
- `ExpandSource` returns `ExpandSpec`;
- `WriteArchive` leaves the file `ArchiveSpec` describes;
- `Build` returns and leaves what `BuildSpec` describes.

The lemmas then state the source's promises about those functions.

`fileExists` is the predicate `FileTree.FileExists`. Every stat outcome except
"does not exist" counts as existing, including a path through a regular file
or through an unreadable directory. `Build.OverwriteGuard` states how `build`
uses it.

Four points where the code's behaviour is easy to get wrong:
- **The root is checked.** Its relative path is ".", looked up like any other. Ignoring "." (for instance through the ignore entry "./") empties the list; see `Expand.RootChecked`.
- **Files outside the base path do not fail.** `filepath.Rel` names them with a leading "..". It fails only when one path is absolute and the other is not, or when the base path keeps a ".." the common prefix does not cover. `Paths.Rel` models exactly that.
- **Listed paths are spelled from the root as given.** They are the root joined with the names below it, which is absolute only when the root is. In `build` the root is joined onto the working directory.
- **Collapsing the top-level folder** names entries relative to the project directory, the one that holds the configured sources. Otherwise they are named relative to the working directory.

## Model

| member | source | states |
|---|---|---|
| Paths.CleanWellFormed | builder/builder.go:203 | the cleaned path is canonical: no empty or "." segment, ".." only as a leading run of a relative path, and rooted exactly when the input starts with a separator |
| Paths.CleanFormat | builder/builder.go:203 | round trip: cleaning the spelling of a cleaned path gives the same path back |
| Paths.FormatInjective | builder/builder.go:203 | two canonical paths with the same spelling are equal |
| Paths.CleanIdempotent | builder/builder.go:203 | cleaning is idempotent |
| Paths.CleanTrailingSep | builder/builder.go:201-204 | a trailing separator does not change the cleaned path, so "ignore/" and "ignore" are the same key |
| Paths.CleanChild | builder/builder.go:169 | joining a valid name onto a path cleans to the cleaned path extended by that name |
| Paths.JoinChild | builder/builder.go:158-162 | path.Join of a path and a valid name is non-empty and cleans to the extended path |
| Paths.JoinRelative | builder/builder.go:158 | path.Join of a path and a relative path whose cleaned segments are names extends the cleaned path by those segments |
| Paths.RelDescendant | builder/builder.go:213-216 | a path `at` below a base is named `Key(at)` relative to it: "." for the base itself, "a/b" for base/a/b; Rel does not fail there |
| Paths.NameBelow | builder/archive.go:47-50 | the file `at` below the directory `pre` below a base is named `pre/at` relative to the base |
| Paths.JoinAppend | builder/archive.go:47-50 | joining segments `a + b` is `a`, a separator, then `b` |
| FileTree.FindChildUnique | builder/builder.go:235 | in a sorted listing a child's name finds exactly that child |
| FileTree.LookupChild | builder/builder.go:235 | looking up a child's name, then the rest, is looking up the rest in the child |
| Expand.BuildLookup | builder/builder.go:201-204 | the loop fills the lookup set with exactly the cleaned ignore entries |
| Expand.IgnoredIffCleansTo | builder/builder.go:201-218 | a relative path is ignored iff some ignore entry cleans to it (exact matching, not by base name) |
| Expand.IgnoreTrailingSep | builder/builder.go:201-204 | an ignore entry with a trailing separator, at any position of the list, gives the same keys as the plain entry |
| Expand.ExpandErrors | builder/builder.go:235-238 | expansion fails only by a stat error on the root or a listing error on a directory |
| Expand.WalkSound | builder/builder.go:208-233 | everything the walk lists is a non-directory below its start, reached without passing an ignored directory, and not ignored itself |
| Expand.WalkComplete | builder/builder.go:213-230 | every non-directory below the start whose own path and ancestors' paths are not ignored is listed (when the walk succeeds) |
| Expand.WalkAbortSound | builder/builder.go:209-211 | a walk failure names an unreadable directory below the start, reached without passing an ignored directory |
| Expand.WalkAbortComplete | builder/builder.go:209-238 | a walk that reaches an unreadable directory (through no ignored directory above it) fails, so no list is returned |
| Expand.WalkSorted | builder/builder.go:235 | walk order is lexical pre-order: the listed relative paths strictly increase |
| Expand.ExpandExact | builder/builder.go:213-230 | a path below the root is in the result iff it names a file reached through no ignored directory and is not ignored itself |
| Expand.ExpandNoDuplicates | builder/builder.go:228-230 | each file appears once in the result |
| Expand.RootChecked | builder/builder.go:213-229 | the root is looked up as ".": ignoring "." gives an empty list, and a single-file root is listed as given otherwise |
| Expand.JoinBelow | builder/builder.go:235 | filepath.Join of a node's path and a child's name is the child's path, spelled as the cleaned root extended by both |
| Expand.Expander.constructor | builder/builder.go:206 | the sources list starts empty; the closure's root is the source, cleaned |
| Expand.Expander.Walker | builder/builder.go:208-233 | the walker closure: a handed-over error or a Rel error stops the walk; a directory gives SkipDir iff ignored; a file is appended iff not ignored |
| Expand.Expander.Walk | builder/builder.go:235 | filepath.Walk of one node with the walker: appends exactly the walk specification's files, or returns its listing error |
| Expand.Expander.WalkEntries | builder/builder.go:235 | the loop over a directory's sorted children: appends the children's files in order, or stops at the first error |
| Expand.Expander.WalkChild | builder/builder.go:235 | one turn of the directory loop: appends the child's files and goes on, or stops with the child's listing error |
| Expand.ExpandSource | builder/builder.go:200-241 | expandSource returns exactly `ExpandSpec`: the walk's files as paths, or the stat or listing error and no list |
| Archive.Kept | builder/archive.go:34-38 | the kept sources are exactly the sources whose absolute path is not the output path |
| Archive.RunConcat | builder/archive.go:27-67 | archiving `a + b` writes `a`'s entries then `b`'s, and nothing of `b` once `a` failed |
| Archive.RunStops | builder/archive.go:64-66 | once a source has failed, the sources after it change nothing |
| Archive.RunErrorOrigin | builder/archive.go:64-66 | the error the loop ends with is the error of one of its failing sources |
| Archive.RunSucceeds | builder/archive.go:64-69 | archive returns no error iff no source fails |
| Archive.FirstFailure | builder/archive.go:28-66 | on failure, the error is that of the first failing source; entries before it stay, its half-written entry stays, nothing after it is written |
| Archive.StepSkip | builder/archive.go:29-36 | a source is skipped iff its absolute path is the output path |
| Archive.StepEntry | builder/archive.go:40-60 | an entry a source adds has the source's relative name (Rel against the base path) and the file's bytes |
| Archive.StepErrors | builder/archive.go:40-60 | a source fails by an open, a Rel or a copy error |
| Archive.ArchiveErrors | builder/archive.go:27-67 | once the output is created, archive fails only by an open, Rel or copy error |
| Archive.ArchiveEntries | builder/archive.go:27-67 | a successful archive holds one entry per kept source, in order, named relative to the base path and holding the file's bytes |
| Archive.RunNoSkips | builder/archive.go:36-38 | skipped sources write nothing and fail nothing |
| Archive.StepsKept | builder/archive.go:36-38 | the steps of the kept sources are the steps that are not skips |
| Archive.SkipsOutput | builder/archive.go:34-38 | dropping the sources whose absolute path is spelled exactly like the output path changes nothing |
| Archive.BaseRemap | builder/archive.go:10-15 | with the base path at the root a file `at` is named `at`; with the base path at the root's parent `p/n` it is named `n/at` |
| Archive.OutputFile.constructor | builder/archive.go:17 | os.Create gives an empty, open file |
| Archive.OutputFile.Close | builder/archive.go:22 | closing keeps the file's entries |
| Archive.ZipWriter.constructor | builder/archive.go:24 | a new writer has no entries |
| Archive.ZipWriter.Create | builder/archive.go:52-55 | Create appends an empty entry under the given name |
| Archive.ZipWriter.Write | builder/archive.go:57-60 | the copy appends bytes to the last entry and changes nothing else |
| Archive.ZipWriter.Close | builder/archive.go:25 | closing the writer makes the file hold exactly its entries |
| Archive.AddSource | builder/archive.go:28-63 | the per-source closure writes what `SourceStep` says: nothing, one entry, or a partial entry and its error |
| Archive.AddSources | builder/archive.go:27-67 | the loop stops at the first error, and writes exactly what `Run` describes |
| Archive.WriteArchive | builder/archive.go:16-70 | no file iff the output cannot be created, with the create error; otherwise the closed file holds exactly `ArchiveSpec`'s entries and the error is `ArchiveSpec`'s |
| Build.ConfigSet | builder/builder.go:107-110 | the configuration is refused, with the empty-sources error, iff it names no source |
| Build.GatherConcat | builder/builder.go:168-176 | expanding sources `a + b` is expanding `a`, then `b`, concatenated, with the first error winning |
| Build.GatherOk | builder/builder.go:168-176 | the expansion loop succeeds iff every source expands |
| Build.GatherError | builder/builder.go:170-173 | a failed expansion loop reports some source's expansion error |
| Build.GatherNotOutputExists | builder/builder.go:168-176 | no expansion fails with "Output file already exists" |
| Build.ExpandAll | builder/builder.go:168-176 | the expansion loop returns exactly `Gather` of the per-source expansions: every source's files concatenated in order, or the first error |
| Build.ArchiveNotOutputExists | builder/builder.go:183-187 | no archive failure is "Output file already exists" |
| Build.OverwriteGuard | builder/builder.go:164-166 | build fails with "Output file already exists" iff overwriting is off and the output exists (fileExists), and then writes nothing |
| Build.BuildEntries | builder/builder.go:158-191 | a successful build returns the output path and leaves one entry per expanded file (other than the output itself), in order, named relative to the chosen base path, with the file's bytes |
| Build.ProjectFilePath | builder/builder.go:158-169 | for a project directory and a source that are relative paths with cleaned segments `ds` and `ss` ("." has none), the file `at` below the source cleans to the project directory extended by `ss + at`, and to the working directory extended by `ds + ss + at` |
| Build.CollapseNaming | builder/builder.go:178-181 | with those segments, the file `at` below the source is named `ss/at` relative to the project directory and `ds/ss/at` relative to the working directory |
| Build.DotSourceNaming | builder/builder.go:47 | with the documented source ".", a file is named relative to the project directory by its path `at` below it, with no "./" prefix |
| Build.OutputSkipped | builder/builder.go:162-183 | in build the output path is a cleaned spelling, so archive skips a source iff it cleans to the output path |
| Build.Build | builder/builder.go:158-191 | build returns and leaves exactly what `BuildSpec` describes; the output file it created is closed |
| Fixtures.NestedKeys | builder/builder_test.go:22 | the ignore list "ignore/", "file.txt" gives the keys "ignore" and "file.txt" |
| Fixtures.OnlyFilesExpansion | builder/builder_test.go:41-51 | ignoring "file1.txt" keeps file2.txt, file3.txt and file4.txt, in order |
| Fixtures.NestedExpansion | builder/builder_test.go:19-35 | "ignore/" prunes the directory ignore, and "file.txt" drops the top-level file.txt but keeps dir1/file.txt |
| Fixtures.OnlyDirsExpansion | builder/builder_test.go:36-40 | a tree of directories only expands to the empty list |

## Left out

- `Documentation`, `Config`, `BuildFunc` and the rest of the SDK plumbing in builder/builder.go: they only wire the plugin into Waypoint. main.go is not part of this model.
- The logger and terminal status calls in `build`: they report progress and change no result.
- `os.Getwd` failing is not modelled. The working directory is a parameter, so `filepath.Abs` never fails here.
- The zip byte format: the archive is the ordered list of (name, bytes) entries a zip reader would show.
- Write errors of the zip writer and the output file are not modelled: `w.Create` and the copy into an entry always succeed once the source is readable. The errors of the deferred `Close` calls, which Go discards, are not modelled either.
- Only reading fails. A source that cannot be opened and a directory whose listing cannot be read are `Denied` nodes; a directory opens, but copying from it fails.
- `os.Create` succeeds when the parent is a directory and the target is absent or a regular file.
- Archive.SourceStep: the loop reads the tree as it was before `os.Create`. A source that reaches the output file without being skipped therefore reads the output's old bytes, where Go reads the truncated file. Within `build` this cannot happen, because every source that cleans to the output path is skipped (`Build.OutputSkipped`). It can happen when `archive` is given a relative `outputPath`, which never equals the absolute `abs`.
- Symbolic links and other special files. The tree has regular files and directories only.
- A directory whose listing can be read but whose entries cannot be examined (read without search permission) is not modelled. There `readDirNames` succeeds, `lstat` of each child fails, and the walker returns that error, so the walk aborts unless the directory is ignored or empty. A `Dir` node lists its children and a `Denied` directory aborts even when ignored, so neither is this case.
- The walker closure's `filepath.Rel(source, path)` is computed from the source cleaned once (`Paths.RelFrom`), where Go cleans it again on each call. `Paths.Rel` is defined as exactly that, so the names are the same.
- Go's nil list versus an empty list: an empty expansion is the empty sequence.
- Separators other than '/'. The model treats paths as on a Unix host.
- Source file handles: `os.Open` is a lookup. The deferred close of the source file has no observable effect in the model.
- Expand.ExpandSource requires a well-formed tree (sorted, valid names). That is a property of what `readDirNames` returns, not a demand on callers.
