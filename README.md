# subsearch, modelled in Dafny

subsearch indexes the subtitles of video files in a full-text index and
finds the moments where a phrase is spoken. This project models its core:

- the `Database` object, with `create`, `open`, `add`, `add_recursive` and
  `search`;
- the path handling these rely on: `normpath`, `join`, `abspath`,
  `relpath`, `listdir` and `sorted`;
- `Result.midpoint`;
- the FFmpeg filter escape in `get_image` and how the `search` command
  names its stills;
- the version string `setup.py` builds from git.

The project proves properties of that model.

## Files

- `options.dfy`: `Option`.
- `strings.dfy`: the string operations the core uses. These are `str.strip`,
  `str.replace`, slicing, `startswith` and `'%02d' % i`.
- `paths.dfy`: POSIX path operations on component sequences, with
  `normpath` as the fold over components that `posixpath` performs.
- `filetree.dfy`: the file system as a tree of named entries, with
  `os.path.isdir`, `os.listdir` and Python's `sorted` on strings.
- `index_spec.dfy`: the value-level meaning of the core. It defines:
  - the stored path `add` chooses and the path `search` rebuilds from it;
  - the documents one file contributes;
  - the walk `add` makes through a directory tree;
  - the outcome of adding a path, and what a search returns.
- `database.dfy`: the objects. These are the index with its writer and
  commit, the storage location, and the `Database` class. `Create` and `Open`
  are proved against `ConfigFor` and `RelativeOf` in this file. `Add`,
  `AddNames`, `AddRecursive` and `Search` are proved against the functions
  in `index_spec.dfy`.
- `ffmpeg.dfy`: the filter-path escape and the output file names.
- `setup.dfy`: `version_git` and `version` over the outcomes of the four
  git commands.

The file system, the subtitle reader, the working directory and the git
commands are parameters.

- **Raising as an outcome.** An `add` either returns normally or raises.
  The model reports this as an `ok` flag together with the documents
  committed so far.
- **The search engine.** Its query parser and ranking are outside the
  model. A search receives the engine's order of matching documents as a
  `ranking` it must respect.

## A failing file ends the walk

The error from `read_subs` (`subsearch.py:148`) is not caught. It travels
out of `add` and out of the loop in `add_recursive`
(`subsearch.py:130-132`), so a recursive add ends at the first file whose
subtitles cannot be read:
- files before it stay committed, because every file has its own writer
  and `commit`;
- no file after it is added.

`IndexSpec.AddLeavesStopsAtFailure` states this in terms of the walk, and
`Subsearch.Database.AddRecursive` is proved to behave this way.

## Model

| member | source | states |
|---|---|---|
| IndexSpec.Result.Midpoint | subsearch.py:87-89 | the midpoint is equally far from `start` and `end`, and lies between them when `start <= end` |
| Subsearch.Index.Writer | subsearch.py:149 | a fresh writer on this index with nothing pending |
| Subsearch.IndexWriter.AddDocument | subsearch.py:153 | the document is appended to the pending ones, not to the index |
| Subsearch.IndexWriter.Commit | subsearch.py:154 | every pending document becomes visible at once, after those committed before |
| Subsearch.Database.Create | subsearch.py:97-112 | a fresh, empty index at the location; the configuration `{"relative": relative}` written beside it; a database with the given path and policy |
| Subsearch.Database.Open | subsearch.py:114-119 | fails with no index, with no configuration file, or with a configuration whose keys are not exactly `relative`; otherwise returns the stored index with the stored policy |
| Subsearch.ConfigFor | subsearch.py:105-107 | the configuration object `{"relative": relative}` that `create` writes (no contract of its own); `ConfigRoundTrip` states its meaning |
| Subsearch.RelativeOf | subsearch.py:119 | the constructor accepts the configuration exactly when its only key is `relative`, and takes that value as the policy |
| Subsearch.ConfigRoundTrip | subsearch.py:105-119 | the configuration written by `create` is read back by `open` as the same policy |
| Subsearch.CreateThenOpen | subsearch.py:97-119 | opening a just-created index gives its policy, its path and an empty index |
| Subsearch.Policy | subsearch.py:135-136 | an explicit `relative` argument wins; `None` falls back to the database's flag |
| Subsearch.Database.Add | subsearch.py:134-154 | ok and the committed documents are those of `AddPath`: recursion for a directory; for a file, read at the given path and stored under the resolved path; nothing committed when reading raises |
| Subsearch.Database.WriteDocuments | subsearch.py:149-154 | one writer and one commit add exactly the file's documents after the old ones |
| Subsearch.Database.AddChild | subsearch.py:131-132 | adding one more sorted name extends the loop's outcome by exactly what adding that joined path commits |
| Subsearch.Database.AddNames | subsearch.py:130-132 | the loop stops after the first name that raises, or after the last name; its result and commits are those of `AddEntries` up to where it stopped |
| Subsearch.Database.AddRecursive | subsearch.py:129-132 | a non-directory raises and commits nothing; a directory gives the outcome and commits of `AddPath` on it |
| Subsearch.Database.Search | subsearch.py:121-127 | the hits are the first `limit` documents the query selects (on any field), in the engine's order, each with its path joined onto the index root and normalised; never more than `limit` |
| IndexSpec.StoredPath | subsearch.py:140-144 | the stored path is normalised; it is absolute exactly when the policy is absolute |
| IndexSpec.Reconstitute | subsearch.py:125-127 | a result keeps content, start and end; its path is normalised, and an absolute stored path is only normalised |
| IndexSpec.SearchPathElsewhere | subsearch.py:121-144 | `search` may run from another working directory and through another path to the index than `add` did, as long as both paths name the same index root. The path it yields for a document stored for `p` then resolves, from its own working directory, to the absolute path `add` gave `p`. Under the absolute policy the yielded path is that absolute path outright, through any root path |
| IndexSpec.SearchPathRoundTrip | subsearch.py:140-144 | the same as `SearchPathElsewhere` when `search` uses the root path and working directory `add` used |
| IndexSpec.ToDocument | subsearch.py:153 | the fields of the document written for one event: the stored path, the event's start, end and plain text (no contract of its own); `FileDocumentsExact` states its use |
| IndexSpec.FileDocuments | subsearch.py:150-153 | the documents the event loop writes (no contract of its own); `FileDocumentsExact` and `FileDocumentsFromEvents` state its meaning, and `Subsearch.Database.WriteDocuments` is proved against it |
| IndexSpec.NonCommentIndices | subsearch.py:150-152 | the positions of the non-comment events: every one of them, in ascending order and no other |
| IndexSpec.FileDocumentsExact | subsearch.py:150-153 | a file contributes one document per non-comment event, in event order, with the stored path and the event's start, end and text |
| IndexSpec.FileDocumentsFromEvents | subsearch.py:150-153 | every document of a file comes from a non-comment event; a file of comments only contributes nothing |
| IndexSpec.AddFile | subsearch.py:140-154 | adding a file succeeds exactly when reading it succeeds; it then commits that file's documents, and otherwise nothing |
| IndexSpec.Then | subsearch.py:130-132 | after a raise nothing further runs; otherwise the outcomes' documents are concatenated |
| IndexSpec.ThenAssoc | subsearch.py:130-132 | sequencing the adds of the walk is associative |
| IndexSpec.ThenCommits | subsearch.py:130-132 | commits made by one add and then the next are what their sequencing describes |
| IndexSpec.AddLeavesAppend | subsearch.py:130-132 | adding two runs of files is adding the first run and then the second |
| IndexSpec.AddLeavesStopsAtFailure | subsearch.py:130-148 | when the first k files read, their documents are committed file by file; when file k then fails, the walk has committed that much and raises |
| IndexSpec.Walk | subsearch.py:129-138 | the files `add` reaches from an entry, directories expanded in sorted order (no contract of its own); `LeavesAreFiles`, `LeavesBelow` and `AddEntryLeaves` state its meaning |
| IndexSpec.AddEntry | subsearch.py:134-138 | adding an entry: a directory name by name in sorted order, a file through the adder (no contract of its own); `AddEntryLeaves` states its meaning |
| IndexSpec.AddEntries | subsearch.py:130-132 | the outcome of the loop after the first `i` sorted names (no contract of its own); `AddEntriesLeaves`, `AddEntriesStays`, `AddEntriesStop` and `AddEntriesNext` state its meaning, and `Subsearch.Database.AddNames` is proved against it |
| IndexSpec.AddNamed | subsearch.py:131-132 | one turn of the loop: adding the listed name joined onto the directory (no contract of its own); `ChildStep` states that it is adding the joined path |
| IndexSpec.AddPath | subsearch.py:134-138 | adding what lies at a path (no contract of its own); `AddPathLeaves` states its meaning, and `Subsearch.Database.Add` is proved against it |
| IndexSpec.AddEntryLeaves | subsearch.py:129-138 | adding an entry is adding, in order, the files the walk reaches from it |
| IndexSpec.AddEntriesLeaves | subsearch.py:130-132 | the loop over the first i names adds the files reached through those names |
| IndexSpec.AddPathLeaves | subsearch.py:134-138 | adding a path is adding its leaves one after the other |
| IndexSpec.AddEntriesStays | subsearch.py:130-132 | once a name has raised, later turns of the loop change nothing |
| IndexSpec.AddEntriesStop | subsearch.py:130-132 | a loop that raised, or went through every name, has the outcome of adding the whole directory |
| IndexSpec.ChildStep | subsearch.py:130-132 | the i-th sorted name joined onto the directory is a smaller entry, and adding it is turn i of the loop |
| IndexSpec.AddEntriesNext | subsearch.py:130-132 | after turn i the committed documents have grown by exactly what that name's add committed |
| IndexSpec.SortedListing | subsearch.py:130 | every name of the sorted listing is a name of the listing |
| IndexSpec.SortedName | subsearch.py:130 | the k-th of the sorted names of a directory is one of its names |
| IndexSpec.WalkChildLeaves | subsearch.py:131-132 | the walk into a listed name is the walk from the joined path, and that entry is strictly smaller |
| IndexSpec.LeavesAreFiles | subsearch.py:137-138 | a directory is never indexed itself: every path the walk reaches is not a directory |
| IndexSpec.LeafIsFile | subsearch.py:137-138 | one path the walk reaches is not a directory |
| IndexSpec.ChildLeafIsFile | subsearch.py:137-138 | a path reached through one listed name is not a directory |
| IndexSpec.WalkUpToMember | subsearch.py:130-132 | a path reached through the first i names is reached through one of them |
| IndexSpec.LeavesBelow | subsearch.py:129-132 | every file the walk reaches lies below the starting path, in absolute form |
| IndexSpec.LeafBelow | subsearch.py:129-132 | one file the walk reaches lies below the starting path |
| IndexSpec.ChildLeafBelow | subsearch.py:130-132 | a file reached through a listed name lies below the directory |
| IndexSpec.ChildBelow | subsearch.py:131 | a listed name joined onto a directory lies one level below it |
| IndexSpec.PrefixTrans | subsearch.py:129-132 | lying below is transitive |
| IndexSpec.HitsSnoc | subsearch.py:124-127 | one more hit appends the next ranked document, reconstituted |
| IndexSpec.Limited | subsearch.py:124 | the number of hits: `limit` when it is given and smaller than the number of matches, else every match (no contract of its own); `HitsComplete` and `Subsearch.Database.Search` use it |
| IndexSpec.Hits | subsearch.py:124-127 | the first `n` ranked documents, each turned back into a result (no contract of its own); `HitsSound` and `HitsComplete` state its meaning, and `Subsearch.Database.Search` is proved against it |
| IndexSpec.HitsSound | subsearch.py:124-127 | every search result is a document the query selects, reconstituted |
| IndexSpec.HitsComplete | subsearch.py:124-127 | a search the limit does not cut short returns every document the query selects |
| Paths.Join | subsearch.py:131 | `os.path.join` of two paths: an absolute second path replaces the first, otherwise it is appended without a doubled separator (no contract of its own); `AbsJoin`, `AbsJoinName`, `JoinNameParts` and `NormJoinNorm` state its meaning |
| Paths.JoinNameParts | subsearch.py:131 | the components of a name joined onto a directory and then onto the working directory are those of the directory joined onto the working directory, then the name |
| Paths.NormPath | subsearch.py:142 | `normpath` keeps absoluteness and yields a normal path: no empty or `.` component, and `..` only leading in a relative path |
| Paths.AbsPath | subsearch.py:144 | `abspath` is absolute and made of plain names only |
| Paths.RelPath | subsearch.py:142 | `relpath` is always relative |
| Paths.CommonPrefix | subsearch.py:142 | the length of the longest common prefix: both agree up to it and differ right after it |
| Paths.NormPathIdempotent | subsearch.py:142 | `normpath(normpath(p)) == normpath(p)` |
| Paths.NormJoinNorm | subsearch.py:126 | normalising the joined part first does not change `normpath(join(a, b))` |
| Paths.AbsJoin | subsearch.py:144 | `abspath` of a relative path joined onto a root applies that path to `abspath(root)` |
| Paths.AbsNorm | subsearch.py:142-144 | `abspath(normpath(p)) == abspath(p)` |
| Paths.RelPartsApply | subsearch.py:142 | the components `relpath` yields, applied to the start, give the target |
| Paths.RelPathRoundTrip | subsearch.py:142 | joining the normalised `relpath` back onto the start and normalising gives the same absolute path as the original |
| Paths.AbsPathJoinFixed | subsearch.py:126 | an absolute stored path comes back unchanged from `normpath(join(root, ·))` |
| Paths.AbsJoinName | subsearch.py:131 | joining a name onto a path extends its absolute form by that name |
| FileTree.Child | subsearch.py:130-131 | a listed name joined onto a directory reaches the first entry of that name, which is strictly smaller |
| FileTree.ListedLists | subsearch.py:130 | every name `listdir` returns is the name of an entry of the directory |
| FileTree.Resolve | subsearch.py:137 | how the operating system looks up a path's components (no contract of its own): `..` goes back to the parent, any component after a file fails, a missing name fails; `ResolveName`, `ResolveEmpty` and `DotDotResolved` state its meaning |
| FileTree.EntryAt | subsearch.py:137 | what lies at a path: the path joined onto the working directory and resolved from the root, and a non-directory when it does not resolve (no contract of its own); `Child` and `DotDotResolved` state its meaning |
| FileTree.IsDir | subsearch.py:137 | `os.path.isdir`: true exactly when the path resolves to a directory (no contract of its own); `DotDotResolved` and `LeavesAreFiles` state its meaning |
| FileTree.ListDir | subsearch.py:130 | `os.listdir` of a directory: its entry names in listing order (no contract of its own); `ListedLists` and `Child` state its meaning |
| FileTree.ResolveName | subsearch.py:131 | one more name after a path goes into the first entry of that name in the directory found there, and fails after a file or a missing path |
| FileTree.ResolveEmpty | subsearch.py:131 | a trailing empty component keeps a directory and fails after anything else |
| FileTree.ResolveDropTrailing | subsearch.py:131 | dropping a trailing empty component from a path to a directory reaches the same directory |
| FileTree.ResolveWellFormed | subsearch.py:130 | resolution in a well-formed tree only reaches well-formed entries, whose names are proper file names |
| FileTree.DotDotResolved | subsearch.py:137 | with one file `f` in the working directory, `isdir("f/..")`, `isdir("nosuch/..")` and `isdir("f/")` are false, and `isdir("./")` is true |
| FileTree.LexLe | subsearch.py:130 | Python's `<=` on `str`, code point by code point with a proper prefix first (no contract of its own); the four `LexLe` lemmas state it is a total order |
| FileTree.Sort | subsearch.py:130 | `sorted` keeps the number of names; `SortPermutes`, `SortSorted` and `SortedUnique` state the rest |
| FileTree.LexLeTotal | subsearch.py:130 | Python string order is total |
| FileTree.LexLeRefl | subsearch.py:130 | Python string order is reflexive |
| FileTree.LexLeTrans | subsearch.py:130 | Python string order is transitive |
| FileTree.LexLeAntisym | subsearch.py:130 | Python string order is antisymmetric |
| FileTree.InsertPermutes | subsearch.py:130 | inserting adds exactly the one name |
| FileTree.InsertSorted | subsearch.py:130 | inserting into a sorted list keeps it sorted |
| FileTree.SortPermutes | subsearch.py:130 | `sorted` returns a permutation of the listing |
| FileTree.SortSorted | subsearch.py:130 | `sorted` returns names in ascending order |
| FileTree.SortedUnique | subsearch.py:130 | two sorted permutations of the same names are equal, so the walk order depends on the names alone |
| FileTree.SortedHeadLeast | subsearch.py:130 | the head of a sorted list is at most every element |
| FileTree.SortedTail | subsearch.py:130 | the tail of a sorted list is sorted |
| FileTree.SameTail | subsearch.py:130 | equal multisets with equal heads have equal tails |
| FFmpeg.EscapeFilterPath | subsearch.py:60 | a path without `'` or `:` passes unchanged |
| FFmpeg.EscapeIsPerChar | subsearch.py:60 | the two replaces escape each `'` and each `:` with a backslash, character by character |
| FFmpeg.EscapeOrderIrrelevant | subsearch.py:60 | doing the replaces in the other order gives the same string |
| FFmpeg.SwappedIsPerChar | subsearch.py:60 | the swapped order also escapes character by character |
| FFmpeg.EscapeKeepsOthers | subsearch.py:60 | every other character except the backslash occurs as often as before |
| FFmpeg.EscapeEachHead | subsearch.py:60 | an escaped string never starts with a bare `'` or `:` |
| FFmpeg.UnescapeEscapeEach | subsearch.py:60 | removing the escapes gives the path back |
| FFmpeg.EscapeRoundTrip | subsearch.py:60 | the escape is injective: dropping each backslash before `'` or `:` gives the original path |
| FFmpeg.FsSafeQuery | subsearch.py:184 | the file-system-safe query has no space |
| FFmpeg.FsSafeQueryChars | subsearch.py:184 | the safe query is the stripped query character for character, with each space turned into `+` |
| FFmpeg.StillName | subsearch.py:191 | the name passed for result `i`: the safe query, then `'%02d' % i` (no contract of its own); `StillFileShape` states its meaning |
| FFmpeg.ImageFilename | subsearch.py:52 | the image file of a name: the name, then `.png` (no contract of its own); `StillFileShape` and `StillFilesDistinct` state its meaning |
| FFmpeg.StillFileShape | subsearch.py:191 | a still's file name is the safe query, then at least two digits that read back as the result's index (exactly two below 100), then `.png`, with no space |
| FFmpeg.StillFilesDistinct | subsearch.py:191 | different results of one search get different image files |
| Strings.LeadFrom | subsearch.py:184 | the end of the run of stripped characters from a position |
| Strings.TrailTo | subsearch.py:184 | the start of the run of stripped characters before a position |
| Strings.Strip | subsearch.py:184 | `strip` returns a slice of the input whose outside consists of stripped characters, neither of whose ends is one, and which is empty exactly when the whole input is stripped |
| Strings.StripFacts | subsearch.py:184 | the slice between the two runs has the three properties of `strip` |
| Strings.StripEnds | subsearch.py:184 | the slice between the runs neither starts nor ends with a stripped character |
| Strings.StripOuter | subsearch.py:184 | the slice between the runs is a slice of the input |
| Strings.StripEmpty | subsearch.py:184 | the slice between the runs is empty exactly when every character is stripped |
| Strings.ReplaceChar | subsearch.py:184 | after `replace`, the character is gone unless the replacement has it; a string without it is unchanged |
| Strings.ReplaceCharByChar | subsearch.py:184 | replacing a character by one character keeps the length, turns each `c` into the replacement and keeps every other character in place |
| Strings.ReplaceCharAppend | subsearch.py:184 | `replace` distributes over concatenation |
| Strings.ReplaceCharCount | subsearch.py:60 | `replace` keeps the count of every character that neither it nor the replacement touches |
| Strings.Take | setup.py:37 | `s[:n]` has length `min(n, len(s))` and is a prefix of `s` |
| Strings.Decimal | subsearch.py:191 | `%d` is digits only, without a leading zero, and one digit exactly below 10 |
| Strings.DecimalValue | subsearch.py:191 | the digits of `%d` read back as the number |
| Strings.LeadingZeroValue | subsearch.py:191 | a leading zero does not change the value read |
| Strings.DecimalLength | subsearch.py:191 | `%d` has at most two digits exactly below 100 |
| Strings.ZeroPad2 | subsearch.py:191 | `'%02d' % i` is digits only, exactly two when `i < 100` and more otherwise, and reads back as `i` |
| Strings.StartsWith | setup.py:31 | `str.startswith`: the prefix is no longer than the string and equals its beginning (no contract of its own); `Setup.TagVersion` is stated with it |
| Setup.TagVersion | setup.py:29-32 | the version of a tag is the stripped tag with its leading `v` dropped when it has one, and the stripped tag itself otherwise |
| Setup.Base | setup.py:20-32 | the version before the local part and the tag's sha: `0.0` and no sha without tags, otherwise the last tag's version part and its `rev-list` sha (no contract of its own); `Stages`, `Untagged` and `TaggedBase` state its meaning |
| Setup.WithHash | setup.py:34-37 | `+` and the first 8 characters of HEAD appended unless HEAD is the tag's commit (no contract of its own); `HashAppended` states its meaning |
| Setup.WithDirty | setup.py:39-45 | `.dirty` or `+dirty` appended for a dirty tree (no contract of its own); `DirtyMarker` states its meaning |
| Setup.VersionGit | setup.py:17-47 | a version is built exactly when every git command the source runs succeeds, `git rev-list` for the last tag included; a failing `git tag` is the failure |
| Setup.Version | setup.py:10-15 | a non-zero git exit becomes `None`, a git that cannot run raises, and otherwise the version is returned |
| Setup.Stages | setup.py:17-47 | the version is the base, then the hash mark, then the dirty mark |
| Setup.UntaggedShape | setup.py:23-45 | without a tag, the version is `0.0+` and the hash, with `.dirty` for a dirty tree |
| Setup.Untagged | setup.py:23-45 | without tags the version is `0.0+` plus the first 8 characters of HEAD, plus `.dirty` when the tree is dirty |
| Setup.ExtendsBase | setup.py:34-45 | the hash and dirty marks only extend the base version |
| Setup.TaggedBase | setup.py:27-45 | with tags, the version starts with the last tag's version part |
| Setup.HashAppended | setup.py:34-37 | `+` and the short head hash follow the base exactly when there is no tag or HEAD is not the tagged commit |
| Setup.DirtyMarker | setup.py:39-45 | a dirty tree appends `.dirty` after a `+` and `+dirty` otherwise; a clean tree appends nothing |
| Setup.ReleaseVersion | setup.py:27-45 | the version is exactly the tag's version part if and only if the tree is clean and HEAD is the tagged commit |
| Setup.OnePlusShape | setup.py:34-45 | the hash and dirty marks add at most one `+`, present exactly when one of them is added |
| Setup.OnePlus | setup.py:34-45 | when neither the tag's version part nor the first 8 characters of the head sha contain `+`, the version has at most one `+`, present exactly when there is a hash or a dirty mark |
| Setup.VersionFallback | setup.py:10-15 | when every git failure is a non-zero exit, `version()` returns and does not raise |

## Left out

- **Logging and reporting.**
  - The `log.debug` calls are not modelled.
  - `add`'s `report` callback has no effect on the index. It only echoes the
    stored path.
- **The FFmpeg runner.** `FFmpeg.run`, the subprocess calls, and decoding
  the subtitle stream (`read_subs`) are not modelled. The subtitle reader is
  the `Reader` parameter.
- **Image extraction in `get_image`.** It does I/O, so only two parts are
  modelled:
  - the escape at line 60;
  - the file name at line 52.

  The subtitle-burning command and its fallback without subtitles are left
  out.
- **The Whoosh engine.** The index schema, `QueryParser` and relevance
  scoring are not modelled. A parsed query is a predicate on whole
  documents, so it may test the path, start and end fields as well as the
  content. The ranking is a parameter of `Search`.
- **`Subsearch.Database.Search`: keyword arguments.** Only the call the
  code makes, without keyword arguments (subsearch.py:187), is modelled.
  Its only option is the engine's `limit`: Whoosh's default of 10 appears
  as an explicit `Option`, and `None` stands for no limit. `sortedby` and
  `reverse` would only choose another ranking. `filter`, `mask` and
  `collapse` can drop matching documents, which `IsRanking` does not allow,
  so they are not modelled.
- **`IndexSpec.AddFile`: field ranges.** Event start and end times are
  unbounded integers. Whoosh's `NUMERIC` fields are 32-bit signed by
  default, so a time outside that range could make `add_document` raise.
  The model does not capture that raise.
- **`Subsearch.Database.Search`: limit.** Whoosh returns only the top
  `limit` hits. The model takes them as a prefix of a ranking the caller
  supplies. So the model does not say which documents Whoosh ranks first.
- **Search is eager.** `Database.search` is a generator, but the model
  returns the whole list at once.
- **Storage.** JSON serialisation and the files on disk are not modelled.
  `os.makedirs` and the location of the configuration file are left out too.
  The configuration is a map from key to boolean, so a JSON value of another
  type is not modelled.
- **The front ends.** The `click` command line (`cli`, `init`, `add`,
  `search`), the sopel bot plugin and `readme()` in `setup.py` are not
  modelled. Only the naming inside the `search` command is: lines 182 to 191,
  except the joining of the query words.
- **`IndexSpec.Result.Midpoint`: floating point.** The midpoint is computed
  in exact real arithmetic. Python's float division is not modelled.
- **`Setup.VersionGit`: git output.** These parts are taken as given:
  - the list of lines from `splitlines` of the tag output;
  - the strings of `rev-list` and `rev-parse`;
  - the `git status` output, as characters rather than bytes.

  Only the commands' outcomes are modelled, not the commands themselves.
- **`Paths.RelPath`: errors.** On Windows `relpath` raises `ValueError` for
  paths on different drives, and it raises for an empty path. Neither case
  is modelled, because paths here are POSIX components and never empty.
- **`Paths.NormPath`: two leading slashes.** POSIX `normpath` keeps a
  leading `//` as a distinct root. The model treats it as `/`.
- **The file system is a static tree.**
  - Symbolic links, permissions and files that change during the walk are
    not modelled.
  - Paths are resolved component by component through the tree, as the
    operating system does, so `..` after a file or a missing name fails.
  - `os.path.isdir` of a path that does not resolve is false, as in the
    source. Such a path is then read, and the reader decides.
  - `listdir` of a directory is its entries in stored order.
- **Concurrency.** Whoosh's writer lock and concurrent writers are not
  modelled.
- **Unreachable branches.** `IndexSpec.AddNamed` and `IndexSpec.WalkChild`
  have a branch for a name the directory does not list. Every caller passes
  a listed name, so that branch is never taken.
