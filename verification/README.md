# file_organizer in Dafny

A model of the core of `file_organizer`, a small Rust command-line tool. The tool
sorts the regular files of one directory into category subdirectories (Archives,
Code, Documents, Music, Pictures, Videos) by file extension. It works in two phases:

- `get_files` (the scan) lists the directory. It keeps every regular file whose
  name has a UTF-8 extension listed in the `DIR_FILE_MAP` table, paired with the
  category of the first row that lists it.
- `organize_files` (the apply phase) calls `create_dir_all` for one subdirectory
  per table row. It then renames every kept file in scan order, and stops at the
  first call that fails.

The modules:

- `Wrappers` holds `Option` and `Result`.
- `Paths` models the parts of Rust's `std::path` / `OsStr` that the tool relies on:
  - `extension` and `file_name`;
  - `to_str`, over names that may hold bytes that are not UTF-8;
  - `join`, over a path seen as its sequence of components.

  These follow the documented behaviour of the standard library on Unix and are
  assumptions of the model.
- `Categories` holds the `Subdirectories` enum, `as_ref`, the `DIR_FILE_MAP` table
  and the first-match lookup. It also holds a corrected copy of the table (see
  Findings).
- `Filtering` keeps the present values of a sequence of options. This is the shape
  of both loops: push a value for some inputs and skip the others.
- `Scan` models `get_files`. The directory listing is an input: either
  unreadable, or a sequence of entries and per-entry read failures.
- `Organize` models `organize_files` as the list of calls it issues. The file
  system is a parameter `rejects` that says which calls fail. The destination of a
  move is computed by the code as written (`AsWritten`) or as evidently intended
  (`UnderDirectory`).

`Scan.MatchItem`/`Scan.MatchAll` and `Organize.RenameAll`/`Organize.RenameActions`
are helpers without rows of their own. `MatchAll` and `RenameAll` give the outcome
of the scan loop's and the rename loop's body at each position. `Matches` and
`RenameActions` are the lists those loops build: the scan results, and the rename
calls issued. Their properties are stated by `Scan.KeptIndices`, `Scan.Matches`
and `Organize.RenamesComeFromMatches`.

## Model

| member | source | states |
|---|---|---|
| Categories.NameRoundTrip | src/main.rs:47-57 | each category's subdirectory name is a single non-empty component that maps back to that category |
| Categories.NameInjective | src/main.rs:47-57 | distinct categories get distinct subdirectory names |
| Categories.Name | src/main.rs:47-57 | `as_ref` gives each category the relative path of its label, and the label reads back as that category |
| Categories.FirstMatchFrom | src/main.rs:110-118 | the row found is the first at or after the start that lists the extension; none means no row lists it |
| Categories.Classify | src/main.rs:110-118 | no category exactly when no row lists the extension; otherwise the category of the first listing row |
| Categories.MatchExtension | src/main.rs:110-118 | the in-order row loop that breaks at the first hit computes exactly the first-match category |
| Categories.ClassifyAt | src/main.rs:110-118 | the first row listing an extension decides its category |
| Categories.OverlapFirstWins | src/main.rs:110-118 | with two rows listing the same extension, the earlier one wins in either order, so for two different categories swapping the rows changes the answer |
| Categories.BaselineDisjoint | src/main.rs:79-86 | no extension appears in two rows of `DIR_FILE_MAP` |
| Categories.BaselineTableWellFormed | src/main.rs:79-86 | the table has six rows with six distinct subdirectories covering every category, and is pairwise disjoint |
| Categories.ClassifyByMembership | src/main.rs:110-118 | for a disjoint table, an extension goes to a category if and only if some row of that category lists it |
| Categories.DisjointOrderIrrelevant | src/main.rs:79-86 | for a disjoint table, any reordering of the rows classifies every extension the same way |
| Categories.FiletypesOf | src/main.rs:79-86 | an extension is in a category's filetypes exactly when some row of that category lists it |
| Categories.BaselineClassifyIffListed | src/main.rs:79-86 | under `DIR_FILE_MAP`, an extension goes to a category if and only if that category's row lists it |
| Categories.BaselineMatches | src/main.rs:80-85 | `zip`, `mp3` and `rs` go to Archives, Music and Code |
| Categories.BaselineLiteralQuirks | src/main.rs:80-82 | the literal strings "dmg," and "pmg" are what classify to Archives and Pictures |
| Categories.BaselineTyposUnmatched | src/main.rs:80-82 | `dmg` and `png` classify to nothing under the table as written |
| Categories.BaselineCaseSensitive | src/main.rs:111 | matching is exact and case-sensitive: `MP3` classifies to nothing while `mp3` goes to Music |
| Categories.ClassifyAgrees | src/main.rs:110-118 | two tables that agree row by row on category and on listing an extension classify it the same way |
| Categories.CorrectedTableWellFormed | src/main.rs:79-86 | the corrected table is still disjoint, with six distinct rows covering every category |
| Categories.CorrectedClassifiesIntended | src/main.rs:80-82 | the corrected table sends `dmg` to Archives and `png` to Pictures |
| Categories.CorrectedDropsTypos | src/main.rs:80-82 | under the corrected table "dmg," and "pmg" classify to nothing |
| Categories.CorrectedAgreesElsewhere | src/main.rs:79-86 | every other extension classifies the same under both tables |
| Paths.ToStr | src/main.rs:101-105 | `to_str` succeeds exactly when every unit decodes, and gives back those characters |
| Paths.ToStrFromStr | src/main.rs:101-105 | decoding a name made only of characters returns that string |
| Paths.LastDot | src/main.rs:97 | finds the last `.` of a name, or reports that it has none |
| Paths.Extension | src/main.rs:97 | no extension exactly for `..` or a name with no `.` after its first unit; otherwise the dot-free text after the last `.` |
| Paths.FileName | src/main.rs:133-135 | the entry path has a file name exactly when the name is not `..`, and the file name is the entry's name |
| Paths.Join | src/main.rs:126 | joining a name onto a directory extends the directory with that one component |
| Paths.JoinInjective | src/main.rs:139 | joining distinct names onto one directory gives distinct paths |
| Scan.MatchEntry | src/main.rs:95-117 | non-files, names without an extension and non-UTF-8 extensions are skipped; a match carries its own entry |
| Scan.ExtensionStr | src/main.rs:97-108 | the extension as a string exists exactly when the name has an extension whose units all decode, and it re-encodes to that extension |
| Scan.MatchEntryClassifies | src/main.rs:95-117 | a regular file with extension `ext` is kept exactly when `ext` classifies, and for that category |
| Scan.MatchedEntryClassifies | src/main.rs:95-117 | every kept entry is a regular file whose UTF-8 extension classifies to the match's category |
| Scan.KeptIndices | src/main.rs:93-120 | the kept positions are in range, strictly increasing, and are exactly the matching positions |
| Scan.Matches | src/main.rs:91-121 | the matches accumulated over the listing: the k-th is the match of the entry at the k-th of the strictly increasing kept positions, so at most one per entry |
| Scan.MatchesAreKeptSubsequence | src/main.rs:91-121 | the result is the order-preserving subsequence of the listing at the kept positions (a named restatement of `Scan.Matches`' contract) |
| Scan.MatchesSoundAndComplete | src/main.rs:91-121 | a match is in the result exactly when some listed entry produces it |
| Scan.MatchesSnoc | src/main.rs:112-116 | one more listing step appends its match, if any, to the accumulated result |
| Scan.FirstReadFailureFrom | src/main.rs:93-94 | finds the first failed listing step, with every step before it read |
| Scan.GetFiles | src/main.rs:89-122 | unreadable directory gives an error; otherwise an error at the first failed step; success only when all steps read, with exactly the matches |
| Scan.GetFilesLoop | src/main.rs:89-122 | the loop as written, with early returns, computes exactly `GetFiles` |
| Scan.PngExtension | src/main.rs:97 | the name `b.png` has the extension `png` |
| Scan.ScanSingleEntry | src/main.rs:89-122 | a directory with one entry yields that entry exactly when it matches |
| Scan.ScanPngBaseline | src/main.rs:82 | under the table as written, a directory holding the regular file `b.png` yields no match |
| Scan.ScanPngCorrected | src/main.rs:82 | under the corrected table the same directory yields `b.png` for Pictures |
| Filtering.SomesAtIndices | src/main.rs:110-117 | the kept values are, in order, the values at the increasing positions that hold one |
| Filtering.SomesMembership | src/main.rs:110-117 | a value is kept exactly when some position holds it |
| Filtering.SomesOfPrefix | src/main.rs:129-140 | keeping the values of a prefix gives a prefix of the kept values |
| Filtering.SomesAllPresent | src/main.rs:133-136 | when no position is skipped, every value is kept in place |
| Organize.SubdirPath | src/main.rs:126 | the created subdirectory is one component below the directory, and that component decodes to the category's label |
| Organize.Destination | src/main.rs:132-137 | the destination ends in the file name; as written it is the two components `<label>/<name>` with no directory; as intended it is the name inside the category's subdirectory under the directory |
| Organize.CreateActions | src/main.rs:125-128 | one `create_dir_all` per row, each for a path one level below the directory |
| Organize.Plan | src/main.rs:124-143 | the creates come first, and every later call is a rename, with no more renames than matches |
| Organize.OrganizeFiles | src/main.rs:124-143 | the calls done are an accepted prefix of the plan; no failure means the whole plan ran, a failure is the rejected next call |
| Organize.RenameOf | src/main.rs:132-139 | a match is renamed exactly when its path has a file name, from `directory/<name>` to the destination |
| Organize.FirstRejected | src/main.rs:127 | finds the first rejected call, with every earlier call accepted |
| Organize.Run | src/main.rs:127 | the calls done are a prefix of the plan, all accepted; a failure is the very next call, and no failure means the whole plan ran |
| Organize.OrganizeFilesLoop | src/main.rs:124-143 | the create loop, its early return, then the rename loop, do exactly what running the full plan fail-fast does |
| Organize.RunEach | src/main.rs:125-128 | the create loop with `?` returns at the first rejected call, as `Run` says |
| Organize.RunPresent | src/main.rs:129-140 | the rename loop with `continue` and `?` skips the missing calls and stops at the first rejected one, as `Run` says |
| Organize.RejectedAfter | src/main.rs:139 | a rejected call that follows only accepted ones is where the run stops |
| Organize.RunAppend | src/main.rs:124-143 | running creates then renames is running their concatenation; renames start only when every create succeeded |
| Organize.RenamesComeFromMatches | src/main.rs:129-140 | every rename comes from some match; the k-th rename is the rename of the match at the k-th of strictly increasing positions, so there is at most one per match |
| Organize.RenamesFollowScanOrder | src/main.rs:129-140 | with no `..` names, there is one rename per match, in scan order |
| Organize.CreatesPrecedeRenames | src/main.rs:125-128 | the plan opens with one create per row, in row order, each under the directory; every later call is a rename (the first and last of these restate `Organize.Plan`'s contract) |
| Organize.FailFastOrdering | src/main.rs:124-143 | a failed create means no file was moved; a failed rename means all creates succeeded first; no failure means the whole plan ran |
| Organize.ScannedNamesHaveFileNames | src/main.rs:133-135 | no scanned match has the name `..`, so the `continue` never fires for a scan result |
| Organize.RenameSourceIsKept | src/main.rs:139 | every rename moves a kept entry of the listing |
| Organize.UnmatchedNeverMoved | src/main.rs:95-117 | an entry the scan skipped is never the source of a rename |
| Organize.UnderDirectoryLandsInCreatedDir | src/main.rs:126 | with the intended destination, every move lands directly in a subdirectory created earlier, inside the directory |
| Organize.AsWrittenEscapesDirectory | src/main.rs:132-137 | as written, organizing `/data` holding `a.mp3` renames it to `Music/a.mp3`, which is neither under `/data` nor in any created subdirectory |

## Left out

- `main` (src/main.rs:11-36): argument parsing with `clap` and printing the
  verbosity argument. `main` never calls `get_files` or `organize_files`; those
  calls are commented out.
- Organize.RenameOf: the source of a rename is rebuilt as `<directory>/<name>` from the directory given to `organize_files`, while the tool uses the entry's own path, which lies under the directory given to `get_files`. The two agree only when both functions get the same directory, as the (commented-out) caller at src/main.rs:31-33 would do; the model assumes they do.
- Paths.ToStr: entry names are assumed to be split canonically into units, with maximal valid UTF-8 runs as `Ch` and only undecodable bytes as `Raw`. A name such as `[Raw(0xC3), Raw(0xA9)]`, the bytes of `é`, is not a name the listing produces, and `ToStr` rejects it.
- Printing each match (src/main.rs:130), which happens at the top of the rename loop,
  before the `..` check and before its rename is attempted, so a skipped match and
  the match whose rename fails are printed too. `println!` panics if stdout cannot be
  written; that abort, which would stop before the current match's rename, is not
  modelled.
- The lifetimes and borrowed references of `DirFileMap` and `FileMatch`
  (src/main.rs:59-77). The model uses plain values.
- The file system itself: listing order, `is_file` following symbolic links,
  `create_dir_all` succeeding on an existing directory, and `rename` replacing an
  existing destination. These are parameters or left to the operating system, so
  running twice or overwriting on a name clash is not modelled.
- The error's message or type (`Box<dyn Error>`). The model keeps only which step
  failed.
- Paths.Join: a path is modelled as its sequence of components, and the joined
  names are single relative components. Separator characters, trailing
  separators and absolute names (which `Path::join` would substitute) are not
  modelled.
- Paths.Extension: the standard library's rule is restated, not derived. Names
  `.` and empty names cannot appear in a directory listing and are not
  special-cased.
- The destination of a move: a reading of the tool as placing files at
  `<directory>/<Category>/<name>` disagrees with the code, which renames to
  `<Category>/<name>`. The model follows the code (`AsWritten`) and treats the
  other reading as the correction (`UnderDirectory`).

## Findings

| source | as written | input that shows it | evidently intended | confidence | as-written member | corrected member |
|---|---|---|---|---|---|---|
| src/main.rs:132-139 | the destination is `<Category>/<name>`, relative to the working directory, without the organized directory | organize `/data` holding `a.mp3` from another working directory: a rename of `/data/a.mp3` to `Music/a.mp3`, relative to the working directory, is attempted instead of one into the created `/data/Music`; it fails unless the working directory holds `Music/`, and otherwise moves the file out of `/data` | rename to `<directory>/<Category>/<name>` | medium (correct only when the directory is the working directory); not executed | Organize.AsWrittenEscapesDirectory | Organize.UnderDirectoryLandsInCreatedDir |
| src/main.rs:80 | the Archives row lists the string "dmg," with a trailing comma inside the quotes | a regular file `backup.dmg` is never moved | the row lists `dmg` | high; not executed | Categories.BaselineTyposUnmatched | Categories.CorrectedClassifiesIntended |
| src/main.rs:82 | the Pictures row lists "pmg" | a regular file `b.png` is never moved | the row lists `png` | medium; not executed | Scan.ScanPngBaseline | Scan.ScanPngCorrected |
