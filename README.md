# punzip and fcompare — a Dafny model

This project models and proves properties of the sequential kernels of two
command-line tools.

**`punzip.py`** extracts every `.zip` archive found in a folder tree. The
model covers three parts of it:

- **The `extract` function.** It resolves each entry name of one archive to
  a target directory and file name. It then applies the overwrite/skip rule
  against the filesystem, and counts `files_extracted` and `files_skipped`.
  It also fires the progress milestones governed by `increment` and `m`, and
  returns 0, or 1 when an entry's folder depth is unsupported.
- **The scan filter of `main`.** It turns the `os.walk` output into the list
  of `.zip` paths.
- **The sizing of the worker pool in `main`.** It ends in the positivity
  assertion.

**`fcompare.py`** compares two folders by file name. The model covers its
classification loop:

- each file name of the first folder loses every occurrence of the
  extension;
- in exact mode, it is reduced to its leftmost `GenusSpecies` token
  (`[A-Z][a-z]+[A-Z][a-z]+`);
- it is looked up by substring among the second folder's names;
- the outcome is tallied into `exact_match`, `similar_match_many` and the
  `unmatched` list.

Modules:

- `Strings`: Python's `find`, `in`, `split`, `join`, `replace`,
  `startswith` and `endswith` on strings.
- `PosixPath`: Python 2 `posixpath.isabs`, `join`, `split` and `dirname`.
- `Punzip`: entry-path resolution, and the `extract` loop in two forms:
  - a specification fold over the entries (`Step`, `Run`, `Extraction`),
    over a value filesystem `Fs`;
  - the imperative method `Extract`, over a `FileSystem` object with `files`
    and `dirs` fields, proved equal to that fold.
- `PunzipMain`: the scan (an imperative `Scan` proved equal to the fold
  `Scanned`) and the job sizing (`SizeJobs`, `PoolSize`).
- `FCompare`: the token search, the per-file reference verdict `Judge`, the
  tallies, and the imperative loop `Classify` proved equal to them.

Python 2 semantics kept:

- `/` is integer division (`nfiles / 10`, `cpu_count() / 2`).
- `None > n` is false, so with `--jobs` omitted the warnings and the clamp
  are skipped.
- `os.path.join(root, d)` returns `d` when `d` is absolute. This happens for
  a bare entry name, whose directory is the absolute archive path.
- `s.replace(p, '')` with an empty `p` returns `s`.
- `s.split(sep)` and `s.replace(p, rep)` work through `s.find`: each cuts
  at the leftmost occurrence and goes on after it, so occurrences never
  overlap.

Where the code departs from the documented design intent, the model follows
the code:

- The code makes `extract` return 1 at once on an entry of unsupported
  depth, and later entries are not touched: `StopsAtFirstTooDeep`. The
  intent is to count such an entry as failed and carry on with the archive.
- The code changes nothing and counts nothing for a directory-only entry
  (`dir/`), or any entry whose directory or file name resolves empty:
  `EmptyPartIsIgnored`. The intent is to count it as extracted.
- The code sets `increment` to `nfiles / 10`, which is 0 for fewer than ten
  entries, so every handled entry fires a milestone. The intent is
  `max(1, nfiles / 10)`.
- The code refuses `Sample/Sample/sub/b.txt`, which has four segments, and
  ends the extraction: `NestedUnderDoubledRootIsRefused`. The intent places
  it under `Sample/sub/`.
- The code keeps no `failed` counter: a write that raises `IOError` moves no
  counter.

Inputs that stand for things outside the model:

- `fails: String -> bool` decides which writes raise `IOError`. Writing over
  a directory always does. The filesystem is flat, so `fails` must also hold
  for every path below an existing regular file, where `open` raises
  `IOError` (`ENOTDIR`).
- `search: String -> bool` is the compiled user pattern.
- `absPath: String -> String` is `os.path.abspath`.
- `closeMatches` is `difflib.get_close_matches`.
- The CPU count is a number.
- The archive is a sequence of `(name, bytes)` members in `namelist()` order.
  A name may repeat. `zfile.read(name)` is `Read`: the bytes of the last
  member with that name, so every member with a repeated name is written
  with those bytes.

## Model

| member | source | states |
|---|---|---|
| Strings.IndexOf | fcompare.py:91 | `find` gives -1 or an index at which the pattern occurs; `IndexOfLeftmost` states the rest |
| Strings.IndexOfLeftmost | fcompare.py:91 | the index `find` gives is the leftmost occurrence, and -1 means there is none |
| Strings.EndsWith | punzip.py:144 | `filename.endswith('.zip')`; `EndsWithIsSuffix` states it |
| Strings.EndsWithIsSuffix | punzip.py:144 | `s.endswith(p)` holds iff `s` is some string followed by `p` |
| Strings.Contains | fcompare.py:91 | Python's `t in s`: holds exactly when `IndexOf` finds an occurrence |
| Strings.Split | punzip.py:46 | `name.split('/')`, cutting at each leftmost occurrence `find` reports, has at least one piece; `JoinSplit` and `SplitJoinSingleChar` state it is undone by, and undoes, joining |
| Strings.JoinSplit | punzip.py:46 | joining the pieces of `split(sep)` with `sep` gives the name back |
| Strings.SplitJoinSingleChar | punzip.py:46 | splitting on `/` recovers the slash-free segments a name was built from |
| Strings.ReplaceAll | punzip.py:49 | `str.replace`, replacing each leftmost occurrence `find` reports and going on after it; `ReplaceIsJoinOfSplit` states it |
| Strings.StripAll | fcompare.py:70 | `s.replace(p, '')`; `StripAllAtFind`, `StripAllKeepsPieces`, `StripAllAbsent`, `StripAllLength` and `StripAllKeepsFirst` state it |
| Strings.StripAllAtFind | fcompare.py:70 | `replace(p, '')` drops the leftmost occurrence `find(p)` and goes on after it, for an empty `p` too; with no occurrence the name is unchanged |
| Strings.StripZipExample | punzip.py:49 | `'/r/z.zip'.replace('.zip', '')` is `/r/z` |
| Strings.ReplaceIsJoinOfSplit | punzip.py:49 | `s.replace(p, rep)` equals `rep.join(s.split(p))` |
| Strings.StripAllKeepsPieces | fcompare.py:70 | removing the extension keeps exactly the pieces between its occurrences, in order |
| Strings.StripAllAbsent | fcompare.py:70 | a name without the extension is left unchanged |
| Strings.StripAllLength | punzip.py:49 | each removed `.zip` shortens the path by four characters |
| Strings.StripAllKeepsFirst | punzip.py:49 | a leading `/` survives the removal, so the stripped archive path stays absolute |
| PosixPath.Join | punzip.py:70-72 | an absolute second part replaces the first; otherwise the result starts with the first part and ends with the second |
| PosixPath.PathSplit | punzip.py:65 | `os.path.split`: the tail holds no slash, ends the path, and follows a slash unless it is the whole path; a path with a slash has a non-empty head |
| PosixPath.Dirname | punzip.py:28 | `os.path.dirname`, the head of `PathSplit` |
| PosixPath.PathSplitOneSlash | punzip.py:65 | `os.path.split("a/b")` is `("a", "b")`, with the root `/` as head when `a` is empty |
| PosixPath.PathSplitJoin | punzip.py:65 | splitting a joined path gives back its directory and file name |
| Punzip.Resolve | punzip.py:46-65 | the case split on the segments: an entry is refused iff it has more than three segments, or three whose first two differ; the other cases are stated by the lemmas below |
| Punzip.ResolveBareName | punzip.py:47-50 | a name without `/` goes to the archive path with every `.zip` removed, under its own name |
| Punzip.BareNameDirectoryIsAbsolute | punzip.py:47-72 | for an absolute archive path, that directory is used as it stands, not under the archive's directory |
| Punzip.ResolveTwoSegments | punzip.py:64-65 | `a/b` goes to directory `a` (root `/` when `a` is empty) and file `b` |
| Punzip.ResolveDoubledRoot | punzip.py:51-57 | `x/x/y` collapses the doubled root to directory `x` and file `y` |
| Punzip.ResolveSegments | punzip.py:46-65 | a name built from slash-free segments is refused exactly when the segments are too deep |
| Punzip.NestedUnderDoubledRootIsRefused | punzip.py:61-63 | a nested folder under a doubled root, `x/x/d/f` such as `Sample/Sample/sub/b.txt`, is refused |
| Punzip.Read | punzip.py:80 | `zfile.read(name)`; `ReadSpec`, `ReadFinds` and `ReadIsLast` state it |
| Punzip.ReadSpec | punzip.py:80 | reading gives nothing (`KeyError`) iff no member has the name, and otherwise the bytes of a member with that name |
| Punzip.ReadFinds | punzip.py:89 | the name of every member of `namelist()` can be read |
| Punzip.ReadIsLast | punzip.py:89 | a repeated name reads the bytes of its last member |
| Punzip.Members | punzip.py:44-89 | the entries the loop handles, in `namelist()` order, each with what `zfile.read` gives for its name; `MemberAt` and `DistinctNamesKeepData` state it |
| Punzip.MemberAt | punzip.py:44-89 | the `i`-th handled entry has the `i`-th member's name and the bytes read for that name |
| Punzip.DistinctNamesKeepData | punzip.py:44-89 | without a repeated name every member is written with its own bytes |
| Punzip.StepWritesOnEmpty | punzip.py:86-91 | on an empty filesystem, an entry whose write may succeed is written with its bytes and counted as extracted |
| Punzip.StepSkipsPresent | punzip.py:76-85 | without overwrite, an entry whose file is present is skipped and the files stay as they were |
| Punzip.SameTargetTwice | punzip.py:76-91 | two entries with the same destination, without overwrite, on an empty filesystem: the first is written, the second skipped |
| Punzip.RepeatedNameWritesLastMember | punzip.py:76-91 | two members `a/b` of `/r/z.zip`, without overwrite: `/r/a/b` holds the second member's bytes, one is extracted and one skipped |
| Punzip.MembersAbort | punzip.py:44-63 | reading the bytes does not change whether the call returns 1 |
| Punzip.Fs.Exists | punzip.py:73-76 | `os.path.exists`: a file or a directory is there; `WithDir`, `Place` and `OverwriteRule` state what the checks decide |
| Punzip.Start | punzip.py:31-35 | the loop's start: `files_extracted = 0`, `files_skipped = 0`, `m = 1`, nothing logged, not returned; `Extraction` starts from it |
| Punzip.WriteFails | punzip.py:79 | when `open(filename, 'w')` raises `IOError`: the target is a directory or the environment refuses it; `FileSystem.WriteFile` and `OverwriteRule` state its effect |
| Punzip.DirOf | punzip.py:70 | `os.path.join(root, dirname)`; `BareNameDirectoryIsAbsolute` and `StepPlaces` state it |
| Punzip.PathOf | punzip.py:72 | `os.path.join(dirname, filename)`; `PathSplitJoin` and `StepPlaces` state it |
| Punzip.ExitCode | punzip.py:60-104 | the value `extract` returns, 1 after a refused depth and 0 otherwise; `ExtractionOutcome` states it |
| Punzip.NewJob | punzip.py:33-35 | `increment` is 0 iff there are fewer than 10 entries, and is `nfiles` divided by 10 rounded down |
| Punzip.WithDir | punzip.py:73-75 | after the directory step the directory exists, files are untouched, nothing is removed and no directory other than this one is added |
| Punzip.Place | punzip.py:69-98 | one placed entry never removes anything, adds at most its own directory and file, leaves every other file's content as it was, leaves the directory and (unless the write fails) the file in place, and moves at most one counter by one, none when the file is absent afterwards; overwrite never skips; an already settled target without overwrite is not touched |
| Punzip.OverwriteRule | punzip.py:76-98 | existing target with overwrite off: skipped and unchanged; otherwise the file holds the entry's bytes and `files_extracted` goes up; an `IOError` moves no counter |
| Punzip.StepPlaces | punzip.py:69-72 | an entry with non-empty directory and file name is written to `root`/dirname/filename |
| Punzip.EmptyPartIsIgnored | punzip.py:67-69 | an entry whose directory or file name is empty changes neither the filesystem nor any counter |
| Punzip.Step | punzip.py:44-98 | one iteration: once returned, nothing more happens; nothing is removed; the counters grow by at most one in total; afterwards the entry's target is settled |
| Punzip.AbortsIff | punzip.py:58-63 | the call aborts on a list of entries iff some entry in it is of unsupported depth |
| Punzip.Run | punzip.py:44-98 | over a list of entries, nothing is removed, `extracted + skipped` grows by at most the number of entries, and the call aborts iff some entry is too deep |
| Punzip.RunAfterAbort | punzip.py:58-63 | after the return of 1, later entries change nothing |
| Punzip.StopsAtFirstTooDeep | punzip.py:58-63 | the first too-deep entry ends the call; the earlier entries' writes and counts stand |
| Punzip.Extraction | punzip.py:21-104 | one whole `extract` call over the value filesystem, handling `Members` of the archive; `ExtractionOutcome`, `Milestones` and `SecondRunChangesNothing` state it, and `Extract` is proved equal to it |
| Punzip.ExtractionOutcome | punzip.py:21-104 | `files_extracted + files_skipped <= nfiles`, nothing is removed, and the return code is 1 iff some entry is too deep, else 0 |
| Punzip.OverwriteNeverSkips | punzip.py:76-85 | with overwrite on, `files_skipped` never moves |
| Punzip.Milestone | punzip.py:93-95 | the milestone check; `PlaceKeepsMilestones`, `RunKeepsMilestones` and `Milestones` state what it keeps |
| Punzip.PlaceKeepsMilestones | punzip.py:93-95 | one placement keeps the milestone invariant |
| Punzip.StepKeepsMilestones | punzip.py:93-95 | one iteration keeps the milestone invariant |
| Punzip.RunKeepsMilestones | punzip.py:93-95 | the loop keeps the milestone invariant: one log line per firing, and `(m-1)*increment <= files_extracted < m*increment` when `increment >= 1` |
| Punzip.MilestoneCount | punzip.py:93-95 | under the invariant, `m - 1 == files_extracted / increment`, or every handled entry fired when `increment` is 0 |
| Punzip.Milestones | punzip.py:33-95 | over a whole call: fewer than 10 entries fire on every handled entry; otherwise `m - 1 == files_extracted / increment` |
| Punzip.RunSettles | punzip.py:73-91 | after a run, every entry handled before any abort has its directory and file in place, or its write fails |
| Punzip.SettledRunWritesNothing | punzip.py:76-85 | without overwrite, a run over settled entries writes nothing and extracts nothing |
| Punzip.CountedArePresent | punzip.py:76-98 | a run counts as extracted or skipped only entries whose file is present at its end |
| Punzip.SettledRunSkipsPresent | punzip.py:76-85 | without overwrite, a run over settled entries skips exactly the entries whose file is present |
| Punzip.SecondRunChangesNothing | punzip.py:44-98 | a second extraction of the same archive without overwrite, under the same write failures, leaves the filesystem as the first left it, extracts nothing, skips at least every entry the first run extracted or skipped, and returns the same code |
| Punzip.NoOverwriteKeepsFiles | punzip.py:76-85 | without overwrite, a run never changes the bytes of a file that was already there, whatever fails |
| Punzip.AbortsIgnoresFails | punzip.py:44-63 | whether the call returns 1 does not depend on which writes fail |
| Punzip.SecondRunKeepsFiles | punzip.py:44-98 | a second extraction without overwrite, with any write failures of its own, keeps every file and directory the first left, and every such file's bytes, and returns the same code |
| Punzip.FileSystem.Exists | punzip.py:73-76 | `os.path.exists` on the filesystem object is `Fs.Exists` of its state; `PlaceEntry` relies on it |
| Punzip.FileSystem.Mkdir | punzip.py:75 | `os.mkdir` adds the directory and nothing else |
| Punzip.FileSystem.WriteFile | punzip.py:88-91 | the write succeeds iff the target is not a directory and the environment allows it; then the file holds the data, otherwise nothing changes |
| Punzip.RunTarget | punzip.py:67-98 | an entry with a destination is placed when both parts are non-empty, and otherwise changes nothing |
| Punzip.PlaceEntry | punzip.py:69-98 | the imperative body of the `try` leaves filesystem and counters exactly as `Place` says |
| Punzip.ExtractEntry | punzip.py:44-98 | one iteration: it refuses iff the depth is unsupported, and then the whole call's result is the state so far with the abort set; otherwise the state is the loop's one entry further |
| Punzip.Extract | punzip.py:21-104 | `extract` returns the code and leaves the filesystem, the counters and the milestone log exactly as `Extraction` says |
| PunzipMain.HasPattern | punzip.py:139 | `if args.pattern:`, false for no pattern and for an empty one; `NoPatternKeepsEveryZip` states it |
| PunzipMain.Selected | punzip.py:139-144 | a file name is kept iff it ends in `.zip` and the pattern, when there is one, finds a match; `ScannedMembers` and `NoPatternKeepsEveryZip` state it |
| PunzipMain.NoPatternKeepsEveryZip | punzip.py:139-144 | with no pattern or an empty one, a file name is kept iff it ends in `.zip` |
| PunzipMain.Scan | punzip.py:137-145 | the nested scan loop builds exactly `Scanned` of the walk |
| PunzipMain.Recorded | punzip.py:145 | `os.path.abspath(os.path.join(root, filename))`; `PickedMembers` and `ScannedMembers` state where it is used |
| PunzipMain.Picked | punzip.py:138-145 | what one walk step adds to `zipfiles`; `PickedMembers` states it |
| PunzipMain.Scanned | punzip.py:137-145 | the `zipfiles` list of a whole walk; `ScannedMembers` and `ScannedAppend` state it |
| PunzipMain.PickedMembers | punzip.py:138-145 | a path comes from one walk step iff it is a selected file name of that step joined to its root |
| PunzipMain.ScannedSound | punzip.py:137-145 | every listed path is a selected file name of some walk step, joined to that step's root |
| PunzipMain.ScannedComplete | punzip.py:137-145 | every selected file name of every walk step is listed |
| PunzipMain.ScannedMembers | punzip.py:137-145 | a path is listed iff it is a selected file name (ends in `.zip`, matches the pattern when one is given) joined to its walk root |
| PunzipMain.ScannedAppend | punzip.py:137-145 | walk order is kept: the scan of two walks in sequence is the first scan followed by the second |
| PunzipMain.SizeJobs | punzip.py:153-170 | an explicit request is clamped to the number of archives; an omitted one becomes `min(found, cpus/2)`; with an explicit request each warning is given iff its condition holds; every warning carries the request and a true condition, so an omitted request gives none |
| PunzipMain.PoolSize | punzip.py:153-172 | the assertion passes iff an archive was found and the request is positive, or omitted on a machine with at least two CPUs; then `1 <= jobs <= found` |
| PunzipMain.RequestClamped | punzip.py:153-158 | a request above the archive count becomes that count, any other request stays; the CPU warning is given iff the request exceeds the CPU count |
| FCompare.LowerEnd | fcompare.py:82 | the greedy `[a-z]+` run: all lowercase up to its end, and the end is not lowercase |
| FCompare.LowerEndAt | fcompare.py:82 | the run ends at the first position that is not lowercase |
| FCompare.TokenAtShape | fcompare.py:82-83 | a match at a position has the shape the greedy scan finds, and its end is fixed |
| FCompare.MatchAt | fcompare.py:82-83 | the pattern matches at `i` ending at `k` iff the scan returns `k` |
| FCompare.FindSpan | fcompare.py:83 | the leftmost match at or after a position, or none iff there is none |
| FCompare.FindToken | fcompare.py:82-88 | `re.search` gives the leftmost, maximal `GenusSpecies` substring, and nothing iff there is no such substring |
| FCompare.LastContaining | fcompare.py:90-92 | the name found is in the second folder and contains the token; nothing is found iff no name contains it |
| FCompare.LastContainingIsLast | fcompare.py:90-92 | the recorded match is the last name containing the token |
| FCompare.Lookup | fcompare.py:89-92 | the inner loop leaves `matches` holding only `_file1`, mapped to the last name containing the token, or empty |
| FCompare.CutoffSet | fcompare.py:75 | `if args.cutoff:`, false for no cutoff and for `0.0`; `Judge` and `ZeroCutoffIsExact` state it |
| FCompare.ZeroCutoffIsExact | fcompare.py:75 | a cutoff of `0.0` judges every file as exact mode does with no cutoff |
| FCompare.Judge | fcompare.py:70-92 | a truthy cutoff always gives a candidate list; otherwise a file is skipped iff it has no token, and matched iff some name of the second folder contains the token |
| FCompare.CountMatched | fcompare.py:93-98 | the final `exact_match`; `TalliesCoverAll` and `CutoffMatchesAll` state it, and `Classify` is proved to compute it |
| FCompare.CountNoToken | fcompare.py:84-88 | the files skipped for want of a token; `TalliesCoverAll` states it |
| FCompare.Unmatched | fcompare.py:103-105 | the final `unmatched` list; `UnmatchedMembers` and `TalliesCoverAll` state it, and `Classify` is proved to compute it |
| FCompare.TalliesCoverAll | fcompare.py:69-105 | `exact_match + len(unmatched) + skipped == len(files1)` |
| FCompare.CutoffMatchesAll | fcompare.py:75-98 | with a truthy cutoff every file counts in `exact_match`, none is unmatched or skipped |
| FCompare.UnmatchedMembers | fcompare.py:103-105 | a name is in `unmatched` iff it is in `files1` and no name of the second folder contains its token |
| FCompare.ExactMatches | fcompare.py:89-105 | in exact mode with a token, `matches` has at most one entry, one iff the verdict is a match and none iff it is no match |
| FCompare.Classify | fcompare.py:61-105 | the loop's `exact_match` and `unmatched` are the reference tallies; `similar_match_one` and `similar_match_many` stay 0 |

## Left out

- Opening and decompressing the archive. The archive is a sequence of members with names and bytes, and an archive that cannot be opened is not modelled.
- An `OSError` from `os.mkdir`, such as a missing parent directory. `except IOError` does not catch it under Python 2, so it would end the worker process; the model always creates the directory.
- A write that fails after `open` succeeded, which would leave a partial file. In the model a failing write fails at `open` and leaves the file as it was.
- The pool, `pool.map`, the process names and all log text. The milestone log is modelled as the list of `files_extracted + files_skipped` values it prints.
- Timing and the rounded durations, because they are wall-clock floats.
- Argument parsing, `--list` and `sys.exit`.
- The user regex (`search`), `os.path.abspath` (`absPath`) and `os.walk` itself. These are inputs to the model: the walk is a sequence of `(root, dirnames, filenames)` steps.
- `glob`, `basename`, the folder-existence checks, `print`, `pprint` and the unmatched-list output file in `fcompare.py`.
- `difflib.get_close_matches` is an input function, so its ranking is not modelled. Neither is its `ValueError` for a cutoff outside `[0, 1]`, or the float cutoff itself beyond its truthiness.
- Python's `str` is modelled as a sequence of characters. `[A-Z]` and `[a-z]` are the ASCII ranges.
- SecondRunChangesNothing: assumes the second run's writes fail exactly where the first run's did. With a transient `IOError` in the first run, such as a full disk, the second run writes that entry and counts it as extracted; `SecondRunKeepsFiles` states what holds then. It also bounds the second run's `files_skipped` from below by the first run's `files_extracted + files_skipped` rather than stating equality. The two can differ: with archive `/f1.zip`, an entry `/f1` whose write fails, followed by `c`, which creates the directory `/f1`. The exact count is stated by `SettledRunSkipsPresent`: the entries whose file is present.
