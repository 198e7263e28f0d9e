# Khoj uploader: incremental sync engine

This project models the sync logic of `upload_khoj_ui.py` in Dafny, with the
GUI, HTTP and file I/O around it taken out. The script uploads notes, PDFs
and images from configured roots to a Khoj server. It keeps a ledger of
modification times so that only new or changed files are sent again.

The modules follow the pieces of the script:

- `Text` holds the Python string operations the script relies on, with
  Python's semantics:
  - `str.isspace`, `strip`, `splitlines`, `endswith` and `in`;
  - `split`, `join` and `rsplit`'s split point;
  - iterating over a text file line by line, and decimal numbers.
- `Excalidraw` models `my_filter`. An Excalidraw drawing note is reduced
  to its "Text Elements" section by a line-by-line loop with a
  `capturing` flag. Block references (" ^" and eight id characters) are
  cut off the captured lines. The three fixed regular expressions are
  written out as predicates.
- `Mime` models the extension normalisation of `upload_files`
  (`os.path.splitext`, `lower`, `lstrip('.')`) and
  `fileExtensionToMimeType`.
- `ModificationLedger` models the ledger. Its parts:
  - the `path:mtime` line format;
  - `load_modification_records` and `save_modification_records`;
  - the staleness test and update of `find_files` and `upload`.

  The class `Ledger` holds the global `modification_records` map and the
  text of the ledger file.
- `Discovery` models `is_excluded`, the `os.walk` loop of `find_files` with
  its pruning of excluded subdirectories, and the per-root dispatch of
  `upload`. The file system is an immutable tree of `Node`s.
- `Upload` models `upload_files` and `upload`:
  - the batches of ten and the PUT/PATCH choice;
  - the form data, the progress count, and the ledger append after every
    batch;
  - the whole run: the paths file, discovery, the audit log, the upload,
    and the final re-append of the map.

Four behaviours of the code are easy to misread; the model follows the
code:

- A trigger line is emitted twice. It is appended verbatim, then again
  through the `if capturing` branch (lines 49 and 54).
- Loading the ledger keeps the *last* record of a path, since each line
  overwrites the map entry (line 27).
- A batch the server rejects is still recorded in the ledger. The append
  at line 114 comes after the status check and does not depend on it.
- `find_files` tests files only by extension, never by `is_excluded`. So
  a file directly inside a directory that is spared, such as
  `vault/.obsidian`, is returned.

Outside effects are parameters:

- `status(j)` is the HTTP status code of batch `j`.
- `textOf(p)` and `bytesOf(p)` are the content of file `p`.
- `mtimeOf(p)` is the modification time of file `p` when it is saved.
- `lookup(path)` is what a configured root names.
- `pathsFile` is the text of `sync_paths.txt`, if it exists.

## Model

| member | source | states |
|---|---|---|
| Text.StripLeading | upload_khoj_ui.py:27 | the result is a suffix of the input, every removed character is whitespace, and the result does not start with whitespace |
| Text.StripTrailing | upload_khoj_ui.py:27 | the result is a prefix of the input, every removed character is whitespace, and the result does not end with whitespace |
| Text.Strip | upload_khoj_ui.py:146 | `str.strip()` is `rstrip` after `lstrip`, so the characterisations of `StripLeading` and `StripTrailing` give it: no whitespace is left at either end and only whitespace is removed |
| Text.LastIndexOf | upload_khoj_ui.py:26 | the split point of `rsplit(':', 1)`: -1 or an index holding the character, with no occurrence after it |
| Text.SplitLines | upload_khoj_ui.py:41 | no line produced by `splitlines` contains a line boundary; `JoinSplitLines` and `SplitLinesJoin` tie the lines to the input |
| Text.Join | upload_khoj_ui.py:55 | `"\n".join(parts)`: `JoinCons` peels off the first part, and `SplitLinesJoin` and `JoinSplitLines` make it the inverse of `splitlines` |
| Text.JoinSplitLines | upload_khoj_ui.py:41-55 | text whose only line boundaries are "\n" and which does not end in one is the "\n"-join of its lines |
| Text.SplitLinesJoin | upload_khoj_ui.py:41-55 | break-free lines joined with "\n" (last one non-empty) are split back into exactly those lines |
| Text.SplitKeepEnds | upload_khoj_ui.py:24 | the lines a file yields glue back to its text; none is empty, a "\n" is only ever a line's last character, and every line but the last ends with one |
| Text.ReadLines | upload_khoj_ui.py:23-24 | the lines of a file read in text mode: universal-newline translation (`TranslateNoCarriageReturn`), then the pieces of `SplitKeepEnds` |
| Text.TranslateNoCarriageReturn | upload_khoj_ui.py:23 | text without '\r' is unchanged by text-mode newline translation |
| Text.ParseNatToString | upload_khoj_ui.py:27-33 | a time written in decimal reads back as the same number |
| Excalidraw.IsTrigger | upload_khoj_ui.py:47 | `re.match(r'^\s*#+ Text Elements', line)`; `TriggerMatches` proves it equal to the regular expression's reading |
| Excalidraw.TriggerMatches | upload_khoj_ui.py:47 | a line is a trigger iff it splits as whitespace, one or more '#', then " Text Elements", for some split points |
| Excalidraw.IsHeading | upload_khoj_ui.py:50 | `re.match(r'^#+\s+', line)`; `HeadingMatches` proves it equal to the regular expression's reading |
| Excalidraw.HeadingMatches | upload_khoj_ui.py:50 | a line is a heading iff it starts with one or more '#' followed by a whitespace character |
| Excalidraw.StripBlockRef | upload_khoj_ui.py:54 | `re.sub(r' \^[\w-]{8}$', '', line)`; `StripBlockRefRemovesSuffix` and `StripBlockRefShape` state what it removes and that it removes nothing else |
| Excalidraw.Filter | upload_khoj_ui.py:37-57 | the result is the filter's specification; any name not ending in ".excalidraw.md" gets its content back unchanged; a drawing note without a trigger line gives "" |
| Excalidraw.FilterLines | upload_khoj_ui.py:43-54 | the loop with its `capturing` flag produces exactly the lines of the line-by-line specification, in input order |
| Excalidraw.NoTriggerNoOutput | upload_khoj_ui.py:46-54 | without a trigger line capturing is never on and no line is emitted |
| Excalidraw.CapturingIffOpenTrigger | upload_khoj_ui.py:46-51 | capturing is on after some lines iff one of them is a trigger with no heading line after it |
| Excalidraw.TriggerEmittedTwice | upload_khoj_ui.py:47-49 | a trigger line turns capturing on whatever the state before (so a second trigger keeps it on), and is emitted verbatim and again without its block reference |
| Excalidraw.HeadingEndsCapture | upload_khoj_ui.py:50-51 | while capturing, a heading that is not a trigger turns capturing off and is not emitted |
| Excalidraw.FilteredCapturing | upload_khoj_ui.py:53-54 | while capturing, a line that is neither trigger nor heading is emitted once, without its block reference, and capturing stays on |
| Excalidraw.FilteredIdle | upload_khoj_ui.py:46-53 | outside a section, a non-trigger line is dropped and capturing stays off |
| Excalidraw.OutputFromInput | upload_khoj_ui.py:46-54 | every output line is an input line or that line without its block reference |
| Excalidraw.StripBlockRefRemovesSuffix | upload_khoj_ui.py:54 | " ^" and an eight-character `[A-Za-z0-9_-]` id at the end of a line are removed exactly |
| Excalidraw.StripBlockRefShape | upload_khoj_ui.py:54 | a line is either left unchanged or loses exactly a trailing " ^" plus a valid id |
| Excalidraw.FilteredSection | upload_khoj_ui.py:46-54 | trigger, body line, heading, line: the output is the trigger, the trigger stripped, and the body stripped |
| Excalidraw.TextElementsExample | upload_khoj_ui.py:37-55 | "## Text Elements", "foo ^abc12345", "## Other", "bar" in a drawing note give "## Text Elements\n## Text Elements\nfoo" |
| Mime.MimeType | upload_khoj_ui.py:59-70 | the lookup returns one of six types, and each specific type is returned iff the extension is one of its names |
| Mime.TextUnlessBinary | upload_khoj_ui.py:82-84 | a file is read as text iff its extension is not pdf, png, jpg or jpeg |
| Mime.ToLower | upload_khoj_ui.py:81 | lower-casing keeps the length and maps each character on its own |
| Mime.StripLeadingDots | upload_khoj_ui.py:81 | `lstrip('.')` removes only dots, from the front, and leaves no leading dot |
| Mime.ExtensionPart | upload_khoj_ui.py:80 | the second half of POSIX `os.path.splitext`; `ExtensionPartOf` and `HiddenFileHasNoExtension` state its result |
| Mime.Extension | upload_khoj_ui.py:80-81 | the extension lower-cased with its leading dots stripped; `ExtensionOf` and `UpperCaseExtension` state its result |
| Mime.ExtensionPartOf | upload_khoj_ui.py:80 | `splitext` of `dir/stem.ext` gives "." + ext when ext has no '.' or '/' and stem is not all dots |
| Mime.ExtensionOf | upload_khoj_ui.py:80-81 | the normalised extension of `dir/stem.ext` is ext lower-cased |
| Mime.HiddenFileHasNoExtension | upload_khoj_ui.py:80-81 | a name made of leading dots and a dot-free rest (".bashrc") has the empty extension |
| Mime.UpperCaseExtension | upload_khoj_ui.py:80-82 | "report.PDF" is sent as application/pdf |
| ModificationLedger.FormatRecord | upload_khoj_ui.py:33 | the record `path:mtime` and a "\n"; `RecordIsOneLine` and `ParseFormatRecord` state that it is one line and parses back |
| ModificationLedger.ParseRecord | upload_khoj_ui.py:26-27 | a line split at its last ':' with both halves stripped; `LineWithoutColonFails` and `ParseFormatRecord` state its error and its inverse |
| ModificationLedger.MissingLoadsAsEmpty | upload_khoj_ui.py:20-22 | a missing ledger file loads as the empty map, the same as an empty file |
| ModificationLedger.LoadRecords | upload_khoj_ui.py:20-28 | the load loop gives the empty map for a missing file, otherwise the map of the lines or the first line's error |
| ModificationLedger.ErrorPersists | upload_khoj_ui.py:24-27 | once a line fails to parse, loading the whole file fails with that error |
| ModificationLedger.LineWithoutColonFails | upload_khoj_ui.py:25-26 | a non-empty line without ':' (a blank line is "\n") makes loading fail |
| ModificationLedger.LastRecordWins | upload_khoj_ui.py:24-27 | the time loaded for a path is the one in its last record |
| ModificationLedger.ParseFormatRecord | upload_khoj_ui.py:26-33 | a record written for a path without surrounding whitespace parses back to that path and time, even if the path contains ':' |
| ModificationLedger.RecordIsOneLine | upload_khoj_ui.py:33 | a record for a path without line breaks is one line ending in its only "\n" |
| ModificationLedger.LedgerTextAppend | upload_khoj_ui.py:31-33 | appending a line keeps the ledger file empty-or-newline-terminated and free of '\r' |
| ModificationLedger.SplitKeepEndsAppend | upload_khoj_ui.py:24 | text ending in "\n" is read line by line independently of what is appended after it |
| ModificationLedger.ReadLinesAppend | upload_khoj_ui.py:23-33 | reading the file after one more record yields the old lines plus that record |
| ModificationLedger.AppendThenLoad | upload_khoj_ui.py:20-33 | loading after appending one record gives the old map with that path set to that time |
| ModificationLedger.SaveThenLoad | upload_khoj_ui.py:20-33 | loading after appending the records of a sequence of paths gives the old map updated path by path, in order |
| ModificationLedger.Stale | upload_khoj_ui.py:135 | a path is stale when unrecorded or recorded older; `Ledger.Consider` queues exactly the stale paths |
| ModificationLedger.Select | upload_khoj_ui.py:130-137 | a discovery pass in order, each update seen by later candidates; the lemmas below state what it queues and records |
| ModificationLedger.StaleAfterSelect | upload_khoj_ui.py:135-137 | after a pass a path is stale for a time iff it was stale before and every candidate with that path was older |
| ModificationLedger.SelectQueuesExpected | upload_khoj_ui.py:135-137 | a pass queues exactly the candidates stale against the map and newer than every earlier candidate of their path |
| ModificationLedger.QueuedAreCandidates | upload_khoj_ui.py:135-136 | only candidates of the pass are queued |
| ModificationLedger.QueuedTimesIncrease | upload_khoj_ui.py:135-137 | a path queued twice in one pass has a strictly newer time the second time, so never twice with the same time |
| ModificationLedger.QueuedRecorded | upload_khoj_ui.py:137 | a queued file is no longer stale for its time after the pass |
| ModificationLedger.RecordsGrow | upload_khoj_ui.py:135-137 | a pass never removes a record nor makes a recorded time older |
| ModificationLedger.SelectCoversCandidates | upload_khoj_ui.py:135-137 | after a pass no candidate of it is stale |
| ModificationLedger.SelectNothingStale | upload_khoj_ui.py:135 | when every recorded time is at least the current one, nothing is queued and the map is untouched |
| ModificationLedger.SelectIdempotent | upload_khoj_ui.py:135-137 | a second pass over the same files queues nothing and leaves the map as it is |
| ModificationLedger.SelectAppend | upload_khoj_ui.py:155-163 | a pass over two runs of candidates is the pass over the first followed by the pass over the second from the map it leaves |
| ModificationLedger.StartUp | upload_khoj_ui.py:20-35 | start-up fails exactly when loading the file fails, with its error; otherwise a new ledger holds the loaded map and the file's text ("" for a missing file) |
| ModificationLedger.Ledger.constructor | upload_khoj_ui.py:35 | a ledger is made only from a map and the text it loads from, and holds both |
| ModificationLedger.Ledger.Consider | upload_khoj_ui.py:135-137 | a path is queued iff it is unrecorded or recorded older; when queued only its entry changes, to the current time; otherwise nothing changes |
| ModificationLedger.Ledger.Save | upload_khoj_ui.py:30-33 | exactly one record per path is appended, in order, with its time at saving; the map is unchanged |
| ModificationLedger.Ledger.SaveAll | upload_khoj_ui.py:174 | one record for each key of the map, each exactly once, is appended; the map is unchanged |
| Discovery.Normalize | upload_khoj_ui.py:121 | each backslash becomes '/', every other character is kept |
| Discovery.PathJoin | upload_khoj_ui.py:129 | POSIX `os.path.join(a, b)`; `JoinEndsWithName` states that the joined path ends with `b` |
| Discovery.IsExcluded | upload_khoj_ui.py:119-122 | a path is excluded iff some pattern occurs in its slash-normalised form (never with no patterns) |
| Discovery.ExclusionMonotone | upload_khoj_ui.py:122 | more patterns exclude at least as much |
| Discovery.Walk | upload_khoj_ui.py:124-138 | the files `os.walk` meets top-down: a directory's own files, then the walks of its subdirectories that are not excluded; `WalkKeepsExtensions`, `WalkReachesEntries` and `PrunedContentsIgnored` state what it meets |
| Discovery.WalkReachesEntries | upload_khoj_ui.py:129-133 | a file of a directory with one of the extensions is met by the walk, and so is everything met below a subdirectory that is not excluded |
| Discovery.FindFiles | upload_khoj_ui.py:124-138 | the walk returns, in walk order, exactly the files the staleness pass queues over the files met, and leaves the map as that pass does |
| Discovery.QueueFiles | upload_khoj_ui.py:130-137 | the loop over one directory's files queues and records exactly as the staleness pass over its files with a matching suffix |
| Discovery.WalkSubdirectories | upload_khoj_ui.py:126-129 | the subdirectories that are not excluded are walked in turn, as the pass over their walks |
| Discovery.WalkKeepsExtensions | upload_khoj_ui.py:130-133 | every file a walk returns ends with one of the extensions, whatever the patterns |
| Discovery.PrunedContentsIgnored | upload_khoj_ui.py:129 | replacing the contents of a pruned subdirectory by anything leaves the walk unchanged |
| Discovery.SlashPatternSparesDirectory | upload_khoj_ui.py:129 | the pattern ".obsidian/" does not prune "vault/.obsidian" itself, whose joined path has no trailing '/' |
| Discovery.SlashPatternPrunesBelow | upload_khoj_ui.py:129 | ... but it prunes every subdirectory of "vault/.obsidian" |
| Discovery.WalkFileAndPrunedDirectory | upload_khoj_ui.py:126-137 | a directory holding one matching file and one excluded subdirectory yields that file only |
| Discovery.SlashPatternWalk | upload_khoj_ui.py:124-137 | with the pattern ".obsidian/", a file directly in "vault/.obsidian" is returned and nothing below its subdirectories is |
| Discovery.DiscoverRoot | upload_khoj_ui.py:157-165 | a directory root is walked; a file root is queued by the staleness test when its suffix matches and it is not excluded; anything else is reported invalid |
| Discovery.Discover | upload_khoj_ui.py:155-165 | the loop over the roots queues the files of the pass over all roots' candidates in order, and reports exactly the invalid roots |
| Upload.NumBatches | upload_khoj_ui.py:75 | the number of batches is n / 10 rounded up |
| Upload.BatchesCoverFiles | upload_khoj_ui.py:75-76 | the first k batches are the first min(10k, n) files, and all batches concatenate back to the files |
| Upload.BatchSizes | upload_khoj_ui.py:75-76 | every batch holds 1 to 10 files, and every batch but the last holds exactly 10 |
| Upload.CompletedEndsAtTotal | upload_khoj_ui.py:109 | the progress count is 10j after batch j before the last, and n at the end |
| Upload.SerializeAppend | upload_khoj_ui.py:114 | saving two runs of paths one after the other appends the records of both, in order |
| Upload.PartsPerFile | upload_khoj_ui.py:79-90 | the form holds one entry per file of the batch, in batch order |
| Upload.BuildForm | upload_khoj_ui.py:77-90 | the loop over a batch builds its form: filtered text for text MIME types, raw bytes otherwise |
| Upload.RequestsPerBatch | upload_khoj_ui.py:99-100 | one request per batch, in order, each with the chosen verb and its batch's form |
| Upload.ReportsPerBatch | upload_khoj_ui.py:102-113 | batch j is reported as number j + 1, as successful iff its status is 200, with min(10(j + 1), n) files completed |
| Upload.UploadFiles | upload_khoj_ui.py:72-117 | one request per batch, PUT iff forced and PATCH otherwise, one report per batch; every file is appended to the ledger whatever the status codes; the map is unchanged |
| Upload.RootsOf | upload_khoj_ui.py:146 | the paths file's lines stripped with blank ones dropped; `NoRootsIffBlank` states when none is left |
| Upload.NoRootsIffBlank | upload_khoj_ui.py:145-150 | no root is configured iff every line of the paths file is blank |
| Upload.StripEach | upload_khoj_ui.py:153 | each pattern is stripped, and the number of patterns is kept |
| Upload.Sync | upload_khoj_ui.py:140-176 | a missing paths file, or one listing no root, ends the run with nothing changed; a paths file listing a root always runs, and then the stale files of all roots are queued and recorded, the invalid roots reported, the audit log is the queue joined by "\n", and the upload is as `UploadFiles`; the ledger file grows by the uploaded files' records and then the whole map when something was queued, and is untouched otherwise |

## Left out

- The tkinter GUI, the `root.after` log and progress callbacks, the
  `print` messages, and the worker thread of `start_upload`. These are
  presentation and concurrency. The model covers one run, single-threaded.
- The HTTP requests and their headers. Each batch's response is the
  parameter `status`; the response body is not modelled. The
  `time.sleep(10)` between batches is not modelled either.
- Real file I/O: `open`, `os.walk`, `os.path.exists`, `isdir`, `isfile`
  and `getmtime`. The tree, root entries, contents and times are
  parameters. A `getmtime` that fails, a symbolic link, and an `os.walk`
  error are not modelled.
- Discovery.Normalize: does not model `os.path.normpath`. Only the
  backslash-to-slash replacement is modelled; paths are taken as already
  normalised (no "..", "." or repeated '/').
- Upload.RootsOf: the `normpath` of each configured root is not applied,
  for the same reason.
- Modification times are natural numbers written and read in decimal.
  `float()`, `repr` of floats and the floating-point progress percentage
  are not modelled.
- Mime.ToLower: `str.lower` is modelled for ASCII letters only; other
  Unicode case mappings are not modelled. `[\w-]` in the block-reference
  pattern is likewise read as ASCII.
- UTF-8 decoding and encoding errors are not modelled. The decoded text
  of a file is the parameter `textOf`, and `my_filter`'s `bytes` branch is
  not reached, since text files are always opened in text mode.
- ModificationLedger.Ledger.SaveAll: does not fix the dictionary's
  iteration order. The order is returned as a ghost sequence that lists
  each key exactly once.
- The write of `files_to_upload.log` is modelled as the returned string
  `auditLog`, not as a file.
