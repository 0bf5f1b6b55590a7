# Heating-plant telemetry scraper — a Dafny model

`fetch_sensors.py` polls the web interface of a building-management controller. It reads two kinds of records:

- Sensors have identifiers `S1`, `S2`, ….
- Drivers have identifiers `D1`, `D2`, ….

For each kind it visits a fixed list of page offsets. On every page it picks the table that looks like the data table and extracts one record `{item, label, value, units}` per suitable row. It keeps only records of the wanted kind.

The records are then de-duplicated by identifier, with the last one found kept, and ordered by identifier number. The result is written to:

- a snapshot document for each kind;
- an append-only history file per identifier, with one `timestamp;value` line per poll;
- a manifest for each kind, listing those history files;
- a combined `latest_all` document.

`render_esquema.py` finds the first sensor whose label mentions the hot-water tank ("depósito"). It substitutes that sensor's value and units, as `"<value> <units>"`, for every `{{S9}}` token in a diagram template, or `N/A` when no sensor matches.

The model is split into modules that follow the program's structure:

| module | file | models |
|---|---|---|
| `Wrappers` | text.dfy | `Option` |
| `Text` | text.dfy | Python's whitespace, `strip`, `re.sub(r"\s+", " ", …)`, `lower`, `in`, `startswith`, ASCII digits |
| `Extraction` | extraction.dfy | `safe_text`, table scoring and choice, row extraction, `parse_table_rows` |
| `Pagination` | pagination.dfy | the page loop of `main` (skip failed pages, stop at an empty page) |
| `Dedup` | dedup.dfy | `by_item` and the stable sort by identifier number |
| `History` | history.dfy | `append_history` on a directory of files (class `HistoryStore`), the history loops |
| `Documents` | documents.dfy | snapshots, manifests, `build_latest_all` |
| `Poll` | poll.dfy | one run of `main` |
| `Render` | render.dfy | `render_esquema.py` |

Each loop of the source that updates variables step by step is a `method` proved against a specification function, and lemmas state what the source promises about that function. These loops are:

- the table choice, the row loop and the page loop;
- the `by_item` dictionary and the sort;
- the history loop and `append_history` on the `HistoryStore` class;
- the tank lookup.

The `for d in ...` loop of `build_latest_all` only builds a list of projections, so it is a sequence comprehension inside the function `BuildLatestAll`. The manifest comprehensions are functions too.

The whitespace clean-up of `safe_text` has an independent reference: `Words` is Python's `s.split()`, and `CleanIsJoinedWords` proves the clean-up equals `" ".join(s.split())`.

The de-duplication is specified by a predicate, `IsDedupOf`, and does not restate any algorithm. `IsDedupOf` says the output has these properties:

- Its records are the last record found for each identifier.
- It covers every identifier found.
- It is strictly ordered by identifier number, with ties in order of first appearance. Ties are possible because `S01` and `S1` share the number 1; Python's sort is stable and the dictionary keeps insertion order.

Python's `sorted` is modelled by an insertion sort that meets this contract.

## Model

| member | source | states |
|---|---|---|
| Text.ReplaceNbsp | fetch_sensors.py:49 | every non-breaking space becomes `' '` and every other character is kept in place |
| Text.TrimLeft | fetch_sensors.py:49 | the result is a suffix of the input, does not start with whitespace, and only whitespace was removed |
| Text.TrimRight | fetch_sensors.py:49 | the result is a prefix of the input, does not end with whitespace, and only whitespace was removed |
| Text.Strip | fetch_sensors.py:49 | the result neither starts nor ends with whitespace and keeps every non-whitespace character, in order |
| Text.StripIsSlice | fetch_sensors.py:49 | the stripped text is a contiguous slice of the input with only whitespace before and after it, so interior whitespace is kept |
| Text.StripKeepsWords | fetch_sensors.py:49 | stripping keeps the words (`split()`) of the text |
| Text.Collapse | fetch_sensors.py:50 | `re.sub(r"\s+", " ", s)`: a whitespace character starts a run that becomes one space, and the scan resumes after the run |
| Text.CollapseSpec | fetch_sensors.py:50 | no run of two whitespace characters and no whitespace other than a single space remains; non-whitespace characters are kept in order; the result is empty exactly when the input is; it starts with whitespace exactly when the input does, and likewise for the end |
| Text.CollapseKeepsWords | fetch_sensors.py:50 | collapsing keeps the words of the text, so no whitespace between two words is removed or added |
| Text.Words | fetch_sensors.py:49-50 | Python's `s.split()`: non-empty, whitespace-free words; text starting with a visible character has at least one word |
| Text.JoinWordsNormalized | fetch_sensors.py:49-50 | a stripped, single-spaced text is its words joined by single spaces |
| Text.CleanIsJoinedWords | fetch_sensors.py:49-50 | the clean-up equals `" ".join(s.split())`: the input's words, in order, separated by one space each |
| Text.Clean | fetch_sensors.py:49-50 | the cleaned text is normalised (stripped, single-spaced, no non-breaking space) and has the same non-whitespace characters as the input |
| Text.CollapseNormalized | fetch_sensors.py:50 | collapsing already single-spaced text changes nothing |
| Text.CleanIdempotent | fetch_sensors.py:49-50 | cleaning twice is cleaning once |
| Text.CleanEmptyIffBlank | fetch_sensors.py:49-50 | the cleaned text is empty exactly when the input has no non-whitespace character |
| Extraction.SafeText | fetch_sensors.py:45-59 | `safe_text`: "" for `None`; otherwise the cleaned text, or its re-decoding when the acceptance rule admits it |
| Extraction.SafeTextSpec | fetch_sensors.py:45-59 | `None` gives ""; otherwise the result is the cleaned text or its re-decoding, and an accepted re-decoding is non-empty, free of 'Â' and at least half as long |
| Extraction.SafeTextKeepsContent | fetch_sensors.py:45-59 | text with a visible character never cleans to "" |
| Extraction.SafeTextRejected | fetch_sensors.py:49-59 | when the re-decoding is refused, the result is normalised and keeps the input's visible characters |
| Extraction.IsIdentifier | fetch_sensors.py:115 | `^(S\d+|D\d+)$` with ASCII digits: `S` or `D` followed by at least one digit and nothing else |
| Extraction.IsIdentOf | fetch_sensors.py:192 | `^S\d+$` (and `^D\d+$` at line 241) for one kind letter |
| Extraction.Ordinal | fetch_sensors.py:204 | `int(x[1:])`: the decimal value of the digits after the kind letter |
| Extraction.KeywordScore | fetch_sensors.py:84-92 | the four keyword tests together give at most 8 points |
| Extraction.Score | fetch_sensors.py:83-94 | a table's score lies between its row points (rows / 5) and 8 more than that |
| Extraction.Choose | fetch_sensors.py:80-97 | the chosen table is the first whose score is maximal and positive; there is no choice when every score is 0 |
| Extraction.FirstBestUnique | fetch_sensors.py:80-97 | at most one choice meets that rule, so the choice depends on the scores alone |
| Extraction.ChooseBest | fetch_sensors.py:80-97 | the strict `>` scan starting from 0 picks exactly that first positive maximum |
| Extraction.Cols | fetch_sensors.py:110 | one cleaned cell per `td`/`th`, in order |
| Extraction.RowRecord | fetch_sensors.py:105-128 | a row of fewer than three cells gives nothing; a row whose first cleaned cell is an identifier gives a record with that item, and only such rows give one |
| Extraction.RowRecordColumns | fetch_sensors.py:114-119 | label, value and units are cells 1, 2 and 3; units are "" for a three-cell row |
| Extraction.RowRecordIgnoresExtra | fetch_sensors.py:110-119 | cells after the fourth change nothing |
| Extraction.Extract | fetch_sensors.py:105-129 | the records of the rows that produce one, in row order |
| Extraction.ExtractConcat | fetch_sensors.py:105-128 | extraction distributes over concatenated rows, so records come out in row order |
| Extraction.ExtractSound | fetch_sensors.py:105-128 | every extracted record has an identifier and comes from a row of at least three cells |
| Extraction.ExtractComplete | fetch_sensors.py:105-128 | every row of at least three cells whose first cell is an identifier contributes its record |
| Extraction.RowsToRecords | fetch_sensors.py:102-131 | the row loop appends the records of the accepted rows, in order |
| Extraction.ParseRows | fetch_sensors.py:76-131 | no chosen table gives no records; otherwise the records extracted from the chosen table's rows |
| Extraction.ParseTableRows | fetch_sensors.py:68-131 | no tables, or no positive score, gives no records; otherwise the records of the chosen table's rows |
| Pagination.OfKind | fetch_sensors.py:192 | keeps exactly the records whose item is an identifier of the kind |
| Pagination.OfKindConcat | fetch_sensors.py:192 | the filter distributes over concatenation, so it keeps the records' order |
| Pagination.OfKindAll | fetch_sensors.py:192 | a list of records all of the kind passes the filter unchanged |
| Pagination.OfKindNone | fetch_sensors.py:192 | a list with no record of the kind is filtered to nothing |
| Pagination.Walk | fetch_sensors.py:181-198 | the records accumulated over the starts: a failed fetch is skipped, a page's records of the kind are appended, and an empty page at a non-zero start ends the walk |
| Pagination.WalkOfKind | fetch_sensors.py:190-193 | every accumulated record is of the wanted kind |
| Pagination.WalkAllFailed | fetch_sensors.py:184-188 | when every fetch fails nothing is collected |
| Pagination.WalkStopsAtEmptyPage | fetch_sensors.py:197-198 | after an empty page at a non-zero start, later pages make no difference |
| Pagination.WalkSplit | fetch_sensors.py:182-198 | before the first page that ends the walk, the walk over the pages is the walk over a prefix followed by the walk over the rest, so records accumulate in page order |
| Pagination.WalkSkipsFailed | fetch_sensors.py:184-188 | removing a page whose fetch failed leaves the walk unchanged |
| Pagination.Paginate | fetch_sensors.py:181-198 | the page loop with `continue` and `break` accumulates exactly the walk |
| Dedup.ByItem | fetch_sensors.py:201-203 | the `by_item` dictionary after the loop: each item maps to its last record |
| Dedup.InsertionOrder | fetch_sensors.py:201-203 | the dictionary's key order: each item at its first appearance |
| Dedup.ByItemSpec | fetch_sensors.py:201-203 | the dictionary's keys are the items found, and each maps to that item's last record |
| Dedup.InsertionOrderSpec | fetch_sensors.py:201-203 | the dictionary's key order lists every item once, in order of first appearance |
| Dedup.IndexByItem | fetch_sensors.py:201-203 | the loop builds that dictionary and its key order |
| Dedup.InsertionPoint | fetch_sensors.py:204 | the position after every key whose number is not greater and before every greater one |
| Dedup.SortByOrdinal | fetch_sensors.py:204 | the sorted keys are a permutation of the dictionary's keys, ordered by number with ties in insertion order |
| Dedup.Deduplicate | fetch_sensors.py:200-204 | the output is the de-duplication of the input (`IsDedupOf`) |
| Dedup.DedupDistinct | fetch_sensors.py:200-204 | each identifier appears at most once in the output |
| Dedup.DedupAscending | fetch_sensors.py:204 | output identifiers have non-decreasing numbers |
| Dedup.DedupLastWins | fetch_sensors.py:201-203 | a record that no later record of the same item follows is in the output |
| Dedup.DedupUnique | fetch_sensors.py:200-204 | the de-duplication of an input is unique |
| Dedup.DedupIdempotent | fetch_sensors.py:200-204 | de-duplicating a de-duplicated list returns it unchanged |
| History.Appended | fetch_sensors.py:134-149 | the old lines are kept; at most one line is added; the file ends up stamped; nothing is added exactly when the last line already carries the timestamp; an added line is `timestamp;value` |
| History.HistoryFile | fetch_sensors.py:213 | the history file name `<item>.txt`, or `drv_<item>.txt` with the driver prefix (line 260) |
| History.AppendedIdempotent | fetch_sensors.py:138-144 | a second append with the same timestamp adds nothing, whatever its value |
| History.StampsDistinguish | fetch_sensors.py:143 | two `;`-free timestamps that stamp the same line are equal |
| History.NewTimestampAddsLine | fetch_sensors.py:138-149 | a new timestamp adds exactly its line |
| History.HistoryFileInjective | fetch_sensors.py:213 | distinct identifiers use distinct files |
| History.SensorAndDriverFilesDiffer | fetch_sensors.py:260 | a sensor's file never coincides with a driver's |
| History.Recorded | fetch_sensors.py:209-213 | the data directory after `append_history` on each record's file, in record order |
| History.RecordedStamps | fetch_sensors.py:209-213 | recording leaves other files alone, keeps stamped files unchanged, and stamps every file it touches |
| History.RecordedNoop | fetch_sensors.py:209-213 | recording changes nothing when every file it touches is already stamped |
| History.RecordedIdempotent | fetch_sensors.py:209-213 | recording the same records twice with one timestamp equals recording once |
| History.RecordedValues | fetch_sensors.py:209-213 | with one record per identifier, each file gains exactly its own record's line unless it was already stamped |
| History.HistoryStore.AppendHistory | fetch_sensors.py:134-149 | `append_history` changes only the named file, to its appended lines |
| History.HistoryStore.RecordAll | fetch_sensors.py:209-213 | the history loop leaves the directory as the recording fold says |
| Documents.ManifestOf | fetch_sensors.py:215-227 | one entry per record, in order, with the record's item, label and units, and as `file` the record's history file |
| Documents.ManifestNamesRecordedFiles | fetch_sensors.py:209-227 | the manifest names exactly the files the history loop touches |
| Documents.ManifestFilesDistinct | fetch_sensors.py:215-227 | with one record per identifier, no two entries share a file |
| Documents.BuildLatestAll | fetch_sensors.py:156-174 | the timestamp is the sensors' unless empty, then the drivers'; sensors and drivers are copied; items are the sensors followed by the drivers |
| Documents.LatestAllSplits | fetch_sensors.py:156-174 | the sensors and the drivers are recovered from `items` by identifier kind |
| Poll.Collect | fetch_sensors.py:181-213 | one kind's records are the de-duplicated walk, and their history lines are recorded |
| Poll.RunPoll | fetch_sensors.py:177-279 | the snapshots hold the de-duplicated walks; the manifests and the combined document are built from them; both history loops are applied |
| Poll.PollStampsAllFiles | fetch_sensors.py:209-260 | after a run, every history file of a found record ends with the run's timestamp |
| Poll.PollFilesIdempotent | fetch_sensors.py:209-260 | running the history steps twice with one timestamp changes nothing the second time |
| Poll.RepeatedPollAddsNothing | fetch_sensors.py:177-279 | a second run with the same timestamp and the same pages adds no history line |
| Poll.ManifestFilesStamped | fetch_sensors.py:215-275 | every file a manifest lists ends with the run's timestamp |
| Render.FirstTankSensor | render_esquema.py:15-18 | the first sensor, in list order, whose lower-cased label contains "depósito" |
| Render.TankValue | render_esquema.py:14-18 | `"<value> <units>"` of the first sensor whose label mentions the tank, or `N/A` |
| Render.FindTankValue | render_esquema.py:14-18 | the loop with `break` yields that sensor's "value units", or `N/A` when there is none |
| Render.LaterMatchesIgnored | render_esquema.py:15-18 | sensors after the first match make no difference |
| Render.MissingIffNoMatch | render_esquema.py:14-18 | `N/A` is used exactly when no label mentions the tank |
| Render.ReplaceAll | render_esquema.py:24 | `str.replace` for a non-empty pattern: scan left to right, replace each occurrence and resume after it |
| Render.ReplaceAbsent | render_esquema.py:24 | a template without the token is unchanged |
| Render.ReplaceBySelf | render_esquema.py:24 | replacing the token by itself changes nothing |
| Render.ReplaceFirst | render_esquema.py:24 | the text before the first token is kept; the token is replaced; the scan resumes after it |
| Render.ReplaceConcat | render_esquema.py:24 | replacement distributes over a concatenation that no token straddles |
| Render.OtherTokenUntouched | render_esquema.py:24 | placeholders of other identifiers, such as `{{S1}}`, are left as they are |
| Render.RenderDiagram | render_esquema.py:13-24 | the output is the template with every token replaced by the looked-up value |

## Left out

- The HTTP requests (`fetch_html`, `requests.get`) and their timeouts are not modelled. Each page fetch is an input outcome (`Failed` or the page's tables).
- The HTML parser is not modelled. A page is the sequence of its tables. A table is the text the parser reports plus its rows, and a row is the raw texts of its `td`/`th` cells.
- The latin-1 to UTF-8 re-decoding in `safe_text` is an uninterpreted parameter (`Repair`). Byte-level encoding is not modelled, and neither is the `except` branch, which `errors="ignore"` makes unreachable.
- `Text.Lower` lower-cases ASCII and Latin-1 letters only, not all of Unicode. Whitespace is Python's `str.isspace` set for the code points that occur in practice.
- Identifiers use ASCII digits. Two Python regex details are not modelled: `$` matching before a final newline, and `\d` matching non-ASCII digits.
- JSON serialisation, the file writes of the documents, the clock (the timestamp is an input), `print`, and the top-level exception handler are not modelled.
- The `.get(key, default)` fallbacks in `build_latest_all`, the history loops and the manifests are not modelled. Every record the extractor produces has all four keys, so those defaults are never taken.
- History files are sequences of lines. `splitlines` on values that contain line breaks, and the `errors="ignore"` decoding of a file, are not modelled. A missing file and an empty file behave alike: both receive the line.
- Dedup.Deduplicate: requires every record to carry an identifier. The page filter guarantees this, and `int(x[1:])` would raise on anything else.
- Python's `sorted` is modelled as an insertion sort proved to meet the stable-sort contract. Its own algorithm is not modelled.
