# NBA game-log exporter and viewer, modelled in Dafny

The repository is two Python scripts that share only an S3 bucket and a key
naming convention. `S3Upload/main.py` fetches the game logs of a fixed roster,
keeps the games played on the target dates, tags each with the player's name,
and uploads the combined CSV under `nba_filtered_game_logs.csv`. If that key is
taken it tries `nba_filtered_game_logs_1.csv`, `_2`, and so on until a key is
free. `app.py` lists the keys under `nba_filtered_game_logs_`, picks the one
with the largest numeric suffix, downloads it and serves a Dash dashboard that
plots one player's rows.

This project models the sequential logic of both scripts and proves what it
promises:

- `uploader.dfy` (module `Uploader`): `file_exists` classifies a `head_object`
  outcome. `upload_file_with_increment` splits the key at its last dot and then
  probes candidates in a `while` loop. The loop is a method proved against the
  recursive specification function `ProbeFrom`. The bucket is a value
  `Store(objects, faults)`: the stored keys, plus the keys whose head call fails
  with a code other than 404. The upload returns the bucket as it is afterwards.
- `exporter.dfy` (module `Exporter`): the roster loop of `create_nba_csv` is a
  method proved against the specification function `Combined`. `main` is
  `ExportAndUpload`.
- `viewer.dfy` (module `Viewer`): `get_latest_s3_file` is modelled as Python
  computes it. The first key whose suffix does not parse aborts the run. The
  keyed list then gets a stable descending sort (`sorted(..., reverse=True)`),
  and the head is taken.
- `dashboard.dfy` (module `Dashboard`): the player options
  (`df["Player"].unique()`), the preselected player, and `update_graph`.
- `handoff.dfy` (module `Handoff`): the cross-script properties. Every suffixed
  key the uploader writes parses back to its counter in the viewer. The
  unsuffixed first upload is never listed. After uploads 0..n the viewer selects
  upload n.
- `text.dfy` and `wrappers.dfy`: helpers. They cover character search, decimal
  printing and digits-only parsing, plus `Option` and `Result`.

The exporter keeps a row when its date is a member of the expanded target-date
list (`isin(target_dates)`, S3Upload/main.py:88); no range comparison is made. The list is
given as the constant `Exporter.TargetDates`, written out for 2025-02-19 to
2025-03-08. A listed key without a parseable suffix makes `int()` raise, so the
viewer fails on it. It is neither skipped nor read as 0. The model returns
`Err(MalformedSuffix(key))` for the first such key in listing order.

## Model

| member | source | states |
|---|---|---|
| `Uploader.Head` | S3Upload/main.py:17-21 | `head_object` succeeds exactly for stored keys without a fault; it reports code 404 exactly for keys that are neither stored nor faulty |
| `Uploader.FileExists` | S3Upload/main.py:14-25 | true iff the head call succeeded; false iff the error code is "404"; any other code is propagated as an error carrying that code |
| `Uploader.SplitKey` | S3Upload/main.py:33-37 | base + ext is the key; ext is empty iff the key has no dot; otherwise ext starts with the last dot and contains no other dot |
| `Uploader.CandidateShape` | S3Upload/main.py:43 | a suffixed candidate is the base, `_`, the decimal counter and the extension, at fixed positions |
| `Uploader.CandidatesDistinct` | S3Upload/main.py:39-44 | the probed keys `key`, `base_1ext`, `base_2ext`, ... are pairwise distinct |
| `Uploader.CandidateSetSize` | S3Upload/main.py:39-44 | the first n probed keys form a set of exactly n keys |
| `Uploader.FoundBelowBound` | S3Upload/main.py:40-44 | if the first n probes all found an object, the bucket holds at least n objects, so the loop stops after at most the number of objects plus one probes |
| `Uploader.ProbeFrom` | S3Upload/main.py:39-44 | the probe stops at the first candidate that is not found. That candidate is either absent (upload there) or failing with a non-404 code (error). Every earlier candidate exists, and the stop index is at most the number of objects |
| `Uploader.UploadWithIncrement` | S3Upload/main.py:27-47 | the probe loop uploads to the first free candidate and adds exactly that key to the bucket; if a probe raises, it returns that error code and leaves the bucket unchanged |
| `Uploader.VerbatimWhenAbsent` | S3Upload/main.py:39-46 | a key that is neither stored nor failing is used verbatim |
| `Uploader.NoOverwriteNoGap` | S3Upload/main.py:39-46 | the chosen key was not stored; afterwards the key and every suffix up to the chosen one are stored, so no suffix is skipped |
| `Uploader.FirstGapIsUsed` | S3Upload/main.py:39-44 | when the first n candidates exist and the n-th is absent, the upload goes to exactly the n-th |
| `Uploader.SuccessiveUploads` | S3Upload/main.py:39-46 | a bucket holding exactly the first n candidates receives the n-th next, and afterwards holds the first n + 1 |
| `Uploader.NoDotNoExtension` | S3Upload/main.py:33-43 | for a key without a dot, the candidates are `key_1`, `key_2`, ...; no extension is inserted |
| `Uploader.SecondSuffixExample` | S3Upload/main.py:33-46 | with "data.csv" and "data_1.csv" stored, uploading "data.csv" stores "data_2.csv" |
| `Text.LastIndexOf` | S3Upload/main.py:34 | the index returned holds the last occurrence of the character; none is returned iff the character is absent |
| `Text.FirstIndexOf` | app.py:45 | the index returned holds the first occurrence of the character; none is returned iff the character is absent |
| `Text.NatToString` | S3Upload/main.py:43 | the counter is printed as a non-empty string of digits with no `_` or `.`; it has one digit iff the number is below 10; it starts with `0` only when the number is 0 |
| `Text.ParseNat` | app.py:45 | `int()` on a suffix succeeds iff the text is a non-empty run of decimal digits |
| `Text.ParsePrinted` | app.py:45 | parsing a printed counter gives the counter back |
| `Text.PrintedInjective` | S3Upload/main.py:43 | distinct counters print as distinct strings |
| `Exporter.Tagged` | S3Upload/main.py:84-88 | one player's contribution has no more rows than the log |
| `Exporter.CreateNbaCsv` | S3Upload/main.py:75-90 | the roster loop yields the combined table of the specification `Combined`, or the first fetch error |
| `Exporter.ExportAndUpload` | S3Upload/main.py:102-115 | a fetch error stops the run before the bucket is touched; otherwise the table is uploaded exactly as `upload_file_with_increment` does for "nba_filtered_game_logs.csv" |
| `Exporter.FailedPrefixDecides` | S3Upload/main.py:78-81 | a fetch error for one player is the outcome of the whole run; no later player matters |
| `Exporter.TaggedMembers` | S3Upload/main.py:84-88 | a row is in a player's contribution iff it carries that player's name and is a game of the log on a target date |
| `Exporter.TaggedConcat` | S3Upload/main.py:84-90 | tagging and filtering distribute over concatenation of the log, so the log's row order is preserved |
| `Exporter.TaggedCount` | S3Upload/main.py:83-88 | a log whose games are all on target dates contributes all of them; a log with none contributes nothing |
| `Exporter.CombinedMembers` | S3Upload/main.py:78-90 | the combined table holds exactly the rows that some roster player's fetched log yields, tagged with that player's name and on a target date |
| `Exporter.CombinedFails` | S3Upload/main.py:78-81 | the run succeeds iff every fetch succeeds; on failure the error is that of the first failing player in roster order |
| `Exporter.OnePlayerScenario` | S3Upload/main.py:70-90 | player "A" with games on 2025-02-20, 2025-02-25 and 2025-03-10 yields exactly the first two, tagged "A" |
| `Exporter.RangeEnds` | S3Upload/main.py:70-72 | both ends of the date range are inclusive; the day before the start and the day after the end are excluded |
| `Viewer.SuffixText` | app.py:45 | the suffix text contains neither `_` nor `.` |
| `Viewer.SuffixTextOf` | app.py:45 | for a key `prefix_t ext` where t has no `_` or `.`, and ext has no `_` and is empty or starts with a dot, the suffix text is exactly t |
| `Viewer.Keyed` | app.py:44-45 | keying succeeds iff every listed key's suffix parses; the keyed list pairs each listed key, in order, with its parsed suffix |
| `Viewer.KeyedFailsAtFirst` | app.py:45 | keying fails on the first key in listing order whose suffix does not parse |
| `Viewer.Insert` | app.py:45 | inserting into the descending list puts the new entry first iff its suffix is at least the current head's |
| `Viewer.InsertPermutes` | app.py:45 | inserting yields a rearrangement of the new entry and the list |
| `Viewer.InsertPlacement` | app.py:45 | in a descending list the new entry lands after exactly the entries with a larger suffix and before the rest, so equal suffixes keep listing order |
| `Viewer.InsertKeepsDescending` | app.py:45 | inserting into a descending list leaves it descending |
| `Viewer.DescendingInsertion` | app.py:45 | placing an entry between a strictly larger left part and a no-larger right part keeps descending order |
| `Viewer.SortDescendingSpec` | app.py:45 | the sort is a permutation of its input and its suffixes never increase |
| `Viewer.LatestBy` | app.py:39-45 | the selection fails with "no matching files" iff the listing is empty |
| `Viewer.FirstMaxUnique` | app.py:45 | at most one position holds the largest suffix with only smaller suffixes before it |
| `Viewer.SortedHeadIsFirstMax` | app.py:45 | the head of the stable descending sort is the entry with the largest suffix that comes first in listing order |
| `Viewer.SelectsFirstMax` | app.py:44-45 | on a listing whose suffixes all parse, the key with the largest suffix and only smaller suffixes before it is the one selected |
| `Viewer.SelectedIsLatest` | app.py:44-45 | a successful selection means every suffix parsed, and the selected key is listed with the largest suffix and no earlier key reaching it |
| `Viewer.SelectsUniqueMax` | app.py:45 | a listed key whose suffix bounds all others and is the only listed key reaching it is selected |
| `Viewer.SelectedIsListed` | app.py:44-45 | the selected key is a member of the listing |
| `Viewer.MalformedFails` | app.py:45 | a listing with an unparseable suffix fails, naming the first such key |
| `Handoff.CandidateSuffixRoundTrip` | S3Upload/main.py:43 | the viewer parses the uploader's n-th suffixed key back to n when the extension has no underscore |
| `Handoff.ExportKeyAndPrefix` | app.py:39 | "nba_filtered_game_logs.csv" splits into "nba_filtered_game_logs" and ".csv"; it does not start with the viewer's prefix, and every suffixed candidate does |
| `Handoff.CandidatePrefix` | S3Upload/main.py:39-43 | suffixed candidates start with `base_`; the unsuffixed key does not |
| `Handoff.UnsuffixedNeverSelected` | app.py:39-45 | the viewer never selects the unsuffixed "nba_filtered_game_logs.csv" |
| `Handoff.ListedUpload` | app.py:45 | a key listed under `base_` from a bucket of the first n + 1 candidates is the m-th candidate for some 1 <= m <= n, and parses to m |
| `Handoff.NewestCandidateSelected` | app.py:39-45 | with a key and its suffixes 1..n stored, the listing under `base_` selects suffix n |
| `Handoff.NewestUploadSelected` | app.py:39-45 | after the exporter's uploads 0..n, the viewer selects "nba_filtered_game_logs_n.csv", the latest |
| `Dashboard.IndexOf` | app.py:69 | the position returned holds the first occurrence of the value |
| `Dashboard.Distinct` | app.py:69 | `unique()` keeps exactly the values of the column, each once, ordered by first appearance |
| `Dashboard.IndexOfExtend` | app.py:69 | appending to a column does not move the first occurrence of a value already present |
| `Dashboard.PlayerOptionsSpec` | app.py:69-81 | the dropdown offers every player of the table exactly once, in order of first appearance |
| `Dashboard.DistinctHead` | app.py:82 | the first distinct value is the first value |
| `Dashboard.DefaultPlayer` | app.py:82 | no player is preselected iff the table is empty; otherwise the first row's player is preselected |
| `Dashboard.RowsOf` | app.py:115 | a row is plotted iff it is in the table and carries the selected player's name |
| `Dashboard.RowsOfConcat` | app.py:115 | filtering by player distributes over concatenation, so table order is kept |
| `Dashboard.RowsOfAll` | app.py:115 | filtering a table of only that player's rows returns it unchanged |
| `Dashboard.RowsOfNone` | app.py:115 | filtering a table without that player's rows returns nothing |
| `Dashboard.UpdateGraph` | app.py:112-125 | with no selection the figure is the "No Data Available" placeholder; otherwise a scatter plot titled "<player>: <x> vs <y>" on the chosen stats, holding exactly the selected player's rows in file order |
| `Dashboard.TaggedRowsOf` | app.py:115 | filtering one player's exported contribution by name yields all of it for that player and nothing for any other |
| `Dashboard.AbsentPlayerHasNoRows` | app.py:115 | a name outside the roster has no rows in the exported table |
| `Dashboard.SelectedPlayerSeesOwnLog` | app.py:113-115 | selecting a roster player on the exported table shows exactly that player's on-date games, in log order, when roster names are distinct |

## Left out

- boto3 client construction and the real `head_object`, `upload_file`,
  `list_objects_v2` and `download_file` calls are network I/O. The bucket is the
  value `Uploader.Store`: keys only, no object contents, and per-key fault codes
  standing for failing head calls. `list_objects_v2` is the predicate
  `Handoff.ListingOf`, which fixes the listed keys but not their order. Its
  pagination is not modelled.
- `download_s3_file` and `pd.read_csv` / `to_csv` are file I/O. The dashboard
  lemmas take the downloaded table to be the exported table. The CSV round trip
  is assumed, not modelled.
- The nba_api fetch is foreign code. It is the parameter `fetch`, from player id
  to game log or error. The `time.sleep(1)` rate limit is timing and has no
  effect on the result.
- `pd.to_datetime(...).dt.strftime` and `pd.date_range` are library behaviour.
  Game dates arrive already normalised to YYYY-MM-DD. The target dates are a
  given list; for the configured range this is the constant
  `Exporter.TargetDates`.
- Python's full `int()` grammar (surrounding whitespace, signs, digit
  separators, non-ASCII digits) is not modelled. A suffix parses only when it
  is a non-empty run of ASCII digits.
- The Dash layout, callback wiring, plotly figure construction and
  `app.run_server` are UI. `update_graph` returns a `Figure` value that records
  the title, the axes and the rows plotted.
- The pip self-install loop in app.py, the module-level credential globals,
  `print` output and `exit(1)` are not modelled; the exit is the result
  `Err(NoMatchingFiles)`.
- Races between concurrent uploaders are not modelled; the code does not
  guarantee anything about them.
- When every roster log comes back empty, the exporter writes a CSV with no
  columns at all (S3Upload/main.py:75,83). The viewer's `pd.read_csv`
  (app.py:66) then raises before the player options are built (app.py:69).
  The model does not represent a table without columns: in that case
  `Dashboard.DefaultPlayer` returns `None` instead of failing.
