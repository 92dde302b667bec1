# Duplicate-file catalog: a Dafny model

This project models the engine of a duplicate-file finder that catalogues media files in a
SQLite table `arquivos`. The model covers:

- the indexer (`encontra_repetidos_sqlite.py`): the full scan with a resume option, the delta
  sync, content hashing, the creation-date heuristic, the reset prompt and the mode dispatch of
  `main`;
- the catalog operations (`db_utils.py`): the `ignorado` migration, the ignored and deleted
  soft flags, the deleted-file aggregates, and the corrupted-file and duplicate-group queries;
- the logic of the viewer window (`gui_app.py`): loading and filtering the groups, flattening
  them into tagged entries, paging, selecting by filter, and deleting the selection.

Modules:

- `Catalog`: the table, as the class `Store`.
  - `rows` holds the rows the connection sees.
  - `committed` holds what the last `commit()` saved.
  - `hasIgnorado` says whether the migrated `ignorado` column exists.
  - The SQL statements the core runs are methods of `Store` and functions on `seq<Row>`.
- `Timestamps`: the canonical `YYYY-MM-DD HH:MM:SS` form and the EXIF and ffprobe
  normalisations.
- `Indexer`: extensions, `file_hash`, `creation_date`, per-file extraction,
  `collect_metadata_to_db`, `ask_reset_table`, `find_duplicates` and `list_files_by_key`.
- `DeltaSync`: `update_only_changes`.
- `Scan`: `main`.
- `DbUtils`: `db_utils.py`.
- `GuiApp`: the viewer, with the class `DuplicadasDBApp` holding the window's state.

Both scans are proved as loops against recursive specification functions (`CollectRows`,
`Considered`, `SyncRows`). The properties are proved about those functions.

The disk is a sequence of `DiskFile` records in walk order. Each record carries what the
probes would report about that file:

- the bytes `open` reads;
- the `stat` result with the birth time;
- whether the PIL verify succeeds;
- the EXIF entries;
- ffprobe's `creation_time`.

A probe that raises is `None`. SHA-256 is the constructor `Sha256(bytes)`, which models a hash
with no collisions. `send2trash` is the set of paths whose trash call raises. The confirmation
dialog is a boolean parameter.

Where the repository's own description of the engine and the code differ, the model follows
the code:

- The birth-time fallback has no modification-time fallback: line 91 reads `st_birthtime`
  again (`Indexer.NoModifiedTimeFallback`).
- The delta sync has no per-file error handling. The first file that raises ends the run, and
  only the deletions may have been committed (`DeltaSync.SyncStops`,
  `DeltaSync.UpdateOnlyChanges`).
- A video `creation_time` that does not parse is stored as its first 19 characters with `T`
  turned into a space, so a stored date need not be canonical
  (`Timestamps.NormalizeVideoTime`, `Timestamps.VideoTimeGarbageKept`).
- The extension scope of `buscar_duplicadas` restricts only the counting query. A group may
  therefore contain rows of other extensions that share its key
  (`DbUtils.ScopeOnlyRestrictsCounting`).
- Corrupted rows are grouped like any other row.

## Model

| member | source | states |
|---|---|---|
| Catalog.NewRow | encontra_repetidos_sqlite.py:112-124 | the inserted row copies the extracted fields, is never deleted, and has `ignorado` 0 when the column exists (NULL before the migration) |
| Catalog.FindRow | encontra_repetidos_sqlite.py:270-272 | the lookup by path finds nothing exactly when the path is not catalogued; otherwise it finds the first row of the table with that path |
| Catalog.Paths | encontra_repetidos_sqlite.py:127-130 | `get_existing_paths`: the path of every row is in the set |
| Catalog.PathsOrigin | encontra_repetidos_sqlite.py:127-130 | every path in the set is the path of some row |
| Catalog.FindRowAppend | encontra_repetidos_sqlite.py:270-272 | appending a row never changes what the lookup finds for a path already catalogued |
| Catalog.WithoutPaths | encontra_repetidos_sqlite.py:250-251 | `DELETE ... WHERE path=?`: a row survives exactly when its path is not deleted |
| Catalog.WithoutPathsUnion | encontra_repetidos_sqlite.py:250-251 | deleting one set of paths after another is the same as deleting their union, so the order of the deletions does not matter |
| Catalog.WithoutAbsentPaths | encontra_repetidos_sqlite.py:245-246 | deleting paths that are not catalogued changes nothing |
| Catalog.Refreshed | encontra_repetidos_sqlite.py:316-317 | the `UPDATE` rewrites size, date, hash and corruption of exactly the rows with that path; every other row and field is kept |
| Catalog.Store.CreateTable | encontra_repetidos_sqlite.py:95-109 | a fresh table is empty and has no `ignorado` column |
| Catalog.Store.InsertFile | encontra_repetidos_sqlite.py:112-124 | an insert appends exactly the new row |
| Catalog.Store.DeleteWherePath | encontra_repetidos_sqlite.py:251 | the rows of that path are removed |
| Catalog.Store.UpdateWherePath | encontra_repetidos_sqlite.py:316-317 | the rows of that path are refreshed |
| Catalog.Store.DeleteAll | encontra_repetidos_sqlite.py:140-141 | the table is emptied |
| Catalog.Store.Commit | encontra_repetidos_sqlite.py:210 | `conn.commit()`: the committed snapshot becomes the current rows |
| Text.Strip | encontra_repetidos_sqlite.py:138 | `str.strip()`: the result is the input with whitespace cut from both ends, has no whitespace at either end, and is empty exactly when the input is all whitespace; whitespace is the set Python strips, including the Unicode space and line separators |
| Text.Lower | gui_app.py:573 | `lower()` maps every character by itself, keeping the length |
| Timestamps.Parse | encontra_repetidos_sqlite.py:54-55 | parsing succeeds exactly on a 19-character digit layout with the given separators that names a real date and time |
| Timestamps.ParseFormat | encontra_repetidos_sqlite.py:54-56 | parsing a formatted timestamp gives it back |
| Timestamps.FormatParse | encontra_repetidos_sqlite.py:54-56 | a parsable `-`-separated string is already canonical: formatting its parse gives the same string |
| Timestamps.NormalizeExif | encontra_repetidos_sqlite.py:53-58 | a `DateTimeOriginal` value yields a date exactly when it parses as `YYYY:MM:DD HH:MM:SS`, and that date is canonical |
| Timestamps.ExifDate | encontra_repetidos_sqlite.py:47-58 | a date is found exactly when some `DateTimeOriginal` entry parses, and it is the normalisation of the first such entry; entries that do not parse are skipped |
| Timestamps.ExifSeparatorsOnly | encontra_repetidos_sqlite.py:51-56 | `YYYY:MM:DD HH:MM:SS` becomes `YYYY-MM-DD HH:MM:SS`: only the two date separators change |
| Timestamps.ReplaceChar | encontra_repetidos_sqlite.py:81 | `replace` of one character changes exactly the positions holding it |
| Timestamps.RemoveChar | encontra_repetidos_sqlite.py:81 | `replace(c, '')` leaves no `c`, keeps every other character as often as it occurred, and leaves a string without `c` unchanged |
| Timestamps.RemoveConcat | encontra_repetidos_sqlite.py:81 | removing a character distributes over concatenation |
| Timestamps.ParseIso | encontra_repetidos_sqlite.py:80-81 | `fromisoformat` of a string with a time part gives the timestamp its first 19 characters name |
| Timestamps.NormalizeVideoTime | encontra_repetidos_sqlite.py:77-84 | a cleaned `creation_time` that parses is stored as the canonical text of the timestamp it names; one that does not is stored as its first 19 characters with `T` turned into a space |
| Timestamps.VideoTimeValidPrefix | encontra_repetidos_sqlite.py:77-84 | a `creation_time` that starts with a valid timestamp (with `T` or a space) is stored as that timestamp in canonical form, whatever follows it |
| Timestamps.VideoTimeGarbageKept | encontra_repetidos_sqlite.py:83-84 | every `creation_time` shorter than 19 characters that does not parse is stored as it came, with `T` turned into a space, and the stored value is not canonical |
| Indexer.LastDotSpec | encontra_repetidos_sqlite.py:169 | the search finds the last dot of a name, and finds none only in a name without dots |
| Indexer.SuffixSpec | encontra_repetidos_sqlite.py:169 | `path.suffix` is non-empty exactly when the last dot of the name is neither its first nor its last character; it is then a dot and at least one non-dot character that end the name and are shorter than it |
| Indexer.ExtensionsAgree | encontra_repetidos_sqlite.py:38 | `splitext` and `suffix` give the same extension for every name that does not start with a dot and whose suffix is non-empty |
| Indexer.ExtensionsDisagree | encontra_repetidos_sqlite.py:38 | for `..jpg` the scan sees an image extension while `creation_date` sees none, so EXIF is never consulted |
| Indexer.FileHash | encontra_repetidos_sqlite.py:22-30 | feeding the chunks in order until the first empty read gives the digest of the whole file, for every non-zero chunk size |
| Indexer.BirthDate | encontra_repetidos_sqlite.py:88-92 | the stat fallback yields a canonical date exactly when `stat` succeeds and reports a birth time |
| Indexer.CreationDate | encontra_repetidos_sqlite.py:33-92 | when neither an EXIF date (images) nor a video `creation_time` (videos) is found, the date is the birth time, so always for a document; every date not taken from ffprobe is canonical |
| Indexer.ProbesByExtension | encontra_repetidos_sqlite.py:40-62 | EXIF is consulted only for image extensions and ffprobe only for video extensions |
| Indexer.FirstSourceWins | encontra_repetidos_sqlite.py:47-84 | an EXIF date makes ffprobe and `stat` irrelevant, and a video `creation_time` makes `stat` irrelevant |
| Indexer.NoModifiedTimeFallback | encontra_repetidos_sqlite.py:88-92 | without a metadata date and without a birth time, the date cannot be computed: there is no modification-time fallback |
| Indexer.Meta | encontra_repetidos_sqlite.py:179-196 | extraction succeeds exactly when the file can be read, `stat` works and a date is found; the record has the name, path, content digest, size, date and extension, and is corrupted exactly for an image extension whose verify fails |
| Indexer.Probe | encontra_repetidos_sqlite.py:179-196 | the extraction as the scans run it, through `file_hash`, gives exactly that record |
| Indexer.NewRowFlags | encontra_repetidos_sqlite.py:179-196 | a new row is never deleted and is corrupted only under an image extension |
| Indexer.CollectMetadataToDb | encontra_repetidos_sqlite.py:162-211 | the scan appends exactly the walk's rows (`CollectRows`), leaves everything committed, and adds to the count one per candidate file (`Considered`) |
| Indexer.ScanStep | encontra_repetidos_sqlite.py:166-209 | after each file the rows and count cover the walk so far, and fewer than `BATCH_SIZE` counted files are uncommitted |
| Indexer.ScanFile | encontra_repetidos_sqlite.py:168-200 | a file is counted exactly when it has a media extension and an unprocessed path, and is inserted only if its extraction succeeds |
| Indexer.CountInBatch | encontra_repetidos_sqlite.py:200-209 | the batch counter grows with each counted file, and reaching `BATCH_SIZE` commits every row and resets it |
| Indexer.ConsideredStep | encontra_repetidos_sqlite.py:200 | each further file of the walk adds one to the count exactly when it is a candidate |
| Indexer.CollectStep | encontra_repetidos_sqlite.py:196 | each further file of the walk appends its row, if any |
| Indexer.CollectRowsSpec | encontra_repetidos_sqlite.py:170-196 | every appended row comes from a candidate file whose extraction succeeded, and every such file contributes its row |
| Indexer.CollectedRowsWellFormed | encontra_repetidos_sqlite.py:177-196 | every appended row is live, has a media extension, has an unprocessed path, is corrupted only under an image extension and has the default `ignorado` |
| Indexer.CollectedPathOrigin | encontra_repetidos_sqlite.py:177-196 | every appended row has the path of a candidate file of the walk |
| Indexer.CollectKeepsPathsUnique | encontra_repetidos_sqlite.py:177-178 | resuming with the catalogued paths as processed keeps one row per path, over a walk without repeated paths |
| Indexer.ResumeAddsNothing | encontra_repetidos_sqlite.py:177-178 | resuming over a walk whose media paths are all processed inserts and counts nothing |
| Indexer.AskResetTable | encontra_repetidos_sqlite.py:133-159 | option 1 empties and commits the table and starts a full scan from 0; options 2 and 3 keep the table and resume from its paths and row count in continue or delta mode; any other answer aborts with nothing changed |
| Indexer.FindDuplicates | encontra_repetidos_sqlite.py:214-222 | `HAVING qtd > 1`: every reported count is at least 2 |
| Indexer.ListFilesByKey | encontra_repetidos_sqlite.py:225-226 | the listing holds exactly the rows with that hash, size and creation date |
| Indexer.FindDuplicatesSpec | encontra_repetidos_sqlite.py:214-222 | each reported key appears once with its true count, which is at least 2, and every key occurring at least twice in scope is reported |
| Indexer.MembersCountKey | encontra_repetidos_sqlite.py:225-226 | the member query returns as many rows as the key has |
| Indexer.ListMatchesFind | encontra_repetidos_sqlite.py:214-226 | for `find_duplicates` without an extension list, listing a reported key returns exactly its rows, as many as the reported count |
| Scan.RunScan | encontra_repetidos_sqlite.py:333-370 | an empty table, or option 1, gets a full scan that leaves exactly the walk's rows committed; option 2 appends the unprocessed files; option 3 runs the delta sync and, when a file raises, keeps only the pruned table committed; an invalid answer changes nothing |
| Scan.Dispatch | encontra_repetidos_sqlite.py:354-368 | the chosen mode's scan, then the final commit that an exception from the delta sync skips |
| Scan.ContinueRetriesOnlyFailures | encontra_repetidos_sqlite.py:145-150 | continuing after a complete scan retries only the files whose extraction failed |
| DeltaSync.PrunedSpec | encontra_repetidos_sqlite.py:243-252 | the removal phase keeps exactly the rows whose path is a media path on disk |
| DeltaSync.CollectDiskPaths | encontra_repetidos_sqlite.py:231-242 | the loop collects exactly the media paths of the walk |
| DeltaSync.DiskPathsStep | encontra_repetidos_sqlite.py:236-242 | each further file adds its path exactly when it is a media file |
| DeltaSync.DeletePaths | encontra_repetidos_sqlite.py:250-251 | deleting the paths one at a time, in whatever order the set yields them, deletes exactly their rows |
| DeltaSync.RemoveVanished | encontra_repetidos_sqlite.py:243-252 | the vanished paths are deleted, and committed only when there were some |
| DeltaSync.SyncOne | encontra_repetidos_sqlite.py:260-320 | one file of the walk: the insert, the update or nothing `SyncFile` specifies, and no write when it raises |
| DeltaSync.SyncStep | encontra_repetidos_sqlite.py:259-320 | the walk over one more file is the walk so far followed by that file |
| DeltaSync.SyncWalk | encontra_repetidos_sqlite.py:259-320 | the walk succeeds exactly when no file raises, and then leaves the table `SyncRows` specifies |
| DeltaSync.SyncStops | encontra_repetidos_sqlite.py:259-320 | once one file raises, the run fails whatever files follow |
| DeltaSync.UpdateOnlyChanges | encontra_repetidos_sqlite.py:229-328 | on success everything is committed and the table is the walk run over the pruned table; on failure only the removal phase is committed |
| DeltaSync.RefreshedPaths | encontra_repetidos_sqlite.py:316-317 | an update never changes the set of catalogued paths |
| DeltaSync.SyncFilePaths | encontra_repetidos_sqlite.py:270-317 | each file adds its own path to the catalogue when it is a media file, and no other path |
| DeltaSync.SyncRowsPaths | encontra_repetidos_sqlite.py:259-320 | a successful walk adds exactly the media paths on disk |
| DeltaSync.SyncPathsEqualDisk | encontra_repetidos_sqlite.py:243-320 | after a successful sync the catalogued paths are exactly the media paths on disk |
| DeltaSync.SyncFileUnique | encontra_repetidos_sqlite.py:270-292 | a file inserts only when its path has no row, so paths stay unique |
| DeltaSync.SyncKeepsPathsUnique | encontra_repetidos_sqlite.py:259-320 | the sync keeps one row per path, although the schema does not enforce it |
| DeltaSync.RefreshedIdentity | encontra_repetidos_sqlite.py:316-317 | an update keeps each row's name, path, extension and flags |
| DeltaSync.SyncFileIdentity | encontra_repetidos_sqlite.py:270-317 | one file keeps each existing row's name, path, extension and flags, and adds at most one live row for a path that had none |
| DeltaSync.SyncKeepsIdentity | encontra_repetidos_sqlite.py:259-320 | the sync never touches `nome`, `path`, `ext`, `deletado` or `ignorado`, and every row it adds is live |
| DeltaSync.SyncFileOutcomes | encontra_repetidos_sqlite.py:269-320 | a new path gets its extracted row appended; a catalogued path with the same size and fresh date gets no write; otherwise its rows get size, date, hash and corruption rewritten together and nothing else changes |
| DeltaSync.UpToDateNoWrite | encontra_repetidos_sqlite.py:294-320 | a file whose catalogued size and date are current is left alone |
| DeltaSync.FindRowRefreshed | encontra_repetidos_sqlite.py:316-317 | an update leaves the lookup of every other path alone and makes the lookup of its path see the new values |
| DeltaSync.SyncFileUpToDate | encontra_repetidos_sqlite.py:270-317 | syncing a file leaves its size and date current in the catalogue |
| DeltaSync.SyncFileKeepsUpToDate | encontra_repetidos_sqlite.py:270-317 | syncing a file with another path keeps a current file current |
| DeltaSync.SyncRowsUpToDate | encontra_repetidos_sqlite.py:259-320 | after a successful walk every file of the walk is current |
| DeltaSync.SyncRowsNoWrite | encontra_repetidos_sqlite.py:259-320 | over current files the walk writes nothing |
| DeltaSync.SecondSyncWritesNothing | encontra_repetidos_sqlite.py:229-328 | a second delta sync over the same disk deletes, inserts and rewrites nothing |
| DbUtils.WithIgnoradoDefault | db_utils.py:12-13 | the new column gives every row `ignorado` 0 and changes nothing else |
| DbUtils.EnsureIgnoradoColumn | db_utils.py:7-14 | the column exists afterwards; it is added, defaulted and committed only when absent, so a second call changes nothing |
| DbUtils.ToggledIgnorado | db_utils.py:17-21 | the toggle replaces exactly the rows with that path by their toggled form |
| DbUtils.MarcarIgnorado | db_utils.py:17-21 | the table toggles and commits; without the column the statement fails and nothing changes |
| DbUtils.ToggleFlips | db_utils.py:20 | the toggle flips the ignored state of exactly the rows with that path, reading NULL as 0, and changes no other field |
| DbUtils.ToggleTwice | db_utils.py:17-21 | toggling twice restores every row's ignored state |
| DbUtils.ToggleAbsent | db_utils.py:17-21 | toggling an absent path changes nothing |
| DbUtils.MarkedDeleted | db_utils.py:104-106 | exactly the rows with that path get `deletado` set; nothing else changes |
| DbUtils.MarcarDeletado | db_utils.py:104-106 | the table is marked and committed |
| DbUtils.MarkDeletedIdempotent | db_utils.py:104-106 | marking a path deleted twice is marking it once |
| DbUtils.MarkDeletedTotals | db_utils.py:104-113 | marking a path adds exactly its not-yet-deleted rows to the deleted count and byte total |
| DbUtils.PendingOfUnique | db_utils.py:104-113 | with one row per path, that row alone is what the marking adds |
| DbUtils.PendingAbsent | db_utils.py:104-113 | an absent path adds nothing to either aggregate |
| DbUtils.MarkDeletedStats | db_utils.py:104-113 | with one row per path, marking a path includes its row in the count and byte total, which grow by one and by its size when it was not already deleted |
| DbUtils.DeletedCount | db_utils.py:24-27 | `total_deletados_count`: at most one per row, and 0 exactly when no row is deleted |
| DbUtils.DeletedBytes | db_utils.py:109-113 | the byte sum behind `total_deletado_mb` is 0 when no row is deleted (the `or 0` of an empty `SUM`), and never negative when no size is |
| DbUtils.BuscarCorrompidos | db_utils.py:30-39 | every returned row is a corrupted row of the table with an extension in scope, and there are at most as many as rows |
| DbUtils.BuscarCorrompidosSpec | db_utils.py:30-39 | the query returns exactly the corrupted rows whose extension is in scope |
| DbUtils.CorruptedNeverDocuments | db_utils.py:30-36 | the corrupted view never lists a document, whatever the context |
| DbUtils.MediaNotDocument | db_utils.py:30-36 | no image or video extension is a document extension |
| DbUtils.CountedSpec | db_utils.py:65-71 | the counting query keeps exactly the in-scope rows that pass the deleted and ignored filters |
| DbUtils.DistinctKeysSpec | db_utils.py:57-71 | `GROUP BY` yields each key of the rows once |
| DbUtils.RepeatedSpec | db_utils.py:57-71 | `HAVING qtd > 1` keeps exactly the keys counted more than once |
| DbUtils.MembersSpec | db_utils.py:84-99 | the member query returns exactly the rows with the key that pass the deleted and ignored filters, with no extension filter |
| DbUtils.CountKeyWitness | db_utils.py:57-71 | a key with a positive count is the key of some row |
| DbUtils.DuplicateKeysSpec | db_utils.py:57-71 | the group keys are distinct, and are exactly the keys the counting query counted at least twice |
| DbUtils.MembersCoverCounted | db_utils.py:84-99 | the member query returns at least the rows that were counted for its key |
| DbUtils.BuscarDuplicadas | db_utils.py:48-101 | one group per key the counting query saw at least twice; `GroupsHaveTwo`, `GroupsShareKey` and `GroupsComplete` state what the groups hold |
| DbUtils.GroupsHaveTwo | db_utils.py:57-101 | every group has at least two rows |
| DbUtils.GroupsShareKey | db_utils.py:57-101 | the rows of a group share hash and size, and also the date when it is part of the key; excluded deleted or ignored rows never appear |
| DbUtils.GroupsComplete | db_utils.py:57-101 | every counted row whose key was counted twice lies in exactly one group |
| DbUtils.GroupOfFirstTwo | db_utils.py:57-101 | three visible rows, two sharing a key: one group, those two |
| DbUtils.GroupOfAllThree | db_utils.py:57-101 | three visible rows with one key, two in scope: one group with all three |
| DbUtils.DateKeyScenario | db_utils.py:57-94 | A and B share a date and C has another: with the date in the key the group is [A, B], without it [A, B, C] |
| DbUtils.ScopeOnlyRestrictsCounting | db_utils.py:49-93 | in the images context, two images and a video with the same key form one group that includes the video |
| GuiApp.NormalizeFilter | gui_app.py:570-572 | the filter is empty exactly when only whitespace was typed; otherwise it is a wildcard pattern that starts with the stripped text and is at most one character longer, and it is the stripped text itself when that already holds `*` or `?` |
| GuiApp.Glob | gui_app.py:578 | `fnmatch` against a pattern without wildcards matches exactly the identical string |
| GuiApp.NormalizeFilterIdempotent | gui_app.py:570-572 | typing the normalised filter back gives the same filter |
| GuiApp.GlobStar | gui_app.py:578 | the pattern `*` matches every path |
| GuiApp.GlobLiteralHead | gui_app.py:578 | a wildcard-free head of a pattern must match a prefix of the path |
| GuiApp.LowerLiteral | gui_app.py:573 | lower-casing neither creates nor removes a wildcard |
| GuiApp.FilterIsPrefixSearch | gui_app.py:570-578 | a filter typed without wildcards matches exactly the paths that start with it, ignoring case |
| GuiApp.KeptGroupsSpec | gui_app.py:575-580 | the filter keeps a group, whole, exactly when one of its paths matches |
| GuiApp.Tagged | gui_app.py:583-585 | a group's entries are its rows in order, each tagged with the group's index |
| GuiApp.FlattenSpec | gui_app.py:583-585 | the entry list has one entry per row of every group, tagged with its group; the group tags never decrease |
| GuiApp.SingletonEntries | gui_app.py:545-548 | in the corrupted view, entry `i` is the `i`-th corrupted row, alone in group `i` |
| GuiApp.MulDivBound | gui_app.py:586-587 | `a * b <= m` exactly when `a <= m // b` |
| GuiApp.TotalPages | gui_app.py:586-587 | at least one page; one page for no entries; otherwise the smallest page count whose pages hold every entry |
| GuiApp.PageSlice | gui_app.py:288-293 | the shown entries are consecutive entries from `page * per_page`, a full page except on the last page, and none past the end |
| GuiApp.PageInRangeNonEmpty | gui_app.py:286-293 | every page below the page count shows at least one entry |
| GuiApp.PageOfEntry | gui_app.py:288-293 | entry `j` is shown on page `j // per_page` at position `j % per_page`, and that page is below the page count |
| GuiApp.NextPageInRange | gui_app.py:501-504 | moving on to the next page never passes the page count |
| GuiApp.StalePageCountShowsEmptyPage | gui_app.py:462-464 | 100 entries counted at 50 per page keep a count of 2 after switching to 100 per page, so page 2 is accepted and shows nothing |
| GuiApp.Selecionados | gui_app.py:507-508 | the selection is exactly the ticked indices, in increasing order |
| GuiApp.TrashedSpec | gui_app.py:528-539 | a path is trashed exactly when a selected entry has it and its trash call does not raise |
| GuiApp.MarkedAllSpec | gui_app.py:528-539 | after the loop exactly the rows with a trashed path are marked deleted, and nothing else changes |
| GuiApp.DeletionFollowsTrash | gui_app.py:528-539 | a row ends up deleted exactly when it was already, or a selected entry has its path and that path went to the trash |
| GuiApp.FlattenGroups | gui_app.py:583-585 | the nested append loop builds exactly the flattened entry list |
| GuiApp.FilterGroups | gui_app.py:575-580 | the filter loop keeps exactly the groups with a matching path, in order |
| GuiApp.ApplyFilter | gui_app.py:570-582 | an empty filter keeps every group, and a non-empty one keeps the matching groups |
| GuiApp.LoadGroups | gui_app.py:544-588 | the groups of the context (a singleton per corrupted row in the corrupted view), the kept groups, their entries, the page count and one unticked box per entry |
| GuiApp.FreshChecks | gui_app.py:588 | one unticked check box per entry |
| GuiApp.TrashSelected | gui_app.py:528-539 | the loop trashes exactly `Trashed`, marks exactly those paths deleted, and commits when it marked anything |
| GuiApp.TrashOne | gui_app.py:529-535 | one selected entry is marked deleted only after its trash call succeeds |
| GuiApp.DuplicadasDBApp.constructor | gui_app.py:46-67 | the migration leaves the table as it was when the column exists, and otherwise gives every row `ignorado` 0 and commits; with the defaults (images, 50 per page, first page, every box included, empty filter) the window shows every group found for images over the migrated table, one unticked box per entry, with a current page count and page |
| GuiApp.DuplicadasDBApp.LoadDuplicadas | gui_app.py:544-589 | the groups are those the context and boxes select in the current table, the filtered groups those the path box's current text keeps, then entries, fresh boxes and the page count for them |
| GuiApp.DuplicadasDBApp.ShowPage | gui_app.py:288-293 | the page shown is the slice of the current page, and is not empty while the page is in range |
| GuiApp.DuplicadasDBApp.PrevPage | gui_app.py:496-499 | back one page, never below the first; a page in range stays in range |
| GuiApp.DuplicadasDBApp.NextPage | gui_app.py:501-504 | on one page exactly when the next page has an entry, whatever the stored page count; while that count is current, a page in range stays in range |
| GuiApp.DuplicadasDBApp.OnPageEntry | gui_app.py:476-487 | the page changes exactly when the typed number is between 1 and the stored page count; otherwise it is unchanged |
| GuiApp.DuplicadasDBApp.OnPerPageChange | gui_app.py:462-464 | as written: the new page size and the first page, with the old page count kept |
| GuiApp.DuplicadasDBApp.OnPerPageChangeRecounted | gui_app.py:462-464 | the new page size and the first page, with the page count recomputed |
| GuiApp.DuplicadasDBApp.OnContextoChange | gui_app.py:457-460 | the new context, the first page, and a reload that shows the groups found for that context over the current table, filtered by the current path filter, with current entries, boxes, page count and page |
| GuiApp.DuplicadasDBApp.EditFilter | gui_app.py:191-192 | typing in the path box changes its text only; no reload happens until Enter or the search button, while `SelecionarTodosFiltro` and every reload read the text as it stands |
| GuiApp.DuplicadasDBApp.OnPathFilter | gui_app.py:489-491 | the new filter, the first page, and a reload that shows the groups found for the current context, filtered by the new text, with current entries, boxes, page count and page |
| GuiApp.DuplicadasDBApp.SelecionarTodosFiltro | gui_app.py:25-44 | reads the path box as it stands, applied or not: with an empty text nothing changes; otherwise exactly the entries matching that text that are not deleted end up ticked |
| GuiApp.DuplicadasDBApp.ExcluirSelecionados | gui_app.py:506-542 | without a selection or confirmation nothing is trashed, the table and commit are unchanged, and the groups, entries, boxes and page count are kept; otherwise exactly the selected paths whose trash call succeeds are marked deleted and committed, and the window reloads the groups found over the updated table, filtered as before |
| GuiApp.DuplicadasDBApp.TrashAndReload | gui_app.py:528-542 | the trash loop over the selection marks and commits exactly `Trashed`, then the reload shows the groups found over the updated table, filtered by the current path filter, with current entries, unticked boxes and a current page count |

## Findings

| source | as written | input that shows it | evidently intended | confidence | as-written member | corrected member |
|---|---|---|---|---|---|---|
| gui_app.py:462-464 | `_on_per_page_change` resets the page but does not recompute `self.total_pages`, which `_on_page_entry` (lines 476-487) checks typed pages against | 100 entries at 50 per page (2 pages); switch the box to 100 (1 page) and type page 2: it is accepted and an empty page is shown | recompute `total_pages` for the new page size, as `_load_duplicadas` does at lines 586-587 | not executed | GuiApp.DuplicadasDBApp.OnPerPageChange, GuiApp.StalePageCountShowsEmptyPage | GuiApp.DuplicadasDBApp.OnPerPageChangeRecounted |

`OnPerPageChangeRecounted` keeps the stored count current (`Counted`) and the page in range.
By `GuiApp.PageInRangeNonEmpty`, every page that `OnPageEntry` then accepts shows entries.

## Left out

- File-system, database and terminal I/O are parameters or left out: `os.walk` (a sequence of
  files in walk order), `open`, `stat`, PIL, ffprobe and its JSON, `send2trash`, the message
  boxes, `input()`, the progress output and its percentages.
- SQLite durability is reduced to the `committed` snapshot. Connections, `conn.close()`, the
  index `idx_hash_tam_data` and the `PRAGMA` are not modelled.
- The SIGINT handler and the `KeyboardInterrupt` branch of `main` are not modelled. They
  commit and exit, and depend on asynchronous signals.
- Platform path normalisation is not modelled: a `DiskFile` carries its final path string.
- The extension lists come from `file_exts.py`, which is not part of this model. The lists
  are representative constants, and the model assumes the image, video and document lists
  are pairwise disjoint. `DbUtils.CorruptedNeverDocuments`, `DbUtils.MediaNotDocument` and
  `Indexer.FirstSourceWins` hold only under that assumption.
- `Text.Lower` lower-cases ASCII letters only, and `GuiApp.Glob` treats `[` and `]` as
  ordinary characters. `fnmatch`'s bracket classes are not modelled.
- Timestamps cover only zero-padded, 19-character forms. The full `strptime` grammar and
  `fromisoformat`'s time-zone offsets are not modelled.
- `Timestamps.ParseIso` accepts only `YYYY-MM-DD`, `YYYY-MM-DD HH:MM:SS` and the latter with
  three or six fractional digits. Python's `fromisoformat` also accepts shorter times: a
  `creation_time` of `2023-01-01T10:00` is stored by Python as `2023-01-01 10:00:00`, but by
  the model as `2023-01-01 10:00`.
- `Timestamps.VideoTimeGarbageKept` means "does not parse" in the model's grammar above.
  Values such as `2023-01-01T10:00` are covered by it, although Python parses them.
- The conversion of a birth time to local time is not modelled: the birth time arrives
  already converted.
- The non-string `data_criacao` branches (encontra_repetidos_sqlite.py:115-121, 309-315;
  db_utils.py:77-83) are not modelled. Every date the model produces is already a string.
- `total_deletado_mb`'s division by 1024 twice (floating point) is not modelled. Only the
  integer byte sum is.
- The order of groups from `GROUP BY` and of rows within a group is unspecified in SQL. The
  model uses first-occurrence order for groups and table order for rows.
- `Indexer.CollectMetadataToDb` does not model a failing `insert_file` (a database error).
  The source would swallow it like an extraction failure, count the file and go on.
- `GuiApp.DuplicadasDBApp.ExcluirSelecionados` does not model a failing `marcar_deletado`
  after a successful trash call. Only `send2trash` failures are parameters.
- The reload keeps the current page, as the source does: after a deletion the page can lie
  beyond the new page count.
- `ignorar_selecionados` (gui_app.py:72-105) is not modelled. It is a loop of
  `marcar_ignorado` calls over the selection followed by a reload. `DbUtils.MarcarIgnorado`
  and its lemmas model the toggle it applies.
- The check-box and refresh handlers (`_on_considerar_*_change`, `_refresh`) are not modelled
  separately. Each is a reload, which `LoadDuplicadas` models.
- The widget code of `_show_page` (thumbnails, layout, the header labels) is not modelled.
- `DeltaSync.UpdateOnlyChanges` walks one `disk` for the three `os.walk` passes (lines 232,
  257 and 259). A file that appears or vanishes between the passes is not modelled.
- `DeltaSync.SyncOne` does not keep the order of the probes within one file. `open` and
  `stat` failures end the run either way, so the order does not change the table.
