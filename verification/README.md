# QA test logger store, modelled in Dafny

This project models the persistence and query layer of the QA test logger. That layer is the `Database` class of `src/database.py` together with the spreadsheet validator `ExcelParser.parse_excel` of `src/excel_parser.py`.

The store holds three tables:

- test cases, keyed by their external case id and optionally filed under a named collection;
- execution records, one per run of a case, with status, results, executor and a timestamp;
- record images, ordered by position.

The SQLite database is an immutable `Store` value. Its parts are:

- the column sets of the two tables whose shape has migrated over time;
- the rows of each table as sequences in rowid (scan) order;
- the next AUTOINCREMENT ids.

Every operation is a pure function from a store (and its arguments) to a result and a new store.

Modules, one per concern:

- `Text`: Python truthiness, `or`, `lower`, substring, the CJK test, code-point order.
- `Seqs`: filter, stable sort, counting.
- `Store`: rows, invariants, lookups, ordered image reads.
- `Migrations`: the three startup migrations.
- `Cases`: normalised case reads, collection listing, import.
- `Records`: create, read and update of records with their images.
- `Queries`: the filtered record list, statistics, latest record per case.
- `Deletion`: cascading delete of a case and of a collection.
- `Export`: the flat export rows with the search rule.
- `ExcelParser`: the sheet validator.
- `Scenarios`: worked examples on concrete data.

Engine failures are explicit parameters:

- `rejected`: positions of import rows whose INSERT fails;
- `fault` and `faults`: per-case delete failures with the engine's message;
- `dropSupported`: whether `ALTER TABLE … DROP COLUMN` is available (SQLite 3.35 and later).

The clock is the parameter `now`.

Where the documentation and the code differ, the model follows the code:

- **Import fallback collection name.** It is not looked up per case id. `import_test_cases` scans the batch in input order and takes the stored non-empty name of the first row whose case already exists. It uses that one name for every row that brings none of its own. An explicit `case_collection_name` argument takes precedence over it (src/database.py:152-183). `Scenarios.FallbackFollowsBatchOrder` shows a batch whose cases end up in a collection other than their own.
- **Failed case delete inside a collection delete.** `delete_collection` does not catch it, because the wrapped error is not an `sqlite3.Error`. The loop stops there. Cases deleted before the failure stay deleted, and the rest stay stored (src/database.py:523-545).

## Model

| member | source | states |
|---|---|---|
| Store.FindCase | src/database.py:204-207 | the row found has the asked case id; none is found exactly when no row has that id |
| Store.FindCaseUnique | src/database.py:38-39 | under the case_id primary key, looking up a stored case's id returns that very case |
| Store.FindRecord | src/database.py:381-384 | the record found has the asked id; none is found exactly when no record has it |
| Store.RecordImagePaths | src/database.py:312-328 | one path per image row of the record, each the path of such a row; the paths are those of the record's image rows rearranged (a permutation) into ascending order_index |
| Store.TwoImagesReadByOrderIndex | src/database.py:322-328 | two image rows stored with the higher order_index first read back lower order_index first |
| Seqs.SortBy | src/database.py:325 | ORDER BY returns a permutation of its input sorted on the key |
| Seqs.InsertSorted | src/database.py:325 | inserting into a key-sorted list keeps it key-sorted |
| Seqs.SortSorted | src/database.py:325 | sorting rows already in key order keeps their scan order |
| Seqs.SortMembers | src/database.py:366 | every sorted row comes from the input |
| Seqs.FilterPermutation | src/database.py:366 | filtering two rearrangements of the same rows gives rearrangements of the same result, of equal length |
| Seqs.MapPermutation | src/database.py:588-600 | building one line per element of two rearrangements gives rearrangements of the same lines |
| Seqs.MapFilter | src/database.py:565-600 | building lines after dropping elements equals dropping lines whose test agrees through the building |
| Seqs.SortSwapsPair | src/database.py:325 | two elements out of key order come out of the sort swapped |
| Seqs.FilterMembers | src/database.py:343-366 | a row passes the WHERE clause exactly when it is stored and satisfies the condition |
| Store.SingleImageRead | src/database.py:322-328 | a record with exactly one image row reads back as that one path |
| Text.Lower | src/database.py:581-584 | lower-casing keeps the length and maps each character on its own |
| Text.LexLessTransitive | src/database.py:450-455 | the ORDER BY text order is transitive |
| Text.LexLessTotal | src/database.py:450-455 | the ORDER BY text order relates any two distinct names |
| Text.LexLessAsymmetric | src/database.py:450-455 | the ORDER BY text order is a strict order |
| Migrations.LegacyImageRows | src/database.py:89-101 | each moved image gets the next image id in turn and order_index 0 |
| Migrations.DropLegacyImage | src/database.py:103-104 | dropping the column keeps every record and clears only the legacy image field |
| Migrations.MigrateLegacyImages | src/database.py:80-107 | without the legacy column, or when the drop is unavailable, the store is unchanged; otherwise the legacy image rows are appended to the images, the column is gone, and every record keeps every field except its legacy image, which becomes NULL; cases are untouched |
| Migrations.MigratedImageIsRead | src/database.py:88-105 | a record whose legacy image is non-empty reads back exactly that one path after the move |
| Migrations.MovedRowOfRecord | src/database.py:90-101 | exactly one moved image row belongs to each record carrying a legacy image |
| Store.AppendFreshImages | src/database.py:90-101 | image rows appended with the next ids in turn keep image ids ascending below the counter |
| Migrations.MovedImagesHaveRecords | src/database.py:88-104 | every moved image names a record that is still stored after the drop |
| Migrations.MigrateLegacyImagesValid | src/database.py:80-107 | the move keeps ids ascending and keys unique, and attaches images only to existing records |
| Migrations.AsWrittenDuplicatesOnRestart | src/database.py:80-107 | as written, with the drop unavailable, each startup adds image rows again |
| Migrations.MigrateSteps | src/database.py:109-124 | when test_steps is missing and precondition exists, the column is added and each case gets its own precondition copied into test_steps, every other field kept; otherwise the store is unchanged; records, images and case ids are unchanged |
| Migrations.MigrateStepsPreservesReads | src/database.py:117-121 | copying precondition into test_steps leaves every normalised read of every case (all fields) unchanged |
| Migrations.MigrateCollection | src/database.py:126-136 | afterwards the collection column exists and no other column is added; each case row keeps every field but the collection, and when an absent column already reads as NULL the case rows are unchanged; records and images are unchanged |
| Migrations.MigrationsIdempotent | src/database.py:80-136 | each migration (the corrected first migration) applied twice is the migration applied once |
| Migrations.OpenIdempotent | src/database.py:75-78 | opening an already opened store (with the corrected first migration) changes nothing |
| Migrations.Open | src/database.py:75-78 | (with the corrected first migration) after opening, the case table has the collection column and has test_steps unless it never had precondition; every case reads back exactly as before and keeps every stored field except test_steps (for stores whose absent columns hold NULL); with DROP COLUMN and the legacy column the legacy image rows are appended and each record loses only its legacy image; otherwise records and images are untouched; case rows keep their number and ids |
| Migrations.OpenAsWritten | src/database.py:75-107 | opening as written: with the legacy column the legacy image rows are appended whether or not the drop succeeds; without DROP COLUMN the column and the records stay; with DROP COLUMN, or without the legacy column, it equals the corrected opening |
| Migrations.OpenAsWrittenDuplicatesOnRestart | src/database.py:75-107 | without DROP COLUMN each start as written adds image rows for a record still carrying a legacy image, while the corrected opening adds none |
| Migrations.OpenKeepsCases | src/database.py:75-78 | in a store whose absent columns hold NULL, opening changes no normalised read of any case and no stored case field other than test_steps |
| Migrations.MigrateLegacyImagesAsWritten | src/database.py:80-107 | without the legacy column nothing changes; with it the legacy image rows are appended whether or not the drop succeeds, and the column remains exactly when DROP COLUMN is unavailable; after a successful drop every record keeps every field except its legacy image, which becomes NULL, and otherwise the records are unchanged; cases are untouched |
| Migrations.AsWrittenAgreesWhenDropped | src/database.py:80-107 | where DROP COLUMN is available the migration as written equals the corrected one |
| Migrations.OpenSchema | src/database.py:34-78 | after opening, test_steps and the collection column exist, and the legacy image column is gone when drop is supported |
| Migrations.OpenValid | src/database.py:34-107 | opening keeps the store invariants and creates no orphan image |
| Cases.ReadCase | src/database.py:197-200 | read test_steps is the stored value when truthy, else the precondition when truthy, else NULL when neither is; no other field changes |
| Cases.ReadCaseIdempotent | src/database.py:208-211 | normalising a normalised case changes nothing |
| Cases.GetAllTestCases | src/database.py:192-202 | one normalised case per stored row, in scan order |
| Cases.GetTestCase | src/database.py:204-212 | None exactly when no case has the id; otherwise the normalised stored case with that id |
| Cases.GetCasesByCollection | src/database.py:487-497 | each result is the normalised read of a stored case of the named collection, every such case is listed, and there are exactly as many results as stored cases in the collection; a None name matches nothing |
| Cases.ByCollectionIsFilteredAll | src/database.py:487-497 | listing a collection equals listing every case and keeping that collection's, in the same order |
| Cases.ExistingCollection | src/database.py:152-163 | the batch fallback is None without the collection column or when no row's stored case has a non-empty collection; otherwise it is the non-empty collection of the first such row in input order |
| Cases.BuildCase | src/database.py:173-184 | the written row takes the row's id, test_steps from steps, else precondition, else empty, the row's own collection when non-empty and else the batch fallback, and no precondition; it reads back unchanged exactly when its test_steps is non-empty |
| Cases.InsertName | src/database.py:450-455 | inserting into a sorted distinct name list keeps it sorted and adds exactly the name |
| Cases.CollectionNamesOf | src/database.py:450-457 | strictly ascending, and a name is listed exactly when some case is filed under it with a non-empty name |
| Cases.GetAllCollectionNames | src/database.py:447-459 | distinct, sorted, non-empty names, exactly those that some case carries |
| Cases.ListedCollectionsAreNonEmpty | src/database.py:453 | every listed name has at least one case filed under it |
| Cases.FirstStoredCollection | src/database.py:152-163 | None exactly when no row's case has a stored non-empty name; otherwise the name of the first such row in input order |
| Cases.Upsert | src/database.py:173-184 | INSERT OR REPLACE stores the new case under its id and leaves every other id's case alone |
| Cases.UpsertRows | src/database.py:173-184 | every row after INSERT OR REPLACE is the new case or a row that was already stored |
| Cases.UpsertKeepsUnique | src/database.py:38-39 | INSERT OR REPLACE keeps the case_id primary key unique |
| Cases.WriteRowsUnique | src/database.py:168-187 | the import loop keeps case ids unique |
| Cases.WriteRowsFrom | src/database.py:168-187 | after the import loop every case row was stored before or built from the batch |
| Cases.Accepted | src/database.py:147-187 | the success counter is exactly the number of positions among the rows whose INSERT is not rejected, never more than the number of rows |
| Cases.ImportCases | src/database.py:138-190 | total is the row count; success is exactly the number of rows whose INSERT is not rejected (all of them without failures); without the newer columns nothing is written; unique case ids stay unique; only cases change; a valid store stays valid |
| Cases.WriteRowsLastWins | src/database.py:168-184 | the stored case of an id is built from the last accepted row carrying it |
| Cases.WriteRowsUntouched | src/database.py:168-184 | an id no accepted row carries keeps its stored case |
| Cases.ImportStoresLastRow | src/database.py:138-190 | the imported case reads back with the row's fields, steps falling back to the precondition key, collection from the row, else the argument, else the first stored name in the batch |
| Cases.ImportKeepsOtherCases | src/database.py:168-189 | cases no accepted row names read back as before |
| Records.PositionedImages | src/database.py:241-246 | image rows carry the record id, consecutive image ids, and their list positions as ascending order_index |
| Records.PositionedPaths | src/database.py:240-246 | the stored paths are the list's non-empty paths in list order |
| Records.PositionedIndexes | src/database.py:241-246 | each stored row's order_index is the position of its path in the list |
| Records.SaveTestRecord | src/database.py:214-249 | the new record id is fresh and above every existing one; one record is added; every existing image row survives and every other record reads back the same image paths; the store invariants hold and no orphan image appears |
| Records.SaveKeepsOtherImages | src/database.py:236-246 | appending image rows that all belong to the new record keeps every existing row and every other record's image paths |
| Records.SaveThenRead | src/database.py:229-249 | reading the new record gives its fields, timestamp `now`, and the non-empty image paths in order |
| Records.GetTestRecord | src/database.py:381-393 | None exactly when no record has the id; otherwise that record with its images |
| Records.UpdateTestRecord | src/database.py:251-310 | always true; only supplied fields change, the timestamp always becomes `now`, the legacy image field is kept, other records are unchanged, images are untouched when no list is given |
| Records.UpdateReplacesImages | src/database.py:296-307 | a supplied list, even empty, replaces the record's images by its non-empty paths; other records keep theirs |
| Records.UpdateKeepsNoOrphans | src/database.py:251-310 | updating an existing record attaches images only to existing records |
| Records.UpdateOfMissingRecordOrphansImages | src/database.py:289-307 | updating a missing record id with a non-empty path leaves orphan image rows and no new record |
| Queries.GetTestRecords | src/database.py:330-379 | newest first, a permutation of exactly the records the truthy filters admit, each with its ordered images |
| Queries.AdmitsIsWhereClause | src/database.py:343-363 | a record is admitted exactly when it satisfies every condition the source appends, one per truthy filter, joined with AND; with no condition every record is admitted |
| Queries.AdmittedIsListed | src/database.py:343-369 | every admitted record is listed |
| Queries.FalsyFiltersSelectAll | src/database.py:347-361 | empty-string and zero filters are not applied |
| Queries.GetStatistics | src/database.py:395-437 | the four status counts add up to at most the total; an empty store counts zero everywhere |
| Queries.StatusCountsBounded | src/database.py:425-437 | the four distinct statuses together never exceed the total in the window |
| Queries.PassRate | src/database.py:439-443 | 0 when the total is 0; otherwise passed / total × 100, within 0..100 |
| Queries.CountWhereIsFilter | src/database.py:406-437 | each count equals the number of records admitted by the same WHERE clause |
| Queries.StatisticsAgreeWithQuery | src/database.py:395-437 | total and each status count equal the length of the record list under the same window and status |
| Queries.LatestByCase | src/database.py:468-483 | each record's case has an entry; the entry is a record of that case whose timestamp is the maximum |
| Queries.LatestUpTo | src/database.py:468-483 | after folding a prefix, each of its records' cases has an entry no older than that record, and each entry is a record of its case |
| Queries.LatestTieAt | src/database.py:477-483 | folding a prefix keeps, among records tied on the maximum timestamp, the one scanned last |
| Queries.LatestBreaksTiesByRecordId | src/database.py:477-483 | among records tied on the maximum timestamp the entry has the highest record id |
| Queries.GetLatestRecords | src/database.py:461-485 | every case with records maps to its latest record with that record's ordered images |
| Deletion.RemoveCase | src/database.py:506-519 | the case, its records and every image of those records are gone; everything else stays |
| Deletion.DeleteCase | src/database.py:499-525 | on failure nothing changes and the wrapped error is raised; otherwise exactly the case's rows are removed |
| Deletion.RemovedKeepsNoOrphans | src/database.py:510-516 | the cascade leaves no image without its record |
| Deletion.RemoveCaseValid | src/database.py:506-519 | the deletes keep the primary key and ascending ids |
| Deletion.RemoveCaseIdempotent | src/database.py:499-525 | deleting a case twice is deleting it once |
| Deletion.RemoveAbsentCase | src/database.py:506-521 | deleting an id with no rows changes nothing |
| Deletion.DeletedCaseIsGone | src/database.py:499-521 | afterwards the case reads as missing, no record names it and its former records have no images |
| Deletion.DeletedCaseHasNoRecords | src/database.py:516 | afterwards the record list filtered by that case id is empty |
| Deletion.RemovedCompose | src/database.py:538-540 | two deletions in a row remove the union of what each removed |
| Deletion.CollectionCaseIds | src/database.py:536-537 | exactly the ids of the collection's cases, without repeats; a None name selects none |
| Deletion.RemoveEach | src/database.py:538-540 | without failures every listed case is removed; otherwise it stops at the first failing id with that error, after removing exactly the ids before it |
| Deletion.DeleteCollection | src/database.py:527-545 | deleting the None collection changes nothing |
| Deletion.DeleteCollectionEmptiesIt | src/database.py:527-545 | without failures no case of the collection remains, every other case does, and the name leaves the collection list |
| Deletion.FailedCollectionDeletionKeepsTheRest | src/database.py:538-545 | after a failure the failing case and every later one keep their case rows and records |
| Export.ExportTestRecords | src/database.py:547-602 | newest first; every row is built from an admitted record whose case is stored and passes the collection and search checks, every such record has its row, there are exactly as many rows as such records, and the rows are those records' rows rearranged (equal multisets) |
| Export.ExportCount | src/database.py:547-602 | the records kept for export are exactly as many as the stored records the filter admits and the checks keep |
| Export.QualifyingRows | src/database.py:565-600 | the reference list, one row per stored record the filter admits and the checks keep |
| Export.KeptRecords | src/database.py:565-600 | the records kept for export are the listed records that qualify, in listing order |
| Export.KeptRecordsRearranged | src/database.py:565-600 | the records kept for export are the qualifying stored records rearranged |
| Export.KeptRows | src/database.py:588-600 | each export line is built from its kept record |
| Export.ExportIsRearrangement | src/database.py:547-602 | the export lines and the qualifying records' lines are equal as multisets |
| Export.SearchUsesOneField | src/database.py:578-585 | with a CJK ideograph in the search text the result never depends on the record's case id; without one it never depends on the case's scenario |
| Export.ExportedRowsAreListed | src/database.py:565-600 | every exported row comes from an admitted record whose case passes the checks |
| Export.ExportKeepsOrder | src/database.py:565-600 | dropping records keeps newest-first order |
| Export.ExportedRowIsListed | src/database.py:565-600 | each kept row comes from an admitted record whose case is stored and passes the checks |
| Export.ListedRowsAreExported | src/database.py:565-600 | every admitted record whose case passes the checks has its row |
| Export.ExportedRowsHaveTheirCase | src/database.py:569-570 | no exported row has a dangling case id |
| Export.ExportOmitsDeletedCase | src/database.py:499-570 | after a case is deleted the export has no row for it |
| Export.EmptyExportFiltersIgnored | src/database.py:573-578 | an empty collection name or search text filters nothing |
| ExcelParser.MissingColumnsOf | src/excel_parser.py:23-24 | exactly the absent required columns, in the fixed order id, scenario, expected result |
| ExcelParser.Fill | src/excel_parser.py:30 | blank cells become empty strings, the other cells and the keys are kept |
| ExcelParser.Join | src/excel_parser.py:27 | joining one name gives that name, joining none gives the empty string |
| ExcelParser.JoinContainsParts | src/excel_parser.py:27 | every joined name occurs in the joined text, the first at its start |
| ExcelParser.JoinPlacesPart | src/excel_parser.py:27 | each joined name occurs at the offset given by the lengths of the names and separators before it |
| ExcelParser.OffsetsIncrease | src/excel_parser.py:27 | a joined name ends before any later name starts |
| ExcelParser.JoinKeepsOrder | src/excel_parser.py:27 | after a prefix, an earlier joined name occurs before a later one |
| ExcelParser.Message | src/excel_parser.py:26-35 | the duplicate-id error has its fixed text; the missing-columns error starts with its fixed prefix and names every missing column, each before the ones listed after it |
| ExcelParser.DistinctIffCardinality | src/excel_parser.py:33-35 | the id set is as large as the id list exactly when no id repeats |
| ExcelParser.ParseSheet | src/excel_parser.py:18-37 | missing columns are reported first, and exactly when one is absent; duplicate ids exactly when all columns exist and an id repeats; otherwise one filled row per input row, in order, with distinct ids |
| ExcelParser.ParseExcel | src/excel_parser.py:18-40 | a read error or a validation failure becomes one error with the wrapping prefix, and a validation failure carries exactly the validation message; success returns the validated rows |
| ExcelParser.ParsedRowsImportIntact | src/excel_parser.py:33-37 | after a successful parse, importing with no failures stores each row's case built from that very row |
| Scenarios.ReimportKeepsCollection | src/database.py:152-183 | A1 and A2 imported under Batch1 land there, and re-importing A1 without a name keeps Batch1 |
| Scenarios.FallbackFollowsBatchOrder | src/database.py:152-183 | with A in X and B in Y, the batch [B, A] files both under Y |
| Scenarios.LatestOfThree | src/database.py:468-483 | records at 10, 30 and 20 give the one at 30 as latest |
| Scenarios.EmptyStatistics | src/database.py:419-443 | zero records give zero counts and pass rate 0 |
| Scenarios.SearchIsAsymmetric | src/database.py:578-585 | on four concrete cases: 登录 finds a scenario containing it but not an id containing it; a1 finds the id TC-A1 ignoring case but not a scenario containing it |
| Scenarios.EmptyImageListClears | src/database.py:296-307 | an empty image list clears the record's images; omitting it keeps them |

## Left out

- The SQLite engine itself. SQL text, cursors, connections and `commit` are replaced by the store value. Each committed unit is one function.
- Row order of SELECTs without ORDER BY. It is modelled as rowid order; ORDER BY is a stable sort on the same key.
- Timestamps and `datetime.now()`. The clock is the parameter `now`.
- Engine errors on individual statements, except where a parameter stands for them: `rejected` (import rows), `fault` and `faults` (case deletes) and `dropSupported` (DROP COLUMN). These failures have no parameter:
  - a failing INSERT or UPDATE inside `save_test_record` and `update_test_record` (src/database.py:229-249, 251-310), which raises without a rollback and leaves the earlier statements pending on the connection;
  - a failing ALTER or UPDATE in the test_steps and collection migrations (src/database.py:109-136), which is logged and skipped;
  - the SELECT of `get_cases_by_collection` (src/database.py:487-497), which raises when the collection column is missing; the model reads a missing column as NULL.
- Failures of the SELECTs in the import's first scan (src/database.py:162-163). They are left out; the scan is modelled as always succeeding.
- The outer `except sqlite3.Error` of `delete_collection` (src/database.py:542-545). It only catches a failing id SELECT, and that failure is left out.
- `print` logging in the migrations and the import. It has no effect on the store.
- `pd.read_excel` and the pandas DataFrame. The sheet is a header plus one cell map per row, with every cell a string or blank; numeric cells and pandas' handling of duplicate headers are left out.
- The rest of the application: the Qt user interface, `ExportThread` PDF and spreadsheet rendering, file copies, settings and the remote retrieval client. This is I/O and concurrency outside the store.
- Text.Lower: lower-cases ASCII letters only, because Python's full Unicode case mapping is not modelled. The search rule is stated over this lowering.
- Queries.PassRate: is an exact rational, because the source's floating-point division is not modelled.
- Records.SaveTestRecord, Records.UpdateTestRecord: require the store invariants (unique case ids, ascending AUTOINCREMENT ids). Every store the operations can reach satisfies them; the source relies on the engine for them.
- Queries.LatestBreaksTiesByRecordId: assumes rowid order equals ascending record id, which AUTOINCREMENT guarantees. The join itself leaves ties to the engine's scan order; the model keeps the last row scanned.
- Migrations.MigrationsIdempotent: is stated for the corrected first migration; the migration as written is not idempotent without DROP COLUMN (see Findings).
- Migrations.OpenIdempotent: is stated for opening with the corrected first migration; opening as written copies the legacy images again on every start without DROP COLUMN.
- Scenarios.SearchIsAsymmetric: shows the asymmetry on four concrete inputs only; the all-inputs form is Export.SearchUsesOneField.
- Migrations.Open: is stated for opening with the corrected first migration, which leaves records and images alone without DROP COLUMN; the program as written keeps the copied legacy image rows, which `Migrations.OpenAsWritten` models.
- Migrations.Open, Migrations.OpenKeepsCases, Migrations.MigrateCollection: the promise that case rows are kept is stated for stores whose absent columns hold NULL, which every valid store satisfies. A store value with data under a column its schema lacks has no counterpart in SQLite.
- Migrations.MigrateLegacyImages: is the corrected migration (see Findings). It does nothing when DROP COLUMN is unavailable; `Migrations.MigrateLegacyImagesAsWritten` keeps the behaviour as written.

## Findings

| source | as written | input that shows it | evidently intended | confidence | as-written member | corrected member |
|---|---|---|---|---|---|---|
| src/database.py:80-107 | The image rows are inserted before `ALTER TABLE … DROP COLUMN`. When the drop fails (SQLite older than 3.35), the `except` only logs. The inserts stay in the open transaction, and a later commit makes them durable. The legacy column remains, so the next startup copies the same images again. | A store whose test_records still has `image_path`, with one record carrying a non-empty path, opened twice on an engine without DROP COLUMN. Each opening adds another image row for that record. | The move happens at most once: either all of it (copy and drop) or none of it. | not executed | Migrations.AsWrittenDuplicatesOnRestart | Migrations.MigrateLegacyImages |
