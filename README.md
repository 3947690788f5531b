# Nade catalog store

A Dafny model of the catalog store of hedgetools, a desktop app that keeps
Counter-Strike 2 grenade ("nade") line-ups in a local SQLite database. The
store, `src/main/db.ts`, holds one process-wide database handle and two
tables: `maps` (unique map names) and `nades` (line-up records keyed by an
AUTOINCREMENT id). It opens and seeds the database once, lists and adds map
names, lists nades through a filter-and-sort query, gets, creates, updates
and deletes nades by id, and exports and imports the whole catalog.

The model has six modules, one per file:

- `Wrappers` (`wrappers.dfy`): `Option` and `Result`.
- `Text` (`text.dfy`): how SQLite compares text. The BINARY collation used by
  `ORDER BY` and `UNIQUE` is `StrLe`. `LIKE` without an ESCAPE clause is
  `Like`: `%` and `_` wildcards, and case folding of the ASCII letters only,
  as SQLite does without ICU.
- `Sorting` (`sorting.dfy`): `ORDER BY` as a sort by a total preorder, and
  the ascending id order of a full scan of a rowid table.
- `Records` (`records.dfy`): the record, input and filter types; the WHERE
  clause that `listNades` builds step by step; the three ORDER BY orders
  that `sort` selects.
- `Catalog` (`catalog.dfy`): the tables as a value (`Tables`) and what each
  SQL statement does to them: seeding, the AUTOINCREMENT insert, the
  explicit-id insert, `INSERT OR IGNORE`, the import transaction and the
  export snapshot. The lemmas about these are here.
- `Db` (`db.dfy`): class `CatalogStore`. It holds the handle flag and the
  table contents as fields. Each exported function of `db.ts` that changes
  the tables is a method that updates them. `listMaps`, `getNade` and
  `exportJson` are functions over them; `listNades` is a method because it
  builds its clause list step by step.
  The seeding, insert and import methods are proved against the `Catalog`
  function for their statements; `AddMap`, `UpdateNade` and `DeleteNade`
  state their new fields directly.

The database file outlives the process, so the constructor takes the file's
current tables. Seeding depends on whether a table is empty, not on whether
this is the first run. A transaction that fails leaves the tables exactly as
they were before it. `Catalog.After` and `Catalog.Status` state this.

`updateNade` writes the clock's current reading as `updatedAt`
(`src/main/db.ts:263`, `277`), so `updatedAt` need not increase from one
update to the next; `UpdateNade` promises only `updatedAt == now`.

Timestamps are milliseconds since the Unix epoch, the precision of the
`toISOString` strings the store writes (`src/main/db.ts:90`, `225`, `263`).
The default order, `ORDER BY datetime(createdAt) DESC`, compares them only
to the second, because `datetime()` drops the milliseconds; `Records.Second`
is that truncation, and rows created within the same second tie.

## Model

| member | source | states |
|---|---|---|
| Db.CatalogStore.constructor | src/main/db.ts:32 | A store starts with no handle and holds the file's tables unchanged. |
| Db.CatalogStore.InitDb | src/main/db.ts:34-70 | A second call returns Ok and changes nothing. The first call sets the handle, seeds maps, then seeds nades; if the nade seeding fails, its error is returned and only the map seeding stays. |
| Db.CatalogStore.SeedMaps | src/main/db.ts:72-84 | Inserting the default names one by one into an empty maps table gives exactly the eight defaults in order; a non-empty table is untouched. |
| Db.CatalogStore.SeedNades | src/main/db.ts:86-169 | Inserting the demo nades in one transaction gives the `Catalog.SeedNades` result, or the unchanged tables when an insert fails. |
| Db.CatalogStore.ListMaps | src/main/db.ts:171-174 | Fails when not initialized; otherwise a name-sorted permutation of the stored names. |
| Db.CatalogStore.AddMap | src/main/db.ts:176-179 | Fails when not initialized. Succeeds exactly when the name is new, and then appends it. A duplicate fails with the UNIQUE error and leaves the names unchanged. Nades are never touched. |
| Db.CatalogStore.ListNades | src/main/db.ts:181-216 | Fails when not initialized. Otherwise the result lists exactly the stored rows that match the filters, each once. It is a permutation of the matching rows and is sorted by the order `sort` selects. |
| Db.CatalogStore.GetNade | src/main/db.ts:218-221 | Fails when not initialized. Otherwise it returns `Some(x)` exactly when `x` is the stored row with that id; `None` means no scanned row has that id. |
| Db.CatalogStore.InsertNade | src/main/db.ts:257 | The AUTOINCREMENT insert gets an id above every id the table has held. It fails with DatabaseFull exactly when the counter is at the largest row id. |
| Db.CatalogStore.CreateNade | src/main/db.ts:223-259 | Fails when not initialized. Otherwise the new tables are those of the AUTOINCREMENT insert: exactly one row added, the input with `createdAt = updatedAt = now`, under a fresh id above every id ever held; the counter and the set of used ids move to that id, which is returned. Nothing else changes, and a full database changes nothing. |
| Db.CatalogStore.UpdateNade | src/main/db.ts:261-281 | Fails when not initialized. Otherwise the row with that id gets the input's eleven fields and `updatedAt = now`; its id and `createdAt` are kept. Every other row, and the set of ids, is unchanged. An unknown id is a silent no-op. |
| Db.CatalogStore.DeleteNade | src/main/db.ts:283-286 | Fails when not initialized. Otherwise exactly the row with that id is gone and all other rows are unchanged; its id stays used. |
| Db.CatalogStore.ExportJson | src/main/db.ts:288-293 | Fails when not initialized. Otherwise it returns the sorted names and exactly the stored rows. Importing the result into any store without nades reproduces this nades table and the union of the names; into a file with both tables empty it exports the same payload again. |
| Db.CatalogStore.InsertMapOrIgnore | src/main/db.ts:334 | INSERT OR IGNORE appends a name only when it is absent. |
| Db.CatalogStore.InsertNadeWithId | src/main/db.ts:337 | The explicit-id insert behaves as `Catalog.InsertWithId`: errors for a non-64-bit or taken id, otherwise it stores the row and raises the counter. |
| Db.CatalogStore.ImportJson | src/main/db.ts:295-341 | Fails when not initialized. Otherwise the two insert loops in one transaction give `Catalog.Import`: its tables on success, the unchanged tables and its error on failure. |
| Text.StrLe | src/main/db.ts:173 | Definition, no contract: the BINARY collation, character by character, a proper prefix first. Its order properties are the next three rows. |
| Text.Like | src/main/db.ts:203-204 | Definition, no contract: LIKE without ESCAPE, `%` any run, `_` any one character, ASCII letters compared without case. Its properties are the rows below. |
| Text.StrLeTotal | src/main/db.ts:173 | The name order compares every pair of strings. |
| Text.StrLeTransitive | src/main/db.ts:173 | The name order is transitive. |
| Text.StrLeAntisymmetric | src/main/db.ts:209 | Strings that precede each other are equal. |
| Text.PercentMatchesAll | src/main/db.ts:204 | `%` alone matches every text. |
| Text.PrefixLike | src/main/db.ts:204 | For wildcard-free `s`, `s%` matches exactly the texts that start with `s`, ignoring ASCII case. |
| Text.LeadingPercent | src/main/db.ts:204 | `%q` matches exactly when `q` matches some suffix. |
| Text.SearchPatternIsSubstring | src/main/db.ts:202-205 | For wildcard-free search text, `%s%` LIKE is exactly case-insensitive substring containment. |
| Sorting.Insert | src/main/db.ts:208-212 | Insertion keeps the multiset plus one and keeps a sorted list sorted. |
| Sorting.SortBy | src/main/db.ts:208-212 | ORDER BY yields a permutation sorted by any total preorder. |
| Sorting.InsertDistinct | src/main/db.ts:214-215 | Inserting a new element keeps a list duplicate-free. |
| Sorting.SortByDistinct | src/main/db.ts:214-215 | Sorting keeps a list duplicate-free. |
| Sorting.SortBySorted | src/main/db.ts:290 | Re-sorting an already sorted list changes nothing. |
| Sorting.AscendingIds | src/main/db.ts:291 | The ids of a rowid table, each once, strictly ascending. |
| Records.Matches | src/main/db.ts:186-205 | Definition, no contract: each filter that is present and non-empty must hold, map, side, start position and type by equality and search by LIKE. `Records.BuildClauses` proves the built clauses mean it. |
| Records.BuildClauses | src/main/db.ts:183-207 | The clause list has one conjunct per given filter, and a row satisfies it exactly when it matches the filters. |
| Records.Push | src/main/db.ts:187 | Appending one conjunct adds exactly that condition. |
| Records.SearchIsSubstring | src/main/db.ts:202-205 | For wildcard-free search text, the search clause holds exactly when title, tags or description contains the text, ignoring ASCII case. |
| Records.OrderOf | src/main/db.ts:208-212 | Definition, no contract: `'map'` selects map then title, `'title'` selects title, anything else newest first. |
| Records.Precedes | src/main/db.ts:208-212 | Definition, no contract: the three ORDER BY orders as "may come before"; newest first compares `createdAt` in whole seconds, larger first. Its properties are the next rows. |
| Records.SameSecondTies | src/main/db.ts:212 | Two rows created within the same second tie under newest first. |
| Records.LaterSecondFirst | src/main/db.ts:212 | A row created in a later second comes before an older one and never after it. |
| Records.PrecedesTotal | src/main/db.ts:208-212 | Each of the three orders compares every pair of records. |
| Records.PrecedesTransitive | src/main/db.ts:208-212 | Each of the three orders is transitive, `map, title` included. |
| Records.PrecedesIsTotalPreorder | src/main/db.ts:208-212 | Each of the three orders is a total preorder the sort can honour. |
| Catalog.Rows | src/main/db.ts:291 | A full scan returns one row per stored id. |
| Catalog.RowsAreTheTable | src/main/db.ts:291 | In a table keyed by id, the scan lists exactly the stored rows, each once, in ascending id order. |
| Catalog.Select | src/main/db.ts:214-215 | The rows a WHERE clause keeps are exactly the scanned rows that satisfy it, and no more than were scanned. |
| Catalog.Matching | src/main/db.ts:181-207 | The rows kept are exactly the scanned rows that match, and no duplicates are added. |
| Catalog.SelectIsMatching | src/main/db.ts:214-215 | Applying the built WHERE clause to the scan keeps exactly the matching rows, in scan order. |
| Catalog.SeedMaps | src/main/db.ts:72-84 | Definition, no contract: an empty maps table gets the eight defaults, a non-empty one is kept. `Db.CatalogStore.SeedMaps` and `Catalog.FirstStart` state its effect. |
| Catalog.InsertNext | src/main/db.ts:257 | Definition, no contract: the AUTOINCREMENT insert under the next counter value, DatabaseFull at the largest row id. `Catalog.InsertNextFresh` states its properties. |
| Catalog.InsertAll | src/main/db.ts:163-168 | Definition, no contract: the inserts in order, the first failure ending the transaction. `Catalog.InsertAllShape` states its result. |
| Catalog.SeedNades | src/main/db.ts:86-89 | Definition, no contract: the demo nades into an empty nades table, stamped `now`; a non-empty table is kept. `Catalog.SeedNadesResult` and `Catalog.SeededRows` state its result. |
| Catalog.InsertNextFresh | src/main/db.ts:44 | The AUTOINCREMENT insert fails only at the largest row id. Otherwise the new id is above every id present, exactly the new row is added, and the table stays well-formed. |
| Catalog.InsertAllShape | src/main/db.ts:163-168 | The inserts of n inputs succeed exactly when n ids are left. The i-th input then gets id `seq + 1 + i` with the given timestamps, and earlier rows stay as they were. |
| Catalog.SeedNadesResult | src/main/db.ts:86-89 | A non-empty table is left alone. An empty one succeeds exactly when three ids are left, and then holds rows under exactly the next three ids. |
| Catalog.SeededRows | src/main/db.ts:90-131 | The seeded rows are the three demo nades in order, and all share the one timestamp `now` as `createdAt` and `updatedAt`. |
| Catalog.SeedIdempotent | src/main/db.ts:72-89 | Once both tables are seeded, seeding again on a later start changes nothing. |
| Catalog.DefaultMapsDistinct | src/main/db.ts:76 | The eight default names are pairwise different, so seeding them satisfies UNIQUE. |
| Catalog.FirstStart | src/main/db.ts:72-169 | Seeding an empty file gives the eight default maps and the three demo nades under ids 1, 2 and 3, all stamped `now`. |
| Catalog.AddMissing | src/main/db.ts:333-335 | Definition, no contract: each name absent so far is appended, a present one ignored. `Catalog.AddMissingResult` states its result. |
| Catalog.AddMissingResult | src/main/db.ts:333-335 | INSERT OR IGNORE keeps names unique, keeps the old rows in front, and leaves exactly the old names plus the new ones. |
| Catalog.AddMissingAllNew | src/main/db.ts:333-335 | Pairwise different, all-new names are appended in order. |
| Catalog.InsertWithId | src/main/db.ts:337 | Definition, no contract: the caller's id is refused outside the 64-bit range or when present, otherwise stored and the counter raised to it. |
| Catalog.InsertRows | src/main/db.ts:336-338 | Definition, no contract: the explicit-id inserts in order, the first failure ending the transaction. `Catalog.InsertRowsOk` and `Catalog.InsertRowsResult` state its result. |
| Catalog.Import | src/main/db.ts:295-341 | Definition, no contract: INSERT OR IGNORE of every name, then the explicit-id insert of every nade. `Catalog.ImportResult` states its result. |
| Catalog.ImportableCons | src/main/db.ts:336-338 | A row list is importable exactly when its head is and its tail is importable after it. |
| Catalog.InsertRowsOk | src/main/db.ts:336-338 | The explicit-id inserts succeed exactly when every id is 64-bit, absent, and not repeated. |
| Catalog.InsertRowsResult | src/main/db.ts:336-338 | Successful inserts add exactly the given rows under their own ids. Earlier rows are untouched and the table stays well-formed. |
| Catalog.ImportResult | src/main/db.ts:295-341 | The import succeeds exactly when the payload's nades are importable. Then the names are the old ones plus the payload's, old names stay in front, every payload nade is stored under its id, and old rows are unchanged. |
| Catalog.NameOrder | src/main/db.ts:173 | The name order is total and transitive. |
| Catalog.SortedNames | src/main/db.ts:171-174 | The names sorted by name: a sorted permutation, duplicate-free when the names are. |
| Catalog.Export | src/main/db.ts:288-293 | The export has sorted names with the same multiset, and one nade per stored row. |
| Catalog.ImportOfExport | src/main/db.ts:288-341 | Importing an export into a store with no nades succeeds. It reproduces the nades table exactly and leaves the union of the map names. |
| Catalog.ImportOfExportAll | src/main/db.ts:288-341 | The previous row for every target store without nades at once. |
| Catalog.ExportedNadesImport | src/main/db.ts:336-338 | The nade half of the previous row. |
| Catalog.ScanReloads | src/main/db.ts:336-338 | Inserting the scan of a table into an empty nades table rebuilds that table. |
| Catalog.ScanIsImportable | src/main/db.ts:291 | The scan of a well-formed table has 64-bit, pairwise different ids. |
| Catalog.ExportedNamesImport | src/main/db.ts:333-335 | The map-name half of `ImportOfExport`. |
| Catalog.RowsDetermineMap | src/main/db.ts:291 | A table holding exactly the scanned rows, each under its id, is the scanned table. |
| Catalog.ExportImportRoundTrip | src/main/db.ts:288-341 | Export, import into a file with both tables empty, then export again gives the same payload, ids and timestamps included. An initialized store always holds map names (seeding adds eight and nothing removes them), so for it the round trip is `Catalog.ImportOfExport`. |

## Left out

- The better-sqlite3 library: SQL text, prepared statements and the `journal_mode = WAL` pragma (`src/main/db.ts:40`). The tables are modelled as values.
- Opening the file: the path join (`src/main/db.ts:38`), and a database file that cannot be opened or created. The constructor takes the file's tables as a parameter.
- The wall clock (`src/main/db.ts:90`, `225`, `263`). `now` is a parameter, a timestamp in milliseconds since the Unix epoch.
- `datetime(createdAt)` parsing (`src/main/db.ts:212`). An imported timestamp that does not parse sorts as NULL in SQLite; the model has no such values.
- Ties in every sort order: SQLite may return tied rows in any order, and under newest first all rows created in the same second tie. `ListNades` states sortedness and the permutation, which hold whatever order the tied rows come in; it does not say which of them comes first.
- The `NOT NULL` constraints (`src/main/db.ts:49-62`). The record types make every such field present.
- The `id` column of `maps` and its AUTOINCREMENT counter. No operation returns it, so names are kept in insertion order without ids, and running out of map ids is not modelled.
- JavaScript numbers: an id above 2^53 loses precision when `lastInsertRowid` is returned as a number, and a fractional id matches no row. Ids are unbounded integers here. An imported id outside the 64-bit range is a datatype-mismatch error.
- Import payloads that are not well-typed JSON (missing fields, wrong types). The payload is typed, so only the id checks can fail.
- The LIKE pattern length limit: an over-long search text makes SQLite throw "LIKE or GLOB pattern too complex". `Text.Like` accepts patterns of any length.
- Row order of `SELECT * FROM nades` (`src/main/db.ts:291`): the query has no ORDER BY, so SQL promises no order. `Catalog.Rows` returns ascending rowid order, which is what SQLite's full scan of a rowid table gives; `Catalog.ExportImportRoundTrip` relies on it.
- `src/main/ipc.ts`, `src/main/main.ts`, `src/preload/index.ts`, `src/renderer/App.tsx`, `src/renderer/types.ts` and `vite.config.ts`: IPC, window, UI and build plumbing with no store logic. `ipc.ts` only follows `addMap` with `listMaps` and returns constants.
- Concurrency: the store runs in one process with one writer.
