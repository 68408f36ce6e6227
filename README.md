# MSDS course store, modelled in Dafny

This project models the in-memory course store of the `msds` web service
(`main.go`). A course record (`MSDSCourse`) has an identifier, a name and a
third field. The field is called "prerequisite", but `initS`, `insert` and
`search` store a decimal Unix timestamp there; `readCSVFile` copies the file's
third column as it is. The program keeps two process-wide variables:

- `data`, the ordered collection of records;
- `index`, a map from identifier to position in `data`.

Its operations are `createIndex`, `initS`, `insert`, `deleteEntry`, `search`,
`list` and the helper `matchTel`. Loading and saving the CSV data file are
modelled at the level of rows.

Modules:

- `Records` (records.dfy): the `Course` datatype, `InitS`, and the text `list` renders (`Line`, `Render`).
- `Persistence` (persistence.dfy): the rows written for a collection and the records read from rows, and their round trip.
- `Indexing` (indexing.dfy): the consistency predicate between index and collection, the index `createIndex` builds, and what each kind of delete does to consistency.
- `Helpers` (helpers.dfy): `MatchTel`, proved equal to the meaning of the pattern `\d+$`.
- `Catalog` (catalog.dfy): the class `Store`. It has the fields `data` and `index` and a ghost `persisted`, which holds the rows of the last successful save. Its methods are the source's loops and mutations.

Outside effects are parameters:

- `stamp` is the clock reading (`strconv.FormatInt(time.Now().Unix(), 10)`).
- `canCreate` says whether `os.Create` of the data file succeeded.
- `file` is the rows the CSV reader returned, or `None` when stat, open or parsing failed.

A run-time panic in the source becomes a `requires`:

- `ReadCSVFile` requires at least three fields per row (`line[2]`).
- `Search` and `DeleteEntry` require that the indexed position of the key is inside `data` (`InBounds`). Otherwise `data[i]` and `data[i+1:]` panic.

In these places the code does something other than its names and comments
suggest; the model follows the code:

- `initS` rejects an empty name or an empty prerequisite, not an empty identifier. It then discards the prerequisite and stores the timestamp (`Records.InitS`).
- A row with fewer than three fields makes `readCSVFile` panic on `line[2]` instead of returning an error.
- `deleteEntry` does not rebuild the index (see Findings).

## Model

| member | source | states |
|---|---|---|
| `Records.InitS` | main.go:107-118 | None exactly when the name or the prerequisite is empty (an empty identifier is accepted); otherwise the record holds the given identifier and name and the timestamp in place of the prerequisite |
| `Records.InitSDiscardsPrereq` | main.go:111-117 | the result does not depend on which non-empty prerequisite is passed, and is present whenever the name is non-empty |
| `Records.RenderAppend` | main.go:171-177 | the listing of two collections concatenated is the concatenation of their listings |
| `Records.RenderAt` | main.go:171-177 | in the listing, record i's line (identifier, space, name, space, third field, newline) directly follows the lines of all earlier records, and the lines of all later records follow it |
| `Persistence.ToRows` | main.go:85-91 | saving writes one row per record, in order, each row being identifier, name, third field |
| `Persistence.FromRows` | main.go:59-73 | loading builds one record per row, in order, from the row's first three fields |
| `Persistence.SaveThenLoad` | main.go:59-91 | the saved rows can be loaded without a panic and give back exactly the saved collection |
| `Persistence.LoadThenSave` | main.go:59-91 | loading rows and saving the records writes the same rows if and only if every row has exactly three fields |
| `Indexing.Spliced` | main.go:145 | `append(data[:i], data[i+1:]...)` drops exactly the record at i, keeps the earlier ones in place and moves each later one down by one |
| `Indexing.BuildIndexConsistent` | main.go:95-103 | after createIndex every key maps to an in-range position holding a record with that identifier, every record's identifier is a key, and for repeated identifiers the last position wins |
| `Indexing.ConsistentIsBuilt` | main.go:95-103 | with distinct identifiers, any index consistent with the collection is the one createIndex builds |
| `Indexing.InsertFresh` | main.go:120-131 | appending a record whose identifier is not indexed keeps identifiers distinct, and rebuilding the index equals adding the single entry identifier → old length |
| `Indexing.SplicedDistinct` | main.go:145 | removing one record keeps identifiers distinct |
| `Indexing.DeleteReindexed` | main.go:140-149 | after removing the record a key points to and rebuilding, the index holds exactly the old keys minus the deleted one |
| `Indexing.DeleteAsWrittenStale` | main.go:140-149 | with only the key deleted from the index, entries for earlier records stay correct and entries for later records point one past their record |
| `Indexing.DeleteAsWrittenConsistentIff` | main.go:140-149 | deleting only the key from the index keeps it consistent if and only if the deleted record was the last one |
| `Indexing.DeleteAsWrittenCounterexample` | main.go:140-163 | on records A, B, C, deleting A leaves B's entry pointing at C's record and C's entry one past the end |
| `Helpers.MatchTel` | main.go:165-169 | true exactly when the string is non-empty and its last character is an ASCII digit, and this is proved equal to the string ending in a non-empty run of ASCII digits, which is what `\d+$` matches |
| `Helpers.LastDigitIsTrailingRun` | main.go:165-169 | a string ends in a non-empty run of ASCII digits (the meaning of `\d+$` anchored at the end of text) if and only if its last character is an ASCII digit |
| `Catalog.Store.constructor` | main.go:38-39 | the store starts with no records, an empty index and the data file's existing rows |
| `Catalog.Store.ReadCSVFile` | main.go:41-76 | a failed stat, open or parse changes nothing and reports an error; otherwise the records of the rows the data file holds (those of the last save, or those present at start) are appended after the existing ones |
| `Catalog.Store.SaveCSVFile` | main.go:78-93 | if the file can be created, the persisted rows become the rows of the whole collection and the result is nil; otherwise an error and the file is unchanged |
| `Catalog.Store.CreateIndex` | main.go:95-103 | the index becomes the one built from the collection and is consistent with it |
| `Catalog.Store.Insert` | main.go:120-138 | an indexed identifier is refused with "already exists" and nothing changes; otherwise the record is appended with the timestamp in its third field, the index is rebuilt and consistent, the new identifier maps to the last position, and the file holds the new collection when it can be created; a store with a consistent index over distinct identifiers keeps both |
| `Catalog.Store.DeleteEntry` | main.go:140-154 | a missing key reports "cannot be found" and nothing changes; otherwise exactly the indexed record is removed, the rest keep their order, only the key leaves the index, and the file is rewritten |
| `Catalog.Store.DeleteEntryReindexed` | main.go:140-154 | as DeleteEntry, but the index is rebuilt: it stays consistent, and with distinct identifiers it keeps every other key and loses the deleted one |
| `Catalog.Store.Search` | main.go:156-163 | a missing key returns nil and changes nothing; otherwise only the indexed record's third field becomes the timestamp, that record is returned, the index and length are unchanged, and under a consistent index it is the record with that identifier |
| `Catalog.Store.List` | main.go:171-177 | the result is the lines of all records in collection order (empty for an empty collection), and nothing changes |
| `Catalog.Walkthrough` | main.go:107-177 | inserting CS101 into an empty store succeeds; a search for CS101 then returns the record with identifier CS101 and name Intro, stamped by the search; it lists as `CS101 Intro <stamp>`; a second CS101 is refused as a duplicate; after deleting CS101 with the delete as written, a search returns nil |

## Findings

| source | as written | input that shows it | evidently intended | confidence | as-written member | corrected member |
|---|---|---|---|---|---|---|
| main.go:145-147 | after splicing `data`, `deleteEntry` only runs `delete(index, key)`, so every record after the removed one keeps its old, now too high, position | records A, B, C indexed by createIndex; `deleteEntry("A")`; then `index["B"]` is 1, which holds C, and `index["C"]` is 2, past the end, so `search("C")` indexes out of range and `deleteEntry("B")` removes C | rebuild the index after the splice (`createIndex()`), as `insert` does | high; not executed | `Catalog.Store.DeleteEntry`, `Indexing.DeleteAsWrittenCounterexample` | `Catalog.Store.DeleteEntryReindexed` |

## Left out

- File system and CSV library: `os.Stat`, `os.Open`, `os.Create` and the `encoding/csv` reader and writer are not modelled. A file is its sequence of rows, so quoting and escaping, and the reader's rule that all rows have as many fields as the first one, are outside the model. Their failures appear only as the `file` and `canCreate` parameters.
- Catalog.Store.ReadCSVFile: the different read errors (missing file, open failure, parse failure) collapse into one `FileError`. The rows read are taken to be those the file holds in the model (`persisted`): writes to the file by other processes are not modelled. The source's index-out-of-range panic on a row with fewer than three fields is not modelled as an outcome; `Loadable` in the requires excludes such rows.
- Catalog.Store.Search: the source's index-out-of-range panic when the indexed position lies outside `data` (possible after `deleteEntry`) is not modelled as an outcome; `InBounds` in the requires excludes it. `Indexing.DeleteAsWrittenCounterexample` shows that such a state is reachable.
- Catalog.Store.DeleteEntry: likewise, the panic of `data[i+1:]` when the indexed position lies outside `data` is excluded by `InBounds` in the requires rather than modelled as an outcome.
- Catalog.Store.SaveCSVFile: once `os.Create` succeeds the model records that the file holds all rows. The source discards every `Write` error and never reads `Flush`'s error, so a failed write leaves a partial file while nil is still returned. That partial file is not modelled.
- The clock and integer formatting: the timestamp is the string parameter `stamp`, so each call's value is whatever the caller passes.
- The regular-expression engine: `MatchTel` is defined on the characters of the string and proved equal to the pattern's meaning. Go applies it to the UTF-8 bytes; the last byte is an ASCII digit exactly when the last character is one.
- Program start-up and HTTP (main.go:179-232): `main`, the `index` handler, the mux and the server are network wiring. That code references an undefined `PORT` and undefined handlers, and its `func index` clashes with the variable `index`, so it does not build.
- Concurrency: the model treats calls as sequential; under `net/http` each handler runs in its own goroutine, so concurrent handlers would race on the unlocked globals `data` and `index`.
- Aliasing: `insert` also writes the timestamp into the caller's `*pS`, and `search` returns `&data[i]`, the address of an element of the slice that a later append or splice can move or overwrite. The model stores and returns record values instead.
