# Shipment reconciliation and soft-delete store, in Dafny

This project models the ETL core of the interplanetary shipping tracker. Each tick, `CosmoCargoProcess` does the following:

1. It scrapes the listing of shipments.
2. It reads the stored shipments through `PostgreDAO.get_all`.
3. It matches the two snapshots by an identity key. The key is the seventeen content fields, printed with `str()` and joined with commas.
4. It selects three lists:
   - new records: scraped records whose key no live stored record has;
   - deletions: live stored records whose key was not scraped;
   - restorations: soft-deleted stored records whose key was scraped.
5. It writes them back in a fixed order: bulk insert, soft delete by id, restore by id.

The model has five modules:

- `Seqs`: order-preserving selection (`Filter`) and the subsequence relation.
- `Shipments`: the shipment record (`data/dto/shipment.py`) and the identity key. The key includes Python's `str()` of an int and `",".join`, with a `Split` that undoes the join.
- `Postgre`: the `shipments` table held in memory as a sequence of rows plus the next autoincrement id. The four DAO operations are specification functions on that table. The class `PostgreDao` mutates its `table` field through methods proved equal to those functions.
- `Reconcile`: the three selection loops, as methods proved equal to `Filter` specifications. Lemmas state exactly what each selection contains.
- `Process`: the class `CosmoCargoProcess` with `Do` (one cycle) and `Start` (the polling loop). It also holds `Cycle`, the effect of one cycle on the table. The lemmas show what a cycle does to every row, and include the finding below.

Two behaviours of the program are easy to misread, and the model keeps both as coded:

- **Fetch failure.** When the fetch returns None, the tick is not skipped. `do()` raises a TypeError at the first loop over the source, which is in `get_restore_shipments`. That happens after `get_all` and before any write. Nothing in `start()` catches the error, so it ends the loop and the process. `Do` returns `RaisedTypeError` and leaves the table unchanged. `Start` stops with `Raised(i)`.
- **A deleted record that is scraped again** is counted as new. `get_new_shipments` compares only against the keys of live stored records, so a record whose key belongs only to a soft-deleted row is selected for insertion. `NewShipmentsExact` states this.

## Model

| member | source | states |
|---|---|---|
| Shipments.IsDeleted | src/process/etl.py:44 | Python truthiness of the tri-state `is_deleted`: None and False are both not deleted; the same test appears at lines 65 and 81 |
| Shipments.FieldTexts | src/process/etl.py:90-108 | the key is built from exactly seventeen field texts |
| Shipments.IntToString | src/process/etl.py:110 | `str()` of an int field is non-empty and has no comma; it starts with '-' exactly when the value is negative |
| Shipments.NatToStringValue | src/process/etl.py:110 | reading the digits of `str(n)` left to right gives n back, so the text is the decimal numeral of n |
| Shipments.IntToStringValue | src/process/etl.py:110 | reading `str(n)` back, sign included, gives n |
| Shipments.IntToStringInjective | src/process/etl.py:110 | distinct ints print as distinct texts |
| Shipments.CreateShipmentKey | src/process/etl.py:89-110 | the comma-join of `FieldTexts`; its meaning is stated by KeyListsFields, KeyIgnoresLifecycle, KeyDeterminesContent and KeyCollision |
| Shipments.SplitJoin | src/process/etl.py:110 | splitting a comma-join of comma-free parts on ',' gives the parts back |
| Shipments.KeyListsFields | src/process/etl.py:89-110 | when no text field holds a comma, the key splits back into the seventeen field texts, in the listed order |
| Shipments.KeyIgnoresLifecycle | src/process/etl.py:89-110 | changing `id`, `is_deleted` or `deleted_at` never changes the key |
| Shipments.KeyCollision | src/process/etl.py:110 | the key is not injective: moving a comma-separated piece between origin country and origin address gives a different record with the same key |
| Shipments.KeyDeterminesContent | src/process/etl.py:89-110 | when no text field holds a comma, equal keys mean equal content: the seventeen fields are recovered from the key |
| Postgre.NewRow | src/data/dao/postgre.py:19-23 | the row built from one record: content and `deleted_at` kept, `id` and `is_deleted` dropped, and the column defaults of src/model/shipments.py:36-40 filled in (InsertedRows and Insert state it per row) |
| Postgre.InsertedRows | src/data/dao/postgre.py:19-23 | the k-th new row holds the k-th record's content and `deleted_at`, gets id first+k, is live, is not restored, and is stamped `now` |
| Postgre.Insert | src/data/dao/postgre.py:14-31 | an empty list changes nothing; otherwise one row is appended per record with consecutive fresh ids and `is_deleted` false, whatever the record's own `id`/`is_deleted`; the old rows are untouched; valid ids stay unique |
| Postgre.DeleteByIds | src/data/dao/postgre.py:34-47 | an empty list changes nothing; a row ends up deleted iff it already was or its id is listed; `deleted_at` is set to `now` exactly on the listed rows; every other field and row is unchanged |
| Postgre.RestoreByIds | src/data/dao/postgre.py:50-64 | an empty list changes nothing; a row stays deleted iff it was deleted and its id is not listed; `is_restored` and `restored_at` are set exactly on the listed rows; every other field, `deleted_at` included, is unchanged |
| Postgre.RestoreAfterDelete | src/data/dao/postgre.py:39-61 | restoring the ids just deleted makes those rows live and restored with both timestamps set; no other row changes |
| Postgre.LiveShipments | src/data/dao/postgre.py:67-69 | every record `get_all` returns has `is_deleted == False` and an id |
| Postgre.LiveShipmentsExact | src/data/dao/postgre.py:67-69 | a record is returned iff some row with `is_deleted == False` holds it |
| Postgre.BuildRows | src/data/dao/postgre.py:19-23 | the loop builds exactly the rows `InsertedRows` describes |
| Postgre.PostgreDao.constructor | src/data/dao/postgre.py:9-11 | the DAO works on the given table |
| Postgre.PostgreDao.BulkInsert | src/data/dao/postgre.py:14-31 | the new table is `Insert` of the old one; unique ids are kept |
| Postgre.PostgreDao.BulkDeleteByIds | src/data/dao/postgre.py:34-47 | the new table is `DeleteByIds` of the old one; unique ids are kept |
| Postgre.PostgreDao.BulkRestoreByIds | src/data/dao/postgre.py:50-64 | the new table is `RestoreByIds` of the old one; unique ids are kept |
| Postgre.PostgreDao.GetAll | src/data/dao/postgre.py:67-69 | returns the live rows as records, in table order |
| Reconcile.NewShipments | src/process/etl.py:41-54 | the selection `get_new_shipments` makes; NewShipmentsExact, NewKeysAreUnmatchedSourceKeys and NothingNewIff state what it holds |
| Reconcile.DelShipments | src/process/etl.py:57-70 | the selection `get_del_shipments` makes; DelShipmentsExact and NothingDeletedIff state what it holds |
| Reconcile.RestoreShipments | src/process/etl.py:73-86 | the selection `get_restore_shipments` makes; RestoreShipmentsExact and DelRestoreDisjoint state what it holds |
| Reconcile.CollectKeys | src/process/etl.py:58-61 | the set-building loop collects exactly the keys of all records |
| Reconcile.GetNewShipments | src/process/etl.py:41-54 | returns `NewShipments(source, existing)` |
| Reconcile.GetDelShipments | src/process/etl.py:57-70 | returns `DelShipments(source, existing)` |
| Reconcile.GetRestoreShipments | src/process/etl.py:73-86 | returns `RestoreShipments(source, existing)` |
| Reconcile.NewShipmentsExact | src/process/etl.py:41-54 | new records are a subsequence of the source; each record occurs as often as in the source when no existing record with falsy `is_deleted` has its key, and otherwise not at all |
| Reconcile.DelShipmentsExact | src/process/etl.py:57-70 | deletions are a subsequence of `existing`; each record occurs as often as in `existing` when its `is_deleted` is falsy and no source record has its key, and otherwise not at all |
| Reconcile.RestoreShipmentsExact | src/process/etl.py:73-86 | restorations are a subsequence of `existing`; each record occurs as often as in `existing` when its `is_deleted` is truthy and some source record has its key, and otherwise not at all |
| Reconcile.DelRestoreDisjoint | src/process/etl.py:64-84 | no record is selected both for deletion and for restoration |
| Reconcile.EmptySourceDeletesAllLive | src/process/etl.py:41-86 | with an empty source, nothing is new or restored, and every existing record with falsy `is_deleted` is deleted, in order |
| Reconcile.NewKeysAreUnmatchedSourceKeys | src/process/etl.py:41-54 | the keys of the new records are the source keys minus the live existing keys |
| Reconcile.NothingNewIff | src/process/etl.py:41-54 | nothing is new iff every source key is a live existing key |
| Reconcile.NothingDeletedIff | src/process/etl.py:57-70 | nothing is deleted iff every live existing key is a source key |
| Reconcile.InSyncIffNothingToApply | src/process/etl.py:41-70 | nothing is inserted or deleted iff the source keys equal the live existing keys |
| Process.IdsOf | src/process/etl.py:37-38 | the id list holds exactly the ids of the selected records |
| Process.Cycle | src/process/etl.py:21-38 | the table after one completed `do()`; CycleOldRow, CycleNewRow, CycleLength, CycleSyncsLiveKeys and CycleKeepsValid state what it does |
| Process.Run | src/process/etl.py:14-19 | the table after the completed ticks of `start()`: one `Cycle` per tick up to the first None fetch; `Start` is proved to leave exactly this table |
| Process.CosmoCargoProcess.IfEnd | src/process/etl.py:112-113 | the loop's stop test, always false; so `Start` never stops by its `break` |
| Process.CycleKeepsValid | src/process/etl.py:21-38 | a completed cycle keeps ids positive, below the next id and unique |
| Process.CosmoCargoProcess.constructor | src/process/etl.py:9-12 | the process owns a fresh DAO over the given table |
| Process.CosmoCargoProcess.Do | src/process/etl.py:21-38 | after a None fetch it raises and writes nothing; otherwise it returns, and the table becomes `Cycle` of the old table: selections from one pair of snapshots, then insert, delete by id, restore by id |
| Process.CosmoCargoProcess.Start | src/process/etl.py:14-19 | the loop never stops by its `break`, because `if_end` (line 112-113) is always false; it stops at the first None fetch with `Raised` at that tick, or runs every tick and is killed; the table is `Run` of the old table |
| Process.LiveKeysAreLiveRowKeys | src/data/dao/postgre.py:67-69 | the keys `get_all` yields are exactly the keys of live rows |
| Process.CycleNeverRestores | src/data/dao/postgre.py:68 | because `get_all` leaves deleted rows out, the restore selection of `do()` is always empty |
| Process.DeletedIdOfRow | src/process/etl.py:37 | a row's id is among the ids `do()` deletes iff the row is live and its key left the source |
| Process.DeletedIdsAreOld | src/process/etl.py:37 | every id `do()` deletes belongs to a row stored before the cycle |
| Process.CycleIsInsertThenDelete | src/process/etl.py:36-38 | a completed cycle amounts to an insert followed by a soft delete; the restore call has no effect |
| Process.CycleOldRow | src/process/etl.py:21-38 | after a cycle an existing row keeps its id and content; it is deleted iff it was already deleted or its key is not a source key |
| Process.CycleNewRow | src/process/etl.py:36 | each row a cycle appends is live and holds the content of the matching new record |
| Process.CycleLength | src/process/etl.py:36 | a cycle adds exactly one row per new record |
| Process.CycleHasEffect | src/process/etl.py:21-38 | the row-by-row effect of a cycle (old rows and appended rows together) |
| Process.NewOnesOfCycle | src/process/etl.py:41-54 | the new records come from the source, and they cover every source key that no live row holds |
| Process.CycleSyncsLiveKeys | src/process/etl.py:21-38 | after a completed cycle, the keys of the live rows are exactly the source's keys |
| Process.DeletedRowNotRestored | src/data/dao/postgre.py:68 | as written: a deleted row whose key is scraped again, with no live row holding that key, stays deleted, and the cycle appends a second, live row with the same key |
| Process.ReadAll | src/data/dao/postgre.py:67-69 | the corrected read returns every row, deleted ones included, in table order |
| Process.CorrectedOldRow | src/process/etl.py:21-38 | corrected cycle: an existing row keeps its id and content; it is live iff its key is a source key; it is flagged restored when it was deleted and its key came back |
| Process.CorrectedNewRow | src/process/etl.py:36 | corrected cycle: each appended row is live and holds the content of its new record |
| Process.CorrectedCycleRestores | src/process/etl.py:73-86 | corrected cycle: every deleted row whose key is scraped again becomes live and restored, and no appended row repeats the key of any stored row |
| Process.CorrectedCycleSyncsLiveKeys | src/process/etl.py:21-38 | corrected cycle: the keys of the live rows afterwards are exactly the source's keys |

## Left out

- Fetching (`FetchDao`, the Playwright browser, JSON and pydantic parsing) is not modelled. Each tick is handed the fetch result as a value: a list of records, or None.
- The Redis client that the constructor builds is never used by a cycle, so it is not modelled.
- The dashboard and the PostgreSQL start-up retries of `process_main.py` are not part of this model.
- Sessions, commits and rollbacks are not modelled. Every bulk operation is taken to succeed as a whole, so a database failure part-way through a cycle is not modelled.
- `datetime.now()` becomes a `Timestamp` parameter. One cycle passes one value to all three writes, although the code reads the clock once per write.
- `created_at` is stamped with the same parameter, standing for the column's `func.now()` default.
- The `sleep` between ticks is left out. Tick times come in as a sequence.
- Process.CosmoCargoProcess.Start: the `while True` loop is run over a finite sequence of ticks. `Killed` stands for the host ending the process after the last tick given, so running forever is stated only for every finite prefix.
- Floats are carried as the text `str()` gives for them. Float parsing, arithmetic and formatting are not modelled; the key uses the text as is.
- The table's row order is taken to be insertion order, and `get_all` returns rows in that order. SQL gives no order without ORDER BY, so the model fixes one.
- The database's 32-bit INTEGER and BIGINT ranges and its VARCHAR(255) limit are not modelled. Ids and ints are unbounded.
- Process.IdsOf: a selected record without an id contributes no id. Inside `id IN (...)` a NULL matches no row, so the same rows are updated. In a cycle every selected stored record has an id.
- The print statements in `do()` are left out.

## Findings

| source | as written | input that shows it | evidently intended | confidence | as-written member | corrected member |
|---|---|---|---|---|---|---|
| src/data/dao/postgre.py:68 | `get_all` returns only rows with `is_deleted == False`. So the records that `do()` reconciles against never include a deleted one, and `get_restore_shipments` always returns an empty list. | A table with one soft-deleted row whose key is K and no live row with key K, and a scrape with one record whose key is K. The row stays deleted, and the cycle inserts a second, live row with key K. | The reconciliation sees every stored row, deleted ones included. A deleted row whose key comes back is restored, and it is not inserted again. So new records are checked against the keys of all stored rows. | not executed | Process.DeletedRowNotRestored | Process.CorrectedCycleRestores |
