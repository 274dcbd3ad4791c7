# Insert-if-absent sync of market statistics and trade summaries

The repository holds two near-identical sync scripts. `src/imds-etl.py` copies the MKISTAT
table (market-instrument statistics) into `imds_mk_istats`. `src/imds_trds.py` copies the TRD
table (trade summaries) into `imds_trds`. Each script does the same things:

1. It fetches every source row.
2. It maps each row to a destination record. Columns are copied under new names, and each
   record gets a fresh random id.
3. Inside one database session, it checks each record for a destination row with the same
   natural key, and inserts the record only when there is none.
4. It commits once, at the end.

The natural key is `(mkstat_instrument_code, mkstat_lm_date_time)` for the statistics and
`(trd_total_trades, trd_lm_date_time)` for the trades.

This project models that core as one generic merge with two instances:

- `results.dfy` (module `Results`): `Option` and `Result`.
- `merge.dfy` (module `Merge`): the insert-if-absent merge over a table held as a sequence of
  rows, generic in the record type and the key projection. `Sync` is a fold over the batch in
  order. Each existence check sees the records inserted earlier in the same run, because the
  script runs its checks and inserts in one session. `NewRecords` is an independent reference
  definition of what a run inserts. `SyncLoop` is the session loop written as a method.
- `job.dfy` (module `Job`): one whole run. It prepares every record, merges the batch, and
  then commits. Environment failures are an input `Fault`. A row that lacks a column fails the
  run, because the script's column lookup on the row raises KeyError.
- `market_stats.dfy` (module `MarketStats`): the MKISTAT → `imds_mk_istats` instance. It has
  20 copied columns, counts its inserts, and logs either "Inserted n" or "No new records".
- `trades.dfy` (module `Trades`): the TRD → `imds_trds` instance. It has 4 copied columns and
  always logs the number of prepared records as inserted.

Source rows are `map<string, V>`, keyed by source column name. Column values have an abstract
type `V` with decidable equality. The generated ids (`uuid4`) are an input sequence with one id
per fetched row. The key never uses them.

## Model

| member | source | states |
|---|---|---|
| Merge.FindExisting | src/imds-etl.py:111-114 | the existence check: it finds a destination row with the record's key, and it finds nothing exactly when no row has that key |
| Merge.CheckFindsNothingIffNew | src/imds-etl.py:111-117 | the existence check for a batch record, made against the destination plus the records inserted before it in the session, finds nothing exactly when the record's key is in neither the destination nor an earlier batch record |
| Merge.Sync | src/imds-etl.py:107-123 | a run only appends: existing rows stay unchanged as the prefix, the table grows by exactly the inserted count, and that count never exceeds the number of records |
| Merge.SyncLoop | src/imds-etl.py:108-120 | the per-record check-then-insert loop appends exactly the new records of the batch, in batch order, and its counter equals how many it appended |
| Merge.NewRecordsKeys | src/imds-etl.py:109-120 | the inserted records carry exactly the batch keys that the destination lacked |
| Merge.NewRecordsDistinct | src/imds-etl.py:109-120 | no two inserted records share a key, and no inserted record has a key already in the destination |
| Merge.NewRecordsFromBatch | src/imds-etl.py:117-119 | every inserted record is one of the prepared records, and there are at most as many as were prepared |
| Merge.SyncAppendsNewRecords | src/imds-etl.py:109-120 | a record is appended exactly when its key is in neither the destination nor an earlier record of the batch; the result is the destination followed by those records, and the count is their number |
| Merge.SyncCoversKeys | src/imds-etl.py:109-123 | after a run every source key is in the destination, and no other key was added |
| Merge.SyncKeepsKeysDistinct | src/imds-etl.py:111-119 | a destination whose keys were unique still has unique keys after a run |
| Merge.SyncCountsMissingKeys | src/imds-etl.py:108-120 | inserted_count equals the number of distinct batch keys that were absent from the destination |
| Merge.SyncInsertsAllIff | src/imds_trds.py:89-94 | every prepared record is inserted exactly when the batch keys are pairwise distinct and none is in the destination |
| Merge.SyncNoOpIff | src/imds-etl.py:125-128 | a run inserts nothing exactly when every batch key is already present, and then the table is unchanged |
| Merge.SyncIdempotent | src/imds-etl.py:109-123 | merging the same batch again into a run's result inserts nothing and changes nothing |
| Merge.InBatchDuplicatesCollapse | src/imds-etl.py:109-120 | of two batch records with the same key at most one is inserted, and exactly one when the key was absent |
| Job.ReadColumns | src/imds-etl.py:77-99 | a record literal's column lookups: it returns the values in column order when the row has every column, and otherwise the first column the row lacks |
| Job.PrepareAll | src/imds-etl.py:76-102 | one record per fetched row, in order, each the mapping of its row with its id; if a row's mapping fails, preparation fails with the error of the first such row |
| Job.Run | src/imds-etl.py:52-131 | a run completes exactly when every row maps and no fault interrupts it (a refused commit interrupts only a non-empty batch); a failed run leaves the destination unchanged; a completed run prepares one record per fetched row and appends exactly the new records, counted |
| Job.RunTwice | src/imds-etl.py:107-123 | re-running on the same rows with fresh ids against a completed run's result inserts nothing and changes nothing |
| MarketStats.FromValues | src/imds-etl.py:77-99 | the uuid is the only field not taken from the copied values, and the record gives those values back in destination-column order |
| MarketStats.RecordRoundTrip | src/imds-etl.py:77-99 | an imds_mk_istats record is determined by its uuid and its 20 copied columns |
| MarketStats.MapRow | src/imds-etl.py:76-99 | mapping succeeds exactly when the row has all 20 MKISTAT columns and otherwise fails with the first missing one; on success each copied field equals its source column and the uuid is the given id |
| MarketStats.KeyFromSource | src/imds-etl.py:111-114 | a record's key is the row's (MKISTAT_INSTRUMENT_CODE, MKISTAT_LM_DATE_TIME) |
| MarketStats.MapRowIgnoresId | src/imds-etl.py:77-114 | whether mapping succeeds, and the key it yields, do not depend on the generated uuid |
| MarketStats.Run | src/imds-etl.py:104-131 | an error is logged exactly when a row lacks a column or a fault interrupts the run, and then the table is unchanged; otherwise the table is the old table followed by exactly the prepared records whose key was absent (uuid and copied fields as prepared), every source key is present, "No new records" is logged exactly when all source keys were already present, and "Inserted n" logs the number of rows appended |
| MarketStats.RunTwiceLogsNoNewRecords | src/imds-etl.py:107-128 | a second run on the same rows leaves the table unchanged and logs "No new records" |
| MarketStats.RunKeepsKeysUnique | src/imds-etl.py:109-123 | no run duplicates an (instrument code, last-modified) key |
| Trades.FromValues | src/imds_trds.py:68-74 | the id is the only field not taken from the copied values, and the record gives those values back in destination-column order |
| Trades.RecordRoundTrip | src/imds_trds.py:68-74 | an imds_trds record is determined by its id and its 4 copied columns |
| Trades.MapRow | src/imds_trds.py:67-74 | mapping succeeds exactly when the row has all 4 TRD columns and otherwise fails with the first missing one; on success each copied field equals its source column and the id is the given id |
| Trades.KeyFromSource | src/imds_trds.py:83-86 | a record's key is the row's (TRD_TOTAL_TRADES, TRD_LM_DATE_TIME) |
| Trades.MapRowIgnoresId | src/imds_trds.py:69-86 | whether mapping succeeds, and the key it yields, do not depend on the generated id |
| Trades.Run | src/imds_trds.py:77-96 | an error is logged exactly when a row lacks a column or a fault interrupts the run, and then the table is unchanged; otherwise the table is the old table followed by exactly the prepared records whose key was absent (id and copied fields as prepared), every source key is present, and the logged figure is the number of fetched rows, which is at least the number appended and equals it exactly when the fetched keys are distinct and all new |
| Trades.ReportOvercounts | src/imds_trds.py:89-94 | one fetched row whose key already exists: nothing is appended, but one record is logged as inserted |
| Trades.RunCountingInserts | src/imds_trds.py:80-94 | the corrected report logs exactly the number of rows appended, which is the number of fetched keys the destination lacked |
| Trades.RunTwiceAppendsNothing | src/imds_trds.py:81-94 | a second run on the same rows leaves the table unchanged but still logs every fetched row as inserted |
| Trades.RunKeepsKeysUnique | src/imds_trds.py:81-93 | no run duplicates a (total trades, last-modified) key |

## Left out

- Environment loading, credential reading and password URL-quoting (src/imds-etl.py:29-46, src/imds_trds.py:25-41) are configuration and a library call.
- Engine and session creation, `pd.read_sql` and table reflection are database I/O. Fetched rows are an input sequence. The destination table is a sequence of records. Any failure in these steps is the `Unreachable` fault.
- Logging setup, file rotation, timestamps and durations are left out. Only the final report line (its branch and its number) and the logged error are modelled. The "Fetched n" and "Prepared n" lines are not modelled; PrepareAll states the prepared count instead.
- `uuid.uuid4()` is not modelled: ids are an input, and their randomness and uniqueness are not modelled.
- Numeric column types, NaN and SQL NULL comparison are left out. Values have an abstract type with plain equality.
- Job.Run: any failing statement inside the session is `StatementFails(at)`, whether it is the existence query or the insert for record `at`. A statement fault only fires when record `at` exists. Whichever statement fails, nothing is committed.
- Merge.FindExisting: SQL `.first()` without an ORDER BY returns some matching row. The model returns the first match in table order. Only whether a match exists is used.
- Concurrent runs and transaction isolation are out of scope. Within one run, inserts are visible to later checks, and nothing persists without the commit.
- Inserting every duplicate within a batch is not modelled, because the code never does it. Its checks share the session that executed the earlier inserts, so duplicates within a batch always collapse to one insert.
- A failed run logs no inserted count (`ErrorLogged` carries only the error). The "Fetched n" line (src/imds-etl.py:64, src/imds_trds.py:55) and the "Prepared n" line (src/imds-etl.py:104, src/imds_trds.py:77) come before most failures and are logged for them; those two lines are not modelled.

## Findings

| source | as written | input that shows it | evidently intended | confidence | as-written member | corrected member |
|---|---|---|---|---|---|---|
| src/imds_trds.py:94 | logs `len(insert_records)` as "Inserted n new records" | one TRD row whose (TRD_TOTAL_TRADES, TRD_LM_DATE_TIME) key is already in imds_trds: nothing is appended, yet "Inserted 1" is logged | log the number actually inserted, as src/imds-etl.py:108-126 does | medium; not executed | Trades.ReportOvercounts | Trades.RunCountingInserts |

`Trades.Run` models the script as written. `Trades.ReportOvercounts` gives the concrete input
above. `Trades.RunCountingInserts` is the same run with the inserted count reported. It proves
that the logged figure equals the number of rows appended.
