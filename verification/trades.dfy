/**
  The trade-summary job: copies rows of the source table TRD into the destination table
  imds_trds. Each record gets a generated id and four columns copied under new names; the
  natural key is (trd_total_trades, trd_lm_date_time). Unlike the statistics job it keeps no
  insert counter: after the commit it logs the number of PREPARED records as "inserted".

  Column values are of an abstract type `V` with decidable equality.
*/
module Trades {
  import opened Results
  import Merge
  import Job

  /** A row of imds_trds. */
  datatype Record<V> = Record(id: string, totalTrades: V, totalVolume: V, totalValue: V, lmDateTime: V)

  /** The TRD columns a record is built from, in the order the record reads them. */
  const SourceColumns: seq<string> :=
    ["TRD_TOTAL_TRADES", "TRD_TOTAL_VOLUME", "TRD_TOTAL_VALUE", "TRD_LM_DATE_TIME"]

  /**
    The copied columns of a record, position by position the imds_trds columns
    trd_total_trades, trd_total_volume, trd_total_value and trd_lm_date_time, each written from
    the source column at the same position of `SourceColumns`.
  */
  function Values<V>(rec: Record<V>): seq<V> {
    [rec.totalTrades, rec.totalVolume, rec.totalValue, rec.lmDateTime]
  }

  /**
    The record with id `id` whose copied columns are `vs`, in the order of `Values`: the
    id is the one field not taken from `vs`, and `Values` gives `vs` back.
  */
  function FromValues<V>(id: string, vs: seq<V>): (rec: Record<V>)
    requires |vs| == |SourceColumns|
    ensures rec.id == id
    ensures Values(rec) == vs
  {
    Record(id, vs[0], vs[1], vs[2], vs[3])
  }

  /** A record is determined by its id and its copied columns. */
  lemma RecordRoundTrip<V>(rec: Record<V>)
    ensures |Values(rec)| == |SourceColumns|
    ensures FromValues(rec.id, Values(rec)) == rec
  {
  }

  /** The natural key of imds_trds. */
  function Key<V>(rec: Record<V>): (V, V) {
    (rec.totalTrades, rec.lmDateTime)
  }

  /**
    Builds the record for one TRD row with the generated id `id`. It fails with the first
    source column the row lacks; otherwise every copied column equals its source column.
  */
  function MapRow<V>(row: map<string, V>, id: string): (r: Result<Record<V>, string>)
    ensures r.Ok? <==> forall i :: 0 <= i < |SourceColumns| ==> SourceColumns[i] in row
    ensures r.Err? ==> exists i :: 0 <= i < |SourceColumns| && SourceColumns[i] == r.error
                          && r.error !in row && forall j :: 0 <= j < i ==> SourceColumns[j] in row
    ensures r.Ok? ==> r.value.id == id
    ensures r.Ok? ==> forall i :: 0 <= i < |SourceColumns| ==> Values(r.value)[i] == row[SourceColumns[i]]
  {
    match Job.ReadColumns(row, SourceColumns)
    case Err(column) => Err(column)
    case Ok(vs) => Ok(FromValues(id, vs))
  }

  /** The key of a mapped record is read from the row's key columns; the id plays no part. */
  lemma KeyFromSource<V>(row: map<string, V>, id: string)
    ensures MapRow(row, id).Ok? ==> Key(MapRow(row, id).value) == (row["TRD_TOTAL_TRADES"], row["TRD_LM_DATE_TIME"])
  {
  }

  /** Mapping a row succeeds, and yields the same key, whatever id it is given. */
  lemma MapRowIgnoresId<V(!new)>()
    ensures Job.IgnoresId(MapRow<V>, Key<V>)
  {
  }

  /** The line the job logs at the end of a run. */
  datatype Report = Inserted(count: nat) | ErrorLogged(error: Job.RunError)

  /** The destination after a run, and the line logged about it. */
  datatype RunLog<V> = RunLog(table: seq<Record<V>>, report: Report)

  /** The records a run prepares from `rows`, when every row maps. */
  function Prepared<V>(rows: seq<map<string, V>>, ids: seq<string>): Result<seq<Record<V>>, string>
    requires |ids| == |rows|
  {
    Job.PrepareAll(rows, ids, MapRow)
  }

  /**
    One run of the job. A failed run logs its error and leaves the destination as it was. A
    completed run preserves every existing row, appends only records whose key was absent,
    and logs the number of fetched rows as inserted: never fewer than it appended, and exactly
    as many only when no two fetched rows share a key and none was in the destination.
  */
  function Run<V(==)>(dest: seq<Record<V>>, rows: seq<map<string, V>>, ids: seq<string>, fault: Job.Fault)
    : (r: RunLog<V>)
    requires |ids| == |rows|
    ensures r.report.ErrorLogged? <==> Prepared(rows, ids).Err? || Job.Interrupts(fault, |rows|)
    ensures r.report.ErrorLogged? ==> r.table == dest
    ensures r.report.Inserted? ==>
              && r.report.count == |rows|
              && |dest| <= |r.table|
              && r.table[..|dest|] == dest
              && Merge.Keys(r.table, Key) == Merge.Keys(dest, Key) + Merge.Keys(Prepared(rows, ids).value, Key)
              && |r.table| - |dest| <= r.report.count
    ensures r.report.Inserted? ==> r.table == dest + Merge.NewRecords(dest, Prepared(rows, ids).value, Key)
    ensures r.report.Inserted? ==>
              (|r.table| - |dest| == r.report.count <==>
                 && Merge.DistinctKeys(Prepared(rows, ids).value, Key)
                 && Merge.Keys(Prepared(rows, ids).value, Key) !! Merge.Keys(dest, Key))
  {
    var s := Job.Run(dest, rows, ids, MapRow, Key, fault);
    match s.outcome
    case Failed(e) => RunLog(s.table, ErrorLogged(e))
    case Completed(prepared, _) =>
      var records := Prepared(rows, ids).value;
      Merge.SyncAppendsNewRecords(dest, records, Key);
      Merge.SyncCoversKeys(dest, records, Key);
      Merge.SyncInsertsAllIff(dest, records, Key);
      RunLog(s.table, Inserted(prepared))
  }

  /**
    The logged figure can overstate the inserts: with one fetched row whose key is already in
    the destination, the run appends nothing but logs one record inserted.
  */
  lemma ReportOvercounts()
    ensures var row := map["TRD_TOTAL_TRADES" := 5, "TRD_TOTAL_VOLUME" := 100,
                           "TRD_TOTAL_VALUE" := 2500, "TRD_LM_DATE_TIME" := 7];
            var dest := [Record("existing-id", 5, 100, 2500, 7)];
            Run(dest, [row], ["fresh-id"], Job.NoFault) == RunLog(dest, Inserted(1))
  {
    var row := map["TRD_TOTAL_TRADES" := 5, "TRD_TOTAL_VOLUME" := 100,
                   "TRD_TOTAL_VALUE" := 2500, "TRD_LM_DATE_TIME" := 7];
    var dest := [Record("existing-id", 5, 100, 2500, 7)];
    assert forall i :: 0 <= i < |SourceColumns| ==> SourceColumns[i] in row;
    var records := Prepared([row], ["fresh-id"]).value;
    assert MapRow(row, "fresh-id") == Ok(records[0]);
    KeyFromSource(row, "fresh-id");
    Merge.KeysMembership(dest, Key);
    assert Key(records[0]) == Key(dest[0]);
    assert !Merge.IsNew(dest, records, Key, 0);
    assert records[..0] == [];
    assert Merge.NewRecords(dest, records, Key) == [];
  }

  /**
    The run as the statistics job reports it: the logged count is the number of records the
    run actually appended, which is the number of fetched keys the destination lacked.
  */
  function RunCountingInserts<V(==)>(dest: seq<Record<V>>, rows: seq<map<string, V>>, ids: seq<string>,
                                     fault: Job.Fault)
    : (r: RunLog<V>)
    requires |ids| == |rows|
    ensures r.report.ErrorLogged? <==> Prepared(rows, ids).Err? || Job.Interrupts(fault, |rows|)
    ensures r.report.ErrorLogged? ==> r.table == dest
    ensures r.report.Inserted? ==>
              && |dest| <= |r.table|
              && r.table[..|dest|] == dest
              && r.report.count == |r.table| - |dest|
              && r.report.count == |Merge.Keys(Prepared(rows, ids).value, Key) - Merge.Keys(dest, Key)|
  {
    var s := Job.Run(dest, rows, ids, MapRow, Key, fault);
    match s.outcome
    case Failed(e) => RunLog(s.table, ErrorLogged(e))
    case Completed(_, inserted) =>
      Merge.SyncAppendsNewRecords(dest, Prepared(rows, ids).value, Key);
      Merge.SyncCountsMissingKeys(dest, Prepared(rows, ids).value, Key);
      RunLog(s.table, Inserted(inserted))
  }

  /**
    Idempotence: a second run on the same TRD rows, with fresh ids, against the table a
    completed run produced, appends nothing, yet still logs every fetched row as inserted.
  */
  lemma RunTwiceAppendsNothing<V(!new)>(dest: seq<Record<V>>, rows: seq<map<string, V>>,
                                        ids: seq<string>, ids2: seq<string>)
    requires |ids| == |rows| && |ids2| == |rows|
    ensures var first := Run(dest, rows, ids, Job.NoFault);
            !first.report.ErrorLogged? ==>
              Run(first.table, rows, ids2, Job.NoFault) == RunLog(first.table, Inserted(|rows|))
  {
    if !Run(dest, rows, ids, Job.NoFault).report.ErrorLogged? {
      MapRowIgnoresId<V>();
      Job.RunTwice(dest, rows, ids, ids2, MapRow, Key);
    }
  }

  /** No run duplicates a natural key of imds_trds that was unique before it. */
  lemma RunKeepsKeysUnique<V>(dest: seq<Record<V>>, rows: seq<map<string, V>>, ids: seq<string>,
                              fault: Job.Fault)
    requires |ids| == |rows|
    requires Merge.DistinctKeys(dest, Key)
    ensures Merge.DistinctKeys(Run(dest, rows, ids, fault).table, Key)
  {
    if !Run(dest, rows, ids, fault).report.ErrorLogged? {
      var records := Prepared(rows, ids).value;
      Merge.SyncKeepsKeysDistinct(dest, records, Key);
      Merge.SyncAppendsNewRecords(dest, records, Key);
    }
  }
}
