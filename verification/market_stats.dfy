/**
  The market-instrument-statistics job: copies rows of the source table MKISTAT into the
  destination table imds_mk_istats. Each record gets a generated uuid and twenty columns
  copied under new names; the natural key is (mkstat_instrument_code, mkstat_lm_date_time).
  The job counts its inserts and logs either that count or that nothing new was inserted.

  Column values are of an abstract type `V` with decidable equality.
*/
module MarketStats {
  import opened Results
  import Merge
  import Job

  /** A row of imds_mk_istats. */
  datatype Record<V> = Record(
    uuid: string,
    instrumentCode: V,
    instrumentNumber: V,
    quoteBases: V,
    openPrice: V,
    pubLastTradePrice: V,
    spotLastTradePrice: V,
    highPrice: V,
    lowPrice: V,
    closePrice: V,
    ydayClosePrice: V,
    totalTrades: V,
    totalVolume: V,
    totalValue: V,
    publicTotalTrades: V,
    publicTotalVolume: V,
    publicTotalValue: V,
    spotTotalTrades: V,
    spotTotalVolume: V,
    spotTotalValue: V,
    lmDateTime: V)

  /** The MKISTAT columns a record is built from, in the order the record reads them. */
  const SourceColumns: seq<string> := [
    "MKISTAT_INSTRUMENT_CODE", "MKISTAT_INSTRUMENT_NUMBER", "MKISTAT_QUOTE_BASES",
    "MKISTAT_OPEN_PRICE", "MKISTAT_PUB_LAST_TRADED_PRICE", "MKISTAT_SPOT_LAST_TRADED_PRICE",
    "MKISTAT_HIGH_PRICE", "MKISTAT_LOW_PRICE", "MKISTAT_CLOSE_PRICE", "MKISTAT_YDAY_CLOSE_PRICE",
    "MKISTAT_TOTAL_TRADES", "MKISTAT_TOTAL_VOLUME", "MKISTAT_TOTAL_VALUE",
    "MKISTAT_PUBLIC_TOTAL_TRADES", "MKISTAT_PUBLIC_TOTAL_VOLUME", "MKISTAT_PUBLIC_TOTAL_VALUE",
    "MKISTAT_SPOT_TOTAL_TRADES", "MKISTAT_SPOT_TOTAL_VOLUME", "MKISTAT_SPOT_TOTAL_VALUE",
    "MKISTAT_LM_DATE_TIME"]

  /**
    The copied columns of a record, position by position the imds_mk_istats columns
    mkstat_instrument_code, mkstat_instrument_number, mkstat_quote_bases, mkstat_open_price,
    mkstat_pub_last_trade_price, mkstat_spot_last_trade_price, mkstat_high_price,
    mkstat_low_price, mkstat_close_price, mkstat_yday_close_price, mkstat_total_trades,
    mkstat_total_volume, mkstat_total_value, mkstat_public_total_trades,
    mkstat_public_total_volume, mkstat_public_total_value, mkstat_spot_total_trades,
    mkstat_spot_total_volume, mkstat_spot_total_value and mkstat_lm_date_time, each written
    from the source column at the same position of `SourceColumns`.
  */
  function Values<V>(rec: Record<V>): seq<V> {
    [rec.instrumentCode, rec.instrumentNumber, rec.quoteBases, rec.openPrice,
     rec.pubLastTradePrice, rec.spotLastTradePrice, rec.highPrice, rec.lowPrice,
     rec.closePrice, rec.ydayClosePrice, rec.totalTrades, rec.totalVolume, rec.totalValue,
     rec.publicTotalTrades, rec.publicTotalVolume, rec.publicTotalValue,
     rec.spotTotalTrades, rec.spotTotalVolume, rec.spotTotalValue, rec.lmDateTime]
  }

  /**
    The record with id `id` whose copied columns are `vs`, in the order of `Values`: the
    id is the one field not taken from `vs`, and `Values` gives `vs` back.
  */
  function FromValues<V>(id: string, vs: seq<V>): (rec: Record<V>)
    requires |vs| == |SourceColumns|
    ensures rec.uuid == id
    ensures Values(rec) == vs
  {
    Record(id, vs[0], vs[1], vs[2], vs[3], vs[4], vs[5], vs[6], vs[7], vs[8], vs[9],
           vs[10], vs[11], vs[12], vs[13], vs[14], vs[15], vs[16], vs[17], vs[18], vs[19])
  }

  /** A record is determined by its id and its copied columns. */
  lemma RecordRoundTrip<V>(rec: Record<V>)
    ensures |Values(rec)| == |SourceColumns|
    ensures FromValues(rec.uuid, Values(rec)) == rec
  {
  }

  /** The natural key of imds_mk_istats. */
  function Key<V>(rec: Record<V>): (V, V) {
    (rec.instrumentCode, rec.lmDateTime)
  }

  /**
    Builds the record for one MKISTAT row with the generated id `id`. It fails with the first
    source column the row lacks; otherwise every copied column equals its source column.
  */
  function MapRow<V>(row: map<string, V>, id: string): (r: Result<Record<V>, string>)
    ensures r.Ok? <==> forall i :: 0 <= i < |SourceColumns| ==> SourceColumns[i] in row
    ensures r.Err? ==> exists i :: 0 <= i < |SourceColumns| && SourceColumns[i] == r.error
                          && r.error !in row && forall j :: 0 <= j < i ==> SourceColumns[j] in row
    ensures r.Ok? ==> r.value.uuid == id
    ensures r.Ok? ==> forall i :: 0 <= i < |SourceColumns| ==> Values(r.value)[i] == row[SourceColumns[i]]
  {
    match Job.ReadColumns(row, SourceColumns)
    case Err(column) => Err(column)
    case Ok(vs) => Ok(FromValues(id, vs))
  }

  /** The key of a mapped record is read from the row's key columns; the id plays no part. */
  lemma KeyFromSource<V>(row: map<string, V>, id: string)
    ensures MapRow(row, id).Ok? ==> Key(MapRow(row, id).value) == (row["MKISTAT_INSTRUMENT_CODE"], row["MKISTAT_LM_DATE_TIME"])
  {
  }

  /** Mapping a row succeeds, and yields the same key, whatever id it is given. */
  lemma MapRowIgnoresId<V(!new)>()
    ensures Job.IgnoresId(MapRow<V>, Key<V>)
  {
  }

  /** The line the job logs at the end of a run. */
  datatype Report = Inserted(count: nat) | NoNewRecords | ErrorLogged(error: Job.RunError)

  /** The destination after a run, and the line logged about it. */
  datatype RunLog<V> = RunLog(table: seq<Record<V>>, report: Report)

  /** The records a run prepares from `rows`, when every row maps. */
  function Prepared<V>(rows: seq<map<string, V>>, ids: seq<string>): Result<seq<Record<V>>, string>
    requires |ids| == |rows|
  {
    Job.PrepareAll(rows, ids, MapRow)
  }

  /**
    One run of the job. A failed run logs its error and leaves the destination as it was. A
    completed run preserves every existing row, appends only records whose key was absent, and
    logs how many it appended, or that there were none exactly when every source key was
    already present.
  */
  function Run<V(==)>(dest: seq<Record<V>>, rows: seq<map<string, V>>, ids: seq<string>, fault: Job.Fault)
    : (r: RunLog<V>)
    requires |ids| == |rows|
    ensures r.report.ErrorLogged? <==> Prepared(rows, ids).Err? || Job.Interrupts(fault, |rows|)
    ensures r.report.ErrorLogged? ==> r.table == dest
    ensures !r.report.ErrorLogged? ==>
              && |dest| <= |r.table|
              && r.table[..|dest|] == dest
              && Merge.Keys(r.table, Key) == Merge.Keys(dest, Key) + Merge.Keys(Prepared(rows, ids).value, Key)
    ensures r.report.NoNewRecords? <==>
              !r.report.ErrorLogged? && Merge.Keys(Prepared(rows, ids).value, Key) <= Merge.Keys(dest, Key)
    ensures !r.report.ErrorLogged? ==> r.table == dest + Merge.NewRecords(dest, Prepared(rows, ids).value, Key)
    ensures r.report.NoNewRecords? ==> r.table == dest
    ensures r.report.Inserted? ==> 0 < r.report.count == |r.table| - |dest| <= |rows|
  {
    var s := Job.Run(dest, rows, ids, MapRow, Key, fault);
    match s.outcome
    case Failed(e) => RunLog(s.table, ErrorLogged(e))
    case Completed(_, inserted) =>
      var records := Prepared(rows, ids).value;
      Merge.SyncAppendsNewRecords(dest, records, Key);
      Merge.SyncCoversKeys(dest, records, Key);
      Merge.SyncNoOpIff(dest, records, Key);
      if inserted > 0 then RunLog(s.table, Inserted(inserted)) else RunLog(s.table, NoNewRecords)
  }

  /**
    Idempotence: a second run on the same MKISTAT rows, with fresh uuids, against the table a
    completed run produced, inserts nothing and logs that no new records were inserted.
  */
  lemma RunTwiceLogsNoNewRecords<V(!new)>(dest: seq<Record<V>>, rows: seq<map<string, V>>,
                                        ids: seq<string>, ids2: seq<string>)
    requires |ids| == |rows| && |ids2| == |rows|
    ensures var first := Run(dest, rows, ids, Job.NoFault);
            !first.report.ErrorLogged? ==>
              Run(first.table, rows, ids2, Job.NoFault) == RunLog(first.table, NoNewRecords)
  {
    if !Run(dest, rows, ids, Job.NoFault).report.ErrorLogged? {
      MapRowIgnoresId<V>();
      Job.RunTwice(dest, rows, ids, ids2, MapRow, Key);
    }
  }

  /** No run duplicates a natural key of imds_mk_istats that was unique before it. */
  lemma RunKeepsKeysUnique<V>(dest: seq<Record<V>>, rows: seq<map<string, V>>, ids: seq<string>,
                                  fault: Job.Fault)
    requires |ids| == |rows|
    requires Merge.DistinctKeys(dest, Key)
    ensures Merge.DistinctKeys(Run(dest, rows, ids, fault).table, Key)
  {
    if !Run(dest, rows, ids, fault).report.ErrorLogged? {
      var records := Prepared(rows, ids).value;
      Merge.SyncKeepsKeysDistinct(dest, records, Key);
      Merge.SyncAppendsNewRecords(dest, records, Key);
    }
  }
}
