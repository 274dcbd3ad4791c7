/**
  One run of a sync job, generic in the source row type, the destination record type and the
  natural key: fetch every source row, map each to a destination record, merge the records into
  the destination inside one session, then commit once.

  Failures the environment can cause (an unreachable store, a failing statement, a refused
  commit) are an input `Fault`; a row lacking a column the mapping reads fails the run, as the
  row's column lookup in the mapping raises KeyError. Every failure is caught at the job boundary, and since
  nothing is committed before the single final commit, a failed run leaves the destination as
  it was.
*/
module Job {
  import opened Results
  import Merge

  /** Where the environment makes a run fail, if anywhere. */
  datatype Fault =
    | NoFault
      /** A store cannot be reached, the source query fails, or the destination table cannot be reflected. */
    | Unreachable
      /** The existence check or the insert for prepared record number `at` raises. */
    | StatementFails(at: nat)
      /** The final commit is refused; with an empty batch there is nothing to refuse. */
    | CommitRejected

  /** The error a failed run logs. */
  datatype RunError =
    | ConnectionError
    | MissingColumn(column: string)
    | StatementError(at: nat)
    | CommitError

  /** What a run reports: how many records it prepared and inserted, or the error that ended it. */
  datatype RunOutcome = Completed(prepared: nat, inserted: nat) | Failed(error: RunError)

  /** The destination table after a run, and the run's outcome. */
  datatype Summary<R> = Summary(table: seq<R>, outcome: RunOutcome)

  /**
    Reads `columns` from `row`, in order, as the lookups of a record literal do: the values
    when the row has every column, otherwise the first column it lacks.
  */
  function ReadColumns<V>(row: map<string, V>, columns: seq<string>): (r: Result<seq<V>, string>)
    ensures r.Ok? <==> forall i :: 0 <= i < |columns| ==> columns[i] in row
    ensures r.Ok? ==> |r.value| == |columns|
    ensures r.Ok? ==> forall i :: 0 <= i < |columns| ==> r.value[i] == row[columns[i]]
    ensures r.Err? ==> exists i :: 0 <= i < |columns| && columns[i] == r.error && r.error !in row
                          && forall j :: 0 <= j < i ==> columns[j] in row
    decreases |columns|
  {
    if |columns| == 0 then Ok([])
    else if columns[0] !in row then Err(columns[0])
    else
      var rest := ReadColumns(row, columns[1..]);
      assert forall i :: 1 <= i < |columns| ==> columns[1..][i - 1] == columns[i];
      if rest.Err? then rest
      else Ok([row[columns[0]]] + rest.value)
  }

  /**
    The record-construction loop: maps every fetched row, in order, with the id generated for
    it. The first row whose mapping fails ends preparation with that row's error.
  */
  function PrepareAll<Row, R>(rows: seq<Row>, ids: seq<string>, mapRow: (Row, string) -> Result<R, string>)
    : (r: Result<seq<R>, string>)
    requires |ids| == |rows|
    ensures r.Ok? <==> forall i :: 0 <= i < |rows| ==> mapRow(rows[i], ids[i]).Ok?
    ensures r.Ok? ==> |r.value| == |rows|
    ensures r.Ok? ==> forall i :: 0 <= i < |rows| ==> mapRow(rows[i], ids[i]) == Ok(r.value[i])
    ensures r.Err? ==> exists i :: 0 <= i < |rows| && mapRow(rows[i], ids[i]) == Err(r.error)
                          && forall j :: 0 <= j < i ==> mapRow(rows[j], ids[j]).Ok?
    decreases |rows|
  {
    if |rows| == 0 then Ok([])
    else
      var first := mapRow(rows[0], ids[0]);
      if first.Err? then Err(first.error)
      else
        var rest := PrepareAll(rows[1..], ids[1..], mapRow);
        assert forall i :: 1 <= i < |rows| ==> rows[i] == rows[1..][i - 1] && ids[i] == ids[1..][i - 1];
        if rest.Err? then Err(rest.error)
        else Ok([first.value] + rest.value)
  }

  /**
    The fault stops a run whose batch has `n` prepared records before its commit takes effect.
    An empty batch executes no statement, so there is no transaction for the commit to refuse.
  */
  predicate Interrupts(fault: Fault, n: nat) {
    fault.Unreachable? || (fault.CommitRejected? && n > 0) || (fault.StatementFails? && fault.at < n)
  }

  /**
    One run: fetch (`rows`), prepare, check-and-insert inside one session, commit. The run
    completes exactly when every row maps and no fault interrupts it; it then appends the new
    records of the batch. Otherwise the destination is left as it was.
  */
  function Run<Row, R, K(==)>(dest: seq<R>, rows: seq<Row>, ids: seq<string>,
                              mapRow: (Row, string) -> Result<R, string>, key: R -> K, fault: Fault)
    : (s: Summary<R>)
    requires |ids| == |rows|
    ensures s.outcome.Completed? <==> PrepareAll(rows, ids, mapRow).Ok? && !Interrupts(fault, |rows|)
    ensures s.outcome.Failed? ==> s.table == dest
    ensures fault.Unreachable? ==> s.outcome == Failed(ConnectionError)
    ensures !fault.Unreachable? && PrepareAll(rows, ids, mapRow).Err? ==>
              s.outcome == Failed(MissingColumn(PrepareAll(rows, ids, mapRow).error))
    ensures s.outcome.Completed? ==>
              var records := PrepareAll(rows, ids, mapRow).value;
              && s.outcome.prepared == |rows|
              && s.table == dest + Merge.NewRecords(dest, records, key)
              && s.outcome.inserted == |Merge.NewRecords(dest, records, key)|
  {
    if fault.Unreachable? then Summary(dest, Failed(ConnectionError))
    else
      var prepared := PrepareAll(rows, ids, mapRow);
      if prepared.Err? then Summary(dest, Failed(MissingColumn(prepared.error)))
      else
        var records := prepared.value;
        if fault.StatementFails? && fault.at < |records| then
          // the records before `at` were staged in the session, which closes without a commit
          Summary(dest, Failed(StatementError(fault.at)))
        else
          var staged := Merge.Sync(dest, records, key);
          Merge.SyncAppendsNewRecords(dest, records, key);
          if fault.CommitRejected? && |records| > 0 then Summary(dest, Failed(CommitError))
          else Summary(staged.table, Completed(|records|, staged.inserted))
  }

  /** The mapping's success and the key of its record do not depend on the generated id. */
  ghost predicate IgnoresId<Row(!new), R, K>(mapRow: (Row, string) -> Result<R, string>, key: R -> K) {
    forall row, a, b ::
      && mapRow(row, a).Ok? == mapRow(row, b).Ok?
      && (mapRow(row, a).Ok? ==> key(mapRow(row, a).value) == key(mapRow(row, b).value))
  }

  /**
    Idempotence of a run: re-running on the same source rows, with freshly generated ids,
    against the destination a completed run left behind inserts nothing and changes nothing.
  */
  lemma RunTwice<Row(!new), R, K>(dest: seq<R>, rows: seq<Row>, ids: seq<string>, ids2: seq<string>,
                                mapRow: (Row, string) -> Result<R, string>, key: R -> K)
    requires |ids| == |rows| && |ids2| == |rows|
    requires IgnoresId(mapRow, key)
    requires Run(dest, rows, ids, mapRow, key, NoFault).outcome.Completed?
    ensures var first := Run(dest, rows, ids, mapRow, key, NoFault).table;
            Run(first, rows, ids2, mapRow, key, NoFault) == Summary(first, Completed(|rows|, 0))
  {
    var records := PrepareAll(rows, ids, mapRow).value;
    var first := Run(dest, rows, ids, mapRow, key, NoFault).table;
    assert PrepareAll(rows, ids2, mapRow).Ok?;
    var records2 := PrepareAll(rows, ids2, mapRow).value;
    forall i | 0 <= i < |rows|
      ensures key(records[i]) == key(records2[i])
    {
      assert mapRow(rows[i], ids[i]) == Ok(records[i]);
      assert mapRow(rows[i], ids2[i]) == Ok(records2[i]);
    }
    Merge.KeysPointwise(records, records2, key);
    Merge.SyncAppendsNewRecords(dest, records, key);
    Merge.SyncCoversKeys(dest, records, key);
    Merge.SyncNoOpIff(first, records2, key);
    Merge.SyncAppendsNewRecords(first, records2, key);
  }
}
