/**
  The insert-if-absent merge shared by both sync jobs, abstracted away from the database.

  The destination table is a sequence of rows; a batch of prepared records is merged into it
  one record at a time, in batch order. A record is appended only when no row already in the
  table (including rows appended earlier in the same run, which the same session sees) has the
  same natural key. The natural key is a projection `key` of a record; the surrogate id of a
  record is never part of it.
*/
module Merge {
  import opened Results

  /** The set of natural keys that occur in `rows`. */
  function Keys<R, K>(rows: seq<R>, key: R -> K): set<K>
    decreases |rows|
  {
    if |rows| == 0 then {}
    else Keys(rows[..|rows| - 1], key) + {key(rows[|rows| - 1])}
  }

  /** A key is in `Keys(rows, key)` exactly when some row carries it. */
  lemma {:induction false} KeysMembership<R, K>(rows: seq<R>, key: R -> K)
    ensures forall i :: 0 <= i < |rows| ==> key(rows[i]) in Keys(rows, key)
    ensures forall k :: k in Keys(rows, key) ==> exists i :: 0 <= i < |rows| && key(rows[i]) == k
    decreases |rows|
  {
    if |rows| > 0 {
      var n := |rows| - 1;
      var prefix := rows[..n];
      KeysMembership(prefix, key);
      assert forall i :: 0 <= i < n ==> prefix[i] == rows[i];
    }
  }

  /** No two rows of `rows` share a natural key. */
  ghost predicate DistinctKeys<R, K>(rows: seq<R>, key: R -> K) {
    forall i, j :: 0 <= i < j < |rows| ==> key(rows[i]) != key(rows[j])
  }

  /**
    The existence check: a row of `rows` whose natural key is `k`, or None when there is none
    (the point query filtered on the key fields, returning its first hit).
  */
  function FindExisting<R, K(==)>(rows: seq<R>, key: R -> K, k: K): (r: Option<R>)
    ensures r.Some? ==> r.value in rows && key(r.value) == k
    ensures r.None? <==> k !in Keys(rows, key)
    decreases |rows|
  {
    if |rows| == 0 then None
    else if key(rows[0]) == k then
      KeysMembership(rows, key);
      Some(rows[0])
    else
      var r := FindExisting(rows[1..], key, k);
      KeysMembership(rows, key);
      KeysMembership(rows[1..], key);
      assert forall i :: 1 <= i < |rows| ==> rows[i] == rows[1..][i - 1];
      r
  }

  /** The destination after a run, and how many records the run inserted. */
  datatype Outcome<R> = Outcome(table: seq<R>, inserted: nat)

  /**
    Merges `records`, in order, into `dest`: each record is checked against the table as it
    stands after the earlier records of the batch, and appended when the check finds nothing.
  */
  function Sync<R, K(==)>(dest: seq<R>, records: seq<R>, key: R -> K): (r: Outcome<R>)
    ensures |r.table| == |dest| + r.inserted
    ensures r.inserted <= |records|
    ensures r.table[..|dest|] == dest
    decreases |records|
  {
    if |records| == 0 then Outcome(dest, 0)
    else
      var prior := Sync(dest, records[..|records| - 1], key);
      var rec := records[|records| - 1];
      if FindExisting(prior.table, key, key(rec)).None? then
        Outcome(prior.table + [rec], prior.inserted + 1)
      else prior
  }

  /**
    Record `i` of a batch is new when its key is in neither the destination nor an earlier
    record of the same batch.
  */
  predicate IsNew<R, K(==)>(dest: seq<R>, records: seq<R>, key: R -> K, i: nat)
    requires i < |records|
  {
    key(records[i]) !in Keys(dest, key) && key(records[i]) !in Keys(records[..i], key)
  }

  /** Reference definition of what a run inserts: the new records of the batch, in batch order. */
  function NewRecords<R, K(==)>(dest: seq<R>, records: seq<R>, key: R -> K): seq<R>
    decreases |records|
  {
    if |records| == 0 then []
    else
      var n := |records| - 1;
      NewRecords(dest, records[..n], key) + (if IsNew(dest, records, key, n) then [records[n]] else [])
  }

  /** The keys of a concatenation are the keys of its parts. */
  lemma {:induction false} KeysConcat<R, K>(a: seq<R>, b: seq<R>, key: R -> K)
    ensures Keys(a + b, key) == Keys(a, key) + Keys(b, key)
    decreases |b|
  {
    if |b| == 0 {
      assert a + b == a;
    } else {
      var n := |b| - 1;
      assert (a + b)[..|a + b| - 1] == a + b[..n];
      assert (a + b)[|a + b| - 1] == b[n];
      KeysConcat(a, b[..n], key);
    }
  }

  /** A table's keys are distinct exactly when its prefix's are and its last key is not among them. */
  lemma DistinctKeysLast<R, K>(rows: seq<R>, key: R -> K)
    requires |rows| > 0
    ensures DistinctKeys(rows, key) <==>
              DistinctKeys(rows[..|rows| - 1], key) && key(rows[|rows| - 1]) !in Keys(rows[..|rows| - 1], key)
  {
    var n := |rows| - 1;
    var prefix := rows[..n];
    KeysMembership(prefix, key);
    assert forall i :: 0 <= i < n ==> prefix[i] == rows[i];
    if key(rows[n]) in Keys(prefix, key) {
      var i :| 0 <= i < n && key(prefix[i]) == key(rows[n]);
      assert key(rows[i]) == key(rows[n]);
      assert !DistinctKeys(rows, key);
    }
    if DistinctKeys(prefix, key) && key(rows[n]) !in Keys(prefix, key) {
      forall i, j | 0 <= i < j < |rows|
        ensures key(rows[i]) != key(rows[j])
      {
        assert key(prefix[i]) in Keys(prefix, key);
      }
    }
  }

  /** A table has at most as many keys as rows, and exactly as many when its keys are distinct. */
  lemma {:induction false} KeysCardinality<R, K>(rows: seq<R>, key: R -> K)
    ensures |Keys(rows, key)| <= |rows|
    ensures |Keys(rows, key)| == |rows| <==> DistinctKeys(rows, key)
    decreases |rows|
  {
    if |rows| > 0 {
      var prefix := rows[..|rows| - 1];
      KeysCardinality(prefix, key);
      DistinctKeysLast(rows, key);
      assert Keys(rows, key) == Keys(prefix, key) + {key(rows[|rows| - 1])};
    }
  }

  /** Appending a row whose key is new keeps the keys of a table distinct. */
  lemma DistinctKeysAppend<R, K>(rows: seq<R>, x: R, key: R -> K)
    requires DistinctKeys(rows, key)
    requires key(x) !in Keys(rows, key)
    ensures DistinctKeys(rows + [x], key)
  {
    KeysMembership(rows, key);
    var t := rows + [x];
    forall i, j | 0 <= i < j < |t|
      ensures key(t[i]) != key(t[j])
    {
      assert t[i] == rows[i];
      if j < |rows| {
        assert t[j] == rows[j];
      }
    }
  }

  /** The new records of a batch carry exactly the batch keys that the destination lacks. */
  lemma {:induction false} NewRecordsKeys<R, K>(dest: seq<R>, records: seq<R>, key: R -> K)
    ensures Keys(NewRecords(dest, records, key), key) == Keys(records, key) - Keys(dest, key)
    decreases |records|
  {
    if |records| > 0 {
      var n := |records| - 1;
      var prefix := records[..n];
      var prior := NewRecords(dest, prefix, key);
      NewRecordsKeys(dest, prefix, key);
      if IsNew(dest, records, key, n) {
        KeysConcat(prior, [records[n]], key);
        assert [records[n]][..0] == [];
      } else {
        assert prior + [] == prior;
      }
    }
  }

  /** No two new records of a batch share a key, and none has a key the destination holds. */
  lemma {:induction false} NewRecordsDistinct<R, K>(dest: seq<R>, records: seq<R>, key: R -> K)
    ensures DistinctKeys(NewRecords(dest, records, key), key)
    ensures Keys(NewRecords(dest, records, key), key) !! Keys(dest, key)
    decreases |records|
  {
    NewRecordsKeys(dest, records, key);
    if |records| > 0 {
      var n := |records| - 1;
      var prefix := records[..n];
      var prior := NewRecords(dest, prefix, key);
      NewRecordsDistinct(dest, prefix, key);
      NewRecordsKeys(dest, prefix, key);
      if IsNew(dest, records, key, n) {
        DistinctKeysAppend(prior, records[n], key);
      } else {
        assert prior + [] == prior;
      }
    }
  }

  /** Every new record is a record of the batch, and there are at most as many as the batch holds. */
  lemma {:induction false} NewRecordsFromBatch<R, K>(dest: seq<R>, records: seq<R>, key: R -> K)
    ensures |NewRecords(dest, records, key)| <= |records|
    ensures forall x :: x in NewRecords(dest, records, key) ==> x in records
    decreases |records|
  {
    if |records| > 0 {
      var n := |records| - 1;
      var prefix := records[..n];
      NewRecordsFromBatch(dest, prefix, key);
      assert forall x :: x in prefix ==> x in records;
    }
  }

  /**
    The existence check for the last record of a batch, made against the destination plus the
    new records before it, finds nothing exactly when that record is new.
  */
  lemma CheckFindsNothingIffNew<R, K>(dest: seq<R>, records: seq<R>, key: R -> K)
    requires |records| > 0
    ensures var n := |records| - 1;
            (FindExisting(dest + NewRecords(dest, records[..n], key), key, key(records[n])).None?
             <==> IsNew(dest, records, key, n))
  {
    var n := |records| - 1;
    NewRecordsKeys(dest, records[..n], key);
    KeysConcat(dest, NewRecords(dest, records[..n], key), key);
  }

  /** One step of the merge: if it appends the new records of a batch's prefix, it does so for the batch. */
  lemma SyncStep<R, K>(dest: seq<R>, records: seq<R>, key: R -> K)
    requires |records| > 0
    requires Sync(dest, records[..|records| - 1], key).table == dest + NewRecords(dest, records[..|records| - 1], key)
    requires Sync(dest, records[..|records| - 1], key).inserted == |NewRecords(dest, records[..|records| - 1], key)|
    ensures Sync(dest, records, key).table == dest + NewRecords(dest, records, key)
    ensures Sync(dest, records, key).inserted == |NewRecords(dest, records, key)|
  {
    var n := |records| - 1;
    var rec := records[n];
    var before := NewRecords(dest, records[..n], key);
    CheckFindsNothingIffNew(dest, records, key);
    if IsNew(dest, records, key, n) {
      assert NewRecords(dest, records, key) == before + [rec];
      assert dest + before + [rec] == dest + (before + [rec]);
    } else {
      assert NewRecords(dest, records, key) == before + [];
      assert before + [] == before;
    }
  }

  /** The merge appends to the destination exactly the new records of the batch, and counts them. */
  lemma {:induction false} SyncAppendsNewRecords<R, K>(dest: seq<R>, records: seq<R>, key: R -> K)
    ensures Sync(dest, records, key).table == dest + NewRecords(dest, records, key)
    ensures Sync(dest, records, key).inserted == |NewRecords(dest, records, key)|
    decreases |records|
  {
    if |records| > 0 {
      SyncAppendsNewRecords(dest, records[..|records| - 1], key);
      SyncStep(dest, records, key);
    }
  }

  /** After a run every key of the batch is in the destination, and no other key was added. */
  lemma {:induction false} SyncCoversKeys<R, K>(dest: seq<R>, records: seq<R>, key: R -> K)
    ensures Keys(Sync(dest, records, key).table, key) == Keys(dest, key) + Keys(records, key)
  {
    SyncAppendsNewRecords(dest, records, key);
    NewRecordsKeys(dest, records, key);
    KeysConcat(dest, NewRecords(dest, records, key), key);
  }

  /** A run never duplicates a key: a table with distinct keys keeps them distinct. */
  lemma {:induction false} SyncKeepsKeysDistinct<R, K>(dest: seq<R>, records: seq<R>, key: R -> K)
    requires DistinctKeys(dest, key)
    ensures DistinctKeys(Sync(dest, records, key).table, key)
  {
    SyncAppendsNewRecords(dest, records, key);
    NewRecordsDistinct(dest, records, key);
    var ns := NewRecords(dest, records, key);
    KeysMembership(dest, key);
    KeysMembership(ns, key);
    var t := dest + ns;
    forall i, j | 0 <= i < j < |t|
      ensures key(t[i]) != key(t[j])
    {
      if j >= |dest| {
        assert t[j] == ns[j - |dest|];
        if i >= |dest| {
          assert t[i] == ns[i - |dest|];
        } else {
          assert key(t[i]) in Keys(dest, key);
          assert key(t[j]) in Keys(ns, key);
        }
      }
    }
  }

  /** The number inserted is the number of batch keys the destination lacked. */
  lemma {:induction false} SyncCountsMissingKeys<R, K>(dest: seq<R>, records: seq<R>, key: R -> K)
    ensures Sync(dest, records, key).inserted == |Keys(records, key) - Keys(dest, key)|
  {
    SyncAppendsNewRecords(dest, records, key);
    NewRecordsKeys(dest, records, key);
    NewRecordsDistinct(dest, records, key);
    KeysCardinality(NewRecords(dest, records, key), key);
  }

  /**
    Every record of a batch is inserted exactly when the batch keys are distinct and none of
    them is in the destination yet.
  */
  lemma {:induction false} SyncInsertsAllIff<R, K>(dest: seq<R>, records: seq<R>, key: R -> K)
    ensures Sync(dest, records, key).inserted == |records|
        <==> DistinctKeys(records, key) && Keys(records, key) !! Keys(dest, key)
  {
    SyncCountsMissingKeys(dest, records, key);
    KeysCardinality(records, key);
    var ks := Keys(records, key);
    var ds := Keys(dest, key);
    assert |ks - ds| == |ks| - |ks * ds|;
    if ks !! ds {
      assert ks * ds == {};
    } else {
      var k :| k in ks && k in ds;
      assert k in ks * ds;
    }
  }

  /** A run inserts nothing, and leaves the table as it was, exactly when every batch key is present. */
  lemma {:induction false} SyncNoOpIff<R, K>(dest: seq<R>, records: seq<R>, key: R -> K)
    ensures Sync(dest, records, key).inserted == 0 <==> Keys(records, key) <= Keys(dest, key)
    ensures Sync(dest, records, key).inserted == 0 ==> Sync(dest, records, key).table == dest
  {
    SyncCountsMissingKeys(dest, records, key);
    var ks := Keys(records, key);
    var ds := Keys(dest, key);
    if !(ks <= ds) {
      var k :| k in ks && k !in ds;
      assert k in ks - ds;
    }
  }

  /** Idempotence: merging the same batch into a run's result inserts nothing and changes nothing. */
  lemma {:induction false} SyncIdempotent<R, K>(dest: seq<R>, records: seq<R>, key: R -> K)
    ensures Sync(Sync(dest, records, key).table, records, key) == Outcome(Sync(dest, records, key).table, 0)
  {
    var t := Sync(dest, records, key).table;
    SyncCoversKeys(dest, records, key);
    SyncNoOpIff(t, records, key);
  }

  /**
    Duplicates within one batch collapse: of two records that share a key, at most one is
    inserted, because the second check already sees the first insert.
  */
  lemma InBatchDuplicatesCollapse<R, K>(dest: seq<R>, x: R, y: R, key: R -> K)
    requires key(x) == key(y)
    ensures Sync(dest, [x, y], key).inserted <= 1
    ensures Sync(dest, [x, y], key).inserted == 1 <==> key(x) !in Keys(dest, key)
  {
    SyncCountsMissingKeys(dest, [x, y], key);
    var k := key(x);
    assert [x, y][..1] == [x];
    assert [x][..0] == [];
    assert Keys([x], key) == {k};
    assert Keys([x, y], key) == {k};
    if k in Keys(dest, key) {
      assert {k} - Keys(dest, key) == {};
    } else {
      assert {k} - Keys(dest, key) == {k};
    }
  }

  /** Two batches whose records carry the same keys, position by position, have the same key set. */
  lemma {:induction false} KeysPointwise<R, K>(a: seq<R>, b: seq<R>, key: R -> K)
    requires |a| == |b|
    requires forall i :: 0 <= i < |a| ==> key(a[i]) == key(b[i])
    ensures Keys(a, key) == Keys(b, key)
    decreases |a|
  {
    if |a| > 0 {
      var n := |a| - 1;
      assert forall i :: 0 <= i < n ==> a[..n][i] == a[i] && b[..n][i] == b[i];
      KeysPointwise(a[..n], b[..n], key);
    }
  }

  /**
    The session loop: for each record in batch order, run the existence check against the table
    as it stands and insert the record when nothing was found, counting the inserts.
  */
  method SyncLoop<R, K(==)>(dest: seq<R>, records: seq<R>, key: R -> K) returns (table: seq<R>, inserted: nat)
    ensures table == dest + NewRecords(dest, records, key)
    ensures inserted == |NewRecords(dest, records, key)|
    ensures inserted <= |records|
  {
    table := dest;
    inserted := 0;
    for i := 0 to |records|
      invariant Outcome(table, inserted) == Sync(dest, records[..i], key)
    {
      assert records[..i + 1][..i] == records[..i];
      if FindExisting(table, key, key(records[i])).None? {
        table := table + [records[i]];
        inserted := inserted + 1;
      }
    }
    assert records[..|records|] == records;
    SyncAppendsNewRecords(dest, records, key);
  }
}
