/** What table validation lets through: a batch with its columns in another order is logged, and the
    table cannot be opened again. */
module Validation {
  import opened Wrappers
  import opened Bytes
  import opened Batch
  import opened Rows
  import opened Storage
  import opened Framing
  import opened TableRuns
  import opened TableState
  import opened TableSteps
  import opened OpenSteps
  import Codec

  /** A column of that name and type, wherever it stands. */
  predicate HasColumn(def: ColumnDef, rows: RowBatch) {
    var data := FindColumn(rows.columns, def.name);
    data.Some? && data.value.dtype == def.dtype
  }

  lemma {:induction false} ValidateColumnsIff(defs: seq<ColumnDef>, rows: RowBatch)
    ensures ValidateColumns(defs, rows).None? <==> forall i :: 0 <= i < |defs| ==> HasColumn(defs[i], rows)
    decreases |defs|
  {
    if defs != [] {
      ValidateColumnsIff(defs[1..], rows);
      assert forall i :: 1 <= i < |defs| ==> defs[i] == defs[1..][i - 1];
    }
  }

  /** Validation accepts exactly the batches that have as many columns as the schema and, somewhere,
      one of each name and type. */
  lemma ValidateIff(schema: Schema, rows: RowBatch)
    ensures Validate(schema, rows).None? <==>
              && |rows.columns| == |schema.columns|
              && forall i :: 0 <= i < |schema.columns| ==> HasColumn(schema.columns[i], rows)
  {
    ValidateColumnsIff(schema.columns, rows);
  }

  /** The error for a schema column that is missing or of another type. */
  predicate RefusedAs(def: ColumnDef, rows: RowBatch, failure: Option<TableError>) {
    if FindColumn(rows.columns, def.name).None? then failure == Some(MissingTableColumn(def.name))
    else failure == Some(BatchFailure(BatchError.ColumnTypeMismatch(def.name, def.dtype)))
  }

  lemma {:induction false} RefusedFrom(schema: Schema, rows: RowBatch, k: nat, from: nat)
    requires from <= k < |schema.columns| && !HasColumn(schema.columns[k], rows)
    requires forall i :: 0 <= i < k ==> HasColumn(schema.columns[i], rows)
    ensures RefusedAs(schema.columns[k], rows, ValidateColumns(schema.columns[from..], rows))
    decreases k - from
  {
    assert schema.columns[from..][0] == schema.columns[from];
    assert schema.columns[from..][1..] == schema.columns[from + 1..];
    if from < k {
      assert HasColumn(schema.columns[from], rows);
      RefusedFrom(schema, rows, k, from + 1);
    }
  }

  /** A batch of another number of columns is refused as a mismatch, any other for the first schema
      column that is missing or of another type. */
  lemma ValidateRefusal(schema: Schema, rows: RowBatch, k: nat)
    ensures |rows.columns| != |schema.columns| ==> Validate(schema, rows) == Some(BatchFailure(SchemaMismatch))
    ensures |rows.columns| == |schema.columns| && k < |schema.columns| && !HasColumn(schema.columns[k], rows)
            && (forall i :: 0 <= i < k ==> HasColumn(schema.columns[i], rows)) ==>
              RefusedAs(schema.columns[k], rows, Validate(schema, rows))
  {
    if k < |schema.columns| && !HasColumn(schema.columns[k], rows)
       && forall i :: 0 <= i < k ==> HasColumn(schema.columns[i], rows) {
      RefusedFrom(schema, rows, k, 0);
      assert schema.columns[0..] == schema.columns;
    }
  }

  predicate InPosition(schema: Schema, rows: RowBatch, i: nat)
    requires i < |rows.columns| == |schema.columns|
  {
    Codec.Matches(schema.columns[i], rows.columns[i])
  }

  lemma AllInPosition(schema: Schema, rows: RowBatch)
    requires |rows.columns| == |schema.columns|
    requires forall i :: 0 <= i < |rows.columns| ==> InPosition(schema, rows, i)
    ensures SchemaShaped(schema, rows)
  {
    forall i | 0 <= i < |rows.columns|
      ensures rows.columns[i].name == schema.columns[i].name && rows.columns[i].data.dtype == schema.columns[i].dtype
    {
      assert InPosition(schema, rows, i);
    }
  }

  /** An accepted batch out of schema order has a first column with another name than the schema's. */
  lemma {:induction false} FirstMisplaced(schema: Schema, rows: RowBatch, from: nat) returns (k: nat)
    requires schema.Valid() && Validate(schema, rows).None? && |rows.columns| == |schema.columns|
    requires !SchemaShaped(schema, rows) && from <= |rows.columns|
    requires forall i :: 0 <= i < from ==> InPosition(schema, rows, i)
    ensures k < |rows.columns| && rows.columns[k].name != schema.columns[k].name
    ensures forall i :: 0 <= i < k ==> InPosition(schema, rows, i)
    decreases |rows.columns| - from
  {
    if from == |rows.columns| {
      AllInPosition(schema, rows);
      assert false;
    } else if InPosition(schema, rows, from) {
      k := FirstMisplaced(schema, rows, from + 1);
    } else {
      k := from;
      ValidateIff(schema, rows);
      assert HasColumn(schema.columns[k], rows);
      forall j | 0 <= j < k
        ensures rows.columns[j].name == schema.columns[j].name
      {
        assert InPosition(schema, rows, j);
      }
      if rows.columns[k].name == schema.columns[k].name {
        FindColumnFirst(rows.columns, k);
      }
    }
  }

  lemma MisplacedIsUnreadable(schema: Schema, rows: RowBatch, k: nat)
    requires Codec.Fits(rows) && |rows.columns| == |schema.columns| && k < |rows.columns|
    requires forall i :: 0 <= i < k ==> InPosition(schema, rows, i)
    requires rows.columns[k].name != schema.columns[k].name
    ensures Codec.Decoded(schema, Codec.Encoded(rows)) == Err(Codec.ColumnOrder)
  {
    forall i | 0 <= i < k
      ensures Codec.Matches(schema.columns[i], rows.columns[i])
    {
      assert InPosition(schema, rows, i);
    }
    Codec.ReorderedBatchIsUnreadable(schema, rows, k);
  }

  /** Of the batches validation accepts, exactly those in schema order can be read back from the log. */
  lemma ReadableIff(schema: Schema, rows: RowBatch)
    requires schema.Valid() && Validate(schema, rows).None? && Codec.Fits(rows)
    ensures Codec.Decoded(schema, Codec.Encoded(rows)) == Ok(rows) <==> SchemaShaped(schema, rows)
    ensures Codec.Decoded(schema, Codec.Encoded(rows)) == Err(Codec.ColumnOrder) <==> !SchemaShaped(schema, rows)
  {
    if SchemaShaped(schema, rows) {
      Codec.DecodeOfEncoded(schema, rows);
    } else {
      var k := FirstMisplaced(schema, rows, 0);
      MisplacedIsUnreadable(schema, rows, k);
    }
  }

  lemma {:induction false} RecoveryStops(schema: Schema, records: seq<WalRecord>, history: seq<RowBatch>,
          bad: WalRecord, error: Codec.CodecError)
    requires AllDecode(schema, records, history) && Codec.Decoded(schema, bad.payload) == Err(error)
    ensures Recovered(schema, records + [bad]) == Err(DecodeFailure(error))
    decreases |records|
  {
    if records == [] {
      assert records + [bad] == [bad];
    } else {
      assert (records + [bad])[1..] == records[1..] + [bad];
      RecoveryStops(schema, records[1..], history[1..], bad, error);
    }
  }

  /** The log with one more record in it. */
  lemma OneMoreRecord(reading: Reading, log: seq<byte>, records: seq<WalRecord>, history: seq<RowBatch>, r: WalRecord)
    requires reading.Logged(log, records, history) && Encodable(r)
    ensures reading.format.ReadLog(log + reading.format.Encoded(r)) == Ok(records + [r])
  {
    var f, more := reading.format, records + [r];
    f.LogOfAppend(records, [r]);
    assert [r][1..] == [];
    assert f.LogOf([r]) == f.Encoded(r);
    assert (log + f.Encoded(r))[|f.LogOf(more)|..] == [];
    f.ReadLogIff(log + f.Encoded(r), more);
  }

  lemma ReplayStops(reading: Reading, schema: Schema, d: Disk, records: seq<WalRecord>, history: seq<RowBatch>,
                    r: WalRecord, error: Codec.CodecError, applied: nat)
    requires DecodesAs(reading, schema) && reading.Logged(d.log, records, history) && applied <= |records|
    requires Encodable(r) && Codec.Decoded(schema, r.payload) == Err(error)
    ensures reading.format.ReadLog(d.log + reading.format.Encoded(r)) == Ok(records + [r])
    ensures Recovered(schema, (records + [r])[applied..]) == Err(DecodeFailure(error))
  {
    OneMoreRecord(reading, d.log, records, history, r);
    HistoryDecodes(reading, schema, d.log, records, history, applied);
    assert (records + [r])[applied..] == records[applied..] + [r];
    RecoveryStops(schema, records[applied..], history[applied..], r, error);
  }

  lemma OpenStops(reading: Reading, schema: Schema, d: Disk, records: seq<WalRecord>, history: seq<RowBatch>,
                  r: WalRecord, error: Codec.CodecError)
    requires DecodesAs(reading, schema) && reading.DiskOk(d, records, history)
    requires Encodable(r) && Codec.Decoded(schema, r.payload) == Err(error)
    ensures OpenRun(reading.format, schema, d.WithLog(reading.format.Encoded(r))).result == Err(DecodeFailure(error))
  {
    var e, manifest := d.WithLog(reading.format.Encoded(r)), d.CurrentManifest();
    reading.ManifestFrame(d, e, manifest);
    SegmentsLoad(e, manifest.sealed);
    ReplayStops(reading, schema, d, records, history, r, error, manifest.applied);
  }

  lemma AppendRefuses(schema: Schema, active: RowBatch, rows: RowBatch, k: nat)
    requires BuilderValid(schema, active) && |rows.columns| == |schema.columns| && k < |rows.columns|
    requires forall i :: 0 <= i < k ==> InPosition(schema, rows, i)
    requires rows.columns[k].name != schema.columns[k].name
    ensures AppendBatch(active, rows).1 == Some(SchemaMismatch)
  {
    forall i | 0 <= i < k
      ensures SameShape(active.columns[i], rows.columns[i])
    {
      assert InPosition(schema, rows, i);
    }
    AppendStops(active.columns, rows.columns, k);
  }

  lemma ShapedAppendReopens(reading: Reading, schema: Schema, d: Disk, m: Memory, records: seq<WalRecord>,
                            history: seq<RowBatch>, rows: RowBatch)
    requires schema.Valid() && WritesAs(reading, schema) && DecodesAs(reading, schema)
    requires reading.DiskOk(d, records, history) && MemoryOk(schema, d, m, history)
    requires BuilderValid(schema, rows) && Loggable(m, rows)
    requires |AllRows(history)| + rows.rowCount < TWO_64
    ensures AppendBatch(m.active, rows).1.None?
    ensures OpenRun(reading.format, schema, d.WithLog(reading.format.Encoded(RecordOf(m, rows)))).result.Ok?
  {
    LoggedAppend(reading, schema, d, m, records, history, rows);
    BuilderValidIsRectangular(schema, rows);
    HistoryGrows(history, rows);
    var r := RecordOf(m, rows);
    OpenKeeps(reading, schema, d.WithLog(reading.format.Encoded(r)), records + [r], history + [rows]);
  }

  lemma MisplacedAppendStops(reading: Reading, schema: Schema, d: Disk, m: Memory, records: seq<WalRecord>,
                             history: seq<RowBatch>, rows: RowBatch)
    requires schema.Valid() && DecodesAs(reading, schema)
    requires reading.DiskOk(d, records, history) && BuilderValid(schema, m.active)
    requires Validate(schema, rows).None? && !SchemaShaped(schema, rows) && Loggable(m, rows)
    ensures AppendBatch(m.active, rows).1 == Some(SchemaMismatch)
    ensures OpenRun(reading.format, schema, d.WithLog(reading.format.Encoded(RecordOf(m, rows)))).result
            == Err(DecodeFailure(Codec.ColumnOrder))
  {
    ReadableIff(schema, rows);
    OpenStops(reading, schema, d, records, history, RecordOf(m, rows), Codec.ColumnOrder);
    var k := FirstMisplaced(schema, rows, 0);
    AppendRefuses(schema, m.active, rows, k);
  }

  /** An append of an accepted batch that left one state: it succeeded, and the directory opens,
      exactly for columns in schema order; otherwise these are the two errors. */
  ghost predicate AppendEnds(f: Format, schema: Schema, rows: RowBatch, run: Outcome)
    requires |run.states| == 1
  {
    if SchemaShaped(schema, rows) then
      run.failure.None? && OpenRun(f, schema, run.states[0]).result.Ok?
    else
      && run.failure == Some(BatchFailure(SchemaMismatch))
      && OpenRun(f, schema, run.states[0]).result == Err(DecodeFailure(Codec.ColumnOrder))
  }

  /** Appending an accepted batch to a good table: in schema order it leaves a table that opens; in
      any other order the record is written, the append fails, and the table does not open again. */
  lemma AcceptedAppendReopensIff(reading: Reading, schema: Schema, d: Disk, m: Memory, records: seq<WalRecord>,
                                 history: seq<RowBatch>, rows: RowBatch)
    requires schema.Valid() && WritesAs(reading, schema) && DecodesAs(reading, schema)
    requires reading.DiskOk(d, records, history) && MemoryOk(schema, d, m, history)
    requires Validate(schema, rows).None? && Loggable(m, rows)
    requires forall i :: 0 <= i < |rows.columns| ==>
               WidthsMatch(rows.columns[i].data) && |rows.columns[i].data.values| == rows.rowCount
    requires |AllRows(history)| + rows.rowCount < TWO_64
    ensures var run := AppendRun(reading.format, schema, d, m, rows);
            |run.states| == 1 && AppendEnds(reading.format, schema, rows, run)
  {
    AppendRunParts(reading.format, schema, d, m, rows);
    if SchemaShaped(schema, rows) {
      ValidateIff(schema, rows);
      ShapedAppendReopens(reading, schema, d, m, records, history, rows);
    } else {
      MisplacedAppendStops(reading, schema, d, m, records, history, rows);
    }
  }
}
