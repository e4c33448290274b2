/** Two promises the table does not keep, each with a run that shows it: the scan order across a
    compaction, and that an accepted append leaves a table that opens. */
module Witnesses {
  import opened Wrappers
  import opened Bytes
  import opened Batch
  import opened Segment
  import opened Rows
  import opened Storage
  import opened Sealing
  import opened Framing
  import opened TableRuns
  import opened Compaction
  import opened TableState
  import opened TableSteps
  import opened CompactSteps
  import opened OpenSteps
  import opened Crashes
  import opened Recovery
  import opened Safety
  import opened ScanOrder
  import opened Validation
  import Codec
  import Query
  import Utf8

  // ----- runs made of completed operations -----

  /** Opening an empty directory. */
  lemma EmptyOpens(f: Format, schema: Schema)
    ensures var d := NewWorld().disk;
            OpenRun(f, schema, d)
            == Opening([d.WithManifest(FreshManifest())], Ok(Memory(EmptyBatch(schema), [], FreshManifest(), 0)))
  {
  }

  /** A table just created. */
  lemma Created(f: Format, schema: Schema) returns (w: World)
    requires schema.Valid()
    ensures TableMachine(f, schema).Run([NewWorld(), w])
    ensures w.disk == NewWorld().disk.WithManifest(FreshManifest()) && w.history == []
    ensures w.memory == Some(Memory(EmptyBatch(schema), [], FreshManifest(), 0))
  {
    var machine := TableMachine(f, schema);
    EmptyOpens(f, schema);
    assert machine.Run([NewWorld()]);
    RunGoesOn(machine, [NewWorld()], Op.Open);
    w := Finished(NewWorld(), Op.Open, Perform(f, schema, NewWorld(), Op.Open));
    assert [NewWorld()] + [w] == [NewWorld(), w];
  }

  // ----- an accepted append after which the table does not open -----

  function OneLetter(b: byte): Name
    requires b < 0x80
  {
    Utf8.AsciiIsUtf8(b);
    [b]
  }

  /** A timestamp column `a` and a float column `b`. */
  function TwoColumns(): Schema {
    Schema([ColumnDef(OneLetter(0x61), Timestamp), ColumnDef(OneLetter(0x62), F64)], 0)
  }

  /** One row, its columns in the other order. */
  function Swapped(): RowBatch {
    RowBatch([
      NamedColumn(OneLetter(0x62), ColumnData(F64, [Bits(7)])),
      NamedColumn(OneLetter(0x61), ColumnData(Timestamp, [Int(1)]))], 1)
  }

  lemma TwoColumnsValid()
    ensures TwoColumns().Valid()
  {
    assert OneLetter(0x61)[0] != OneLetter(0x62)[0];
  }

  /** The swapped batch is accepted although it is not in schema order. */
  lemma SwappedIsAccepted()
    ensures Validate(TwoColumns(), Swapped()).None? && !SchemaShaped(TwoColumns(), Swapped())
  {
    var schema, rows := TwoColumns(), Swapped();
    assert OneLetter(0x61)[0] != OneLetter(0x62)[0];
    FindColumnFirst(rows.columns, 0);
    FindColumnFirst(rows.columns, 1);
    assert HasColumn(schema.columns[0], rows) && HasColumn(schema.columns[1], rows);
    ValidateIff(schema, rows);
    assert rows.columns[0].name != schema.columns[0].name;
  }

  /** A batch the log takes, its columns as long as it says. */
  predicate Small(rows: RowBatch) {
    && Codec.Fits(rows) && |Codec.Encoded(rows)| < TWO_32
    && forall c :: 0 <= c < |rows.columns| ==>
         WidthsMatch(rows.columns[c].data) && |rows.columns[c].data.values| == rows.rowCount
  }

  /** A column of one eight-byte cell under a one-letter name. */
  lemma OneCellColumn(c: NamedColumn)
    requires |c.name| == 1 && !c.data.dtype.FixedStr? && |c.data.values| == 1
    ensures Codec.ColumnFits(c) && |Codec.PutColumn(c)| == 22
  {
    assert HasKind(c.data.dtype, c.data.values[0]);
    assert c.data.values[1..] == [];
    assert |Codec.PutValue(c.data.values[0])| == 8;
    assert |Codec.PutValues(c.data.values)| == 8;
  }

  lemma SwappedIsSmall()
    ensures Small(Swapped())
  {
    var cs := Swapped().columns;
    OneCellColumn(cs[0]);
    OneCellColumn(cs[1]);
    assert cs[1..] == [cs[1]] && cs[1..][1..] == [];
    assert |Codec.PutColumns(cs[1..])| == 22;
    assert |Codec.PutColumns(cs)| == 44;
  }

  /** The directory a table just created is left with, after appending `rows`, does not open. */
  ghost predicate Unopenable(f: Format, schema: Schema, w: World, rows: RowBatch) {
    && schema.Valid() && TableMachine(f, schema).Run([NewWorld(), w]) && w.memory.Some?
    && Validate(schema, rows).None?
    && var run := AppendRun(f, schema, w.disk, w.memory.value, rows);
       && |run.states| == 1 && run.failure == Some(BatchFailure(SchemaMismatch))
       && OpenRun(f, schema, run.states[0]).result == Err(DecodeFailure(Codec.ColumnOrder))
  }

  lemma MisorderedIsUnopenable(f: Format, schema: Schema, rows: RowBatch) returns (w: World)
    requires schema.Valid() && Validate(schema, rows).None? && !SchemaShaped(schema, rows)
    requires Small(rows)
    ensures Unopenable(f, schema, w, rows)
  {
    w := Created(f, schema);
    ReachableAppendReopensIff(f, schema, [NewWorld(), w], 1, rows);
  }

  /** An accepted batch and the directory it ruins: validation takes it, its record is written, the
      append then fails, and the table does not open again. */
  lemma AppendLeavesUnopenable(f: Format) returns (w: World)
    ensures Unopenable(f, TwoColumns(), w, Swapped())
  {
    TwoColumnsValid();
    SwappedIsAccepted();
    SwappedIsSmall();
    w := MisorderedIsUnopenable(f, TwoColumns(), Swapped());
  }

  // ----- tables flushed batch by batch -----

  /** One record was written, no directory touched, and the active rows are these. */
  ghost predicate AppendedTo(d: Disk, m: Memory, rows: seq<Row>, run: Outcome) {
    && |run.states| == 1 && run.states[0].dirs == d.dirs
    && run.memory == m.(nextSeqNo := run.memory.nextSeqNo, active := run.memory.active)
    && run.memory.nextSeqNo == m.nextSeqNo + 1
    && Rectangular(run.memory.active) && RowsOf(run.memory.active) == rows
  }

  /** Appending to a table without active rows leaves it with the batch's rows. */
  lemma AppendToEmpty(reading: Reading, schema: Schema, d: Disk, m: Memory, records: seq<WalRecord>,
                      history: seq<RowBatch>, b: RowBatch)
    requires schema.Valid() && WritesAs(reading, schema)
    requires reading.DiskOk(d, records, history) && MemoryOk(schema, d, m, history) && m.active == EmptyBatch(schema)
    requires BuilderValid(schema, b) && Loggable(m, b) && |AllRows(history)| + b.rowCount < TWO_64
    ensures Rectangular(b) && AppendedTo(d, m, RowsOf(b), AppendRun(reading.format, schema, d, m, b))
  {
    ShapedIsAccepted(schema, b);
    AppendRunParts(reading.format, schema, d, m, b);
    BuilderValidIsRectangular(schema, b);
    BuilderValidIsRectangular(schema, EmptyBatch(schema));
    EmptyBatchRows(schema);
    AppendBatchRows(schema, EmptyBatch(schema), b);
    BuilderValidIsRectangular(schema, AppendBatch(m.active, b).0);
  }

  /** A run to a table with one flushed batch's rows in each segment, the ids counting from 1. */
  ghost predicate Stage(f: Format, schema: Schema, ws: seq<World>, parts: seq<seq<Row>>, total: nat) {
    && schema.Valid() && TableMachine(f, schema).Run(ws)
    && var w := ws[|ws| - 1];
       && AllRectangular(w.history) && |AllRows(w.history)| == total
       && w.memory.Some?
       && w.memory.value.active == EmptyBatch(schema)
       && w.memory.value.nextSeqNo == |parts| && w.memory.value.manifest.nextId == |parts| + 1
       && HoldParts(ReadingOf(f, schema), w.disk, w.memory.value.sealed, parts)
  }

  ghost predicate HoldParts(reading: Reading, d: Disk, sealed: seq<Handle>, parts: seq<seq<Row>>) {
    && |sealed| == |parts|
    && forall i :: 0 <= i < |sealed| ==> sealed[i].meta.id == i + 1 && reading.RowsOn(d)(sealed[i]) == parts[i]
  }

  /** A stage with one more batch, not flushed yet. */
  ghost predicate Appended(f: Format, schema: Schema, ws: seq<World>, parts: seq<seq<Row>>, total: nat,
                           rows: seq<Row>) {
    && schema.Valid() && TableMachine(f, schema).Run(ws)
    && var w := ws[|ws| - 1];
       && AllRectangular(w.history) && |AllRows(w.history)| == total
       && w.memory.Some?
       && Rectangular(w.memory.value.active) && RowsOf(w.memory.value.active) == rows
       && w.memory.value.nextSeqNo == |parts| + 1 && w.memory.value.manifest.nextId == |parts| + 1
       && HoldParts(ReadingOf(f, schema), w.disk, w.memory.value.sealed, parts)
  }

  lemma PartsStay(reading: Reading, d: Disk, e: Disk, sealed: seq<Handle>, parts: seq<seq<Row>>)
    requires HoldParts(reading, d, sealed, parts) && e.dirs == d.dirs
    ensures HoldParts(reading, e, sealed, parts)
  {
    forall i | 0 <= i < |sealed|
      ensures sealed[i].meta.id == i + 1 && reading.RowsOn(e)(sealed[i]) == parts[i]
    {
      assert FilesOf(e, sealed[i].dir) == FilesOf(d, sealed[i].dir);
    }
  }

  lemma SafeAppendToEmpty(f: Format, schema: Schema, w: World, b: RowBatch)
    requires schema.Valid() && Safe(ReadingOf(f, schema), schema, w)
    requires w.memory.Some? && w.memory.value.active == EmptyBatch(schema)
    requires BuilderValid(schema, b) && Loggable(w.memory.value, b) && |AllRows(w.history)| + b.rowCount < TWO_64
    ensures Rectangular(b)
    ensures AppendedTo(w.disk, w.memory.value, RowsOf(b), AppendRun(f, schema, w.disk, w.memory.value, b))
  {
    ReadingIsFaithful(f, schema);
    AppendToEmpty(ReadingOf(f, schema), schema, w.disk, w.memory.value, w.records, w.history, b);
  }

  lemma PerformsAppend(f: Format, schema: Schema, w: World, b: RowBatch)
    requires schema.Valid() && w.memory.Some?
    ensures TableMachine(f, schema).perform(w, Op.Append(b))
            == Outcomes(AppendRun(f, schema, w.disk, w.memory.value, b))
  {
  }

  lemma FinishedAppend(w: World, b: RowBatch, run: Outcome) returns (next: World)
    requires w.memory.Some? && Codec.Fits(b) && |run.states| == 1
    ensures next == Finished(w, Op.Append(b), Outcomes(run))
    ensures next.disk == run.states[0] && next.memory == Some(run.memory) && next.history == w.history + [b]
  {
    next := Finished(w, Op.Append(b), Outcomes(run));
  }

  /** The world behind an append to a reachable table without active rows. */
  lemma AfterAppend(f: Format, schema: Schema, ws: seq<World>, b: RowBatch) returns (next: World)
    requires schema.Valid() && TableMachine(f, schema).Run(ws) && ws[|ws| - 1].memory.Some?
    requires ws[|ws| - 1].memory.value.active == EmptyBatch(schema)
    requires BuilderValid(schema, b) && Loggable(ws[|ws| - 1].memory.value, b)
    requires AllRectangular(ws[|ws| - 1].history) && |AllRows(ws[|ws| - 1].history)| + b.rowCount < TWO_64
    ensures next == Finished(ws[|ws| - 1], Op.Append(b), TableMachine(f, schema).perform(ws[|ws| - 1], Op.Append(b)))
    ensures Rectangular(b)
    ensures var w := ws[|ws| - 1];
            var run := AppendRun(f, schema, w.disk, w.memory.value, b);
            && AppendedTo(w.disk, w.memory.value, RowsOf(b), run)
            && next.disk == run.states[0] && next.memory == Some(run.memory) && next.history == w.history + [b]
  {
    var w := ws[|ws| - 1];
    EveryWorldIsSafe(f, schema, ws, |ws| - 1);
    SafeAppendToEmpty(f, schema, w, b);
    var run := AppendRun(f, schema, w.disk, w.memory.value, b);
    PerformsAppend(f, schema, w, b);
    next := FinishedAppend(w, b, run);
  }

  lemma StageAppends(f: Format, schema: Schema, ws: seq<World>, parts: seq<seq<Row>>, total: nat, b: RowBatch)
    returns (w: World)
    requires Stage(f, schema, ws, parts, total) && BuilderValid(schema, b) && Small(b)
    requires |parts| + 2 < TWO_64 && total + b.rowCount < TWO_64
    ensures Rectangular(b) && Appended(f, schema, ws + [w], parts, total + b.rowCount, RowsOf(b))
  {
    var last := ws[|ws| - 1];
    w := AfterAppend(f, schema, ws, b);
    RunGoesOn(TableMachine(f, schema), ws, Op.Append(b));
    HistoryGrows(last.history, b);
    PartsStay(ReadingOf(f, schema), last.disk, w.disk, last.memory.value.sealed, parts);
  }

  lemma PartsGrow(reading: Reading, schema: Schema, d: Disk, m: Memory, e: Disk, after: Memory, parts: seq<seq<Row>>,
                  rows: seq<Row>)
    requires HoldParts(reading, d, m.sealed, parts) && m.manifest.nextId == |parts| + 1
    requires Flushed(reading, schema, d, m, e, after, rows)
    ensures HoldParts(reading, e, after.sealed, parts + [rows])
  {
    forall i | 0 <= i < |after.sealed|
      ensures after.sealed[i].meta.id == i + 1 && reading.RowsOn(e)(after.sealed[i]) == (parts + [rows])[i]
    {
      if i < |parts| {
        assert after.sealed[i] == m.sealed[i];
      }
    }
  }

  lemma StageFlushes(f: Format, schema: Schema, ws: seq<World>, parts: seq<seq<Row>>, total: nat, rows: seq<Row>)
    returns (w: World)
    requires Appended(f, schema, ws, parts, total, rows) && AllNamesOk(schema.columns)
    requires rows != [] && |parts| + 2 < TWO_64
    ensures Stage(f, schema, ws + [w], parts + [rows], total)
  {
    var last, reading := ws[|ws| - 1], ReadingOf(f, schema);
    var m := last.memory.value;
    EveryWorldIsSafe(f, schema, ws, |ws| - 1);
    ReadingIsFaithful(f, schema);
    FlushAdds(reading, schema, last.disk, m, last.records, last.history);
    RunGoesOn(TableMachine(f, schema), ws, Flush);
    w := Finished(last, Flush, Perform(f, schema, last, Flush));
    PartsGrow(reading, schema, last.disk, m, w.disk, w.memory.value, parts, rows);
  }

  // ----- a compaction that changes the scan order -----

  /** The rows a table in use shows, in scan order. */
  function Shown(schema: Schema, w: World): seq<Row>
    requires w.memory.Some?
  {
    RowsShown(schema, w.disk, w.memory.value)
  }

  /** Of three segments the outer two are listed first, then the one between them. */
  lemma OuterTwoFirst(reading: Reading, d: Disk, sealed: seq<Handle>, x: seq<Row>, y: seq<Row>, z: seq<Row>)
    requires HoldParts(reading, d, sealed, [x, y, z])
    ensures Concat(sealed, reading.RowsOn(d)) == x + (y + z)
    ensures Concat(SourceOrder(sealed, {1, 3}), reading.RowsOn(d)) == x + (z + y)
  {
    var a, b, c := sealed[0], sealed[1], sealed[2];
    assert sealed == [a, b, c];
    ConcatThree(a, b, c, reading.RowsOn(d));
    assert [a, b, c][1..] == [b, c] && [b, c][1..] == [c] && [c][1..] == [];
    assert Chosen([c], {1, 3}) == [c] && Kept([c], {1, 3}) == [];
    assert Chosen([b, c], {1, 3}) == [c] && Kept([b, c], {1, 3}) == [b];
    assert SourceOrder([a, b, c], {1, 3}) == [a, c, b];
    ConcatThree(a, c, b, reading.RowsOn(d));
  }

  lemma OneAndThreeListed(sealed: seq<Handle>)
    requires |sealed| == 3 && forall i :: 0 <= i < 3 ==> sealed[i].meta.id == i + 1
    ensures Requested([1, 3]) == {1, 3} && Requested([1, 3]) <= IdsOf(sealed)
  {
    assert sealed[0].meta.id in IdsOf(sealed) && sealed[2].meta.id in IdsOf(sealed);
  }

  lemma PerformsCompact(f: Format, schema: Schema, w: World, ids: seq<u64>)
    requires schema.Valid() && w.memory.Some?
    ensures TableMachine(f, schema).perform(w, Compact(ids))
            == Outcomes(CompactRun(schema, w.disk, w.memory.value, ids))
  {
  }

  /** Compacting listed segments of a safe table succeeds, unless the ids are used up. */
  lemma CompactsKnown(f: Format, schema: Schema, w: World, ids: seq<u64>)
    requires schema.Valid() && Safe(ReadingOf(f, schema), schema, w) && w.memory.Some?
    requires w.memory.value.manifest.nextId + 1 < TWO_64 && Requested(ids) <= IdsOf(w.memory.value.sealed)
    ensures var run := CompactRun(schema, w.disk, w.memory.value, ids);
            && run.failure.None?
            && Compacted(ReadingOf(f, schema), w.disk, w.memory.value, Requested(ids), Final(w.disk, run.states),
              run.memory)
  {
    ReadingIsFaithful(f, schema);
    CompactKeeps(ReadingOf(f, schema), schema, w.disk, w.memory.value, ids, w.records, w.history);
  }

  /** Compacting segments 1 and 3 of a reachable table of three segments. */
  lemma CompactsOuterTwo(f: Format, schema: Schema, ws: seq<World>, x: seq<Row>, y: seq<Row>, z: seq<Row>, total: nat)
    returns (w: World)
    requires Stage(f, schema, ws, [x, y, z], total)
    ensures TableMachine(f, schema).Run(ws + [w]) && ws[|ws| - 1].memory.Some? && w.memory.Some?
    ensures Succeeds(TableMachine(f, schema), ws[|ws| - 1], Compact([1, 3]), w)
    ensures Shown(schema, ws[|ws| - 1]) == x + (y + z) && Shown(schema, w) == x + (z + y)
  {
    var last, reading := ws[|ws| - 1], ReadingOf(f, schema);
    var m := last.memory.value;
    EveryWorldIsSafe(f, schema, ws, |ws| - 1);
    OneAndThreeListed(m.sealed);
    CompactsKnown(f, schema, last, [1, 3]);
    PerformsCompact(f, schema, last, [1, 3]);
    RunGoesOn(TableMachine(f, schema), ws, Compact([1, 3]));
    w := Finished(last, Compact([1, 3]), TableMachine(f, schema).perform(last, Compact([1, 3])));
    OuterTwoFirst(reading, last.disk, m.sealed, x, y, z);
    ShownSealed(f, schema, last.disk, m);
    ShownSealed(f, schema, w.disk, w.memory.value);
  }

  /** A batch that can be appended and flushed whole. */
  predicate Storable(schema: Schema, b: RowBatch) {
    BuilderValid(schema, b) && Small(b) && b.rowCount > 0
  }

  lemma FirstStage(f: Format, schema: Schema) returns (ws: seq<World>)
    requires schema.Valid()
    ensures Stage(f, schema, ws, [], 0) && |ws| == 2
  {
    var w := Created(f, schema);
    ws := [NewWorld(), w];
  }

  /** One batch more, appended and flushed. */
  lemma NextStage(f: Format, schema: Schema, ws: seq<World>, parts: seq<seq<Row>>, total: nat, b: RowBatch)
    returns (more: seq<World>)
    requires Stage(f, schema, ws, parts, total) && Storable(schema, b) && AllNamesOk(schema.columns)
    requires |parts| + 2 < TWO_64 && total + b.rowCount < TWO_64
    ensures Rectangular(b) && Stage(f, schema, more, parts + [RowsOf(b)], total + b.rowCount) && |more| == |ws| + 2
  {
    var w1 := StageAppends(f, schema, ws, parts, total, b);
    var w2 := StageFlushes(f, schema, ws + [w1], parts, total + b.rowCount, RowsOf(b));
    more := ws + [w1] + [w2];
  }

  /** The operation runs to its end without a failure. */
  ghost predicate Succeeds(machine: Machine, w: World, op: Op, next: World) {
    machine.perform(w, op).failure.None? && next == Finished(w, op, machine.perform(w, op))
  }

  /** A run in which three batches are appended and flushed one by one, and the outer two of their
      segments are then compacted: the rows of the last come to stand before those of the second. */
  ghost predicate OuterTwoRun(f: Format, schema: Schema, a: RowBatch, b: RowBatch, c: RowBatch, ws: seq<World>) {
    && schema.Valid() && TableMachine(f, schema).Run(ws) && |ws| == 9
    && ws[7].memory.Some? && ws[8].memory.Some?
    && Succeeds(TableMachine(f, schema), ws[7], Compact([1, 3]), ws[8])
    && Rectangular(a) && Rectangular(b) && Rectangular(c)
    && Shown(schema, ws[7]) == RowsOf(a) + (RowsOf(b) + RowsOf(c))
    && Shown(schema, ws[8]) == RowsOf(a) + (RowsOf(c) + RowsOf(b))
  }

  lemma TwoStages(f: Format, schema: Schema, a: RowBatch, b: RowBatch) returns (ws: seq<World>)
    requires schema.Valid() && AllNamesOk(schema.columns)
    requires Storable(schema, a) && Storable(schema, b) && a.rowCount + b.rowCount < TWO_64
    ensures Rectangular(a) && Rectangular(b) && |ws| == 6
    ensures Stage(f, schema, ws, [RowsOf(a), RowsOf(b)], a.rowCount + b.rowCount)
  {
    ws := FirstStage(f, schema);
    ws := NextStage(f, schema, ws, [], 0, a);
    assert [] + [RowsOf(a)] == [RowsOf(a)];
    ws := NextStage(f, schema, ws, [RowsOf(a)], a.rowCount, b);
    assert [RowsOf(a)] + [RowsOf(b)] == [RowsOf(a), RowsOf(b)];
  }

  lemma ThreeStages(f: Format, schema: Schema, a: RowBatch, b: RowBatch, c: RowBatch) returns (ws: seq<World>)
    requires schema.Valid() && AllNamesOk(schema.columns)
    requires Storable(schema, a) && Storable(schema, b) && Storable(schema, c)
    requires a.rowCount + b.rowCount + c.rowCount < TWO_64
    ensures Rectangular(a) && Rectangular(b) && Rectangular(c) && |ws| == 8
    ensures Stage(f, schema, ws, [RowsOf(a), RowsOf(b), RowsOf(c)], a.rowCount + b.rowCount + c.rowCount)
  {
    ws := TwoStages(f, schema, a, b);
    ws := NextStage(f, schema, ws, [RowsOf(a), RowsOf(b)], a.rowCount + b.rowCount, c);
    assert [RowsOf(a), RowsOf(b)] + [RowsOf(c)] == [RowsOf(a), RowsOf(b), RowsOf(c)];
  }

  /** For any three batches that can be stored there is such a run. */
  lemma OuterTwoCompacted(f: Format, schema: Schema, a: RowBatch, b: RowBatch, c: RowBatch) returns (ws: seq<World>)
    requires schema.Valid() && AllNamesOk(schema.columns)
    requires Storable(schema, a) && Storable(schema, b) && Storable(schema, c)
    requires a.rowCount + b.rowCount + c.rowCount < TWO_64
    ensures OuterTwoRun(f, schema, a, b, c, ws)
  {
    ws := ThreeStages(f, schema, a, b, c);
    var total := a.rowCount + b.rowCount + c.rowCount;
    var w := CompactsOuterTwo(f, schema, ws, RowsOf(a), RowsOf(b), RowsOf(c), total);
    ws := ws + [w];
  }

  /** It keeps the scan order exactly when the rows of the second and third batch commute. */
  lemma ScanOrderKeptIff(f: Format, schema: Schema, a: RowBatch, b: RowBatch, c: RowBatch, ws: seq<World>)
    requires OuterTwoRun(f, schema, a, b, c, ws)
    ensures Shown(schema, ws[8]) == Shown(schema, ws[7]) <==> RowsOf(c) + RowsOf(b) == RowsOf(b) + RowsOf(c)
  {
    SameTail(RowsOf(a), RowsOf(c) + RowsOf(b), RowsOf(b) + RowsOf(c));
  }

  lemma OneRowEach(f: Format, schema: Schema, a: RowBatch, b: RowBatch, c: RowBatch, ws: seq<World>, x: Row, y: Row,
                   z: Row)
    requires OuterTwoRun(f, schema, a, b, c, ws)
    requires RowsOf(a) == [x] && RowsOf(b) == [y] && RowsOf(c) == [z]
    ensures Shown(schema, ws[7]) == [x, y, z] && Shown(schema, ws[8]) == [x, z, y]
  {
  }

  /** A schema of one timestamp column. */
  function Stamps(): Schema {
    Schema([ColumnDef(OneLetter(0x74), Timestamp)], 0)
  }

  function Stamped(ts: i64): RowBatch {
    RowBatch([NamedColumn(OneLetter(0x74), ColumnData(Timestamp, [Int(ts)]))], 1)
  }

  lemma StampedIsStorable(ts: i64)
    ensures Stamps().Valid() && AllNamesOk(Stamps().columns)
    ensures Storable(Stamps(), Stamped(ts)) && Rectangular(Stamped(ts)) && RowsOf(Stamped(ts)) == [[Int(ts)]]
  {
    var cs := Stamped(ts).columns;
    OneCellColumn(cs[0]);
    assert cs[1..] == [];
    assert |Codec.PutColumns(cs)| == 22;
    assert RowAt(Stamped(ts), 0) == [Int(ts)];
  }

  /** Three rows stamped 1, 2 and 3 are scanned as 1, 3, 2 once segments 1 and 3 are compacted. */
  lemma CompactionReorders(f: Format) returns (ws: seq<World>)
    ensures OuterTwoRun(f, Stamps(), Stamped(1), Stamped(2), Stamped(3), ws)
    ensures Shown(Stamps(), ws[7]) == [[Int(1)], [Int(2)], [Int(3)]]
    ensures Shown(Stamps(), ws[8]) == [[Int(1)], [Int(3)], [Int(2)]]
  {
    StampedIsStorable(1);
    StampedIsStorable(2);
    StampedIsStorable(3);
    ws := OuterTwoCompacted(f, Stamps(), Stamped(1), Stamped(2), Stamped(3));
    OneRowEach(f, Stamps(), Stamped(1), Stamped(2), Stamped(3), ws, [Int(1)], [Int(2)], [Int(3)]);
  }
}
