/** The main results about whole runs: what every reachable table directory stands for, what
    reopening it gives, and what is never lost. */
module Safety {
  import opened Wrappers
  import opened Bytes
  import opened Batch
  import opened Segment
  import opened Rows
  import opened Storage
  import opened Framing
  import opened TableRuns
  import opened Compaction
  import opened TableState
  import opened TableSteps
  import opened CompactSteps
  import opened OpenSteps
  import opened Crashes
  import opened Recovery
  import opened Validation
  import Codec
  import Query
  import Scan
  import Simd
  import Table
  import Wal

  // ----- how a schema's directories and records are read -----

  ghost function SoundDirs(schema: Schema): Dir -> bool {
    (dir: Dir) => dir.meta.Some? && Sound(schema, dir.meta.value, dir.files)
  }

  function DirRows(schema: Schema): Dir -> seq<Row> {
    (dir: Dir) => if dir.meta.Some? then Query.SegmentRows(schema, Query.OpenSegment(dir.meta.value, dir.files)) else []
  }

  predicate Written(schema: Schema, r: WalRecord, b: RowBatch) {
    BuilderValid(schema, b) && Codec.Fits(b) && r.payload == Codec.Encoded(b)
  }

  function WrittenFor(schema: Schema): (WalRecord, RowBatch) -> bool {
    (r: WalRecord, b: RowBatch) => Written(schema, r, b)
  }

  ghost function ReadingOf(f: Format, schema: Schema): Reading {
    Reading(f, SoundDirs(schema), DirRows(schema), WrittenFor(schema))
  }

  lemma SealedDirReads(f: Format, schema: Schema, id: u64, b: RowBatch, dir: Dir)
    requires schema.Valid() && Intact(schema, id, b, dir) && b.rowCount > 0
    ensures Rectangular(b) && ReadingOf(f, schema).sound(dir) && ReadingOf(f, schema).rows(dir) == RowsOf(b)
  {
    IntactReadsBack(schema, id, b, dir);
    BuilderValidIsRectangular(schema, b);
    assert Dir(dir.files, Some(dir.meta.value)) == dir;
  }

  lemma SoundDirReads(f: Format, schema: Schema, dir: Dir)
    requires schema.Valid() && ReadingOf(f, schema).sound(dir)
    ensures exists b: RowBatch :: Reads(ReadingOf(f, schema), schema, dir, b)
  {
    var b := Query.SoundRows(schema, Query.OpenSegment(dir.meta.value, dir.files));
    assert forall i :: 0 <= i < |schema.columns| ==> FileNameOk(schema.columns[i].name);
    assert Reads(ReadingOf(f, schema), schema, dir, b);
  }

  lemma ReadingIsFaithful(f: Format, schema: Schema)
    requires schema.Valid()
    ensures Faithful(ReadingOf(f, schema), schema)
  {
    var reading := ReadingOf(f, schema);
    forall r: WalRecord, b: RowBatch | reading.wrote(r, b)
      ensures BuilderValid(schema, b) && Codec.Decoded(schema, r.payload) == Ok(b)
    {
      assert Written(schema, r, b);
      Codec.DecodeOfEncoded(schema, b);
    }
    forall id: u64, b: RowBatch, dir: Dir | Intact(schema, id, b, dir) && b.rowCount > 0
      ensures Rectangular(b) && reading.sound(dir) && reading.rows(dir) == RowsOf(b)
    {
      SealedDirReads(f, schema, id, b, dir);
    }
    forall dir: Dir | reading.sound(dir)
      ensures exists b: RowBatch :: Reads(reading, schema, dir, b)
    {
      SoundDirReads(f, schema, dir);
    }
  }

  // ----- whole runs -----

  lemma NewWorldIsSafe(f: Format, schema: Schema)
    requires schema.Valid()
    ensures Safe(ReadingOf(f, schema), schema, NewWorld())
  {
    var reading, d := ReadingOf(f, schema), NewWorld().disk;
    assert reading.format.LogOf([]) == [];
    assert HandlesOf(d, []) == [];
    assert reading.ListedRows(d, []) == [];
  }

  /** Every reachable world is safe. */
  lemma EveryWorldIsSafe(f: Format, schema: Schema, ws: seq<World>, i: nat)
    requires schema.Valid() && TableMachine(f, schema).Run(ws) && i < |ws|
    ensures Safe(ReadingOf(f, schema), schema, ws[i])
  {
    ReadingIsFaithful(f, schema);
    NewWorldIsSafe(f, schema);
    TableWorks(ReadingOf(f, schema), schema);
    WorldSafe(ReadingOf(f, schema), TableMachine(f, schema), ws, i);
  }

  /** In every run, what was in the log at the last good flush is never lost again, whatever crashes
      follow: later histories keep it as their prefix. */
  lemma FlushedIsNeverLost(f: Format, schema: Schema, ws: seq<World>, i: nat, j: nat)
    requires schema.Valid() && TableMachine(f, schema).Run(ws) && i <= j < |ws|
    ensures ws[i].durable <= ws[j].durable && ws[i].durable <= |ws[j].history| && ws[i].durable <= |ws[i].history|
    ensures ws[j].history[..ws[i].durable] == ws[i].history[..ws[i].durable]
  {
    ReadingIsFaithful(f, schema);
    NewWorldIsSafe(f, schema);
    TableWorks(ReadingOf(f, schema), schema);
    RunKeepsDurable(ReadingOf(f, schema), TableMachine(f, schema), ws);
    WorldsKeepDurable(ws, i, j);
  }

  /** On any reachable table an accepted batch that the log takes is appended, and the table opens
      again, exactly when its columns are in schema order; in any other order the record is written,
      the append fails, and the table does not open. */
  lemma ReachableAppendReopensIff(f: Format, schema: Schema, ws: seq<World>, i: nat, rows: RowBatch)
    requires schema.Valid() && TableMachine(f, schema).Run(ws) && i < |ws| && ws[i].memory.Some?
    requires Validate(schema, rows).None? && Loggable(ws[i].memory.value, rows)
    requires forall c :: 0 <= c < |rows.columns| ==>
               WidthsMatch(rows.columns[c].data) && |rows.columns[c].data.values| == rows.rowCount
    requires AllRectangular(ws[i].history) && |AllRows(ws[i].history)| + rows.rowCount < TWO_64
    ensures var run := AppendRun(f, schema, ws[i].disk, ws[i].memory.value, rows);
            |run.states| == 1 && AppendEnds(f, schema, rows, run)
  {
    var reading, w := ReadingOf(f, schema), ws[i];
    EveryWorldIsSafe(f, schema, ws, i);
    ReadingIsFaithful(f, schema);
    AcceptedAppendReopensIff(reading, schema, w.disk, w.memory.value, w.records, w.history, rows);
  }

  // ----- what a table shows -----

  lemma {:induction false} OpenRows(f: Format, schema: Schema, d: Disk, hs: seq<Handle>)
    requires schema.Valid()
    ensures Query.SealedRows(schema, OpenAll(d, hs)) == Concat(hs, ReadingOf(f, schema).RowsOn(d))
    decreases |hs|
  {
    if hs != [] {
      OpenRows(f, schema, d, hs[1..]);
      assert OpenAll(d, hs)[1..] == OpenAll(d, hs[1..]);
    }
  }

  lemma OpenAllSound(f: Format, schema: Schema, d: Disk, hs: seq<Handle>)
    requires schema.Valid() && AllHandlesOk(ReadingOf(f, schema), d, hs)
    ensures Query.AllSound(schema, OpenAll(d, hs))
  {
    forall i | 0 <= i < |hs|
      ensures Sound(schema, hs[i].meta, FilesOf(d, hs[i].dir))
    {
      assert HandleOk(ReadingOf(f, schema), d, hs[i]);
      assert ReadingOf(f, schema).sound(d.dirs[hs[i].dir]);
    }
  }

  /** A table that agrees with its history shows exactly the rows of the history, each once, and its
      snapshot is one the query theorems apply to. */
  lemma TableShowsHistory(f: Format, schema: Schema, d: Disk, m: Memory, records: seq<WalRecord>,
                          history: seq<RowBatch>)
    requires schema.Valid()
    requires ReadingOf(f, schema).DiskOk(d, records, history) && MemoryOk(schema, d, m, history)
    ensures SnapshotOf(schema, d, m).Valid() && AllRectangular(history)
    ensures multiset(SnapshotOf(schema, d, m).LogicalRows()) == multiset(AllRows(history))
  {
    var reading := ReadingOf(f, schema);
    ListedHandles(reading, d, m);
    OpenAllSound(f, schema, d, m.sealed);
    OpenRows(f, schema, d, m.sealed);
    HistoryParts(history, m.manifest.applied);
  }

  /** Reopening any reachable directory succeeds, and the table then shows exactly the rows of the
      surviving appended batches, each once: no interleaving of operations and crashes loses or
      duplicates a row. */
  lemma ReopeningRecovers(f: Format, schema: Schema, ws: seq<World>, i: nat)
    requires schema.Valid() && TableMachine(f, schema).Run(ws) && i < |ws|
    ensures AllRectangular(ws[i].history)
    ensures var opening := OpenRun(f, schema, ws[i].disk);
            && opening.result.Ok?
            && SnapshotOf(schema, Final(ws[i].disk, opening.states), opening.result.value).Valid()
            && multiset(SnapshotOf(schema, Final(ws[i].disk, opening.states), opening.result.value).LogicalRows())
               == multiset(AllRows(ws[i].history))
  {
    var reading, w := ReadingOf(f, schema), ws[i];
    EveryWorldIsSafe(f, schema, ws, i);
    ReadingIsFaithful(f, schema);
    OpenKeeps(reading, schema, w.disk, w.records, w.history);
    var opening := OpenRun(f, schema, w.disk);
    assert opening.states != [];
    TableShowsHistory(f, schema, Final(w.disk, opening.states), opening.result.value, w.records, w.history);
  }

  /** A table in use shows exactly the rows of its history, no more than a machine word counts. */
  lemma LiveTableShowsHistory(f: Format, schema: Schema, ws: seq<World>, i: nat)
    requires schema.Valid() && TableMachine(f, schema).Run(ws) && i < |ws| && ws[i].memory.Some?
    ensures AllRectangular(ws[i].history) && SnapshotOf(schema, ws[i].disk, ws[i].memory.value).Valid()
    ensures multiset(SnapshotOf(schema, ws[i].disk, ws[i].memory.value).LogicalRows())
            == multiset(AllRows(ws[i].history))
    ensures |SnapshotOf(schema, ws[i].disk, ws[i].memory.value).LogicalRows()| < TWO_64
  {
    EveryWorldIsSafe(f, schema, ws, i);
    TableShowsHistory(f, schema, ws[i].disk, ws[i].memory.value, ws[i].records, ws[i].history);
    SameBagSameSize(SnapshotOf(schema, ws[i].disk, ws[i].memory.value).LogicalRows(), AllRows(ws[i].history));
  }

  lemma SameBagSameSize<T>(a: seq<T>, b: seq<T>)
    requires multiset(a) == multiset(b)
    ensures |a| == |b|
  {
    assert |multiset(a)| == |multiset(b)|;
  }

  /** A table of a run: its fields are the memory and its volume the disk of a reachable world. */
  ghost predicate InUse(table: Table.Table, ws: seq<World>, i: nat)
    reads table, table.active, table.wal, table.volume
  {
    && table.Valid() && TableMachine(Wal.Log(), table.schema).Run(ws) && i < |ws|
    && ws[i].disk == table.volume.disk && ws[i].memory == Some(table.Memory())
  }

  /** Any time range on any table in use is answered, with exactly the rows in range. */
  method ScanInUse(table: Table.Table, start: i64, end: i64, avx: bool, ghost ws: seq<World>, ghost i: nat)
    returns (res: Result<Scan.ScanData, Query.QueryError>)
    requires InUse(table, ws, i)
    ensures AllRectangular(ws[i].history)
    ensures var rows := SnapshotOf(table.schema, table.volume.disk, table.Memory()).LogicalRows();
            && multiset(rows) == multiset(AllRows(ws[i].history))
            && res.Ok?
            && Query.Represents(table.schema, res.value, FilterRows(rows, Query.InRangeRow(table.schema, start, end)))
  {
    LiveTableShowsHistory(Wal.Log(), table.schema, ws, i);
    ghost var snapshot := SnapshotOf(table.schema, table.volume.disk, table.Memory());
    FilterKeepsNoMore(snapshot.LogicalRows(), Query.InRangeRow(table.schema, start, end));
    res := table.ScanTimeRange(start, end, avx);
  }

  /** Any query on any table in use is answered, with exactly the rows in range that pass, or is refused
      for naming no column. */
  method QueryInUse(table: Table.Table, start: i64, end: i64, p: Scan.Predicate, avx: bool, ghost ws: seq<World>,
                    ghost i: nat)
    returns (res: Result<Scan.ScanData, Query.QueryError>)
    requires InUse(table, ws, i) && p.Exact()
    ensures AllRectangular(ws[i].history)
    ensures var rows := SnapshotOf(table.schema, table.volume.disk, table.Memory()).LogicalRows();
            && multiset(rows) == multiset(AllRows(ws[i].history))
            && (match Query.PositionOf(table.schema.columns, p.column)
                case None => res == Err(Query.ScanFailure(Simd.UnknownColumn(p.column)))
                case Some(pc) =>
                  && res.Ok?
                  && Query.Represents(table.schema, res.value,
                       FilterRows(rows, Query.WhereRow(table.schema, start, end, pc, p.test))))
  {
    LiveTableShowsHistory(Wal.Log(), table.schema, ws, i);
    ghost var snapshot := SnapshotOf(table.schema, table.volume.disk, table.Memory());
    FilterKeepsNoMore(snapshot.LogicalRows(), Query.InRangeRow(table.schema, start, end));
    res := table.ScanWhere(start, end, p, avx);
  }

  /** What a query on a table in use returns for the column it names: the rows of the table that `keep`
      says, given the column's position. */
  ghost predicate Answers(table: Table.Table, column: Name, keep: nat -> (Row -> bool),
                          res: Result<Scan.ScanData, Query.QueryError>)
    reads table, table.active, table.wal, table.volume
  {
    var rows := SnapshotOf(table.schema, table.volume.disk, table.Memory()).LogicalRows();
    match Query.PositionOf(table.schema.columns, column)
    case None => res == Err(Query.ScanFailure(Simd.UnknownColumn(column)))
    case Some(pc) => res.Ok? && Query.Represents(table.schema, res.value, FilterRows(rows, keep(pc)))
  }

  /** A range query: float cells, and integer cells after the cast, from min up to but without max. */
  method RangeInUse(table: Table.Table, start: i64, end: i64, column: Name, min: u64, max: u64, asFloat: i64 -> u64,
                    avx: bool, ghost ws: seq<World>, ghost i: nat)
    returns (res: Result<Scan.ScanData, Query.QueryError>)
    requires InUse(table, ws, i)
    ensures Answers(table, column, pc => Query.BetweenRow(table.schema, start, end, pc, min, max, asFloat), res)
  {
    var p := Scan.RangePredicate(column, min, max, asFloat);
    res := QueryInUse(table, start, end, p, avx, ws, i);
    ghost var rows := SnapshotOf(table.schema, table.volume.disk, table.Memory()).LogicalRows();
    ghost var pc := Query.PositionOf(table.schema.columns, column);
    if pc.Some? {
      Query.RangeRows(table.schema, rows, start, end, pc.value, column, min, max, asFloat);
    }
  }

  /** A greater-than query: float cells, and integer cells after the cast, above the threshold. */
  method GtInUse(table: Table.Table, start: i64, end: i64, column: Name, threshold: u64, asFloat: i64 -> u64,
                 avx: bool, ghost ws: seq<World>, ghost i: nat)
    returns (res: Result<Scan.ScanData, Query.QueryError>)
    requires InUse(table, ws, i)
    ensures Answers(table, column, pc => Query.AboveRow(table.schema, start, end, pc, threshold, asFloat), res)
  {
    var p := Scan.GtPredicate(column, threshold, asFloat);
    res := QueryInUse(table, start, end, p, avx, ws, i);
    ghost var rows := SnapshotOf(table.schema, table.volume.disk, table.Memory()).LogicalRows();
    ghost var pc := Query.PositionOf(table.schema.columns, column);
    if pc.Some? {
      Query.GtRows(table.schema, rows, start, end, pc.value, column, threshold, asFloat);
    }
  }

  /** A scalar query: cells that are exactly this byte string. */
  method ScalarInUse(table: Table.Table, start: i64, end: i64, column: Name, value: seq<byte>,
                     avx: bool, ghost ws: seq<World>, ghost i: nat)
    returns (res: Result<Scan.ScanData, Query.QueryError>)
    requires InUse(table, ws, i)
    ensures Answers(table, column, pc => Query.StringRow(table.schema, start, end, pc, value), res)
  {
    var p := Scan.ScalarPredicate(column, value);
    res := QueryInUse(table, start, end, p, avx, ws, i);
    ghost var rows := SnapshotOf(table.schema, table.volume.disk, table.Memory()).LogicalRows();
    ghost var pc := Query.PositionOf(table.schema.columns, column);
    if pc.Some? {
      Query.ScalarRows(table.schema, rows, start, end, pc.value, column, value);
    }
  }

  /** In every reachable directory the manifest lists only distinct ids below the next one, each with
      an intact directory of a non-empty batch, whose row count and time bounds it gives. */
  lemma ManifestIsIntact(f: Format, schema: Schema, ws: seq<World>, i: nat)
    requires schema.Valid() && TableMachine(f, schema).Run(ws) && i < |ws|
    ensures var d, m := ws[i].disk, ws[i].disk.CurrentManifest();
            && DistinctRefs(m.sealed)
            && forall k :: 0 <= k < |m.sealed| ==>
                 && m.sealed[k].id < m.nextId
                 && m.sealed[k].id in d.dirs
                 && exists b: RowBatch :: SealedAs(schema, d, m.sealed[k], b)
  {
    var reading, d, m := ReadingOf(f, schema), ws[i].disk, ws[i].disk.CurrentManifest();
    EveryWorldIsSafe(f, schema, ws, i);
    forall k | 0 <= k < |m.sealed|
      ensures m.sealed[k].id in d.dirs
      ensures exists b: RowBatch :: SealedAs(schema, d, m.sealed[k], b)
    {
      var dir := d.dirs[m.sealed[k].id];
      assert reading.InPlace(d, m.sealed[k].id) && reading.sound(dir);
      var b := Query.SoundRows(schema, Query.OpenSegment(dir.meta.value, dir.files));
      assert Dir(dir.files, Some(dir.meta.value)) == dir;
      assert SealedAs(schema, d, m.sealed[k], b);
    }
  }

  /** The entry's directory holds this non-empty batch in full, and the entry gives its row count, its
      smallest timestamp and its largest. */
  ghost predicate SealedAs(schema: Schema, d: Disk, ref: SegmentRef, b: RowBatch) {
    && ref.id in d.dirs && Intact(schema, ref.id, b, d.dirs[ref.id])
    && b.rowCount > 0 && ref.rowCount == b.rowCount
    && var ts := BatchTimestamps(schema, b);
       && ref.minTs.Some? && ref.minTs.value in ts && (forall i :: 0 <= i < |ts| ==> ref.minTs.value <= ts[i])
       && ref.maxTs.Some? && ref.maxTs.value in ts && (forall i :: 0 <= i < |ts| ==> ts[i] <= ref.maxTs.value)
  }

  /** In every reachable directory the log reads as exactly the surviving history, and the manifest
      never claims more records than are in it. */
  lemma AppliedNeverExceedsLog(f: Format, schema: Schema, ws: seq<World>, i: nat)
    requires schema.Valid() && TableMachine(f, schema).Run(ws) && i < |ws|
    ensures f.ReadLog(ws[i].disk.log) == Ok(ws[i].records) && |ws[i].records| == |ws[i].history|
    ensures forall k :: 0 <= k < |ws[i].records| ==>
              Codec.Decoded(schema, ws[i].records[k].payload) == Ok(ws[i].history[k])
    ensures ws[i].disk.CurrentManifest().applied <= |ws[i].records|
  {
    var reading, w := ReadingOf(f, schema), ws[i];
    EveryWorldIsSafe(f, schema, ws, i);
    ReadingIsFaithful(f, schema);
    reading.LoggedReads(w.disk.log, w.records, w.history);
    HistoryDecodes(reading, schema, w.disk.log, w.records, w.history, 0);
    assert w.records[0..] == w.records && w.history[0..] == w.history;
  }
}
