/** What every operation does to the rows a table shows, in scan order, and to the numbers it keeps. */
module ScanOrder {
  import opened Wrappers
  import opened Bytes
  import opened Batch
  import opened Segment
  import opened Rows
  import opened Storage
  import opened Sealing
  import opened Framing
  import opened TableRuns
  import opened Compaction
  import opened TableState
  import opened TableSteps
  import opened CompactSteps
  import opened OpenSteps
  import opened Crashes
  import opened Recovery
  import opened Safety
  import Codec
  import Query
  import Table
  import Wal

  /** The rows a table shows, in scan order. */
  function RowsShown(schema: Schema, d: Disk, m: Memory): seq<Row> {
    SnapshotOf(schema, d, m).LogicalRows()
  }

  /** They are the segments' rows, in the order of the list, and then the active rows. */
  lemma ShownIs(f: Format, schema: Schema, d: Disk, m: Memory)
    requires schema.Valid() && Rectangular(m.active)
    ensures RowsShown(schema, d, m) == Concat(m.sealed, ReadingOf(f, schema).RowsOn(d)) + RowsOf(m.active)
  {
    OpenRows(f, schema, d, m.sealed);
  }

  /** Without active rows they are the segments' rows. */
  lemma ShownSealed(f: Format, schema: Schema, d: Disk, m: Memory)
    requires schema.Valid() && m.active == EmptyBatch(schema)
    ensures RowsShown(schema, d, m) == Concat(m.sealed, ReadingOf(f, schema).RowsOn(d))
  {
    EmptyBatchRows(schema);
    ShownIs(f, schema, d, m);
    assert Concat(m.sealed, ReadingOf(f, schema).RowsOn(d)) + [] == Concat(m.sealed, ReadingOf(f, schema).RowsOn(d));
  }

  // ----- flush -----

  /** What a flush of rows leaves: one more segment with them, and the others as they were. */
  ghost predicate Flushed(reading: Reading, schema: Schema, d: Disk, m: Memory, e: Disk, after: Memory,
                          rows: seq<Row>) {
    && after.active == EmptyBatch(schema) && after.nextSeqNo == m.nextSeqNo
    && after.manifest.nextId == m.manifest.nextId + 1
    && (exists h: Handle ::
          after.sealed == m.sealed + [h] && h.meta.id == m.manifest.nextId && reading.RowsOn(e)(h) == rows)
    && SameRowsOn(reading, d, e, m.sealed)
  }

  ghost predicate SameRowsOn(reading: Reading, d: Disk, e: Disk, hs: seq<Handle>) {
    forall i :: 0 <= i < |hs| ==> reading.RowsOn(e)(hs[i]) == reading.RowsOn(d)(hs[i])
  }

  lemma SameDirsSameFlush(reading: Reading, schema: Schema, c: Disk, d: Disk, m: Memory, e: Disk, after: Memory,
                          rows: seq<Row>)
    requires c.dirs == d.dirs && Flushed(reading, schema, d, m, e, after, rows)
    ensures Flushed(reading, schema, c, m, e, after, rows)
  {
    forall i | 0 <= i < |m.sealed|
      ensures reading.RowsOn(e)(m.sealed[i]) == reading.RowsOn(c)(m.sealed[i])
    {
      assert FilesOf(c, m.sealed[i].dir) == FilesOf(d, m.sealed[i].dir);
    }
  }

  lemma RowsStay(reading: Reading, d: Disk, e: Disk, m: Memory)
    requires SealedAgree(d, m) && reading.ManifestOk(d, m.manifest)
    requires OnlyDir(d, e.(manifest := d.manifest, log := d.log, synced := d.synced), m.manifest.nextId)
    ensures SameRowsOn(reading, d, e, m.sealed)
  {
    ListedHandles(reading, d, m);
    forall i | 0 <= i < |m.sealed|
      ensures reading.RowsOn(e)(m.sealed[i]) == reading.RowsOn(d)(m.sealed[i])
    {
      assert HandleOk(reading, d, m.sealed[i]);
      assert FilesOf(e, m.sealed[i].dir) == FilesOf(d, m.sealed[i].dir);
    }
  }

  /** The part of a flush behind the sync. */
  lemma SealAdds(reading: Reading, schema: Schema, d: Disk, m: Memory, records: seq<WalRecord>, history: seq<RowBatch>)
    requires schema.Valid() && SealsAs(reading, schema) && AllNamesOk(schema.columns)
    requires reading.DiskOk(d, records, history) && MemoryOk(schema, d, m, history)
    requires m.active.rowCount > 0 && m.manifest.nextId + 1 < TWO_64
    ensures var run := SealActive(reading.format, schema, d, m);
            Flushed(reading, schema, d, m, Final(d, run.states), run.memory, RowsOf(m.active))
  {
    var seal := SealRun(d, schema, m.manifest.nextId, m.active);
    SealKeeps(reading, schema, d, m, m.active, records, history);
    SealedActiveHolds(reading, schema, d, m);
    ListSealedParts(reading.format, schema, d, m, seal, records);
    var e, last := Final(d, seal.states), ListSealed(reading.format, schema, d, m, seal);
    RowsStay(reading, d, Final(d, last.states), m);
    NewHandleRows(reading, e, Final(d, last.states), seal.result.value, RowsOf(m.active));
    assert last.memory.sealed == m.sealed + [Handle(m.manifest.nextId, seal.result.value)];
  }

  lemma NewHandleRows(reading: Reading, e: Disk, last: Disk, meta: SegmentMeta, rows: seq<Row>)
    requires last.dirs == e.dirs && meta.id in e.dirs && e.dirs[meta.id].meta == Some(meta)
    requires reading.rows(e.dirs[meta.id]) == rows
    ensures reading.RowsOn(last)(Handle(meta.id, meta)) == rows
  {
    assert Dir(FilesOf(last, meta.id), Some(meta)) == e.dirs[meta.id];
  }

  lemma FlushAdds(reading: Reading, schema: Schema, d: Disk, m: Memory, records: seq<WalRecord>, history: seq<RowBatch>)
    requires schema.Valid() && SealsAs(reading, schema) && AllNamesOk(schema.columns)
    requires reading.DiskOk(d, records, history) && MemoryOk(schema, d, m, history)
    requires m.active.rowCount > 0 && m.manifest.nextId + 1 < TWO_64
    ensures var run := FlushRun(reading.format, schema, d, m);
            Flushed(reading, schema, d, m, Final(d, run.states), run.memory, RowsOf(m.active))
  {
    SyncKeeps(reading, schema, d, m, records, history);
    FlushRunParts(reading.format, schema, d, m);
    assert reading.DiskOk([d.Synced()][0], records, history);
    SealAdds(reading, schema, d.Synced(), m, records, history);
    var rest := SealActive(reading.format, schema, d.Synced(), m);
    SameDirsSameFlush(reading, schema, d, d.Synced(), m, Final(d.Synced(), rest.states), rest.memory, RowsOf(m.active));
  }

  /** The first column name that cannot be a file name, as the error of its sealing. */
  ghost predicate FirstBadName(schema: Schema, failure: Option<TableError>) {
    exists k :: 0 <= k < |schema.columns|
      && !FileNameOk(schema.columns[k].name)
      && (forall i :: 0 <= i < k ==> FileNameOk(schema.columns[i].name))
      && failure == Some(SegmentFailure(BadFileName(schema.columns[k].name)))
  }

  /** How a flush ends: only synced when there are no active rows; with the old memory when a column name
      cannot be a file name or the ids are used up; and otherwise with the active rows in one more
      segment behind the others and the whole log applied. */
  ghost predicate FlushEnds(reading: Reading, schema: Schema, d: Disk, m: Memory, records: seq<WalRecord>,
                            run: Outcome) {
    if m.active.rowCount == 0 then
      run == Outcome([d.(synced := |d.log|)], m, None)
    else if !AllNamesOk(schema.columns) then
      run.memory == m && FirstBadName(schema, run.failure)
    else if m.manifest.nextId + 1 >= TWO_64 then
      run.memory == m && run.failure == Some(SegmentIdOverflow)
    else
      && run.failure.None? && run.memory.manifest.applied == |records|
      && Rectangular(m.active)
      && Flushed(reading, schema, d, m, Final(d, run.states), run.memory, RowsOf(m.active))
  }

  lemma {:induction false} FirstBad(defs: seq<ColumnDef>) returns (k: nat)
    ensures k <= |defs| && forall i :: 0 <= i < k ==> FileNameOk(defs[i].name)
    ensures k < |defs| ==> !FileNameOk(defs[k].name)
  {
    if defs == [] || !FileNameOk(defs[0].name) {
      k := 0;
    } else {
      var rest := FirstBad(defs[1..]);
      k := rest + 1;
    }
  }

  lemma FlushFails(f: Format, schema: Schema, d: Disk, m: Memory)
    requires schema.Valid() && BuilderValid(schema, m.active) && m.active.rowCount > 0
    requires !AllNamesOk(schema.columns) || m.manifest.nextId + 1 >= TWO_64
    ensures var run := FlushRun(f, schema, d, m);
            && run.memory == m
            && OnlyDir(d.Synced(), Final(d, run.states), m.manifest.nextId)
            && if !AllNamesOk(schema.columns) then FirstBadName(schema, run.failure)
               else run.failure == Some(SegmentIdOverflow)
  {
    var id, s := m.manifest.nextId, d.Synced();
    var k := FirstBad(schema.columns);
    SealSteps(s, schema, id, m.active, k);
    SealTouchesOneDir(s, schema, id, m.active);
    FlushRunParts(f, schema, d, m);
    assert AllNamesOk(schema.columns) <==> k == |schema.columns|;
    assert SealActive(f, schema, s, m).states == SealRun(s, schema, id, m.active).states;
  }

  lemma FlushEndsSo(reading: Reading, schema: Schema, d: Disk, m: Memory, records: seq<WalRecord>,
                    history: seq<RowBatch>)
    requires schema.Valid() && SealsAs(reading, schema)
    requires reading.DiskOk(d, records, history) && MemoryOk(schema, d, m, history)
    ensures FlushEnds(reading, schema, d, m, records, FlushRun(reading.format, schema, d, m))
  {
    if m.active.rowCount == 0 {
    } else if !AllNamesOk(schema.columns) || m.manifest.nextId + 1 >= TWO_64 {
      FlushFails(reading.format, schema, d, m);
    } else {
      FlushAdds(reading, schema, d, m, records, history);
      FlushApplies(reading, schema, d, m, records, history);
    }
  }

  lemma FlushApplies(reading: Reading, schema: Schema, d: Disk, m: Memory, records: seq<WalRecord>,
                     history: seq<RowBatch>)
    requires schema.Valid() && SealsAs(reading, schema) && AllNamesOk(schema.columns)
    requires reading.DiskOk(d, records, history) && MemoryOk(schema, d, m, history)
    requires m.active.rowCount > 0 && m.manifest.nextId + 1 < TWO_64
    ensures var run := FlushRun(reading.format, schema, d, m);
            run.failure.None? && run.memory.manifest.applied == |records|
  {
    var s := d.Synced();
    SyncKeeps(reading, schema, d, m, records, history);
    assert reading.DiskOk([s][0], records, history);
    FlushRunParts(reading.format, schema, d, m);
    SealKeeps(reading, schema, s, m, m.active, records, history);
    SealedActiveHolds(reading, schema, s, m);
    ListSealedParts(reading.format, schema, s, m, SealRun(s, schema, m.manifest.nextId, m.active), records);
  }

  lemma SameSealedRows(reading: Reading, d: Disk, e: Disk, hs: seq<Handle>)
    requires SameRowsOn(reading, d, e, hs)
    ensures Concat(hs, reading.RowsOn(e)) == Concat(hs, reading.RowsOn(d))
  {
    ConcatSame(hs, reading.RowsOn(e), reading.RowsOn(d));
  }

  lemma FlushedRows(reading: Reading, schema: Schema, d: Disk, m: Memory, e: Disk, after: Memory, rows: seq<Row>)
    requires Flushed(reading, schema, d, m, e, after, rows)
    ensures Concat(after.sealed, reading.RowsOn(e)) == Concat(m.sealed, reading.RowsOn(d)) + rows
  {
    var h: Handle :| after.sealed == m.sealed + [h] && h.meta.id == m.manifest.nextId && reading.RowsOn(e)(h) == rows;
    SameSealedRows(reading, d, e, m.sealed);
    ConcatAppend(m.sealed, [h], reading.RowsOn(e));
    ConcatOne(h, reading.RowsOn(e));
  }

  /** The rows of the sealed segments and then the active rows, as a reading of the disk gives them. */
  ghost function ShownBy(reading: Reading, d: Disk, m: Memory): seq<Row>
    requires Rectangular(m.active)
  {
    Concat(m.sealed, reading.RowsOn(d)) + RowsOf(m.active)
  }

  lemma SealedStay(reading: Reading, d: Disk, e: Disk, m: Memory)
    requires SealedAgree(d, m) && reading.ManifestOk(d, m.manifest)
    requires OnlyDir(d, e.(manifest := d.manifest, log := d.log, synced := d.synced), m.manifest.nextId)
    ensures Concat(m.sealed, reading.RowsOn(e)) == Concat(m.sealed, reading.RowsOn(d))
  {
    RowsStay(reading, d, e, m);
    SameSealedRows(reading, d, e, m.sealed);
  }

  lemma FailedFlushShows(reading: Reading, schema: Schema, d: Disk, m: Memory, records: seq<WalRecord>,
                         history: seq<RowBatch>)
    requires schema.Valid() && reading.DiskOk(d, records, history) && MemoryOk(schema, d, m, history)
    requires m.active.rowCount == 0 || !AllNamesOk(schema.columns) || m.manifest.nextId + 1 >= TWO_64
    ensures var run := FlushRun(reading.format, schema, d, m);
            && run.memory == m
            && Concat(m.sealed, reading.RowsOn(Final(d, run.states))) == Concat(m.sealed, reading.RowsOn(d))
  {
    if m.active.rowCount > 0 {
      FlushFails(reading.format, schema, d, m);
    }
    SealedStay(reading, d, Final(d, FlushRun(reading.format, schema, d, m).states), m);
  }

  lemma FlushShows(reading: Reading, schema: Schema, d: Disk, m: Memory, records: seq<WalRecord>,
                   history: seq<RowBatch>)
    requires schema.Valid() && SealsAs(reading, schema)
    requires reading.DiskOk(d, records, history) && MemoryOk(schema, d, m, history)
    ensures var run := FlushRun(reading.format, schema, d, m);
            && Rectangular(m.active) && Rectangular(run.memory.active)
            && ShownBy(reading, Final(d, run.states), run.memory) == ShownBy(reading, d, m)
  {
    if m.active.rowCount == 0 || !AllNamesOk(schema.columns) || m.manifest.nextId + 1 >= TWO_64 {
      FailedFlushShows(reading, schema, d, m, records, history);
    } else {
      var run := FlushRun(reading.format, schema, d, m);
      FlushAdds(reading, schema, d, m, records, history);
      FlushedShows(reading, schema, d, m, Final(d, run.states), run.memory);
    }
  }

  lemma FlushedShows(reading: Reading, schema: Schema, d: Disk, m: Memory, e: Disk, after: Memory)
    requires schema.Valid() && Rectangular(m.active)
    requires Flushed(reading, schema, d, m, e, after, RowsOf(m.active))
    ensures Rectangular(after.active) && ShownBy(reading, e, after) == ShownBy(reading, d, m)
  {
    EmptyBatchRows(schema);
    FlushedRows(reading, schema, d, m, e, after, RowsOf(m.active));
    assert ShownBy(reading, d, m) + [] == ShownBy(reading, d, m);
  }

  lemma FlushShowsTheSame(f: Format, schema: Schema, d: Disk, m: Memory, records: seq<WalRecord>,
                          history: seq<RowBatch>)
    requires schema.Valid() && ReadingOf(f, schema).DiskOk(d, records, history) && MemoryOk(schema, d, m, history)
    ensures var run := FlushRun(f, schema, d, m);
            RowsShown(schema, Final(d, run.states), run.memory) == RowsShown(schema, d, m)
  {
    var run := FlushRun(f, schema, d, m);
    ReadingIsFaithful(f, schema);
    FlushShows(ReadingOf(f, schema), schema, d, m, records, history);
    ShownIs(f, schema, d, m);
    ShownIs(f, schema, Final(d, run.states), run.memory);
  }

  /** On any table in use a flush ends as it should, and never changes the rows shown or their order. */
  lemma FlushOfReachable(f: Format, schema: Schema, ws: seq<World>, i: nat)
    requires schema.Valid() && TableMachine(f, schema).Run(ws) && i < |ws| && ws[i].memory.Some?
    ensures var w, m := ws[i], ws[i].memory.value;
            var run := FlushRun(f, schema, w.disk, m);
            && FlushEnds(ReadingOf(f, schema), schema, w.disk, m, w.records, run)
            && RowsShown(schema, Final(w.disk, run.states), run.memory) == RowsShown(schema, w.disk, m)
  {
    var w := ws[i];
    EveryWorldIsSafe(f, schema, ws, i);
    ReadingIsFaithful(f, schema);
    FlushEndsSo(ReadingOf(f, schema), schema, w.disk, w.memory.value, w.records, w.history);
    FlushShowsTheSame(f, schema, w.disk, w.memory.value, w.records, w.history);
  }

  // ----- append -----

  /** How an append of a builder-valid batch ends. When a string is too long, the sequence numbers are
      used up or the record would be too large, the disk and the active rows stay, and only in the last
      case a number is lost; otherwise the log reads as one record more, under the next number. */
  ghost predicate AppendEnded(f: Format, d: Disk, m: Memory, records: seq<WalRecord>, b: RowBatch, run: Outcome) {
    var tooLong := Codec.TooLong(b);
    if tooLong.Some? then
      run == Outcome([], m, Some(BatchTooLarge(tooLong.value)))
    else if m.nextSeqNo + 1 >= TWO_64 then
      run == Outcome([], m, Some(WalFailure(SequenceOverflow)))
    else
      var payload := Codec.Encoded(b);
      var counted := m.(nextSeqNo := m.nextSeqNo + 1);
      if |payload| >= TWO_32 then
        run == Outcome([], counted, Some(WalFailure(PayloadTooLarge(|payload|))))
      else
        && run.failure.None? && |run.states| == 1
        && run.memory == counted.(active := run.memory.active)
        && run.states[0] == d.(log := run.states[0].log)
        && f.ReadLog(run.states[0].log) == Ok(records + [WalRecord(m.nextSeqNo, payload)])
  }

  lemma AppendEndsSo(reading: Reading, schema: Schema, d: Disk, m: Memory, records: seq<WalRecord>,
                     history: seq<RowBatch>, b: RowBatch)
    requires schema.Valid() && WritesAs(reading, schema)
    requires reading.DiskOk(d, records, history) && MemoryOk(schema, d, m, history)
    requires BuilderValid(schema, b) && |AllRows(history)| + b.rowCount < TWO_64
    ensures AppendEnded(reading.format, d, m, records, b, AppendRun(reading.format, schema, d, m, b))
  {
    ShapedIsAccepted(schema, b);
    if Loggable(m, b) {
      AppendRunParts(reading.format, schema, d, m, b);
      LoggedAppend(reading, schema, d, m, records, history, b);
      reading.LoggedReads(d.log + reading.format.Encoded(RecordOf(m, b)), records + [RecordOf(m, b)], history + [b]);
    }
  }

  lemma AppendShows(reading: Reading, schema: Schema, d: Disk, m: Memory, records: seq<WalRecord>,
                    history: seq<RowBatch>, b: RowBatch)
    requires schema.Valid() && WritesAs(reading, schema)
    requires reading.DiskOk(d, records, history) && MemoryOk(schema, d, m, history)
    requires BuilderValid(schema, b) && |AllRows(history)| + b.rowCount < TWO_64
    ensures var run := AppendRun(reading.format, schema, d, m, b);
            && Rectangular(b) && Rectangular(m.active) && Rectangular(run.memory.active)
            && ShownBy(reading, Final(d, run.states), run.memory)
               == ShownBy(reading, d, m) + if run.failure.None? then RowsOf(b) else []
  {
    var run := AppendRun(reading.format, schema, d, m, b);
    var e := Final(d, run.states);
    BuilderValidIsRectangular(schema, b);
    AppendStates(reading, schema, d, m, records, history, b);
    SameDirsSameRows(reading, d, e, m.sealed);
    AppendShowsBy(reading, schema, d, m, e, run, history, b);
  }

  lemma AppendStates(reading: Reading, schema: Schema, d: Disk, m: Memory, records: seq<WalRecord>,
                     history: seq<RowBatch>, b: RowBatch)
    requires schema.Valid() && WritesAs(reading, schema)
    requires reading.DiskOk(d, records, history) && MemoryOk(schema, d, m, history)
    requires BuilderValid(schema, b) && |AllRows(history)| + b.rowCount < TWO_64
    ensures var run := AppendRun(reading.format, schema, d, m, b);
            && Final(d, run.states).dirs == d.dirs && run.memory.sealed == m.sealed
            && ActiveOk(schema, m.active, m.manifest.applied, history)
            && if run.failure.None? then ActiveOk(schema, run.memory.active, m.manifest.applied, history + [b])
               else run.memory.active == m.active
  {
    var run := AppendRun(reading.format, schema, d, m, b);
    AppendKeeps(reading, schema, d, m, records, history, b);
    AppendMemory(reading.format, schema, d, m, b);
    assert run.states != [] ==> Final(d, run.states) == run.states[0];
  }

  lemma AppendMemory(f: Format, schema: Schema, d: Disk, m: Memory, b: RowBatch)
    requires schema.Valid() && BuilderValid(schema, b)
    ensures var run := AppendRun(f, schema, d, m, b);
            && Final(d, run.states).dirs == d.dirs && run.memory.sealed == m.sealed
            && run.memory.manifest == m.manifest
            && (run.states == [] ==> run.memory.active == m.active)
  {
    ShapedIsAccepted(schema, b);
    AppendRunParts(f, schema, d, m, b);
  }

  lemma SameDirsSameRows(reading: Reading, d: Disk, e: Disk, hs: seq<Handle>)
    requires e.dirs == d.dirs
    ensures Concat(hs, reading.RowsOn(e)) == Concat(hs, reading.RowsOn(d))
  {
    forall i | 0 <= i < |hs|
      ensures reading.RowsOn(e)(hs[i]) == reading.RowsOn(d)(hs[i])
    {
      assert FilesOf(e, hs[i].dir) == FilesOf(d, hs[i].dir);
    }
    SameSealedRows(reading, d, e, hs);
  }

  lemma AppendShowsBy(reading: Reading, schema: Schema, d: Disk, m: Memory, e: Disk, run: Outcome,
                      history: seq<RowBatch>, b: RowBatch)
    requires Rectangular(b) && run.memory.sealed == m.sealed
    requires Concat(m.sealed, reading.RowsOn(e)) == Concat(m.sealed, reading.RowsOn(d))
    requires ActiveOk(schema, m.active, m.manifest.applied, history)
    requires if run.failure.None? then ActiveOk(schema, run.memory.active, m.manifest.applied, history + [b])
             else run.memory.active == m.active
    ensures Rectangular(m.active) && Rectangular(run.memory.active)
    ensures ShownBy(reading, e, run.memory) == ShownBy(reading, d, m) + if run.failure.None? then RowsOf(b) else []
  {
    if run.failure.None? {
      ActiveRowsGrow(schema, m.active, run.memory.active, m.manifest.applied, history, b);
      Assoc(Concat(m.sealed, reading.RowsOn(d)), RowsOf(m.active), RowsOf(b));
    } else {
      assert ShownBy(reading, d, m) + [] == ShownBy(reading, d, m);
    }
  }

  lemma AppendShowsMore(f: Format, schema: Schema, d: Disk, m: Memory, records: seq<WalRecord>,
                        history: seq<RowBatch>, b: RowBatch)
    requires schema.Valid() && ReadingOf(f, schema).DiskOk(d, records, history) && MemoryOk(schema, d, m, history)
    requires BuilderValid(schema, b) && |AllRows(history)| + b.rowCount < TWO_64
    ensures Rectangular(b)
    ensures var run := AppendRun(f, schema, d, m, b);
            RowsShown(schema, Final(d, run.states), run.memory)
            == RowsShown(schema, d, m) + if run.failure.None? then RowsOf(b) else []
  {
    var run := AppendRun(f, schema, d, m, b);
    ReadingIsFaithful(f, schema);
    AppendShows(ReadingOf(f, schema), schema, d, m, records, history, b);
    ShownIs(f, schema, d, m);
    ShownIs(f, schema, Final(d, run.states), run.memory);
  }

  lemma ActiveRowsGrow(schema: Schema, a: RowBatch, c: RowBatch, applied: nat, history: seq<RowBatch>, b: RowBatch)
    requires ActiveOk(schema, a, applied, history) && Rectangular(b)
    requires ActiveOk(schema, c, applied, history + [b])
    ensures RowsOf(c) == RowsOf(a) + RowsOf(b)
  {
    assert (history + [b])[applied..] == history[applied..] + [b];
    HistoryGrows(history[applied..], b);
  }

  /** On any table in use an append of a builder-valid batch ends as it should, and adds the batch's rows
      behind those shown, or none. */
  lemma AppendToReachable(f: Format, schema: Schema, ws: seq<World>, i: nat, b: RowBatch)
    requires schema.Valid() && TableMachine(f, schema).Run(ws) && i < |ws| && ws[i].memory.Some?
    requires AllRectangular(ws[i].history) && BuilderValid(schema, b) && |AllRows(ws[i].history)| + b.rowCount < TWO_64
    ensures Rectangular(b)
    ensures var w, m := ws[i], ws[i].memory.value;
            var run := AppendRun(f, schema, w.disk, m, b);
            && AppendEnded(f, w.disk, m, w.records, b, run)
            && RowsShown(schema, Final(w.disk, run.states), run.memory)
               == RowsShown(schema, w.disk, m) + if run.failure.None? then RowsOf(b) else []
  {
    var w := ws[i];
    EveryWorldIsSafe(f, schema, ws, i);
    ReadingIsFaithful(f, schema);
    AppendEndsSo(ReadingOf(f, schema), schema, w.disk, w.memory.value, w.records, w.history, b);
    AppendShowsMore(f, schema, w.disk, w.memory.value, w.records, w.history, b);
  }

  // ----- compaction -----

  /** On any table in use a compaction ends as it should: with nothing asked for or an id unknown it does
      nothing; otherwise, unless the ids are used up, the selected directories are gone, the next one is
      there and no other has come or gone, and the rows shown are those of the old segments in their new
      order and then the active ones. */
  lemma CompactionOfReachable(f: Format, schema: Schema, ws: seq<World>, i: nat, ids: seq<u64>)
    requires schema.Valid() && TableMachine(f, schema).Run(ws) && i < |ws| && ws[i].memory.Some?
    ensures var w, m := ws[i], ws[i].memory.value;
            var run := CompactRun(schema, w.disk, m, ids);
            && CompactEnds(ReadingOf(f, schema), w.disk, m, ids, run)
            && Rectangular(m.active)
            && (run.failure.None? && ids != [] ==>
                  var selected := set id | id in ids;
                  && Final(w.disk, run.states).dirs.Keys == (w.disk.dirs.Keys - selected) + {m.manifest.nextId}
                  && RowsShown(schema, Final(w.disk, run.states), run.memory)
                     == Concat(SourceOrder(m.sealed, selected), ReadingOf(f, schema).RowsOn(w.disk)) + RowsOf(m.active))
  {
    var reading, w, m := ReadingOf(f, schema), ws[i], ws[i].memory.value;
    EveryWorldIsSafe(f, schema, ws, i);
    ReadingIsFaithful(f, schema);
    CompactKeeps(reading, schema, w.disk, m, ids, w.records, w.history);
    var run := CompactRun(schema, w.disk, m, ids);
    ShownIs(f, schema, Final(w.disk, run.states), run.memory);
  }

  // ----- open -----

  lemma ReopenedAs(reading: Reading, schema: Schema, d: Disk, m: Memory, records: seq<WalRecord>,
                   history: seq<RowBatch>)
    returns (again: Memory)
    requires DecodesAs(reading, schema) && reading.DiskOk(d, records, history) && |AllRows(history)| < TWO_64
    requires MemoryOk(schema, d, m, history)
    ensures OpenRun(reading.format, schema, d) == Opening([d], Ok(again))
    ensures again.sealed == m.sealed && again.manifest == m.manifest && again.nextSeqNo == |records| % TWO_64
    ensures Rectangular(again.active) && RowsOf(again.active) == RowsOf(m.active)
  {
    again := OpensAs(reading, schema, d, records, history);
    assert d.WithManifest(d.CurrentManifest()) == d;
  }

  /** Opening the directory of any table in use, its process gone without losing a log record, gives a
      table with the same segments and rows in the same order, its next sequence number the number of
      records. */
  lemma ReopeningOfReachable(f: Format, schema: Schema, ws: seq<World>, i: nat)
    requires schema.Valid() && TableMachine(f, schema).Run(ws) && i < |ws| && ws[i].memory.Some?
    ensures var w, m := ws[i], ws[i].memory.value;
            var opening := OpenRun(f, schema, w.disk);
            && opening.result.Ok? && opening.states == [w.disk]
            && opening.result.value.manifest == m.manifest
            && opening.result.value.nextSeqNo == |w.records| % TWO_64
            && RowsShown(schema, w.disk, opening.result.value) == RowsShown(schema, w.disk, m)
  {
    var w, m := ws[i], ws[i].memory.value;
    EveryWorldIsSafe(f, schema, ws, i);
    ReadingIsFaithful(f, schema);
    var again := ReopenedAs(ReadingOf(f, schema), schema, w.disk, m, w.records, w.history);
    ShownIs(f, schema, w.disk, m);
    ShownIs(f, schema, w.disk, again);
  }

  // ----- the same of the table's own methods -----

  /** Any append to any table in use of a batch built for its schema adds the batch's rows behind those
      shown and answers with their number, or fails and shows what it did. */
  method AppendInUse(table: Table.Table, b: RowBatch, ghost ws: seq<World>, ghost i: nat)
    returns (res: Result<u64, TableError>)
    requires InUse(table, ws, i) && AllRectangular(ws[i].history)
    requires BuilderValid(table.schema, b) && |AllRows(ws[i].history)| + b.rowCount < TWO_64
    requires |b.columns| < TWO_64 && forall k :: 0 <= k < |b.columns| ==> |b.columns[k].data.values| < TWO_64
    modifies table.active, table.wal, table.volume
    ensures table.Valid() && Rectangular(b)
    ensures res.Ok? ==> res.value == b.rowCount
    ensures res.Ok? <==> Codec.Fits(b) && old(table.Memory()).nextSeqNo + 1 < TWO_64 && |Codec.Encoded(b)| < TWO_32
    ensures RowsShown(table.schema, table.volume.disk, table.Memory())
            == old(RowsShown(table.schema, table.volume.disk, table.Memory())) + if res.Ok? then RowsOf(b) else []
  {
    AppendToReachable(Wal.Log(), table.schema, ws, i, b);
    res := table.Append(b);
  }

  /** Any flush of any table in use shows the rows it showed, in their order. */
  method FlushInUse(table: Table.Table, ghost ws: seq<World>, ghost i: nat) returns (failure: Option<TableError>)
    requires InUse(table, ws, i)
    modifies table, table.volume
    ensures table.Valid()
    ensures failure.None? <==>
              || old(table.Memory()).active.rowCount == 0
              || (AllNamesOk(table.schema.columns) && old(table.Memory()).manifest.nextId + 1 < TWO_64)
    ensures RowsShown(table.schema, table.volume.disk, table.Memory())
            == old(RowsShown(table.schema, table.volume.disk, table.Memory()))
  {
    FlushOfReachable(Wal.Log(), table.schema, ws, i);
    failure := table.Flush();
  }

  /** Any compaction of any table in use that succeeds removes the directories asked for and makes the
      next one; the rows shown are then the old segments' in their new order and the active ones. */
  method CompactInUse(table: Table.Table, ids: seq<u64>, ghost ws: seq<World>, ghost i: nat)
    returns (failure: Option<TableError>)
    requires InUse(table, ws, i)
    modifies table, table.volume
    ensures table.Valid() && Rectangular(old(table.Memory()).active)
    ensures var m, selected := old(table.Memory()), set id | id in ids;
            && (failure.None? <==> ids == [] || (selected <= IdsOf(m.sealed) && m.manifest.nextId + 1 < TWO_64))
            && (failure.None? && ids != [] ==>
                  && table.volume.disk.dirs.Keys
                     == (old(table.volume.disk).dirs.Keys - selected) + {m.manifest.nextId}
                  && RowsShown(table.schema, table.volume.disk, table.Memory())
                     == Concat(SourceOrder(m.sealed, selected),
                          ReadingOf(Wal.Log(), table.schema).RowsOn(old(table.volume.disk)))
                        + RowsOf(m.active))
  {
    CompactionOfReachable(Wal.Log(), table.schema, ws, i, ids);
    failure := table.Compact(ids);
  }
}
