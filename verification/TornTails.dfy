/** A crash that cuts the log at any byte: which directories still open, what they show, and which
    later appends the torn bytes hide. */
module TornTails {
  import opened Wrappers
  import opened Bytes
  import opened Batch
  import opened Rows
  import opened Storage
  import opened Framing
  import opened TableRuns
  import opened TableState
  import opened TableSteps
  import opened OpenSteps
  import opened Crashes
  import opened Recovery
  import opened Safety
  import opened Validation
  import Codec

  /** What a crash may leave of a disk when it cuts the log at any unsynced byte. */
  ghost predicate CutAt(d: Disk, e: Disk, cut: nat) {
    && e.manifest == d.manifest
    && SameDirs(d, e, d.CurrentManifest().sealed)
    && d.synced <= cut <= |d.log|
    && e.log == d.log[..cut]
  }

  /** The bytes of the next record that are left. */
  function TornBytes(f: Format, records: seq<WalRecord>, cut: nat): (torn: int)
    requires AllEncodable(records)
  {
    cut - |f.LogOf(records[..f.CompleteRecords(records, cut)])|
  }

  /** Record prefixes within the cut are among the complete records. */
  lemma CompleteCovers(f: Format, records: seq<WalRecord>, cut: nat, j: nat)
    requires AllEncodable(records) && cut <= |f.LogOf(records)| && j <= |records|
    requires |f.LogOf(records[..j])| <= cut
    ensures j <= f.CompleteRecords(records, cut)
  {
    var k := f.CompleteRecords(records, cut);
    f.ReadLogOfCut(records, cut);
    if k < j {
      assert records[..k + 1] == records[..k] + [records[k]];
      f.LogOfAppend(records[..k], [records[k]]);
      assert [records[k]][1..] == [];
      LogLengths(f, records, k + 1, j);
    }
  }

  /** A sync mark set back, but not into the applied part, changes nothing. */
  lemma SyncedLess(reading: Reading, d: Disk, records: seq<WalRecord>, history: seq<RowBatch>, synced: nat)
    requires reading.DiskOk(d, records, history) && synced <= d.synced
    requires |reading.format.LogOf(records[..d.CurrentManifest().applied])| <= synced
    ensures reading.DiskOk(d.(synced := synced), records, history)
  {
    reading.ManifestFrame(d, d.(synced := synced), d.CurrentManifest());
    reading.SameDirsSameRows(d, d.(synced := synced), d.CurrentManifest().sealed);
  }

  /** The same directory with the torn bytes taken off stands for the complete records. */
  lemma TrimmedStands(reading: Reading, d: Disk, e: Disk, records: seq<WalRecord>, history: seq<RowBatch>, cut: nat)
    returns (trimmed: Disk)
    requires reading.DiskOk(d, records, history) && CutAt(d, e, cut)
    ensures trimmed.dirs == e.dirs && trimmed.manifest == e.manifest
    ensures var k := reading.format.CompleteRecords(records, cut);
            && k <= |history| && trimmed.log == reading.format.LogOf(records[..k])
            && reading.DiskOk(trimmed, records[..k], history[..k])
  {
    var f, m := reading.format, d.CurrentManifest();
    var k := f.CompleteRecords(records, cut);
    CompleteCovers(f, records, cut, m.applied);
    LogLengths(f, records, m.applied, k);
    var synced := |f.LogOf(records[..m.applied])|;
    trimmed := e.(log := f.LogOf(records[..k]), synced := synced);
    SyncedLess(reading, d, records, history, synced);
    CutKeeps(reading, d.(synced := synced), trimmed, records, history, k);
  }

  /** Opening looks at no more of the log than what it reads as. */
  lemma OpensAlike(f: Format, schema: Schema, d: Disk, e: Disk)
    requires e.dirs == d.dirs && e.CurrentManifest() == d.CurrentManifest() && f.ReadLog(e.log) == f.ReadLog(d.log)
    ensures OpenRun(f, schema, e).result == OpenRun(f, schema, d).result
  {
    LoadsAlike(d, e, d.CurrentManifest().sealed);
  }

  lemma {:induction false} LoadsAlike(d: Disk, e: Disk, refs: seq<SegmentRef>)
    requires e.dirs == d.dirs
    ensures LoadSegments(e, refs) == LoadSegments(d, refs)
    decreases |refs|
  {
    if refs != [] {
      LoadsAlike(d, e, refs[1..]);
    }
  }

  /** The memory is that of `history`, on a disk that but for its log, perhaps, stands for it. */
  ghost predicate OpenedFor(reading: Reading, schema: Schema, d: Disk, m: Memory, good: Disk, records: seq<WalRecord>,
                            history: seq<RowBatch>) {
    && good.dirs == d.dirs && good.manifest == d.manifest
    && reading.DiskOk(good, records, history) && MemoryOk(schema, good, m, history)
  }

  /** Opening leaves the manifest stored. */
  lemma AfterOpening(f: Format, schema: Schema, d: Disk)
    requires OpenRun(f, schema, d).result.Ok?
    ensures Final(d, OpenRun(f, schema, d).states) == d.WithManifest(d.CurrentManifest())
  {
  }

  /** A directory cut at any byte opens exactly when fewer bytes than a header are left of the next
      record, and the memory is then that of the complete records' batches. */
  lemma CutOpensIff(reading: Reading, schema: Schema, d: Disk, e: Disk, records: seq<WalRecord>,
                    history: seq<RowBatch>, cut: nat)
    returns (good: Disk)
    requires DecodesAs(reading, schema) && reading.DiskOk(d, records, history) && |AllRows(history)| < TWO_64
    requires CutAt(d, e, cut)
    ensures var f, opening := reading.format, OpenRun(reading.format, schema, e);
            var k := f.CompleteRecords(records, cut);
            && k <= |history|
            && (opening.result.Ok? <==> TornBytes(f, records, cut) < HEADER_LEN)
            && (opening.result.Err? ==> opening.result.error == WalFailure(Io))
            && (opening.result.Ok? ==>
                  && f.ReadLog(e.log) == Ok(records[..k]) && good.log == f.LogOf(records[..k])
                  && OpenedFor(reading, schema, Final(e, opening.states), opening.result.value, good,
                    records[..k], history[..k]))
  {
    var f := reading.format;
    var k := f.CompleteRecords(records, cut);
    f.ReadLogOfCut(records, cut);
    var trimmed := TrimmedStands(reading, d, e, records, history, cut);
    good := trimmed.WithManifest(trimmed.CurrentManifest());
    if TornBytes(f, records, cut) < HEADER_LEN {
      PrefixRows(history, k);
      OpenKeeps(reading, schema, trimmed, records[..k], history[..k]);
      reading.LoggedReads(trimmed.log, records[..k], history[..k]);
      OpensAlike(f, schema, trimmed, e);
      AfterOpening(f, schema, trimmed);
      AfterOpening(f, schema, e);
      assert OpenRun(f, schema, trimmed).states[0] == good;
    } else {
      reading.ManifestFrame(d, e, d.CurrentManifest());
      reading.SameDirsSameRows(d, e, d.CurrentManifest().sealed);
      SegmentsLoad(e, d.CurrentManifest().sealed);
    }
  }

  // ----- reachable tables -----

  /** A crash of the operation after n disk steps on a reachable table, the log cut at any byte. */
  ghost predicate CrashedAt(f: Format, schema: Schema, ws: seq<World>, i: nat, op: Op, n: nat, e: Disk, cut: nat) {
    && schema.Valid() && TableMachine(f, schema).Run(ws) && i < |ws| && Allowed(schema, ws[i], op)
    && n <= |Perform(f, schema, ws[i], op).states|
    && CutAt(Final(ws[i].disk, Perform(f, schema, ws[i], op).states[..n]), e, cut)
  }

  /** What the disk stood for as the crash came. */
  lemma BeforeCrash(f: Format, schema: Schema, ws: seq<World>, i: nat, op: Op, n: nat, e: Disk, cut: nat)
    requires CrashedAt(f, schema, ws, i, op, n, e, cut)
    ensures var reading, d := ReadingOf(f, schema), Final(ws[i].disk, Perform(f, schema, ws[i], op).states[..n]);
            var (records, history) := Logs(ws[i], op, n);
            && reading.DiskOk(d, records, history)
            && reading.AppliedIsDurable(d, ws[i].durable, records)
            && AllRectangular(history) && |AllRows(history)| < TWO_64
  {
    var reading := ReadingOf(f, schema);
    EveryWorldIsSafe(f, schema, ws, i);
    ReadingIsFaithful(f, schema);
    PerformKept(reading, schema, ws[i], op);
    PerformKeepsMark(f, schema, ws[i], op);
    PointKept(reading, schema, ws[i], op, Perform(f, schema, ws[i], op), n);
    LogsSize(schema, ws[i], op, n);
  }

  /** However an operation on a reachable table is cut off, with the log cut at any unsynced byte:
      the directory opens again exactly when fewer than 16 bytes of the next record are left; the table
      then shows exactly the rows of the complete records' batches, each once, and these cover all that
      was in the log at the last good flush. */
  lemma AnyCutReopensIff(f: Format, schema: Schema, ws: seq<World>, i: nat, op: Op, n: nat, e: Disk, cut: nat)
    requires CrashedAt(f, schema, ws, i, op, n, e, cut)
    ensures var (records, history) := Logs(ws[i], op, n);
            var opening := OpenRun(f, schema, e);
            && AllEncodable(records) && AllRectangular(history)
            && ws[i].durable <= f.CompleteRecords(records, cut) <= |history|
            && (opening.result.Ok? <==> TornBytes(f, records, cut) < HEADER_LEN)
            && (opening.result.Err? ==> opening.result.error == WalFailure(Io))
            && (opening.result.Ok? ==>
                  var snapshot := SnapshotOf(schema, Final(e, opening.states), opening.result.value);
                  && snapshot.Valid()
                  && multiset(snapshot.LogicalRows()) == multiset(AllRows(history[..f.CompleteRecords(records, cut)])))
  {
    var reading, d := ReadingOf(f, schema), Final(ws[i].disk, Perform(f, schema, ws[i], op).states[..n]);
    var (records, history) := Logs(ws[i], op, n);
    BeforeCrash(f, schema, ws, i, op, n, e, cut);
    ReadingIsFaithful(f, schema);
    CompleteCovers(f, records, cut, ws[i].durable);
    var good := CutOpensIff(reading, schema, d, e, records, history, cut);
    var opening := OpenRun(f, schema, e);
    if opening.result.Ok? {
      var k := f.CompleteRecords(records, cut);
      TableShowsHistory(f, schema, good, opening.result.value, records[..k], history[..k]);
      SameDirsSameSnapshot(schema, good, Final(e, opening.states), opening.result.value);
    }
  }

  lemma SameDirsSameSnapshot(schema: Schema, d: Disk, e: Disk, m: Memory)
    requires e.dirs == d.dirs
    ensures SnapshotOf(schema, e, m) == SnapshotOf(schema, d, m)
  {
    forall i | 0 <= i < |m.sealed|
      ensures FilesOf(e, m.sealed[i].dir) == FilesOf(d, m.sealed[i].dir)
    {
    }
    assert OpenAll(e, m.sealed) == OpenAll(d, m.sealed);
  }

  // ----- appending behind torn bytes -----

  /** A batch the log takes, its record's sequence number and length below 2^30. */
  predicate Moderate(m: Memory, b: RowBatch) {
    Loggable(m, b) && m.nextSeqNo < 0x4000_0000 && |Codec.Encoded(b)| < 0x4000_0000
  }

  /** What is unread of a log. */
  function Unread(f: Format, log: seq<byte>, records: seq<WalRecord>): seq<byte>
    requires AllEncodable(records) && |f.LogOf(records)| <= |log|
  {
    log[|f.LogOf(records)|..]
  }

  /** The appended record is read back exactly when nothing torn stands before it; behind fewer bytes
      than the magic has, the log reads as if it had not been appended. */
  lemma ReadBehindTail(f: Format, log: seq<byte>, records: seq<WalRecord>, m: Memory, b: RowBatch)
    requires f.ReadLog(log) == Ok(records) && Moderate(m, b)
    ensures f.HoldsExactly(log, records)
    ensures var tail, after := Unread(f, log, records), f.ReadLog(log + f.Encoded(RecordOf(m, b)));
            && (|tail| < HEADER_LEN ==> (after == Ok(records + [RecordOf(m, b)]) <==> tail == []))
            && (0 < |tail| < 4 ==> after == Ok(records))
  {
    var r := RecordOf(m, b);
    f.AppendVisibleIff(log, records, r);
    var tail := Unread(f, log, records);
    if |tail| < HEADER_LEN {
      f.TornHeaderHidesAppend(tail, r);
    }
    if 0 < |tail| < 4 {
      f.TornTailHidesAppend(records, tail, r);
      assert log == f.LogOf(records) + tail;
    }
  }

  /** The append itself, on a table opened for a history. */
  lemma AppendOpened(reading: Reading, schema: Schema, d: Disk, m: Memory, good: Disk, records: seq<WalRecord>,
                     history: seq<RowBatch>, b: RowBatch)
    requires schema.Valid() && WritesAs(reading, schema) && DecodesAs(reading, schema)
    requires OpenedFor(reading, schema, d, m, good, records, history)
    requires BuilderValid(schema, b) && Loggable(m, b) && |AllRows(history)| + b.rowCount < TWO_64
    ensures var run := AppendRun(reading.format, schema, d, m, b);
            && run.states == [d.WithLog(reading.format.Encoded(RecordOf(m, b)))] && run.failure.None?
            && (d.log == good.log ==>
                  var again, r := OpenRun(reading.format, schema, run.states[0]), RecordOf(m, b);
                  && again.result.Ok?
                  && OpenedFor(reading, schema, run.states[0], again.result.value,
                       good.WithLog(reading.format.Encoded(r)), records + [r], history + [b]))
  {
    var r := RecordOf(m, b);
    ShapedIsAccepted(schema, b);
    AppendRunParts(reading.format, schema, d, m, b);
    LoggedAppend(reading, schema, good, m, records, history, b);
    if d.log == good.log {
      BuilderValidIsRectangular(schema, b);
      HistoryGrows(history, b);
      Reopens(reading, schema, d.WithLog(reading.format.Encoded(r)), good.WithLog(reading.format.Encoded(r)),
        records + [r], history + [b]);
    }
  }

  lemma Reopens(reading: Reading, schema: Schema, d: Disk, good: Disk, records: seq<WalRecord>, history: seq<RowBatch>)
    requires DecodesAs(reading, schema) && reading.DiskOk(good, records, history) && |AllRows(history)| < TWO_64
    requires d.dirs == good.dirs && d.manifest == good.manifest && d.log == good.log && d.manifest.Some?
    ensures var again := OpenRun(reading.format, schema, d);
            again.result.Ok? && OpenedFor(reading, schema, d, again.result.value, good, records, history)
  {
    OpenKeeps(reading, schema, good, records, history);
    OpensAlike(reading.format, schema, good, d);
    AfterOpening(reading.format, schema, good);
    assert good.WithManifest(good.CurrentManifest()) == good;
  }

  /** A reopened table shows exactly the rows of these batches, each once. */
  ghost predicate Shows(schema: Schema, d: Disk, opening: Opening, history: seq<RowBatch>) {
    && opening.result.Ok? && AllRectangular(history)
    && var snapshot := SnapshotOf(schema, Final(d, opening.states), opening.result.value);
       snapshot.Valid() && multiset(snapshot.LogicalRows()) == multiset(AllRows(history))
  }

  /** The fate of an append to a table opened as memory m for these records and batches, with `torn`
      bytes unread behind them: it succeeds; the next reader sees it exactly when nothing is torn, and
      the next table then shows it; behind one to three torn bytes the next table is the one before. */
  ghost predicate AppendFate(f: Format, schema: Schema, d: Disk, m: Memory, records: seq<WalRecord>,
                             history: seq<RowBatch>, torn: int, b: RowBatch)
    requires Codec.Fits(b)
  {
    var run := AppendRun(f, schema, d, m, b);
    && |run.states| == 1 && run.failure.None?
    && (f.ReadLog(run.states[0].log) == Ok(records + [RecordOf(m, b)]) <==> torn == 0)
    && (torn == 0 ==> Shows(schema, run.states[0], OpenRun(f, schema, run.states[0]), history + [b]))
    && (0 < torn < 4 ==> OpenRun(f, schema, run.states[0]).result == Ok(m))
  }

  lemma OpenedShows(f: Format, schema: Schema, d: Disk, good: Disk, records: seq<WalRecord>, history: seq<RowBatch>)
    requires schema.Valid() && OpenRun(f, schema, d).result.Ok? && d.manifest.Some?
    requires OpenedFor(ReadingOf(f, schema), schema, d, OpenRun(f, schema, d).result.value, good, records, history)
    ensures Shows(schema, d, OpenRun(f, schema, d), history)
  {
    var opening := OpenRun(f, schema, d);
    TableShowsHistory(f, schema, good, opening.result.value, records, history);
    AfterOpening(f, schema, d);
    SameDirsSameSnapshot(schema, good, Final(d, opening.states), opening.result.value);
  }

  lemma OpenedAppend(f: Format, schema: Schema, e: Disk, good: Disk, records: seq<WalRecord>, history: seq<RowBatch>,
                     b: RowBatch)
    requires schema.Valid() && e.manifest.Some? && OpenRun(f, schema, e).result.Ok?
    requires f.ReadLog(e.log) == Ok(records) && AllEncodable(records) && good.log == f.LogOf(records)
    requires OpenedFor(ReadingOf(f, schema), schema, e, OpenRun(f, schema, e).result.value, good, records, history)
    requires BuilderValid(schema, b) && Moderate(OpenRun(f, schema, e).result.value, b)
    requires |AllRows(history)| + b.rowCount < TWO_64 && |e.log| - |good.log| < HEADER_LEN
    ensures AppendFate(f, schema, e, OpenRun(f, schema, e).result.value, records, history, |e.log| - |good.log|, b)
  {
    var reading, m := ReadingOf(f, schema), OpenRun(f, schema, e).result.value;
    ReadingIsFaithful(f, schema);
    AppendOpened(reading, schema, e, m, good, records, history, b);
    ReadBehindTail(f, e.log, records, m, b);
    var after, r := e.WithLog(f.Encoded(RecordOf(m, b))), RecordOf(m, b);
    var torn := |e.log| - |good.log|;
    if torn == 0 {
      assert e.log == good.log;
      OpenedShows(f, schema, after, good.WithLog(f.Encoded(r)), records + [r], history + [b]);
    } else if torn < 4 {
      OpensAlike(f, schema, e, after);
    }
  }

  lemma CutThenAppend(f: Format, schema: Schema, d: Disk, e: Disk, records: seq<WalRecord>, history: seq<RowBatch>,
                      cut: nat, b: RowBatch)
    requires schema.Valid() && ReadingOf(f, schema).DiskOk(d, records, history)
    requires |AllRows(history)| + b.rowCount < TWO_64
    requires CutAt(d, e, cut) && OpenRun(f, schema, e).result.Ok?
    requires BuilderValid(schema, b) && Moderate(OpenRun(f, schema, e).result.value, b)
    ensures var k, opening := f.CompleteRecords(records, cut), OpenRun(f, schema, e);
            && k <= |history|
            && AppendFate(f, schema, Final(e, opening.states), opening.result.value, records[..k], history[..k],
                 TornBytes(f, records, cut), b)
  {
    ReadingIsFaithful(f, schema);
    var good := CutOpensIff(ReadingOf(f, schema), schema, d, e, records, history, cut);
    var k := f.CompleteRecords(records, cut);
    AfterOpening(f, schema, e);
    var stored := e.WithManifest(e.CurrentManifest());
    OpensAlike(f, schema, e, stored);
    PrefixRows(history, k);
    OpenedAppend(f, schema, stored, good, records[..k], history[..k], b);
  }

  /** After such a crash on a reachable table and a reopening, an append succeeds in memory; the next
      reopening shows it exactly when the cut left nothing of a further record. */
  lemma AppendSurvivesIff(f: Format, schema: Schema, ws: seq<World>, i: nat, op: Op, n: nat, e: Disk, cut: nat,
                          records: seq<WalRecord>, history: seq<RowBatch>, b: RowBatch)
    requires CrashedAt(f, schema, ws, i, op, n, e, cut) && (records, history) == Logs(ws[i], op, n)
    requires OpenRun(f, schema, e).result.Ok?
    requires BuilderValid(schema, b) && Moderate(OpenRun(f, schema, e).result.value, b)
    requires AllRectangular(history) && |AllRows(history)| + b.rowCount < TWO_64
    ensures AllEncodable(records)
    ensures var k, opening := f.CompleteRecords(records, cut), OpenRun(f, schema, e);
            && k <= |history|
            && AppendFate(f, schema, Final(e, opening.states), opening.result.value, records[..k], history[..k],
                 TornBytes(f, records, cut), b)
  {
    BeforeCrash(f, schema, ws, i, op, n, e, cut);
    CutThenAppend(f, schema, Final(ws[i].disk, Perform(f, schema, ws[i], op).states[..n]), e, records, history, cut, b);
  }
}
