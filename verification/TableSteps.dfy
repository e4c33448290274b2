/** Every operation of the table keeps what its disk and memory stand for, in every state it passes
    through. */
module TableSteps {
  import opened Wrappers
  import opened Bytes
  import opened Batch
  import opened Segment
  import opened Rows
  import opened Storage
  import opened Sealing
  import opened Framing
  import opened TableRuns
  import opened Compaction
  import opened TableState
  import Codec

  // ----- readings that match the schema -----

  /** A record written for a builder-valid batch is read as written for it. */
  ghost predicate WritesAs(reading: Reading, schema: Schema) {
    forall r: WalRecord, b: RowBatch :: BuilderValid(schema, b) && Codec.Fits(b) && r.payload == Codec.Encoded(b) ==>
      reading.wrote(r, b)
  }

  /** And such a record decodes to that batch. */
  ghost predicate DecodesAs(reading: Reading, schema: Schema) {
    forall r: WalRecord, b: RowBatch :: reading.wrote(r, b) ==>
      BuilderValid(schema, b) && Codec.Decoded(schema, r.payload) == Ok(b)
  }

  /** A sealed directory is complete and holds the sealed rows. */
  ghost predicate SealsAs(reading: Reading, schema: Schema) {
    forall id: u64, b: RowBatch, dir: Dir :: Intact(schema, id, b, dir) && b.rowCount > 0 ==>
      Rectangular(b) && reading.sound(dir) && reading.rows(dir) == RowsOf(b)
  }

  ghost predicate Reads(reading: Reading, schema: Schema, dir: Dir, b: RowBatch) {
    && dir.meta.Some?
    && Contents(schema, dir.meta.value, dir.files) == Ok(b)
    && BuilderValid(schema, b) && Rectangular(b) && b.rowCount > 0
    && AllNamesOk(schema.columns)
    && reading.rows(dir) == RowsOf(b)
  }

  /** And a complete directory can be read whole. */
  ghost predicate ReadsAs(reading: Reading, schema: Schema) {
    forall dir: Dir :: reading.sound(dir) ==> exists b: RowBatch :: Reads(reading, schema, dir, b)
  }

  ghost predicate Faithful(reading: Reading, schema: Schema) {
    WritesAs(reading, schema) && DecodesAs(reading, schema) && SealsAs(reading, schema) && ReadsAs(reading, schema)
  }

  // ----- append -----

  lemma {:induction false} ValidateShaped(schema: Schema, rows: RowBatch, k: nat)
    requires schema.Valid() && SchemaShaped(schema, rows) && k <= |schema.columns|
    ensures ValidateColumns(schema.columns[k..], rows) == None
    decreases |schema.columns| - k
  {
    if k < |schema.columns| {
      ValidateShaped(schema, rows, k + 1);
      FindInShaped(schema, rows, k);
      assert schema.columns[k..][0] == schema.columns[k] && schema.columns[k..][1..] == schema.columns[k + 1..];
    }
  }

  lemma ShapedIsAccepted(schema: Schema, rows: RowBatch)
    requires schema.Valid() && SchemaShaped(schema, rows)
    ensures Validate(schema, rows) == None
  {
    ValidateShaped(schema, rows, 0);
    assert schema.columns[0..] == schema.columns;
  }

  function RecordOf(m: Memory, rows: RowBatch): WalRecord
    requires Codec.Fits(rows)
  {
    WalRecord(m.nextSeqNo, Codec.Encoded(rows))
  }

  lemma LogGrows(reading: Reading, log: seq<byte>, records: seq<WalRecord>, history: seq<RowBatch>, r: WalRecord,
                 rows: RowBatch)
    requires reading.Logged(log, records, history)
    requires Encodable(r) && Rectangular(rows) && reading.wrote(r, rows)
    ensures reading.Logged(log + reading.format.Encoded(r), records + [r], history + [rows])
  {
    reading.format.LogOfAppend(records, [r]);
    assert [r][1..] == [];
    assert reading.format.LogOf([r]) == reading.format.Encoded(r);
  }

  /** The disk after an append stands for one batch more. */
  lemma DiskGrows(reading: Reading, d: Disk, records: seq<WalRecord>, history: seq<RowBatch>, r: WalRecord,
                  rows: RowBatch)
    requires reading.DiskOk(d, records, history)
    requires Encodable(r) && Rectangular(rows) && reading.wrote(r, rows)
    ensures reading.DiskOk(d.WithLog(reading.format.Encoded(r)), records + [r], history + [rows])
  {
    var e, m := d.WithLog(reading.format.Encoded(r)), d.CurrentManifest();
    LogGrows(reading, d.log, records, history, r, rows);
    reading.ManifestFrame(d, e, m);
    reading.SameDirsSameRows(d, e, m.sealed);
    assert (records + [r])[..m.applied] == records[..m.applied];
    assert (history + [rows])[..m.applied] == history[..m.applied];
  }

  lemma ActiveGrows(schema: Schema, active: RowBatch, applied: nat, history: seq<RowBatch>, rows: RowBatch)
    requires ActiveOk(schema, active, applied, history) && BuilderValid(schema, rows)
    requires |AllRows(history)| + rows.rowCount < TWO_64
    ensures AppendBatch(active, rows).1 == None
    ensures ActiveOk(schema, AppendBatch(active, rows).0, applied, history + [rows])
  {
    BuilderValidIsRectangular(schema, rows);
    HistoryParts(history, applied);
    HistoryGrows(history[applied..], rows);
    AppendBatchRows(schema, active, rows);
    BuilderValidIsRectangular(schema, AppendBatch(active, rows).0);
    assert (history + [rows])[applied..] == history[applied..] + [rows];
  }

  /** Whether the log takes the batch. */
  predicate Loggable(m: Memory, rows: RowBatch) {
    Codec.Fits(rows) && m.nextSeqNo + 1 < TWO_64 && |Codec.Encoded(rows)| < TWO_32
  }

  function NotAppended(failure: Option<BatchError>): Option<TableError> {
    if failure.None? then None else Some(BatchFailure(failure.value))
  }

  /** What the run does with a batch that validation accepts. */
  lemma AppendRunParts(f: Format, schema: Schema, d: Disk, m: Memory, rows: RowBatch)
    requires Validate(schema, rows).None?
    ensures var run := AppendRun(f, schema, d, m, rows);
            if Loggable(m, rows) then
              && run.states == [d.WithLog(f.Encoded(RecordOf(m, rows)))]
              && run.memory == m.(nextSeqNo := m.nextSeqNo + 1, active := AppendBatch(m.active, rows).0)
              && run.failure == NotAppended(AppendBatch(m.active, rows).1)
            else
              run.states == [] && run.failure.Some? && run.memory == m.(nextSeqNo := run.memory.nextSeqNo)
  {
  }

  /** Appending a builder-valid batch either changes nothing but the next sequence number, or adds
      exactly that batch to what disk and memory stand for. */
  lemma AppendKeeps(reading: Reading, schema: Schema, d: Disk, m: Memory, records: seq<WalRecord>,
                    history: seq<RowBatch>, rows: RowBatch)
    requires schema.Valid() && WritesAs(reading, schema)
    requires reading.DiskOk(d, records, history) && MemoryOk(schema, d, m, history)
    requires BuilderValid(schema, rows) && |AllRows(history)| + rows.rowCount < TWO_64
    ensures var run := AppendRun(reading.format, schema, d, m, rows);
            && (run.states == [] <==> run.failure.Some?)
            && (run.states == [] ==> MemoryOk(schema, d, run.memory, history))
            && (run.states != [] ==>
                  && |run.states| == 1 && Codec.Fits(rows)
                  && reading.DiskOk(run.states[0], records + [RecordOf(m, rows)], history + [rows])
                  && MemoryOk(schema, run.states[0], run.memory, history + [rows]))
  {
    ShapedIsAccepted(schema, rows);
    AppendRunParts(reading.format, schema, d, m, rows);
    if Loggable(m, rows) {
      LoggedAppend(reading, schema, d, m, records, history, rows);
    }
  }

  lemma LoggedAppend(reading: Reading, schema: Schema, d: Disk, m: Memory, records: seq<WalRecord>,
                     history: seq<RowBatch>, rows: RowBatch)
    requires schema.Valid() && WritesAs(reading, schema) && Loggable(m, rows)
    requires reading.DiskOk(d, records, history) && MemoryOk(schema, d, m, history)
    requires BuilderValid(schema, rows) && |AllRows(history)| + rows.rowCount < TWO_64
    ensures AppendBatch(m.active, rows).1.None?
    ensures var e := d.WithLog(reading.format.Encoded(RecordOf(m, rows)));
            && reading.DiskOk(e, records + [RecordOf(m, rows)], history + [rows])
            && MemoryOk(schema, e, m.(nextSeqNo := m.nextSeqNo + 1, active := AppendBatch(m.active, rows).0),
                 history + [rows])
  {
    BuilderValidIsRectangular(schema, rows);
    DiskGrows(reading, d, records, history, RecordOf(m, rows), rows);
    ActiveGrows(schema, m.active, m.manifest.applied, history, rows);
    SealedFrame(d, d.WithLog(reading.format.Encoded(RecordOf(m, rows))), m);
  }

  // ----- flush -----

  lemma ListOneMore(reading: Reading, d: Disk, e: Disk, refs: seq<SegmentRef>, ref: SegmentRef)
    requires Present(d, refs) && SameDirs(d, e, refs)
    requires ref.id in e.dirs && e.dirs[ref.id].meta.Some?
    ensures Present(e, refs + [ref])
    ensures HandlesOf(e, refs + [ref]) == HandlesOf(d, refs) + [Handle(ref.id, e.dirs[ref.id].meta.value)]
    ensures reading.ListedRows(e, refs + [ref]) == reading.ListedRows(d, refs) + reading.rows(e.dirs[ref.id])
  {
    var h := Handle(ref.id, e.dirs[ref.id].meta.value);
    reading.SameDirsSameRows(d, e, refs);
    assert HandlesOf(e, refs + [ref]) == HandlesOf(e, refs) + [h];
    ConcatAppend(HandlesOf(e, refs), [h], reading.RowsOn(e));
    ConcatOne(h, reading.RowsOn(e));
    assert Dir(FilesOf(e, h.dir), Some(h.meta)) == e.dirs[ref.id];
    assert reading.RowsOn(e)(h) == reading.rows(e.dirs[ref.id]);
  }

  ghost predicate AllDiskOk(reading: Reading, states: seq<Disk>, records: seq<WalRecord>, history: seq<RowBatch>) {
    forall i :: 0 <= i < |states| ==> reading.DiskOk(states[i], records, history)
  }

  /** States that differ from a good disk in the next, still unlisted directory are as good. */
  lemma OtherDirStates(reading: Reading, d: Disk, states: seq<Disk>, records: seq<WalRecord>, history: seq<RowBatch>)
    requires reading.DiskOk(d, records, history)
    requires AllOnlyDir(d, states, d.CurrentManifest().nextId)
    ensures AllDiskOk(reading, states, records, history)
  {
    forall i | 0 <= i < |states|
      ensures reading.DiskOk(states[i], records, history)
    {
      OtherDirIsFree(d, states[i], d.CurrentManifest().nextId, d.CurrentManifest().sealed);
      reading.DiskFrame(d, states[i], records, history);
    }
  }

  lemma ListedManifestOk(reading: Reading, d: Disk, e: Disk, m: Manifest, ref: SegmentRef, applied: nat)
    requires reading.ManifestOk(d, m) && SameDirs(d, e, m.sealed)
    requires ref.id == m.nextId && m.nextId + 1 < TWO_64
    requires reading.InPlace(e, ref.id) && Describes(ref, e.dirs[ref.id].meta.value)
    ensures reading.ManifestOk(e, Manifest(applied, m.nextId + 1, m.sealed + [ref]))
  {
    reading.ManifestFrame(d, e, m);
  }

  /** Listing the sealed active rows, with the whole log applied. */
  lemma FlushedDisk(reading: Reading, d: Disk, m: Manifest, e: Disk, records: seq<WalRecord>,
                    history: seq<RowBatch>, ref: SegmentRef)
    requires reading.DiskOk(d, records, history) && d.manifest == Some(m)
    requires ref.id == m.nextId && m.nextId + 1 < TWO_64
    requires d.synced == |d.log| && OnlyDir(d, e, ref.id)
    requires reading.InPlace(e, ref.id) && Describes(ref, e.dirs[ref.id].meta.value)
    requires reading.rows(e.dirs[ref.id]) == AllRows(history[m.applied..])
    ensures reading.DiskOk(e.WithManifest(Manifest(|records|, ref.id + 1, m.sealed + [ref])), records, history)
  {
    var manifest := Manifest(|records|, ref.id + 1, m.sealed + [ref]);
    var last := e.WithManifest(manifest);
    OtherDirIsFree(d, e, ref.id, m.sealed);
    ListOneMore(reading, d, last, m.sealed, ref);
    ListedManifestOk(reading, d, last, m, ref, |records|);
    HistoryParts(history, m.applied);
    assert history[..|history|] == history && records[..|records|] == records;
  }

  lemma FlushedMemory(schema: Schema, d: Disk, m: Memory, e: Disk, history: seq<RowBatch>, meta: SegmentMeta)
    requires MemoryOk(schema, d, m, history) && m.manifest.nextId + 1 < TWO_64
    requires SameDirs(d, e, m.manifest.sealed)
    requires meta.id == m.manifest.nextId && meta.id in e.dirs && e.dirs[meta.id].meta == Some(meta)
    ensures var manifest := Manifest(|history|, meta.id + 1, m.manifest.sealed + [RefOf(meta)]);
            MemoryOk(schema, e.WithManifest(manifest),
              Memory(EmptyBatch(schema), m.sealed + [Handle(meta.id, meta)], manifest, m.nextSeqNo), history)
  {
    var refs := m.manifest.sealed;
    var manifest := Manifest(|history|, meta.id + 1, refs + [RefOf(meta)]);
    assert HandlesOf(e.WithManifest(manifest), refs + [RefOf(meta)]) == HandlesOf(d, refs) + [Handle(meta.id, meta)];
    EmptyBatchRows(schema);
    assert history[|history|..] == [];
  }

  /** Writing the segment, listed or not yet, keeps the disk and the memory. */
  lemma SealKeeps(reading: Reading, schema: Schema, d: Disk, m: Memory, b: RowBatch, records: seq<WalRecord>,
                  history: seq<RowBatch>)
    requires schema.Valid() && reading.DiskOk(d, records, history) && SealedAgree(d, m)
    ensures var states := SealRun(d, schema, m.manifest.nextId, b).states;
            && AllDiskOk(reading, states, records, history)
            && OnlyDir(d, Final(d, states), m.manifest.nextId)
            && SameDirs(d, Final(d, states), m.manifest.sealed)
            && SealedAgree(Final(d, states), m)
            && reading.format.ReadLog(Final(d, states).log) == Ok(records)
  {
    var id := m.manifest.nextId;
    var states := SealRun(d, schema, id, b).states;
    var e := Final(d, states);
    SealTouchesOneDir(d, schema, id, b);
    OtherDirStates(reading, d, states, records, history);
    assert OnlyDir(d, e, id);
    OtherDirIsFree(d, e, id, m.manifest.sealed);
    SealedFrame(d, e, m);
    reading.LoggedReads(e.log, records, history);
  }

  /** A sealing that left a complete directory with the active rows, if it succeeded. */
  ghost predicate SealedActive(reading: Reading, d: Disk, m: Memory, seal: SegmentSeal) {
    var id, e := m.manifest.nextId, Final(d, seal.states);
    seal.result.Ok? ==>
      && seal.result.value.id == id
      && reading.InPlace(e, id) && e.dirs[id].meta == Some(seal.result.value)
      && Rectangular(m.active) && reading.rows(e.dirs[id]) == RowsOf(m.active)
  }

  lemma ListSealedParts(f: Format, schema: Schema, d: Disk, m: Memory, seal: SegmentSeal, records: seq<WalRecord>)
    requires f.ReadLog(Final(d, seal.states).log) == Ok(records)
    ensures var id, e, run := m.manifest.nextId, Final(d, seal.states), ListSealed(f, schema, d, m, seal);
            if seal.result.Ok? && id + 1 < TWO_64 then
              var manifest := Manifest(|records|, id + 1, m.manifest.sealed + [RefOf(seal.result.value)]);
              && run.states == seal.states + [e.WithManifest(manifest)]
              && Final(d, run.states) == e.WithManifest(manifest)
              && run.memory
                 == Memory(EmptyBatch(schema), m.sealed + [Handle(id, seal.result.value)], manifest, m.nextSeqNo)
              && run.failure.None?
            else
              run.states == seal.states && run.memory == m && run.failure.Some?
  {
  }

  lemma ListSealedKeeps(reading: Reading, schema: Schema, d: Disk, m: Memory, seal: SegmentSeal,
                        records: seq<WalRecord>, history: seq<RowBatch>)
    requires reading.DiskOk(d, records, history) && MemoryOk(schema, d, m, history) && d.synced == |d.log|
    requires AllDiskOk(reading, seal.states, records, history)
    requires OnlyDir(d, Final(d, seal.states), m.manifest.nextId)
    requires SameDirs(d, Final(d, seal.states), m.manifest.sealed)
    requires SealedActive(reading, d, m, seal) && seal.result.Ok? && m.manifest.nextId + 1 < TWO_64
    ensures var id, meta, e := m.manifest.nextId, seal.result.value, Final(d, seal.states);
            var manifest := Manifest(|records|, id + 1, m.manifest.sealed + [RefOf(meta)]);
            && reading.DiskOk(e.WithManifest(manifest), records, history)
            && MemoryOk(schema, e.WithManifest(manifest),
                 Memory(EmptyBatch(schema), m.sealed + [Handle(id, meta)], manifest, m.nextSeqNo), history)
  {
    var e, meta := Final(d, seal.states), seal.result.value;
    FlushedDisk(reading, d, m.manifest, e, records, history, RefOf(meta));
    FlushedMemory(schema, d, m, e, history, meta);
  }

  lemma SealActiveKeeps(reading: Reading, schema: Schema, d: Disk, m: Memory, records: seq<WalRecord>,
                        history: seq<RowBatch>)
    requires schema.Valid() && SealsAs(reading, schema)
    requires reading.DiskOk(d, records, history) && MemoryOk(schema, d, m, history)
    requires m.active.rowCount > 0 && d.synced == |d.log|
    ensures var run := SealActive(reading.format, schema, d, m);
            && AllDiskOk(reading, run.states, records, history)
            && MemoryOk(schema, Final(d, run.states), run.memory, history)
            && Final(d, run.states).synced == |Final(d, run.states).log|
            && (run.failure.None? <==> AllNamesOk(schema.columns) && m.manifest.nextId + 1 < TWO_64)
            && (run.failure.None? ==> run.memory.active.rowCount == 0)
  {
    SealKeeps(reading, schema, d, m, m.active, records, history);
    SealedActiveHolds(reading, schema, d, m);
    ListSealedEnds(reading, schema, d, m, SealRun(d, schema, m.manifest.nextId, m.active), records, history);
  }

  /** Listing what a sealing left, whether it succeeded or not. */
  lemma ListSealedEnds(reading: Reading, schema: Schema, d: Disk, m: Memory, seal: SegmentSeal, records: seq<WalRecord>,
                       history: seq<RowBatch>)
    requires reading.DiskOk(d, records, history) && MemoryOk(schema, d, m, history) && d.synced == |d.log|
    requires AllDiskOk(reading, seal.states, records, history) && SealedAgree(Final(d, seal.states), m)
    requires OnlyDir(d, Final(d, seal.states), m.manifest.nextId)
    requires SameDirs(d, Final(d, seal.states), m.manifest.sealed)
    requires SealedActive(reading, d, m, seal)
    requires reading.format.ReadLog(Final(d, seal.states).log) == Ok(records)
    ensures var run := ListSealed(reading.format, schema, d, m, seal);
            && AllDiskOk(reading, run.states, records, history)
            && MemoryOk(schema, Final(d, run.states), run.memory, history)
            && Final(d, run.states).synced == |Final(d, run.states).log|
            && (run.failure.None? <==> seal.result.Ok? && m.manifest.nextId + 1 < TWO_64)
            && (run.failure.None? ==> run.memory.active.rowCount == 0)
  {
    ListSealedParts(reading.format, schema, d, m, seal, records);
    if seal.result.Ok? && m.manifest.nextId + 1 < TWO_64 {
      ListSealedKeeps(reading, schema, d, m, seal, records, history);
    }
  }

  lemma SealedActiveHolds(reading: Reading, schema: Schema, d: Disk, m: Memory)
    requires schema.Valid() && SealsAs(reading, schema) && BuilderValid(schema, m.active) && m.active.rowCount > 0
    ensures var seal := SealRun(d, schema, m.manifest.nextId, m.active);
            && SealedActive(reading, d, m, seal)
            && (seal.result.Ok? <==> AllNamesOk(schema.columns))
  {
    var id := m.manifest.nextId;
    SealedIff(d, schema, id, m.active);
    if AllNamesOk(schema.columns) {
      SealedReads(reading, schema, Final(d, SealRun(d, schema, id, m.active).states), id, m.active);
    }
  }

  lemma SealedReads(reading: Reading, schema: Schema, e: Disk, id: u64, b: RowBatch)
    requires schema.Valid() && SealsAs(reading, schema)
    requires id in e.dirs && Intact(schema, id, b, e.dirs[id]) && b.rowCount > 0
    ensures Rectangular(b) && reading.InPlace(e, id) && reading.rows(e.dirs[id]) == RowsOf(b)
  {
  }

  lemma AllDiskOkAppend(reading: Reading, a: seq<Disk>, b: seq<Disk>, records: seq<WalRecord>, history: seq<RowBatch>)
    requires AllDiskOk(reading, a, records, history) && AllDiskOk(reading, b, records, history)
    ensures AllDiskOk(reading, a + b, records, history)
  {
  }

  lemma SyncKeeps(reading: Reading, schema: Schema, d: Disk, m: Memory, records: seq<WalRecord>, history: seq<RowBatch>)
    requires reading.DiskOk(d, records, history) && MemoryOk(schema, d, m, history)
    ensures AllDiskOk(reading, [d.Synced()], records, history) && MemoryOk(schema, d.Synced(), m, history)
  {
    reading.DiskFrame(d, d.Synced(), records, history);
    SealedFrame(d, d.Synced(), m);
  }

  lemma FlushRunParts(f: Format, schema: Schema, d: Disk, m: Memory)
    requires schema.Valid()
    ensures var run, rest := FlushRun(f, schema, d, m), SealActive(f, schema, d.Synced(), m);
            if m.active.rowCount == 0 then
              run == Outcome([d.Synced()], m, None) && Final(d, run.states) == d.Synced()
            else
              && run == Outcome([d.Synced()] + rest.states, rest.memory, rest.failure)
              && Final(d, run.states) == Final(d.Synced(), rest.states)
  {
    FinalAppend(d, [d.Synced()], SealActive(f, schema, d.Synced(), m).states);
  }

  /** Flushing keeps what disk and memory stand for in every state, syncs the log first, and
      succeeds unless a column name cannot be a file name or the segment ids are used up. */
  lemma FlushKeeps(reading: Reading, schema: Schema, d: Disk, m: Memory, records: seq<WalRecord>,
                   history: seq<RowBatch>)
    requires schema.Valid() && SealsAs(reading, schema)
    requires reading.DiskOk(d, records, history) && MemoryOk(schema, d, m, history)
    ensures var run := FlushRun(reading.format, schema, d, m);
            && AllDiskOk(reading, run.states, records, history)
            && MemoryOk(schema, Final(d, run.states), run.memory, history)
            && Final(d, run.states).synced == |Final(d, run.states).log|
            && (run.failure.None? <==>
                  m.active.rowCount == 0 || (AllNamesOk(schema.columns) && m.manifest.nextId + 1 < TWO_64))
            && (run.failure.None? ==> run.memory.active.rowCount == 0)
  {
    SyncKeeps(reading, schema, d, m, records, history);
    FlushRunParts(reading.format, schema, d, m);
    if m.active.rowCount > 0 {
      assert reading.DiskOk([d.Synced()][0], records, history);
      SealActiveKeeps(reading, schema, d.Synced(), m, records, history);
      var rest := SealActive(reading.format, schema, d.Synced(), m);
      AllDiskOkAppend(reading, [d.Synced()], rest.states, records, history);
    }
  }
}
