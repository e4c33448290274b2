/** Opening a table rebuilds from the disk exactly the memory its history calls for. */
module OpenSteps {
  import opened Wrappers
  import opened Bytes
  import opened Batch
  import opened Rows
  import opened Storage
  import opened Framing
  import opened TableRuns
  import opened TableState
  import opened TableSteps
  import Codec
  import Segment

  lemma {:induction false} SegmentsLoad(d: Disk, refs: seq<SegmentRef>)
    requires Present(d, refs)
    ensures LoadSegments(d, refs) == Ok(HandlesOf(d, refs))
    decreases |refs|
  {
    if refs != [] {
      assert refs[0].id in d.dirs;
      SegmentsLoad(d, refs[1..]);
      assert HandlesOf(d, refs) == [Handle(refs[0].id, d.dirs[refs[0].id].meta.value)] + HandlesOf(d, refs[1..]);
    }
  }

  /** Segments load exactly when every listed directory has its metadata; otherwise a file is missing. */
  lemma {:induction false} SegmentsLoadIff(d: Disk, refs: seq<SegmentRef>)
    ensures LoadSegments(d, refs).Ok? <==> Present(d, refs)
    ensures LoadSegments(d, refs).Err? ==> LoadSegments(d, refs) == Err(SegmentFailure(Segment.MissingFile))
    decreases |refs|
  {
    if refs != [] {
      SegmentsLoadIff(d, refs[1..]);
      assert forall i :: 1 <= i < |refs| ==> refs[i] == refs[1..][i - 1];
    }
  }

  ghost predicate AllDecode(schema: Schema, records: seq<WalRecord>, history: seq<RowBatch>) {
    |records| == |history|
    && forall i :: 0 <= i < |records| ==> Codec.Decoded(schema, records[i].payload) == Ok(history[i])
  }

  lemma {:induction false} RecordsRecover(schema: Schema, records: seq<WalRecord>, history: seq<RowBatch>)
    requires AllDecode(schema, records, history)
    ensures Recovered(schema, records) == Ok(history)
    decreases |records|
  {
    if records != [] {
      RecordsRecover(schema, records[1..], history[1..]);
      HeadTail(history);
    }
  }

  ghost predicate AllBuilderValid(schema: Schema, batches: seq<RowBatch>) {
    forall i :: 0 <= i < |batches| ==> BuilderValid(schema, batches[i])
  }

  /** Replaying batches appends their rows, in order. */
  lemma {:induction false} BatchesReplay(schema: Schema, active: RowBatch, batches: seq<RowBatch>) returns (b: RowBatch)
    requires BuilderValid(schema, active) && Rectangular(active)
    requires AllBuilderValid(schema, batches) && AllRectangular(batches)
    requires active.rowCount + |AllRows(batches)| < TWO_64
    ensures Replayed(active, batches) == Ok(b)
    ensures BuilderValid(schema, b) && Rectangular(b) && RowsOf(b) == RowsOf(active) + AllRows(batches)
    decreases |batches|
  {
    if batches == [] {
      b := active;
      assert RowsOf(active) + [] == RowsOf(active);
    } else {
      AppendBatchRows(schema, active, batches[0]);
      var grown := AppendBatch(active, batches[0]).0;
      BuilderValidIsRectangular(schema, grown);
      b := BatchesReplay(schema, grown, batches[1..]);
      Assoc(RowsOf(active), RowsOf(batches[0]), AllRows(batches[1..]));
    }
  }

  lemma HistoryDecodes(reading: Reading, schema: Schema, log: seq<byte>, records: seq<WalRecord>,
                       history: seq<RowBatch>, from: nat)
    requires reading.Logged(log, records, history) && DecodesAs(reading, schema) && from <= |records|
    ensures AllDecode(schema, records[from..], history[from..]) && AllBuilderValid(schema, history[from..])
  {
    var rs, bs := records[from..], history[from..];
    forall i | 0 <= i < |rs|
      ensures Codec.Decoded(schema, rs[i].payload) == Ok(bs[i]) && BuilderValid(schema, bs[i])
    {
      assert reading.wrote(records[from + i], history[from + i]);
    }
  }

  /** The log's part of opening. */
  lemma LogReplays(reading: Reading, schema: Schema, d: Disk, records: seq<WalRecord>, history: seq<RowBatch>,
                   sealed: seq<Handle>)
    returns (active: RowBatch)
    requires DecodesAs(reading, schema)
    requires reading.DiskOk(d, records, history) && |AllRows(history)| < TWO_64
    ensures ReplayLog(reading.format, schema, d.log, d.CurrentManifest(), sealed)
            == Ok(Memory(active, sealed, d.CurrentManifest(), |records| % TWO_64))
    ensures ActiveOk(schema, active, d.CurrentManifest().applied, history)
  {
    var applied := d.CurrentManifest().applied;
    reading.LoggedReads(d.log, records, history);
    HistoryDecodes(reading, schema, d.log, records, history, applied);
    RecordsRecover(schema, records[applied..], history[applied..]);
    HistoryParts(history, applied);
    BuilderValidIsRectangular(schema, EmptyBatch(schema));
    EmptyBatchRows(schema);
    active := BatchesReplay(schema, EmptyBatch(schema), history[applied..]);
    assert [] + AllRows(history[applied..]) == AllRows(history[applied..]);
  }

  lemma OpenedMemory(schema: Schema, d: Disk, m: Memory, history: seq<RowBatch>)
    requires m.manifest == d.CurrentManifest() && Present(d, m.manifest.sealed)
    requires m.sealed == HandlesOf(d, m.manifest.sealed)
    requires ActiveOk(schema, m.active, m.manifest.applied, history)
    ensures MemoryOk(schema, d.WithManifest(m.manifest), m, history)
  {
    assert HandlesOf(d.WithManifest(m.manifest), m.manifest.sealed) == m.sealed;
  }

  /** Opening once the segments are loaded. */
  lemma OpenRunParts(f: Format, schema: Schema, d: Disk, sealed: seq<Handle>)
    requires LoadSegments(d, d.CurrentManifest().sealed) == Ok(sealed)
    ensures var run, e := OpenRun(f, schema, d), d.WithManifest(d.CurrentManifest());
            && run == Opening([e], ReplayLog(f, schema, d.log, d.CurrentManifest(), sealed))
            && Final(d, run.states) == e
  {
  }

  lemma OpensAs(reading: Reading, schema: Schema, d: Disk, records: seq<WalRecord>, history: seq<RowBatch>)
    returns (m: Memory)
    requires DecodesAs(reading, schema)
    requires reading.DiskOk(d, records, history) && |AllRows(history)| < TWO_64
    ensures OpenRun(reading.format, schema, d) == Opening([d.WithManifest(d.CurrentManifest())], Ok(m))
    ensures MemoryOk(schema, d.WithManifest(d.CurrentManifest()), m, history)
    ensures m.nextSeqNo == |records| % TWO_64
  {
    var manifest := d.CurrentManifest();
    SegmentsLoad(d, manifest.sealed);
    var sealed := HandlesOf(d, manifest.sealed);
    OpenRunParts(reading.format, schema, d, sealed);
    var active := LogReplays(reading, schema, d, records, history, sealed);
    m := Memory(active, sealed, manifest, |records| % TWO_64);
    OpenedMemory(schema, d, m, history);
  }

  /** Opening a good disk succeeds and gives the memory its history calls for. */
  lemma OpenKeeps(reading: Reading, schema: Schema, d: Disk, records: seq<WalRecord>, history: seq<RowBatch>)
    requires DecodesAs(reading, schema)
    requires reading.DiskOk(d, records, history) && |AllRows(history)| < TWO_64
    ensures var run := OpenRun(reading.format, schema, d);
            && run.result.Ok?
            && AllDiskOk(reading, run.states, records, history)
            && MemoryOk(schema, Final(d, run.states), run.result.value, history)
  {
    reading.DiskFrame(d, d.WithManifest(d.CurrentManifest()), records, history);
    var m := OpensAs(reading, schema, d, records, history);
  }

  // ----- losing the unsynced end of the log -----

  /** What a crash may leave of a disk whose log holds `records`: the first k records, no fewer than
      were synced, and anything at all in directories that are not listed. */
  ghost predicate CutTo(f: Format, d: Disk, e: Disk, records: seq<WalRecord>, k: nat) {
    && k <= |records| && AllEncodable(records)
    && e.manifest == d.manifest && e.synced == d.synced
    && SameDirs(d, e, d.CurrentManifest().sealed)
    && e.log == f.LogOf(records[..k]) && d.synced <= |e.log|
  }

  lemma DurableSurvives(reading: Reading, d: Disk, e: Disk, records: seq<WalRecord>, durable: nat, k: nat)
    requires reading.AppliedIsDurable(d, durable, records) && CutTo(reading.format, d, e, records, k)
    ensures durable <= k && reading.AppliedIsDurable(e, durable, records[..k])
  {
    LogLengths(reading.format, records, durable, k);
    assert records[..k][..durable] == records[..durable];
  }

  /** After such a crash the disk stands for a prefix of the history that still covers all that was
      applied or durable. */
  lemma CutKeeps(reading: Reading, d: Disk, e: Disk, records: seq<WalRecord>, history: seq<RowBatch>, k: nat)
    requires reading.DiskOk(d, records, history) && CutTo(reading.format, d, e, records, k)
    ensures d.CurrentManifest().applied <= k
    ensures reading.DiskOk(e, records[..k], history[..k])
  {
    var m := d.CurrentManifest();
    DurableSurvives(reading, d, e, records, m.applied, k);
    reading.PrefixLogged(d.log, records, history, k);
    reading.ManifestFrame(d, e, m);
    reading.SameDirsSameRows(d, e, m.sealed);
    assert history[..k][..m.applied] == history[..m.applied];
  }

  lemma PrefixRows(history: seq<RowBatch>, k: nat)
    requires AllRectangular(history) && k <= |history|
    ensures |AllRows(history[..k])| <= |AllRows(history)|
  {
    HistoryParts(history, k);
  }
}
