/** The table's operations as the steps of whole runs. */
module Recovery {
  import opened Wrappers
  import opened Bytes
  import opened Batch
  import opened Segment
  import opened Storage
  import opened Sealing
  import opened Framing
  import opened TableRuns
  import opened TableState
  import opened TableSteps
  import opened CompactSteps
  import opened OpenSteps
  import opened Crashes
  import Codec

  function Outcomes(run: Outcome): Performance {
    Performance(run.states, Some(run.memory), run.failure)
  }

  function Opened(opening: Opening): Performance {
    match opening.result
    case Ok(m) => Performance(opening.states, Some(m), None)
    case Err(error) => Performance(opening.states, None, Some(error))
  }

  /** The run of an operation; without a process only opening does anything. */
  function Perform(f: Format, schema: Schema, w: World, op: Op): Performance
    requires schema.Valid()
  {
    if op.Open? then
      Opened(OpenRun(f, schema, w.disk))
    else if w.memory.None? then
      Performance([], None, None)
    else
      match op
      case Append(rows) => Outcomes(AppendRun(f, schema, w.disk, w.memory.value, rows))
      case Flush => Outcomes(FlushRun(f, schema, w.disk, w.memory.value))
      case Compact(ids) => Outcomes(CompactRun(schema, w.disk, w.memory.value, ids))
  }

  lemma OneStateKept(reading: Reading, schema: Schema, w: World, rows: RowBatch, run: Outcome)
    requires w.memory.Some? && |run.states| <= 1
    requires run.states == [] ==> MemoryOk(schema, w.disk, run.memory, w.history)
    requires run.states != [] ==>
               && Codec.Fits(rows)
               && reading.DiskOk(run.states[0], w.records + [RecordOf(w.memory.value, rows)], w.history + [rows])
               && MemoryOk(schema, run.states[0], run.memory, w.history + [rows])
    ensures RunKeeps(reading, schema, w, Op.Append(rows), Outcomes(run))
  {
    var op := Op.Append(rows);
    if run.states != [] {
      assert Logs(w, op, 1) == (w.records + [RecordOf(w.memory.value, rows)], w.history + [rows]);
      assert Final(w.disk, run.states) == run.states[0];
      forall n | 0 < n <= |run.states|
        ensures reading.DiskOk(run.states[n - 1], Logs(w, op, n).0, Logs(w, op, n).1)
      {
        assert n == 1;
      }
    }
  }

  lemma AppendKept(reading: Reading, schema: Schema, w: World, rows: RowBatch)
    requires schema.Valid() && WritesAs(reading, schema)
    requires Safe(reading, schema, w) && Allowed(schema, w, Op.Append(rows))
    ensures var run := AppendRun(reading.format, schema, w.disk, w.memory.value, rows);
            RunKeeps(reading, schema, w, Op.Append(rows), Outcomes(run))
  {
    AppendKeeps(reading, schema, w.disk, w.memory.value, w.records, w.history, rows);
    var run := AppendRun(reading.format, schema, w.disk, w.memory.value, rows);
    OneStateKept(reading, schema, w, rows, run);
  }

  lemma StatesKept(reading: Reading, w: World, op: Op, states: seq<Disk>)
    requires !op.Append? && AllDiskOk(reading, states, w.records, w.history)
    ensures forall n :: 0 < n <= |states| ==> reading.DiskOk(states[n - 1], Logs(w, op, n).0, Logs(w, op, n).1)
  {
  }

  lemma FlushKept(reading: Reading, schema: Schema, w: World)
    requires schema.Valid() && SealsAs(reading, schema)
    requires Safe(reading, schema, w) && Allowed(schema, w, Flush)
    ensures RunKeeps(reading, schema, w, Flush, Outcomes(FlushRun(reading.format, schema, w.disk, w.memory.value)))
  {
    FlushKeeps(reading, schema, w.disk, w.memory.value, w.records, w.history);
    StatesKept(reading, w, Flush, FlushRun(reading.format, schema, w.disk, w.memory.value).states);
  }

  lemma CompactKept(reading: Reading, schema: Schema, w: World, ids: seq<u64>)
    requires schema.Valid() && SealsAs(reading, schema) && ReadsAs(reading, schema)
    requires Safe(reading, schema, w) && Allowed(schema, w, Compact(ids))
    ensures RunKeeps(reading, schema, w, Compact(ids), Outcomes(CompactRun(schema, w.disk, w.memory.value, ids)))
  {
    CompactKeeps(reading, schema, w.disk, w.memory.value, ids, w.records, w.history);
    StatesKept(reading, w, Compact(ids), CompactRun(schema, w.disk, w.memory.value, ids).states);
  }

  lemma OpenKept(reading: Reading, schema: Schema, w: World)
    requires schema.Valid() && DecodesAs(reading, schema)
    requires Safe(reading, schema, w) && Allowed(schema, w, Open)
    ensures RunKeeps(reading, schema, w, Open, Opened(OpenRun(reading.format, schema, w.disk)))
  {
    OpenKeeps(reading, schema, w.disk, w.records, w.history);
    StatesKept(reading, w, Open, OpenRun(reading.format, schema, w.disk).states);
  }

  // ----- the sync mark -----

  ghost predicate AllSynced(states: seq<Disk>, n: nat) {
    forall i :: 0 <= i < |states| ==> states[i].synced == n
  }

  lemma SealSynced(d: Disk, schema: Schema, id: u64, b: RowBatch)
    requires schema.Valid()
    ensures var states := SealRun(d, schema, id, b).states;
            AllSynced(states, d.synced) && Final(d, states).synced == d.synced && Final(d, states).log == d.log
  {
    SealTouchesOneDir(d, schema, id, b);
  }

  lemma FlushSynced(f: Format, schema: Schema, d: Disk, m: Memory)
    requires schema.Valid()
    ensures AllSynced(FlushRun(f, schema, d, m).states, |d.log|)
  {
    SealSynced(d.Synced(), schema, m.manifest.nextId, m.active);
  }

  lemma CompactSynced(schema: Schema, d: Disk, m: Memory, ids: seq<u64>)
    requires schema.Valid()
    ensures AllSynced(CompactRun(schema, d, m, ids).states, d.synced)
  {
    var combined := Combine(schema, d, m.sealed, Requested(ids), EmptyBatch(schema));
    if combined.Ok? {
      var seal := SealRun(d, schema, m.manifest.nextId, combined.value);
      SealSynced(d, schema, m.manifest.nextId, combined.value);
      ListReplacedSynced(d, m, Requested(ids), seal);
    }
  }

  lemma ListReplacedSynced(d: Disk, m: Memory, selected: set<u64>, seal: SegmentSeal)
    requires AllSynced(seal.states, d.synced) && Final(d, seal.states).synced == d.synced
    ensures AllSynced(ListReplaced(d, m, selected, seal).states, d.synced)
  {
    if seal.result.Ok? && m.manifest.nextId + 1 < TWO_64 {
      ListReplacedParts(d, m, selected, seal);
      var listed := Final(d, seal.states).WithManifest(ListReplaced(d, m, selected, seal).memory.manifest);
      RemovalsLose(listed, SelectedDirs(m.sealed, selected));
    }
  }

  /** The durable part of the log never shrinks. */
  lemma SyncMarkMovesUp(f: Format, schema: Schema, w: World, op: Op, n: nat)
    requires schema.Valid() && Allowed(schema, w, op) && w.disk.synced <= |w.disk.log|
    requires 0 < n <= |Perform(f, schema, w, op).states|
    ensures w.disk.synced <= Perform(f, schema, w, op).states[n - 1].synced
  {
    match op {
      case Append(_) =>
      case Flush => FlushSynced(f, schema, w.disk, w.memory.value);
      case Compact(ids) => CompactSynced(schema, w.disk, w.memory.value, ids);
      case Open =>
    }
  }

  lemma PerformKept(reading: Reading, schema: Schema, w: World, op: Op)
    requires schema.Valid() && Faithful(reading, schema) && Safe(reading, schema, w) && Allowed(schema, w, op)
    ensures RunKeeps(reading, schema, w, op, Perform(reading.format, schema, w, op))
  {
    match op {
      case Append(rows) => AppendKept(reading, schema, w, rows);
      case Flush => FlushKept(reading, schema, w);
      case Compact(ids) => CompactKept(reading, schema, w, ids);
      case Open => OpenKept(reading, schema, w);
    }
  }

  lemma PerformKeepsMark(f: Format, schema: Schema, w: World, op: Op)
    requires schema.Valid() && Allowed(schema, w, op) && w.disk.synced <= |w.disk.log|
    ensures MarkKept(w, Perform(f, schema, w, op))
  {
    forall i | 0 <= i < |Perform(f, schema, w, op).states|
      ensures w.disk.synced <= Perform(f, schema, w, op).states[i].synced
    {
      SyncMarkMovesUp(f, schema, w, op, i + 1);
    }
  }


  // ----- the table as a machine -----

  ghost function Performer(f: Format, schema: Schema): (World, Op) -> Performance {
    (w: World, op: Op) => if schema.Valid() then Perform(f, schema, w, op) else Performance([], w.memory, None)
  }

  ghost function TableMachine(f: Format, schema: Schema): Machine {
    Machine(f, schema, Performer(f, schema))
  }

  /** The table's operations keep what its disk and memory stand for. */
  lemma TableWorks(reading: Reading, schema: Schema)
    requires schema.Valid() && Faithful(reading, schema)
    ensures Works(reading, TableMachine(reading.format, schema))
  {
    forall w: World, op: Op | Safe(reading, schema, w) && Allowed(schema, w, op)
      ensures RunKeeps(reading, schema, w, op, Perform(reading.format, schema, w, op))
      ensures MarkKept(w, Perform(reading.format, schema, w, op))
    {
      PerformKept(reading, schema, w, op);
      PerformKeepsMark(reading.format, schema, w, op);
    }
    var machine := TableMachine(reading.format, schema);
    assert forall w: World, op: Op :: machine.perform(w, op) == Perform(reading.format, schema, w, op);
  }
}
