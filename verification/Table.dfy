/** The table's methods, each against the run it performs. */
module Table {
  import opened Wrappers
  import opened Bytes
  import opened Batch
  import opened Segment
  import opened Rows
  import opened Storage
  import opened Framing
  import opened Sealing
  import opened TableRuns
  import Scan
  import Payload
  import Query
  import Wal

  /** The open log file of a table. */
  class WalWriter {
    const volume: Volume
    var nextSeqNo: u64

    constructor (volume: Volume, nextSeqNo: u64)
      ensures this.volume == volume && this.nextSeqNo == nextSeqNo
    {
      this.volume, this.nextSeqNo := volume, nextSeqNo;
    }

    /** The record's sequence number, or the error. */
    method Append(payload: seq<byte>) returns (res: Result<u64, WalError>)
      modifies this, volume
      ensures var (states, next, error) := WalAppend(Wal.Log(), old(volume.disk), old(nextSeqNo), payload);
              && res == (if error.Some? then Err(error.value) else Ok(old(nextSeqNo)))
              && nextSeqNo == next
              && volume.trace == old(volume.trace) + states
              && volume.disk == Final(old(volume.disk), states)
    {
      assert volume.trace + [] == volume.trace;
      var seqNo := nextSeqNo;
      if nextSeqNo + 1 >= TWO_64 {
        return Err(SequenceOverflow);
      }
      nextSeqNo := nextSeqNo + 1;
      var encoded := Wal.Encode(WalRecord(seqNo, payload));
      if encoded.Err? {
        return Err(encoded.error);
      }
      volume.AppendLog(encoded.value);
      return Ok(seqNo);
    }
  }

  class Table {
    const schema: Schema
    const volume: Volume
    const wal: WalWriter
    var active: BatchBuffer
    var sealed: seq<Handle>
    var manifest: Manifest

    ghost predicate Valid()
      reads this
    {
      schema.Valid() && wal.volume == volume
    }

    function Memory(): Memory
      reads this, active, wal
    {
      TableRuns.Memory(active.Value(), sealed, manifest, wal.nextSeqNo)
    }

    constructor (schema: Schema, volume: Volume, m: Memory)
      requires schema.Valid()
      ensures Valid() && this.schema == schema && this.volume == volume && Memory() == m
      ensures fresh(wal) && fresh(active)
    {
      this.schema, this.volume := schema, volume;
      this.wal := new WalWriter(volume, m.nextSeqNo);
      this.active := new BatchBuffer(m.active);
      this.sealed, this.manifest := m.sealed, m.manifest;
    }

    /** What a method must leave: the memory of the run, and its states on disk. */
    twostate predicate Performed(new run: Outcome)
      reads this, active, wal, volume
    {
      && Valid()
      && Memory() == run.memory
      && volume.trace == old(volume.trace) + run.states
      && volume.disk == Final(old(volume.disk), run.states)
    }

    /** `append`: the number of rows appended, or the failure of the run. */
    method Append(rows: RowBatch) returns (res: Result<u64, TableError>)
      requires Valid()
      requires |rows.columns| < TWO_64
      requires forall i :: 0 <= i < |rows.columns| ==> |rows.columns[i].data.values| < TWO_64
      modifies active, wal, volume
      ensures var run := AppendRun(Wal.Log(), schema, old(volume.disk), old(Memory()), rows);
              && Performed(run)
              && res == if run.failure.Some? then Err(run.failure.value) else Ok(rows.rowCount)
    {
      assert volume.trace + [] == volume.trace;
      var invalid := ValidateRows(schema, rows);
      if invalid.Some? {
        return Err(invalid.value);
      }
      var payload := Payload.EncodeBatch(rows);
      if payload.Err? {
        return Err(BatchTooLarge(payload.error.len));
      }
      var logged := wal.Append(payload.value);
      if logged.Err? {
        return Err(WalFailure(logged.error));
      }
      var mismatch := active.Append(rows);
      if mismatch.Some? {
        return Err(BatchFailure(mismatch.value));
      }
      return Ok(rows.rowCount);
    }

    /** `scan_time_range` on the table's own segments and active rows. */
    method ScanTimeRange(start: i64, end: i64, avx: bool) returns (res: Result<Scan.ScanData, Query.QueryError>)
      requires Valid() && BuilderValid(schema, active.Value())
      ensures var snapshot := SnapshotOf(schema, volume.disk, Memory());
              snapshot.Valid() ==> Query.TimeAnswer(snapshot, start, end, res)
    {
      res := Query.ScanTimeRange(SnapshotOf(schema, volume.disk, Memory()), start, end, avx);
    }

    /** `scan_where` on the table's own segments and active rows. */
    method ScanWhere(start: i64, end: i64, p: Scan.Predicate, avx: bool)
      returns (res: Result<Scan.ScanData, Query.QueryError>)
      requires Valid() && BuilderValid(schema, active.Value()) && p.Exact()
      ensures var snapshot := SnapshotOf(schema, volume.disk, Memory());
              snapshot.Valid() ==> Query.WhereAnswer(snapshot, start, end, p, res)
    {
      res := Query.ScanWhere(SnapshotOf(schema, volume.disk, Memory()), start, end, p, avx);
    }

    method Flush() returns (failure: Option<TableError>)
      requires Valid()
      modifies this, volume
      ensures active == old(active) || fresh(active)
      ensures var run := FlushRun(Wal.Log(), schema, old(volume.disk), old(Memory()));
              Performed(run) && failure == run.failure
    {
      volume.SyncLog();
      ghost var synced := volume.disk;
      if active.rowCount == 0 {
        return None;
      }
      ghost var rest := SealActive(Wal.Log(), schema, synced, Memory());
      failure := SealRows();
      Assoc(old(volume.trace), [synced], rest.states);
      FinalAppend(old(volume.disk), [synced], rest.states);
    }

    method SealRows() returns (failure: Option<TableError>)
      requires Valid()
      modifies this, volume
      ensures active == old(active) || fresh(active)
      ensures var run := SealActive(Wal.Log(), schema, old(volume.disk), old(Memory()));
              Performed(run) && failure == run.failure
    {
      var id := manifest.nextId;
      var segment := SealBatch(volume, schema, id, active.Value());
      if segment.Err? {
        return Some(SegmentFailure(segment.error));
      }
      ghost var seal := SealRun(old(volume.disk), schema, id, active.Value());
      failure := ListSegment(segment.value, old(volume.disk), seal, old(volume.trace));
    }

    /** Listing the sealed active rows, on the disk the sealing has left. */
    method ListSegment(meta: SegmentMeta, ghost d: Disk, ghost seal: SegmentSeal, ghost before: seq<Disk>)
      returns (failure: Option<TableError>)
      requires Valid() && seal.result == Ok(meta)
      requires volume.disk == Final(d, seal.states) && volume.trace == before + seal.states
      modifies this, volume
      ensures active == old(active) || fresh(active)
      ensures var run := ListSealed(Wal.Log(), schema, d, old(Memory()), seal);
              && Valid() && Memory() == run.memory && failure == run.failure
              && volume.trace == before + run.states && volume.disk == Final(d, run.states)
    {
      var id := manifest.nextId;
      if id + 1 >= TWO_64 {
        return Some(SegmentIdOverflow);
      }
      manifest := manifest.(nextId := id + 1);
      manifest := manifest.(sealed := manifest.sealed + [RefOf(meta)]);
      var records := Wal.Records(volume.disk.log);
      if records.Err? {
        return Some(WalFailure(records.error));
      }
      manifest := manifest.(applied := |records.value|);
      volume.StoreManifest(manifest);
      Assoc(before, seal.states, [volume.disk]);
      FinalAppend(d, seal.states, [volume.disk]);
      sealed := sealed + [Handle(id, meta)];
      active := new BatchBuffer(EmptyBatch(schema));
      return None;
    }

    method Compact(ids: seq<u64>) returns (failure: Option<TableError>)
      requires Valid()
      modifies this, volume
      ensures active == old(active)
      ensures var run := CompactRun(schema, old(volume.disk), old(Memory()), ids);
              Performed(run) && failure == run.failure
    {
      assert volume.trace + [] == volume.trace;
      var selected := Requested(ids);
      if ids == [] {
        return None;
      }
      var missing := selected - IdsOf(sealed);
      if missing != {} {
        return Some(UnknownSegments(missing));
      }
      var combined, insertAt, oldDirs := CombineSelected(schema, volume.disk, sealed, selected);
      if combined.Err? {
        return Some(combined.error);
      }
      if combined.value.rowCount == 0 {
        return None;
      }
      failure := ReplaceSegments(selected, combined.value, insertAt, oldDirs);
    }

    method ReplaceSegments(selected: set<u64>, combined: RowBatch, insertAt: nat, oldDirs: seq<u64>)
      returns (failure: Option<TableError>)
      requires Valid() && FirstSelected(sealed, selected, insertAt) && oldDirs == SelectedDirs(sealed, selected)
      modifies this, volume
      ensures active == old(active)
      ensures var run := CompactInto(schema, old(volume.disk), old(Memory()), selected, combined);
              Performed(run) && failure == run.failure
    {
      var id := manifest.nextId;
      var replacement := SealBatch(volume, schema, id, combined);
      if replacement.Err? {
        return Some(SegmentFailure(replacement.error));
      }
      ghost var seal := SealRun(old(volume.disk), schema, id, combined);
      failure := ListReplacement(selected, replacement.value, insertAt, oldDirs, old(volume.disk), seal,
                                 old(volume.trace));
    }

    /** Listing the replacement in place of what it replaces, and removing that. */
    method ListReplacement(selected: set<u64>, meta: SegmentMeta, insertAt: nat, oldDirs: seq<u64>,
                           ghost d: Disk, ghost seal: SegmentSeal, ghost before: seq<Disk>)
      returns (failure: Option<TableError>)
      requires Valid() && FirstSelected(sealed, selected, insertAt) && oldDirs == SelectedDirs(sealed, selected)
      requires seal.result == Ok(meta)
      requires volume.disk == Final(d, seal.states) && volume.trace == before + seal.states
      modifies this, volume
      ensures active == old(active)
      ensures var run := ListReplaced(d, old(Memory()), selected, seal);
              && Valid() && Memory() == run.memory && failure == run.failure
              && volume.trace == before + run.states && volume.disk == Final(d, run.states)
    {
      var id := manifest.nextId;
      if id + 1 >= TWO_64 {
        return Some(SegmentIdOverflow);
      }
      manifest := manifest.(nextId := id + 1);
      var newSealed := ReplaceSelected(sealed, selected, insertAt, Handle(id, meta));
      manifest := manifest.(sealed := RefsOf(newSealed));
      volume.StoreManifest(manifest);
      ghost var listed := volume.disk;
      sealed := newSealed;
      RemoveSegments(volume, oldDirs);
      Assoc(before, seal.states, [listed]);
      Assoc(before, seal.states + [listed], RemoveDirs(listed, oldDirs));
      FinalAppend(d, seal.states, [listed]);
      FinalAppend(d, seal.states + [listed], RemoveDirs(listed, oldDirs));
      return None;
    }
  }

  /** The first selected place, or past the end when nothing is selected. */
  ghost predicate FirstSelected(sealed: seq<Handle>, selected: set<u64>, at: nat) {
    && (at < |sealed| ==> sealed[at].meta.id in selected)
    && forall i :: 0 <= i < |sealed| && i < at ==> sealed[i].meta.id !in selected
  }

  lemma {:induction false} SelectedDirsAppend(a: seq<Handle>, b: seq<Handle>, selected: set<u64>)
    ensures SelectedDirs(a + b, selected) == SelectedDirs(a, selected) + SelectedDirs(b, selected)
    decreases |a|
  {
    if a == [] {
      assert a + b == b;
    } else {
      assert (a + b)[1..] == a[1..] + b;
      SelectedDirsAppend(a[1..], b, selected);
      var first := if a[0].meta.id in selected then [a[0].dir] else [];
      Assoc(first, SelectedDirs(a[1..], selected), SelectedDirs(b, selected));
    }
  }

  /** The loop that reads the selected segments. */
  method CombineSelected(schema: Schema, d: Disk, sealed: seq<Handle>, selected: set<u64>)
    returns (combined: Result<RowBatch, TableError>, insertAt: nat, oldDirs: seq<u64>)
    ensures combined == Combine(schema, d, sealed, selected, EmptyBatch(schema))
    ensures combined.Ok? ==> FirstSelected(sealed, selected, insertAt) && oldDirs == SelectedDirs(sealed, selected)
  {
    var buffer := new BatchBuffer(EmptyBatch(schema));
    insertAt, oldDirs := |sealed|, [];
    assert sealed[0..] == sealed;
    for k := 0 to |sealed|
      invariant fresh(buffer)
      invariant Combine(schema, d, sealed, selected, EmptyBatch(schema))
                == Combine(schema, d, sealed[k..], selected, buffer.Value())
      invariant oldDirs == SelectedDirs(sealed[..k], selected)
      invariant if insertAt < k then FirstSelected(sealed, selected, insertAt)
                else insertAt == |sealed| && forall i :: 0 <= i < k ==> sealed[i].meta.id !in selected
    {
      assert sealed[k..][0] == sealed[k] && sealed[k..][1..] == sealed[k + 1..];
      assert sealed[..k + 1] == sealed[..k] + [sealed[k]];
      SelectedDirsAppend(sealed[..k], [sealed[k]], selected);
      assert [sealed[k]][1..] == [];
      if sealed[k].meta.id in selected {
        if insertAt == |sealed| {
          insertAt := k;
        }
        var batch := ReadBatch(schema, sealed[k].meta, FilesOf(d, sealed[k].dir));
        if batch.Err? {
          return Err(SegmentFailure(batch.error)), insertAt, oldDirs;
        }
        var mismatch := buffer.Append(batch.value);
        if mismatch.Some? {
          return Err(BatchFailure(mismatch.value)), insertAt, oldDirs;
        }
        oldDirs := oldDirs + [sealed[k].dir];
      }
    }
    assert sealed[..|sealed|] == sealed;
    combined := Ok(buffer.Value());
  }

  lemma ReplacedOne(h: Handle, rest: seq<Handle>, selected: set<u64>, slot: Option<Handle>)
    ensures Replaced([h] + rest, selected, slot)
            == if h.meta.id !in selected then [h] + Replaced(rest, selected, slot)
               else (if slot.Some? then [slot.value] else []) + Replaced(rest, selected, None)
  {
    assert ([h] + rest)[1..] == rest;
  }

  /** The loop that puts the replacement in place. */
  method ReplaceSelected(sealed: seq<Handle>, selected: set<u64>, insertAt: nat,
                         replacement: Handle) returns (newSealed: seq<Handle>)
    requires FirstSelected(sealed, selected, insertAt)
    ensures newSealed == Replaced(sealed, selected, Some(replacement))
  {
    var slot := Some(replacement);
    newSealed := [];
    assert sealed[0..] == sealed;
    for k := 0 to |sealed|
      invariant slot == if k <= insertAt then Some(replacement) else None
      invariant newSealed + Replaced(sealed[k..], selected, slot) == Replaced(sealed, selected, Some(replacement))
    {
      assert sealed[k..] == [sealed[k]] + sealed[k + 1..];
      ReplacedOne(sealed[k], sealed[k + 1..], selected, slot);
      if k == insertAt {
        Assoc(newSealed, [replacement], Replaced(sealed[k + 1..], selected, None));
        newSealed := newSealed + [slot.value];
        slot := None;
      }
      if sealed[k].meta.id !in selected {
        Assoc(newSealed, [sealed[k]], Replaced(sealed[k + 1..], selected, slot));
        newSealed := newSealed + [sealed[k]];
      }
    }
    assert newSealed + [] == newSealed;
  }

  method RemoveSegments(volume: Volume, dirs: seq<u64>)
    modifies volume
    ensures volume.trace == old(volume.trace) + RemoveDirs(old(volume.disk), dirs)
    ensures volume.disk == Final(old(volume.disk), RemoveDirs(old(volume.disk), dirs))
  {
    ghost var d, all := volume.disk, RemoveDirs(volume.disk, dirs);
    ghost var states: seq<Disk> := [];
    assert dirs[0..] == dirs;
    assert volume.trace + [] == volume.trace;
    for k := 0 to |dirs|
      invariant volume.disk == Final(d, states) && volume.trace == old(volume.trace) + states
      invariant all == states + RemoveDirs(volume.disk, dirs[k..])
    {
      assert dirs[k..][0] == dirs[k] && dirs[k..][1..] == dirs[k + 1..];
      if dirs[k] in volume.disk.dirs {
        ghost var before := states;
        volume.RemoveDir(dirs[k]);
        states := states + [volume.disk];
        Assoc(before, [volume.disk], RemoveDirs(volume.disk, dirs[k + 1..]));
        Assoc(old(volume.trace), before, [volume.disk]);
      }
    }
    assert states + [] == states;
  }

  method ValidateRows(schema: Schema, rows: RowBatch) returns (failure: Option<TableError>)
    ensures failure == Validate(schema, rows)
  {
    if |schema.columns| != |rows.columns| {
      return Some(BatchFailure(SchemaMismatch));
    }
    var defs := schema.columns;
    assert defs[0..] == defs;
    for k := 0 to |defs|
      invariant Validate(schema, rows) == ValidateColumns(defs[k..], rows)
    {
      assert defs[k..][0] == defs[k] && defs[k..][1..] == defs[k + 1..];
      var data := FindColumn(rows.columns, defs[k].name);
      if data.None? {
        return Some(MissingTableColumn(defs[k].name));
      }
      if data.value.dtype != defs[k].dtype {
        return Some(BatchFailure(BatchError.ColumnTypeMismatch(defs[k].name, defs[k].dtype)));
      }
    }
    return None;
  }

  // ----- opening -----

  method LoadAll(d: Disk, refs: seq<SegmentRef>) returns (res: Result<seq<Handle>, TableError>)
    ensures res == LoadSegments(d, refs)
  {
    var sealed: seq<Handle> := [];
    assert refs[0..] == refs;
    ghost var whole := LoadSegments(d, refs);
    assert whole.Ok? ==> [] + whole.value == whole.value;
    for k := 0 to |refs|
      invariant match LoadSegments(d, refs[k..])
                case Err(error) => whole == Err(error)
                case Ok(rest) => whole == Ok(sealed + rest)
    {
      assert refs[k..][0] == refs[k] && refs[k..][1..] == refs[k + 1..];
      if refs[k].id !in d.dirs || d.dirs[refs[k].id].meta.None? {
        return Err(SegmentFailure(MissingFile));
      }
      ghost var before := sealed;
      sealed := sealed + [Handle(refs[k].id, d.dirs[refs[k].id].meta.value)];
      ghost var rest := LoadSegments(d, refs[k + 1..]);
      if rest.Ok? {
        Assoc(before, [sealed[|before|]], rest.value);
      }
    }
    assert sealed + [] == sealed;
    return Ok(sealed);
  }

  method DecodeAll(schema: Schema, records: seq<WalRecord>) returns (res: Result<seq<RowBatch>, TableError>)
    ensures res == Recovered(schema, records)
  {
    var batches: seq<RowBatch> := [];
    assert records[0..] == records;
    ghost var whole := Recovered(schema, records);
    assert whole.Ok? ==> [] + whole.value == whole.value;
    for k := 0 to |records|
      invariant match Recovered(schema, records[k..])
                case Err(error) => whole == Err(error)
                case Ok(rest) => whole == Ok(batches + rest)
    {
      assert records[k..][0] == records[k] && records[k..][1..] == records[k + 1..];
      var batch := Payload.DecodeBatch(schema, records[k].payload);
      if batch.Err? {
        return Err(DecodeFailure(batch.error));
      }
      ghost var before := batches;
      batches := batches + [batch.value];
      ghost var rest := Recovered(schema, records[k + 1..]);
      if rest.Ok? {
        Assoc(before, [batch.value], rest.value);
      }
    }
    assert batches + [] == batches;
    return Ok(batches);
  }

  method ReplayAll(active: BatchBuffer, batches: seq<RowBatch>) returns (failure: Option<TableError>)
    modifies active
    ensures Replayed(old(active.Value()), batches)
            == if failure.Some? then Err(failure.value) else Ok(active.Value())
  {
    assert batches[0..] == batches;
    for k := 0 to |batches|
      invariant Replayed(old(active.Value()), batches) == Replayed(active.Value(), batches[k..])
    {
      assert batches[k..][0] == batches[k] && batches[k..][1..] == batches[k + 1..];
      var mismatch := active.Append(batches[k]);
      if mismatch.Some? {
        return Some(BatchFailure(mismatch.value));
      }
    }
    return None;
  }

  /** `Table::open` */
  method Open(volume: Volume, schema: Schema) returns (res: Result<Table, TableError>)
    requires schema.Valid()
    modifies volume
    ensures var opening := OpenRun(Wal.Log(), schema, old(volume.disk));
            && volume.trace == old(volume.trace) + opening.states
            && volume.disk == Final(old(volume.disk), opening.states)
            && (match opening.result
                case Err(error) => res == Err(error)
                case Ok(m) =>
                  && res.Ok? && fresh(res.value) && res.value.Valid()
                  && res.value.schema == schema && res.value.volume == volume && res.value.Memory() == m)
  {
    assert volume.trace + [] == volume.trace;
    var manifest := volume.disk.CurrentManifest();
    var sealed := LoadAll(volume.disk, manifest.sealed);
    if sealed.Err? {
      return Err(sealed.error);
    }
    volume.StoreManifest(manifest);
    var records := Wal.Records(volume.disk.log);
    if records.Err? {
      return Err(WalFailure(records.error));
    }
    var batches := DecodeAll(schema, Skip(records.value, manifest.applied));
    if batches.Err? {
      return Err(batches.error);
    }
    var active := new BatchBuffer(EmptyBatch(schema));
    var mismatch := ReplayAll(active, batches.value);
    if mismatch.Some? {
      return Err(mismatch.value);
    }
    var table := new Table(schema, volume, Memory(active.Value(), sealed.value, manifest, |records.value| % TWO_64));
    return Ok(table);
  }
}
