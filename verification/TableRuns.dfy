/** The table: what each operation does to memory and, step by step, to the disk. */
module TableRuns {
  import opened Wrappers
  import opened Bytes
  import opened Batch
  import opened Segment
  import opened Storage
  import opened Framing
  import Codec
  import Query
  import opened Sealing

  datatype TableError =
    | SegmentFailure(segment: SegmentError)
    | WalFailure(wal: WalError)
    | BatchFailure(batch: BatchError)
    | DecodeFailure(codec: Codec.CodecError)
    | BatchTooLarge(len: nat)
    | MissingTableColumn(column: Name)
    | UnknownSegments(ids: set<u64>)
    | SegmentIdOverflow

  /** A loaded segment: the directory the manifest named, and the metadata found in it. */
  datatype Handle = Handle(dir: u64, meta: SegmentMeta)

  /** A table in memory. */
  datatype Memory = Memory(active: RowBatch, sealed: seq<Handle>, manifest: Manifest, nextSeqNo: u64)

  /** What an operation leaves behind: every disk state in turn, the memory, and the failure, if any. */
  datatype Outcome = Outcome(states: seq<Disk>, memory: Memory, failure: Option<TableError>)

  // ----- append -----

  /** `validate_batch_matches_schema`; the order of the columns is not looked at. */
  function ValidateColumns(defs: seq<ColumnDef>, rows: RowBatch): Option<TableError> {
    if defs == [] then None
    else
      var data := FindColumn(rows.columns, defs[0].name);
      if data.None? then Some(MissingTableColumn(defs[0].name))
      else if data.value.dtype != defs[0].dtype then
        Some(BatchFailure(BatchError.ColumnTypeMismatch(defs[0].name, defs[0].dtype)))
      else ValidateColumns(defs[1..], rows)
  }

  function Validate(schema: Schema, rows: RowBatch): Option<TableError> {
    if |schema.columns| != |rows.columns| then Some(BatchFailure(SchemaMismatch))
    else ValidateColumns(schema.columns, rows)
  }

  /** `WalWriter::append`: the sequence number is used up even when the payload is refused. */
  function WalAppend(f: Format, d: Disk, nextSeqNo: u64, payload: seq<byte>): (r: (seq<Disk>, u64, Option<WalError>)) {
    if nextSeqNo + 1 >= TWO_64 then
      ([], nextSeqNo, Some(SequenceOverflow))
    else if |payload| >= TWO_32 then
      ([], nextSeqNo + 1, Some(PayloadTooLarge(|payload|)))
    else
      ([d.WithLog(f.Encoded(WalRecord(nextSeqNo, payload)))], nextSeqNo + 1, None)
  }

  function AppendRun(f: Format, schema: Schema, d: Disk, m: Memory, rows: RowBatch): Outcome {
    var invalid := Validate(schema, rows);
    if invalid.Some? then
      Outcome([], m, invalid)
    else if !Codec.Fits(rows) then
      Outcome([], m, Some(BatchTooLarge(Codec.TooLong(rows).value)))
    else
      var (states, nextSeqNo, failure) := WalAppend(f, d, m.nextSeqNo, Codec.Encoded(rows));
      if failure.Some? then
        Outcome(states, m.(nextSeqNo := nextSeqNo), Some(WalFailure(failure.value)))
      else
        var (active, failure) := AppendBatch(m.active, rows);
        Outcome(states, m.(nextSeqNo := nextSeqNo, active := active),
          if failure.Some? then Some(BatchFailure(failure.value)) else None)
  }

  // ----- flush -----

  /** Listing a sealed segment; the whole log counts as applied. */
  function ListSealed(f: Format, schema: Schema, d: Disk, m: Memory, seal: SegmentSeal): Outcome {
    var id := m.manifest.nextId;
    if seal.result.Err? then
      Outcome(seal.states, m, Some(SegmentFailure(seal.result.error)))
    else if id + 1 >= TWO_64 then
      Outcome(seal.states, m, Some(SegmentIdOverflow))
    else
      var listed := m.manifest.(nextId := id + 1, sealed := m.manifest.sealed + [RefOf(seal.result.value)]);
      var last := Final(d, seal.states);
      match f.ReadLog(last.log)
      case Err(error) => Outcome(seal.states, m.(manifest := listed), Some(WalFailure(error)))
      case Ok(records) =>
        var manifest := listed.(applied := |records|);
        Outcome(seal.states + [last.WithManifest(manifest)],
          Memory(EmptyBatch(schema), m.sealed + [Handle(id, seal.result.value)], manifest, m.nextSeqNo), None)
  }

  /** Sealing the active rows into the next segment and listing it. */
  function SealActive(f: Format, schema: Schema, d: Disk, m: Memory): Outcome
    requires schema.Valid()
  {
    ListSealed(f, schema, d, m, SealRun(d, schema, m.manifest.nextId, m.active))
  }

  /** The log is synced first; then the active rows, if any, are sealed. */
  function FlushRun(f: Format, schema: Schema, d: Disk, m: Memory): Outcome
    requires schema.Valid()
  {
    var synced := d.Synced();
    if m.active.rowCount == 0 then
      Outcome([synced], m, None)
    else
      var rest := SealActive(f, schema, synced, m);
      rest.(states := [synced] + rest.states)
  }

  // ----- compact -----

  function FilesOf(d: Disk, dir: u64): map<Name, seq<byte>> {
    if dir in d.dirs then d.dirs[dir].files else map[]
  }

  function IdsOf(sealed: seq<Handle>): set<u64> {
    set i | 0 <= i < |sealed| :: sealed[i].meta.id
  }

  /** The selected segments' batches, appended in manifest order. */
  function Combine(schema: Schema, d: Disk, sealed: seq<Handle>, selected: set<u64>, soFar: RowBatch)
    : Result<RowBatch, TableError>
    decreases |sealed|
  {
    if sealed == [] then
      Ok(soFar)
    else if sealed[0].meta.id !in selected then
      Combine(schema, d, sealed[1..], selected, soFar)
    else
      match Contents(schema, sealed[0].meta, FilesOf(d, sealed[0].dir))
      case Err(error) => Err(SegmentFailure(error))
      case Ok(b) =>
        var (grown, failure) := AppendBatch(soFar, b);
        if failure.Some? then Err(BatchFailure(failure.value))
        else Combine(schema, d, sealed[1..], selected, grown)
  }

  /** The segment list with the replacement at the first selected place and the selected gone. */
  function Replaced(sealed: seq<Handle>, selected: set<u64>, replacement: Option<Handle>): seq<Handle> {
    if sealed == [] then []
    else if sealed[0].meta.id !in selected then
      [sealed[0]] + Replaced(sealed[1..], selected, replacement)
    else
      (if replacement.Some? then [replacement.value] else []) + Replaced(sealed[1..], selected, None)
  }

  function SelectedDirs(sealed: seq<Handle>, selected: set<u64>): seq<u64> {
    if sealed == [] then []
    else (if sealed[0].meta.id in selected then [sealed[0].dir] else []) + SelectedDirs(sealed[1..], selected)
  }

  /** Removing directories one by one; one that is already gone is skipped. */
  function RemoveDirs(d: Disk, dirs: seq<u64>): (states: seq<Disk>)
    decreases |dirs|
  {
    if dirs == [] then []
    else if dirs[0] in d.dirs then [d.WithoutDir(dirs[0])] + RemoveDirs(d.WithoutDir(dirs[0]), dirs[1..])
    else RemoveDirs(d, dirs[1..])
  }

  function RefsOf(sealed: seq<Handle>): (refs: seq<SegmentRef>)
    ensures |refs| == |sealed|
  {
    seq(|sealed|, i requires 0 <= i < |sealed| => RefOf(sealed[i].meta))
  }

  function Requested(ids: seq<u64>): set<u64> {
    set id | id in ids
  }

  function CompactRun(schema: Schema, d: Disk, m: Memory, ids: seq<u64>): Outcome
    requires schema.Valid()
  {
    var selected := Requested(ids);
    if ids == [] then
      Outcome([], m, None)
    else if selected - IdsOf(m.sealed) != {} then
      Outcome([], m, Some(UnknownSegments(selected - IdsOf(m.sealed))))
    else
      match Combine(schema, d, m.sealed, selected, EmptyBatch(schema))
      case Err(error) => Outcome([], m, Some(error))
      case Ok(combined) =>
        if combined.rowCount == 0 then Outcome([], m, None)
        else CompactInto(schema, d, m, selected, combined)
  }

  /** Listing the replacement, and then removing what it replaces. */
  function ListReplaced(d: Disk, m: Memory, selected: set<u64>, seal: SegmentSeal): Outcome {
    var id := m.manifest.nextId;
    if seal.result.Err? then
      Outcome(seal.states, m, Some(SegmentFailure(seal.result.error)))
    else if id + 1 >= TWO_64 then
      Outcome(seal.states, m, Some(SegmentIdOverflow))
    else
      var sealed := Replaced(m.sealed, selected, Some(Handle(id, seal.result.value)));
      var manifest := m.manifest.(nextId := id + 1, sealed := RefsOf(sealed));
      var listed := Final(d, seal.states).WithManifest(manifest);
      Outcome(seal.states + [listed] + RemoveDirs(listed, SelectedDirs(m.sealed, selected)),
        m.(manifest := manifest, sealed := sealed), None)
  }

  /** Sealing the replacement and listing it. */
  function CompactInto(schema: Schema, d: Disk, m: Memory, selected: set<u64>, combined: RowBatch): Outcome
    requires schema.Valid()
  {
    ListReplaced(d, m, selected, SealRun(d, schema, m.manifest.nextId, combined))
  }

  // ----- open -----

  function LoadSegments(d: Disk, refs: seq<SegmentRef>): Result<seq<Handle>, TableError> {
    if refs == [] then Ok([])
    else if refs[0].id !in d.dirs || d.dirs[refs[0].id].meta.None? then Err(SegmentFailure(MissingFile))
    else
      match LoadSegments(d, refs[1..])
      case Err(error) => Err(error)
      case Ok(rest) => Ok([Handle(refs[0].id, d.dirs[refs[0].id].meta.value)] + rest)
  }

  /** `recover_batches_after`: every record past the applied ones, decoded. */
  function Recovered(schema: Schema, records: seq<WalRecord>): Result<seq<RowBatch>, TableError> {
    if records == [] then Ok([])
    else
      match Codec.Decoded(schema, records[0].payload)
      case Err(error) => Err(DecodeFailure(error))
      case Ok(b) =>
        match Recovered(schema, records[1..])
        case Err(error) => Err(error)
        case Ok(rest) => Ok([b] + rest)
  }

  function Replayed(active: RowBatch, batches: seq<RowBatch>): Result<RowBatch, TableError>
    decreases |batches|
  {
    if batches == [] then Ok(active)
    else
      var (grown, failure) := AppendBatch(active, batches[0]);
      if failure.Some? then Err(BatchFailure(failure.value)) else Replayed(grown, batches[1..])
  }

  function Skip<T>(s: seq<T>, n: nat): seq<T> {
    if n <= |s| then s[n..] else []
  }

  /** The log's part of opening: the memory it gives, on top of the manifest's segments. */
  function ReplayLog(f: Format, schema: Schema, log: seq<byte>, manifest: Manifest,
                     sealed: seq<Handle>): Result<Memory, TableError> {
    match f.ReadLog(log)
    case Err(error) => Err(WalFailure(error))
    case Ok(records) =>
      match Recovered(schema, Skip(records, manifest.applied))
      case Err(error) => Err(error)
      case Ok(batches) =>
        match Replayed(EmptyBatch(schema), batches)
        case Err(error) => Err(error)
        case Ok(active) => Ok(Memory(active, sealed, manifest, |records| % TWO_64))
  }

  datatype Opening = Opening(states: seq<Disk>, result: Result<Memory, TableError>)

  function OpenRun(f: Format, schema: Schema, d: Disk): Opening {
    var manifest := d.CurrentManifest();
    match LoadSegments(d, manifest.sealed)
    case Err(error) => Opening([], Err(error))
    case Ok(sealed) =>
      Opening([d.WithManifest(manifest)], ReplayLog(f, schema, d.log, manifest, sealed))
  }

  // ----- querying -----

  function OpenAll(d: Disk, hs: seq<Handle>): (opens: seq<Query.OpenSegment>)
    ensures |opens| == |hs|
  {
    seq(|hs|, i requires 0 <= i < |hs| => Query.OpenSegment(hs[i].meta, FilesOf(d, hs[i].dir)))
  }

  /** What queries on the table read. */
  function SnapshotOf(schema: Schema, d: Disk, m: Memory): Query.Snapshot {
    Query.Snapshot(schema, OpenAll(d, m.sealed), m.active)
  }
}
