/** Time-range scans and predicate queries over a table's segments and active batch, against the
    plain filter of its logical rows. */
module Query {
  import opened Wrappers
  import opened Bytes
  import opened Floats
  import opened Batch
  import opened Segment
  import opened Selection
  import opened Simd
  import opened Chunks
  import opened Scan
  import opened Rows

  datatype QueryError =
    | SegmentFailure(segment: SegmentError)
    | ScanFailure(scan: ScanError)
    | NoTimestamps(column: Name)

  /** A sealed segment as a query sees it: its metadata and its column files. */
  datatype OpenSegment = OpenSegment(meta: SegmentMeta, files: map<Name, seq<byte>>)

  /** What a query reads: segments in manifest order, and the active batch. */
  datatype Snapshot = Snapshot(schema: Schema, sealed: seq<OpenSegment>, active: RowBatch) {

    ghost predicate Valid() {
      && schema.Valid()
      && BuilderValid(schema, active)
      && AllSound(schema, sealed)
    }

    /** The table's rows: every segment read whole, in manifest order, then the active batch. */
    function LogicalRows(): seq<Row> {
      SealedRows(schema, sealed) + BatchRows(active)
    }
  }

  ghost predicate AllSound(schema: Schema, sealed: seq<OpenSegment>) {
    forall i :: 0 <= i < |sealed| ==> Sound(schema, sealed[i].meta, sealed[i].files)
  }

  function BatchRows(b: RowBatch): seq<Row> {
    if Rectangular(b) then RowsOf(b) else []
  }

  function SegmentRows(schema: Schema, s: OpenSegment): seq<Row> {
    match Contents(schema, s.meta, s.files)
    case Err(_) => []
    case Ok(b) => BatchRows(b)
  }

  function SealedRows(schema: Schema, sealed: seq<OpenSegment>): (rows: seq<Row>) {
    if sealed == [] then [] else SegmentRows(schema, sealed[0]) + SealedRows(schema, sealed[1..])
  }

  lemma {:induction false} SealedRowsAppend(schema: Schema, a: seq<OpenSegment>, b: seq<OpenSegment>)
    ensures SealedRows(schema, a + b) == SealedRows(schema, a) + SealedRows(schema, b)
    decreases |a|
  {
    if a == [] {
      assert a + b == b;
    } else {
      assert (a + b)[1..] == a[1..] + b;
      SealedRowsAppend(schema, a[1..], b);
      Assoc(SegmentRows(schema, a[0]), SealedRows(schema, a[1..]), SealedRows(schema, b));
    }
  }

  lemma SealedRowsNext(schema: Schema, sealed: seq<OpenSegment>, k: nat)
    requires k < |sealed|
    ensures SealedRows(schema, sealed[..k + 1]) == SealedRows(schema, sealed[..k]) + SegmentRows(schema, sealed[k])
  {
    assert sealed[..k + 1] == sealed[..k] + [sealed[k]];
    SealedRowsAppend(schema, sealed[..k], [sealed[k]]);
    assert [sealed[k]][1..] == [];
  }

  /** A sound segment's rows are the rows of the builder-valid batch it reads as. */
  lemma SoundRows(schema: Schema, s: OpenSegment) returns (b: RowBatch)
    requires Sound(schema, s.meta, s.files)
    ensures Contents(schema, s.meta, s.files) == Ok(b)
    ensures BuilderValid(schema, b) && Rectangular(b) && b.rowCount > 0
    ensures Intact(schema, s.meta.id, b, Dir(s.files, Some(s.meta)))
    ensures SegmentRows(schema, s) == RowsOf(b)
  {
    b := Contents(schema, s.meta, s.files).value;
    BuilderValidIsRectangular(schema, b);
  }

  /** The time test on a row. */
  function InRangeRow(schema: Schema, start: i64, end: i64): Row -> bool {
    (row: Row) =>
      schema.timestamp < |row| && row[schema.timestamp].Int? && start <= row[schema.timestamp].num < end
  }

  /** What one segment should contribute to a time-range scan. */
  function RowsInSegment(schema: Schema, s: OpenSegment, start: i64, end: i64): seq<Row> {
    FilterRows(SegmentRows(schema, s), InRangeRow(schema, start, end))
  }

  /** What the first k segments should contribute. */
  function RowsInSegments(snapshot: Snapshot, start: i64, end: i64, k: nat): seq<Row>
    requires k <= |snapshot.sealed|
  {
    FilterRows(SealedRows(snapshot.schema, snapshot.sealed[..k]), InRangeRow(snapshot.schema, start, end))
  }

  /** What a time-range scan should return. */
  function TimeRows(snapshot: Snapshot, start: i64, end: i64): seq<Row> {
    FilterRows(snapshot.LogicalRows(), InRangeRow(snapshot.schema, start, end))
  }

  /** The error of a result whose row count would not fit a machine word. */
  function TooManyRows(): QueryError {
    ScanFailure(ScanError.RowCountOverflow)
  }

  // ----- a result that represents rows -----

  predicate AllWide(rows: seq<Row>, n: nat) {
    forall i :: 0 <= i < |rows| ==> |rows[i]| == n
  }

  /** A result column of that name and type standing for exactly those values. */
  predicate ColumnIs(def: ColumnDef, named: NamedScan, vs: seq<Value>) {
    && named.name == def.name
    && named.column.dtype == def.dtype
    && named.column.Valid()
    && named.column.Values() == vs
  }

  /** The columns are, in schema order, the columns of `rows`, cell for cell. */
  ghost predicate ColumnsAre(schema: Schema, columns: seq<NamedScan>, rows: seq<Row>) {
    && |columns| == |schema.columns|
    && AllWide(rows, |schema.columns|)
    && forall c :: 0 <= c < |columns| ==> ColumnIs(schema.columns[c], columns[c], ColumnOf(rows, c))
  }

  ghost predicate Represents(schema: Schema, data: ScanData, rows: seq<Row>) {
    data.rowCount == |rows| && ColumnsAre(schema, data.columns, rows)
  }

  lemma GrownColumn(def: ColumnDef, before: NamedScan, incoming: NamedScan, vs: seq<Value>, more: seq<Value>)
    requires ColumnIs(def, before, vs) && ColumnIs(def, incoming, more)
    ensures ColumnIs(def, NamedScan(before.name,
              ScanColumn(before.column.dtype, before.column.chunks + incoming.column.chunks)), vs + more)
  {
    FlattenAppend(def.dtype, before.column.chunks, incoming.column.chunks);
  }

  lemma ColumnOfAppend(a: seq<Row>, b: seq<Row>, n: nat, c: nat)
    requires AllWide(a, n) && AllWide(b, n) && c < n
    ensures AllWide(a + b, n)
    ensures ColumnOf(a + b, c) == ColumnOf(a, c) + ColumnOf(b, c)
  {
  }

  /** Each column with the incoming chunks behind its own. */
  predicate GrownBy(before: seq<NamedScan>, incoming: seq<NamedScan>, after: seq<NamedScan>) {
    && |after| == |before| <= |incoming|
    && forall c :: 0 <= c < |after| ==>
         after[c] == NamedScan(before[c].name,
           ScanColumn(before[c].column.dtype, before[c].column.chunks + incoming[c].column.chunks))
  }

  lemma GrownRepresents(schema: Schema, before: seq<NamedScan>, incoming: seq<NamedScan>, after: seq<NamedScan>,
                        rows: seq<Row>, more: seq<Row>)
    requires ColumnsAre(schema, before, rows) && ColumnsAre(schema, incoming, more)
    requires GrownBy(before, incoming, after)
    ensures ColumnsAre(schema, after, rows + more)
  {
    forall c | 0 <= c < |after|
      ensures ColumnIs(schema.columns[c], after[c], ColumnOf(rows + more, c))
    {
      GrownColumn(schema.columns[c], before[c], incoming[c], ColumnOf(rows, c), ColumnOf(more, c));
      ColumnOfAppend(rows, more, |schema.columns|, c);
    }
  }

  lemma GrownUnpicked(before: seq<NamedScan>, incoming: seq<NamedScan>, after: seq<NamedScan>)
    requires AllIdentitiesFull(before) && AllIdentitiesFull(incoming)
    requires GrownBy(before, incoming, after)
    ensures AllIdentitiesFull(after)
  {
    forall c, k | 0 <= c < |after| && 0 <= k < |after[c].column.chunks|
      ensures IdentityIsFull(after[c].column.chunks[k])
    {
      var old', new' := before[c].column.chunks, incoming[c].column.chunks;
      assert after[c].column.chunks[k] == if k < |old'| then old'[k] else new'[k - |old'|];
    }
  }

  lemma EmptyRepresents(schema: Schema)
    ensures Represents(schema, EmptyScan(schema), []) && WellMade(schema, EmptyScan(schema).columns, 0)
  {
    forall c | 0 <= c < |schema.columns|
      ensures ColumnIs(schema.columns[c], EmptyScan(schema).columns[c], ColumnOf([], c))
    {
      assert ColumnOf([], c) == [];
    }
  }

  // ----- one segment -----

  /** The hits of the timestamp kernel on a sealed segment are the rows in range. */
  lemma SegmentHits(schema: Schema, b: RowBatch, mapped: MappedColumn, start: i64, end: i64)
    requires schema.Valid() && BuilderValid(schema, b) && Rectangular(b)
    requires mapped.Valid() && mapped.dtype == Timestamp && mapped.rowCount == b.rowCount
    requires mapped.Values() == b.columns[schema.timestamp].data.values
    ensures |mapped.bytes| % 8 == 0
    ensures Matches(IntCells(mapped.bytes), InTimeRange(start, end), 0)
            == Matches(RowsOf(b), InRangeRow(schema, start, end), 0)
  {
    var cells, rows := IntCells(mapped.bytes), RowsOf(b);
    assert |mapped.bytes| == mapped.rowCount * 8;
    forall i | 0 <= i < |rows|
      ensures InRangeRow(schema, start, end)(rows[i]) == InTimeRange(start, end)(cells[i])
    {
      assert rows[i] == RowAt(b, i);
      assert mapped.Cell(i) == Some(mapped.Values()[i]);
    }
    MatchesByColumn(rows, cells, InRangeRow(schema, start, end), InTimeRange(start, end), 0);
  }

  /** A segment skipped by its metadata has no row in range. */
  lemma SkippedSegment(schema: Schema, s: OpenSegment, start: i64, end: i64)
    requires Sound(schema, s.meta, s.files)
    requires !OverlapsTimeRange(s.meta, start, end)
    ensures FilterRows(SegmentRows(schema, s), InRangeRow(schema, start, end)) == []
  {
    var b := SoundRows(schema, s);
    var ts, rows := BatchTimestamps(schema, b), RowsOf(b);
    PruningKeepsMatches(s.meta, ts, start, end);
    forall i | 0 <= i < |rows|
      ensures !InRangeRow(schema, start, end)(rows[i])
    {
      assert rows[i] == RowAt(b, i);
      assert !(start <= ts[i] < end);
    }
    FilterNone(rows, InRangeRow(schema, start, end));
  }

  /** One mapped chunk for every schema column, all under one selection. */
  predicate MappedAs(def: ColumnDef, s: OpenSegment, rows: RowSelection, named: NamedScan) {
    && named.name == def.name
    && named.column.dtype == def.dtype
    && |named.column.chunks| == 1
    && named.column.chunks[0].Mapped?
    && named.column.chunks[0].rows == rows
    && MapColumn(s.meta, s.files, def.name, def.dtype) == Ok(named.column.chunks[0].column)
  }

  lemma MappedRepresents(schema: Schema, s: OpenSegment, b: RowBatch, rows: RowSelection, named: NamedScan, c: nat)
    requires schema.Valid() && BuilderValid(schema, b) && b.rowCount > 0 && c < |schema.columns|
    requires Intact(schema, s.meta.id, b, Dir(s.files, Some(s.meta)))
    requires MappedAs(schema.columns[c], s, rows, named)
    requires forall k :: 0 <= k < rows.Len() ==> rows.Rows()[k] < b.rowCount
    ensures ColumnIs(schema.columns[c], named, Gather(b.columns[c].data.values, rows.Rows()))
  {
    MapIntactColumn(schema, s.meta.id, b, Dir(s.files, Some(s.meta)), c);
    var chunk := named.column.chunks[0];
    assert named.column.chunks == [chunk];
    FlattenOne(schema.columns[c].dtype, chunk);
  }

  lemma SegmentRepresents(schema: Schema, s: OpenSegment, rows: RowSelection, incoming: seq<NamedScan>, hits: seq<nat>)
    requires Sound(schema, s.meta, s.files) && |incoming| == |schema.columns|
    requires forall c :: 0 <= c < |incoming| ==> MappedAs(schema.columns[c], s, rows, incoming[c])
    requires rows.Rows() == hits
    requires forall k :: 0 <= k < |hits| ==> hits[k] < |SegmentRows(schema, s)|
    ensures ColumnsAre(schema, incoming, Gather(SegmentRows(schema, s), hits))
  {
    var b := SoundRows(schema, s);
    forall c | 0 <= c < |incoming|
      ensures ColumnIs(schema.columns[c], incoming[c], ColumnOf(Gather(RowsOf(b), hits), c))
    {
      MappedRepresents(schema, s, b, rows, incoming[c], c);
      PickedColumn(b, hits, c);
    }
  }

  lemma PickedColumn(b: RowBatch, hits: seq<nat>, c: nat)
    requires Rectangular(b) && c < |b.columns|
    requires forall k :: 0 <= k < |hits| ==> hits[k] < b.rowCount
    ensures ColumnOf(Gather(RowsOf(b), hits), c) == Gather(b.columns[c].data.values, hits)
  {
    ColumnOfRows(b, c);
    ColumnOfGather(RowsOf(b), hits, c);
  }

  /** Mapping every column of a segment under one selection; the timestamp column is mapped already. */
  method MapSegment(schema: Schema, s: OpenSegment, timestampMap: MappedColumn, rows: RowSelection)
    returns (res: Result<seq<NamedScan>, SegmentError>)
    requires schema.Valid()
    requires MapColumn(s.meta, s.files, schema.columns[schema.timestamp].name, Timestamp) == Ok(timestampMap)
    ensures res.Ok? ==>
              && |res.value| == |schema.columns|
              && forall c :: 0 <= c < |schema.columns| ==> MappedAs(schema.columns[c], s, rows, res.value[c])
    ensures res.Err? ==>
              exists c :: 0 <= c < |schema.columns|
                && MapColumn(s.meta, s.files, schema.columns[c].name, schema.columns[c].dtype) == Err(res.error)
  {
    var incoming: seq<NamedScan> := [];
    for c := 0 to |schema.columns|
      invariant |incoming| == c
      invariant forall j :: 0 <= j < c ==> MappedAs(schema.columns[j], s, rows, incoming[j])
    {
      var def := schema.columns[c];
      var mapped := timestampMap;
      if def.name != schema.columns[schema.timestamp].name {
        var m := MapColumn(s.meta, s.files, def.name, def.dtype);
        if m.Err? {
          return Err(m.error);
        }
        mapped := m.value;
      }
      incoming := incoming + [NamedScan(def.name, ScanColumn(def.dtype, [Mapped(mapped, rows)]))];
    }
    return Ok(incoming);
  }

  lemma SoundMaps(schema: Schema, s: OpenSegment)
    requires Sound(schema, s.meta, s.files)
    ensures forall c :: 0 <= c < |schema.columns| ==>
              MapColumn(s.meta, s.files, schema.columns[c].name, schema.columns[c].dtype).Ok?
  {
    var b := SoundRows(schema, s);
    forall c | 0 <= c < |schema.columns|
      ensures MapColumn(s.meta, s.files, schema.columns[c].name, schema.columns[c].dtype).Ok?
    {
      MapIntactColumn(schema, s.meta.id, b, Dir(s.files, Some(s.meta)), c);
    }
  }

  /** What the kernel finds in a sound segment, and what the selection of it denotes. */
  lemma SegmentSelection(schema: Schema, s: OpenSegment, timestampMap: MappedColumn, start: i64, end: i64)
    requires Sound(schema, s.meta, s.files)
    requires MapColumn(s.meta, s.files, schema.columns[schema.timestamp].name, Timestamp) == Ok(timestampMap)
    ensures |timestampMap.bytes| % 8 == 0
    ensures var hits := Matches(IntCells(timestampMap.bytes), InTimeRange(start, end), 0);
            && (forall k :: 0 <= k < |hits| ==> hits[k] < |SegmentRows(schema, s)|)
            && Gather(SegmentRows(schema, s), hits)
              == FilterRows(SegmentRows(schema, s), InRangeRow(schema, start, end))
  {
    var b := SoundRows(schema, s);
    MapIntactColumn(schema, s.meta.id, b, Dir(s.files, Some(s.meta)), schema.timestamp);
    SegmentHits(schema, b, timestampMap, start, end);
    GatherMatchesIsFilter(RowsOf(b), InRangeRow(schema, start, end));
  }

  /** An identity selection over one segment's hits covers every column of the segment. */
  lemma SelectionSpans(schema: Schema, s: OpenSegment, timestampMap: MappedColumn, hits: seq<nat>,
                       incoming: seq<NamedScan>)
    requires schema.Valid() && |incoming| == |schema.columns|
    requires MapColumn(s.meta, s.files, schema.columns[schema.timestamp].name, Timestamp) == Ok(timestampMap)
    requires forall c :: 0 <= c < |incoming| ==>
               MappedAs(schema.columns[c], s, FromIndices(hits, timestampMap.rowCount), incoming[c])
    ensures AllIdentitiesFull(incoming)
  {
    forall c, k | 0 <= c < |incoming| && 0 <= k < |incoming[c].column.chunks|
      ensures IdentityIsFull(incoming[c].column.chunks[k])
    {
      assert MappedAs(schema.columns[c], s, FromIndices(hits, timestampMap.rowCount), incoming[c]);
    }
  }

  // ----- sizes, on any segments -----

  lemma MappedSized(schema: Schema, s: OpenSegment, timestampMap: MappedColumn, hits: seq<nat>,
                    incoming: seq<NamedScan>)
    requires schema.Valid() && |incoming| == |schema.columns|
    requires MapColumn(s.meta, s.files, schema.columns[schema.timestamp].name, Timestamp) == Ok(timestampMap)
    requires forall k :: 0 <= k < |hits| ==> hits[k] < timestampMap.rowCount
    requires forall c :: 0 <= c < |incoming| ==>
               MappedAs(schema.columns[c], s, FromIndices(hits, timestampMap.rowCount), incoming[c])
    ensures Sized(incoming, |hits|)
  {
    var rows := FromIndices(hits, timestampMap.rowCount);
    FromIndicesDenotes(hits, timestampMap.rowCount);
    forall c | 0 <= c < |incoming|
      ensures incoming[c].column.Valid() && |incoming[c].column.Values()| == |hits|
    {
      var chunk := incoming[c].column.chunks[0];
      assert MappedAs(schema.columns[c], s, rows, incoming[c]);
      assert incoming[c].column.chunks == [chunk];
      FlattenOne(schema.columns[c].dtype, chunk);
    }
  }

  lemma GrownSized(before: seq<NamedScan>, incoming: seq<NamedScan>, after: seq<NamedScan>, n: nat, more: nat)
    requires Sized(before, n) && Sized(incoming, more) && GrownBy(before, incoming, after)
    requires forall c :: 0 <= c < |before| ==> before[c].column.dtype == incoming[c].column.dtype
    ensures Sized(after, n + more)
  {
    forall c | 0 <= c < |after|
      ensures after[c].column.Valid() && |after[c].column.Values()| == n + more
    {
      FlattenAppend(before[c].column.dtype, before[c].column.chunks, incoming[c].column.chunks);
    }
  }

  /** Schema-shaped columns of n values each, with identity selections spanning their columns. */
  predicate WellMade(schema: Schema, columns: seq<NamedScan>, n: nat) {
    && |columns| == |schema.columns|
    && (forall c :: 0 <= c < |columns| ==>
          columns[c].name == schema.columns[c].name && columns[c].column.dtype == schema.columns[c].dtype)
    && Sized(columns, n)
    && AllIdentitiesFull(columns)
  }

  lemma GrownWellMade(schema: Schema, before: seq<NamedScan>, incoming: seq<NamedScan>, after: seq<NamedScan>, n: nat,
                      more: nat)
    requires WellMade(schema, before, n) && WellMade(schema, incoming, more) && GrownBy(before, incoming, after)
    ensures WellMade(schema, after, n + more)
  {
    GrownSized(before, incoming, after, n, more);
    GrownUnpicked(before, incoming, after);
  }

  lemma HitsInColumn(s: OpenSegment, name: Name, mapped: MappedColumn, test: i64 -> bool)
    requires MapColumn(s.meta, s.files, name, Timestamp) == Ok(mapped)
    ensures |mapped.bytes| == mapped.rowCount * 8
    ensures var hits := Matches(IntCells(mapped.bytes), test, 0);
            |hits| < TWO_64 && forall k :: 0 <= k < |hits| ==> hits[k] < mapped.rowCount
  {
    MatchesSound(IntCells(mapped.bytes), test, 0);
  }

  lemma SegmentFound(schema: Schema, s: OpenSegment, timestampMap: MappedColumn, start: i64, end: i64,
                     incoming: seq<NamedScan>)
    requires schema.Valid() && |incoming| == |schema.columns|
    requires MapColumn(s.meta, s.files, schema.columns[schema.timestamp].name, Timestamp) == Ok(timestampMap)
    requires |timestampMap.bytes| % 8 == 0
    requires var hits := Matches(IntCells(timestampMap.bytes), InTimeRange(start, end), 0);
             forall c :: 0 <= c < |incoming| ==>
               MappedAs(schema.columns[c], s, FromIndices(hits, timestampMap.rowCount), incoming[c])
    ensures WellMade(schema, incoming, |Matches(IntCells(timestampMap.bytes), InTimeRange(start, end), 0)|)
    ensures Sound(schema, s.meta, s.files) ==>
              ColumnsAre(schema, incoming, FilterRows(SegmentRows(schema, s), InRangeRow(schema, start, end)))
  {
    var hits := Matches(IntCells(timestampMap.bytes), InTimeRange(start, end), 0);
    HitsInColumn(s, schema.columns[schema.timestamp].name, timestampMap, InTimeRange(start, end));
    MappedSized(schema, s, timestampMap, hits, incoming);
    SelectionSpans(schema, s, timestampMap, hits, incoming);
    if Sound(schema, s.meta, s.files) {
      SegmentSelection(schema, s, timestampMap, start, end);
      FromIndicesDenotes(hits, timestampMap.rowCount);
      SegmentRepresents(schema, s, FromIndices(hits, timestampMap.rowCount), incoming, hits);
    }
  }

  /** Well-made columns for n rows; on a sound segment, those of its rows in range. */
  ghost predicate AnswerOk(schema: Schema, s: OpenSegment, start: i64, end: i64, columns: seq<NamedScan>, n: nat) {
    && (n > 0 ==> WellMade(schema, columns, n))
    && (Sound(schema, s.meta, s.files) ==>
          && n == |RowsInSegment(schema, s, start, end)|
          && (n > 0 ==> ColumnsAre(schema, columns, RowsInSegment(schema, s, start, end))))
  }

  /** One segment's contribution to a time-range scan: nothing when it is skipped or has no hit,
      otherwise one selection with a mapped column per schema column. On a sound segment it never
      fails and stands for exactly the rows in range, and an identity selection spans the segment. */
  method ScanSegment(schema: Schema, s: OpenSegment, start: i64, end: i64, avx: bool)
    returns (res: Result<(seq<NamedScan>, u64), QueryError>)
    requires schema.Valid()
    ensures Sound(schema, s.meta, s.files) ==> res.Ok?
    ensures res.Ok? ==> AnswerOk(schema, s, start, end, res.value.0, res.value.1)
  {
    ghost var sound := Sound(schema, s.meta, s.files);
    if !OverlapsTimeRange(s.meta, start, end) {
      if sound {
        SkippedSegment(schema, s, start, end);
      }
      return Ok(([], 0));
    }
    if sound {
      SoundMaps(schema, s);
    }
    var timestampMap := MapColumn(s.meta, s.files, schema.columns[schema.timestamp].name, Timestamp);
    if timestampMap.Err? {
      return Err(SegmentFailure(timestampMap.error));
    }
    if sound {
      SegmentSelection(schema, s, timestampMap.value, start, end);
    }
    var hits := RangeFilterI64Bytes(timestampMap.value.bytes, start, end, avx);
    if hits.Err? {
      return Err(ScanFailure(hits.error));
    }
    HitsInColumn(s, schema.columns[schema.timestamp].name, timestampMap.value, InTimeRange(start, end));
    var selection := FromIndices(hits.value, timestampMap.value.rowCount);
    FromIndicesDenotes(hits.value, timestampMap.value.rowCount);
    if selection.Len() == 0 {
      return Ok(([], 0));
    }
    var incoming := MapSegment(schema, s, timestampMap.value, selection);
    if incoming.Err? {
      return Err(SegmentFailure(incoming.error));
    }
    SegmentFound(schema, s, timestampMap.value, start, end, incoming.value);
    return Ok((incoming.value, selection.Len()));
  }

  // ----- the active batch -----

  function OwnedColumns(b: RowBatch): (columns: seq<NamedScan>)
    ensures |columns| == |b.columns|
  {
    seq(|b.columns|, i requires 0 <= i < |b.columns| =>
      NamedScan(b.columns[i].name, ScanColumn(b.columns[i].data.dtype, [Owned(b.columns[i].data.values)])))
  }

  lemma OwnedRepresents(schema: Schema, b: RowBatch)
    requires SchemaShaped(schema, b) && Rectangular(b)
    ensures ColumnsAre(schema, OwnedColumns(b), RowsOf(b))
    ensures WellMade(schema, OwnedColumns(b), b.rowCount)
  {
    var columns := OwnedColumns(b);
    forall c | 0 <= c < |columns|
      ensures ColumnIs(schema.columns[c], columns[c], ColumnOf(RowsOf(b), c))
    {
      var data := b.columns[c].data;
      FlattenOne(data.dtype, Owned(data.values));
      ColumnOfRows(b, c);
    }
  }

  lemma PickedBatch(schema: Schema, b: RowBatch, hits: seq<nat>)
    requires BuilderValid(schema, b) && |hits| < TWO_64
    requires forall k :: 0 <= k < |hits| ==> hits[k] < b.rowCount
    ensures var t := PickBatchRows(b, hits);
            SchemaShaped(schema, t) && Rectangular(t) && RowsOf(t) == Gather(RowsOf(b), hits)
  {
    var t := PickBatchRows(b, hits);
    forall k | 0 <= k < |hits|
      ensures RowsOf(t)[k] == Gather(RowsOf(b), hits)[k]
    {
      assert RowsOf(t)[k] == RowAt(t, k) && RowsOf(b)[hits[k]] == RowAt(b, hits[k]);
    }
  }

  lemma ActiveHits(schema: Schema, b: RowBatch, start: i64, end: i64)
    requires schema.Valid() && BuilderValid(schema, b)
    ensures var hits := Matches(BatchTimestamps(schema, b), InTimeRange(start, end), 0);
            && |hits| < TWO_64
            && (forall k :: 0 <= k < |hits| ==> hits[k] < b.rowCount)
            && Gather(RowsOf(b), hits) == FilterRows(RowsOf(b), InRangeRow(schema, start, end))
  {
    var ts, rows := BatchTimestamps(schema, b), RowsOf(b);
    forall i | 0 <= i < |rows|
      ensures InRangeRow(schema, start, end)(rows[i]) == InTimeRange(start, end)(ts[i])
    {
      assert rows[i] == RowAt(b, i);
    }
    MatchesByColumn(rows, ts, InRangeRow(schema, start, end), InTimeRange(start, end), 0);
    GatherMatchesIsFilter(rows, InRangeRow(schema, start, end));
    MatchesSound(ts, InTimeRange(start, end), 0);
  }

  /** `filter_time_batch`: the rows of a builder-valid batch in range, in order. */
  method FilterTimeBatch(schema: Schema, b: RowBatch, start: i64, end: i64) returns (res: Result<RowBatch, QueryError>)
    requires schema.Valid() && BuilderValid(schema, b)
    ensures res.Ok? && SchemaShaped(schema, res.value) && Rectangular(res.value)
    ensures RowsOf(res.value) == FilterRows(RowsOf(b), InRangeRow(schema, start, end))
  {
    var name := schema.columns[schema.timestamp].name;
    FindInShaped(schema, b, schema.timestamp);
    var hits := Matches(Timestamps(FindColumn(b.columns, name).value.values), InTimeRange(start, end), 0);
    ActiveHits(schema, b, start, end);
    PickedBatch(schema, b, hits);
    return Ok(PickBatchRows(b, hits));
  }

  // ----- the whole time-range scan -----

  /** The rows found up to segment k, with segment k's, are among all the rows. */
  lemma FoundSoFar(snapshot: Snapshot, start: i64, end: i64, k: nat)
    requires k < |snapshot.sealed|
    ensures RowsInSegments(snapshot, start, end, k + 1)
            == RowsInSegments(snapshot, start, end, k) + RowsInSegment(snapshot.schema, snapshot.sealed[k], start, end)
    ensures |RowsInSegments(snapshot, start, end, k + 1)| <= |TimeRows(snapshot, start, end)|
  {
    var keep, schema, sealed := InRangeRow(snapshot.schema, start, end), snapshot.schema, snapshot.sealed;
    SealedRowsNext(schema, sealed, k);
    FilterRowsAppend(SealedRows(schema, sealed[..k]), SegmentRows(schema, sealed[k]), keep);
    assert sealed == sealed[..k + 1] + sealed[k + 1..];
    SealedRowsAppend(schema, sealed[..k + 1], sealed[k + 1..]);
    FilterRowsAppend(SealedRows(schema, sealed[..k + 1]), SealedRows(schema, sealed[k + 1..]), keep);
    FilterRowsAppend(SealedRows(schema, sealed), BatchRows(snapshot.active), keep);
  }

  /** All the rows in range are those of the segments, then those of the active batch. */
  lemma FoundInAll(snapshot: Snapshot, start: i64, end: i64)
    ensures RowsInSegments(snapshot, start, end, 0) == []
    ensures TimeRows(snapshot, start, end)
            == RowsInSegments(snapshot, start, end, |snapshot.sealed|)
               + FilterRows(BatchRows(snapshot.active), InRangeRow(snapshot.schema, start, end))
  {
    var keep := InRangeRow(snapshot.schema, start, end);
    assert snapshot.sealed[..|snapshot.sealed|] == snapshot.sealed;
    FilterRowsAppend(SealedRows(snapshot.schema, snapshot.sealed), BatchRows(snapshot.active), keep);
  }

  /** Appending well-made columns fails only on the row count, and then stands for more rows. */
  method AppendFound(schema: Schema, output: ScanResult, incoming: seq<NamedScan>, n: u64,
                     ghost rows: seq<Row>, ghost more: seq<Row>)
    returns (failure: Option<ScanError>)
    requires WellMade(schema, output.columns, output.rowCount) && WellMade(schema, incoming, n)
    modifies output
    ensures failure == if old(output.rowCount) + n < TWO_64 then None else Some(ScanError.RowCountOverflow)
    ensures failure.None? ==> output.rowCount == old(output.rowCount) + n
    ensures failure.None? ==> WellMade(schema, output.columns, output.rowCount)
    ensures failure.None? && ColumnsAre(schema, old(output.columns), rows) && ColumnsAre(schema, incoming, more) ==>
              ColumnsAre(schema, output.columns, rows + more)
  {
    ghost var before, count := output.columns, output.rowCount;
    assert forall i :: 0 <= i < |before| ==> SameScanShape(before[i], incoming[i]);
    failure := output.AppendColumns(incoming, n);
    if failure.None? {
      assert GrownBy(before, incoming, output.columns);
      GrownWellMade(schema, before, incoming, output.columns, count, n);
      if ColumnsAre(schema, before, rows) && ColumnsAre(schema, incoming, more) {
        GrownRepresents(schema, before, incoming, output.columns, rows, more);
      }
    }
  }

  /** One segment's turn: its rows in range are appended to the result. */
  method ScanNext(schema: Schema, output: ScanResult, s: OpenSegment, start: i64, end: i64, avx: bool,
                  ghost rows: seq<Row>)
    returns (failure: Option<QueryError>)
    requires schema.Valid() && WellMade(schema, output.columns, output.rowCount)
    modifies output
    ensures failure.None? ==> WellMade(schema, output.columns, output.rowCount)
    ensures Sound(schema, s.meta, s.files) && Represents(schema, old(output.Value()), rows) ==>
              if failure.None? then
                Represents(schema, output.Value(), rows + RowsInSegment(schema, s, start, end))
              else
                failure.value == TooManyRows() && |rows + RowsInSegment(schema, s, start, end)| >= TWO_64
  {
    var found := ScanSegment(schema, s, start, end, avx);
    if found.Err? {
      return Some(found.error);
    }
    var (incoming, n) := found.value;
    ghost var more := RowsInSegment(schema, s, start, end);
    if n == 0 {
      assert rows + [] == rows;
      return None;
    }
    var overflow := AppendFound(schema, output, incoming, n, rows, more);
    if overflow.Some? {
      return Some(ScanFailure(overflow.value));
    }
    return None;
  }

  /** The segments' part of a time-range scan. */
  method ScanSealed(snapshot: Snapshot, start: i64, end: i64, avx: bool)
    returns (output: ScanResult, failure: Option<QueryError>)
    requires snapshot.schema.Valid()
    ensures fresh(output)
    ensures failure.None? ==> WellMade(snapshot.schema, output.columns, output.rowCount)
    ensures AllSound(snapshot.schema, snapshot.sealed) ==>
              if failure.None? then
                Represents(snapshot.schema, output.Value(), RowsInSegments(snapshot, start, end, |snapshot.sealed|))
              else
                failure.value == TooManyRows() && |TimeRows(snapshot, start, end)| >= TWO_64
  {
    var schema, sealed := snapshot.schema, snapshot.sealed;
    ghost var sound := AllSound(schema, sealed);
    output := new ScanResult(schema);
    EmptyRepresents(schema);
    FoundInAll(snapshot, start, end);
    for k := 0 to |sealed|
      invariant fresh(output)
      invariant WellMade(schema, output.columns, output.rowCount)
      invariant sound ==> Represents(schema, output.Value(), RowsInSegments(snapshot, start, end, k))
    {
      FoundSoFar(snapshot, start, end, k);
      failure := ScanNext(schema, output, sealed[k], start, end, avx, RowsInSegments(snapshot, start, end, k));
      if failure.Some? {
        return;
      }
    }
    failure := None;
  }

  /** What a time-range scan of a valid snapshot returns: the rows in range, if they can be counted. */
  ghost predicate TimeAnswer(snapshot: Snapshot, start: i64, end: i64, res: Result<ScanData, QueryError>) {
    if |TimeRows(snapshot, start, end)| < TWO_64 then
      res.Ok? && Represents(snapshot.schema, res.value, TimeRows(snapshot, start, end))
    else
      res == Err(TooManyRows())
  }

  /** The active batch's turn: its rows in range are appended to the result. */
  method ScanActive(schema: Schema, output: ScanResult, active: RowBatch, start: i64, end: i64, ghost rows: seq<Row>)
    returns (failure: Option<QueryError>)
    requires schema.Valid() && BuilderValid(schema, active) && WellMade(schema, output.columns, output.rowCount)
    modifies output
    ensures failure.None? ==> WellMade(schema, output.columns, output.rowCount)
    ensures Represents(schema, old(output.Value()), rows) ==>
              var all := rows + FilterRows(BatchRows(active), InRangeRow(schema, start, end));
              && failure == (if |all| < TWO_64 then None else Some(TooManyRows()))
              && (failure.None? ==> Represents(schema, output.Value(), all))
  {
    var batch := FilterTimeBatch(schema, active, start, end);
    OwnedRepresents(schema, batch.value);
    ghost var more := FilterRows(BatchRows(active), InRangeRow(schema, start, end));
    var overflow := AppendFound(schema, output, OwnedColumns(batch.value), batch.value.rowCount, rows, more);
    if overflow.Some? {
      return Some(ScanFailure(overflow.value));
    }
    return None;
  }

  /** `scan_time_range`. On a valid snapshot it fails only when the count of rows in range exceeds a
      machine word, and otherwise stands for exactly the plain filter of the logical rows. */
  method ScanTimeRange(snapshot: Snapshot, start: i64, end: i64, avx: bool) returns (res: Result<ScanData, QueryError>)
    requires snapshot.schema.Valid() && BuilderValid(snapshot.schema, snapshot.active)
    ensures res.Ok? ==> WellMade(snapshot.schema, res.value.columns, res.value.rowCount)
    ensures snapshot.Valid() ==> TimeAnswer(snapshot, start, end, res)
  {
    var output, failure := ScanSealed(snapshot, start, end, avx);
    if failure.Some? {
      return Err(failure.value);
    }
    FoundInAll(snapshot, start, end);
    failure := ScanActive(snapshot.schema, output, snapshot.active, start, end,
      RowsInSegments(snapshot, start, end, |snapshot.sealed|));
    if failure.Some? {
      return Err(failure.value);
    }
    return Ok(output.Value());
  }

  // ----- predicate queries -----

  /** The time test and the predicate on column pc. */
  function WhereRow(schema: Schema, start: i64, end: i64, pc: nat, test: Value -> bool): Row -> bool {
    (row: Row) => InRangeRow(schema, start, end)(row) && pc < |row| && test(row[pc])
  }

  function CellTest(pc: nat, test: Value -> bool): Row -> bool {
    (row: Row) => pc < |row| && test(row[pc])
  }

  lemma {:induction false} FindScanAt(columns: seq<NamedScan>, i: nat)
    requires i < |columns|
    requires forall j :: 0 <= j < i ==> columns[j].name != columns[i].name
    ensures FindScan(columns, columns[i].name) == Some(columns[i].column)
    decreases i
  {
    if i > 0 {
      FindScanAt(columns[1..], i - 1);
    }
  }

  /** The positions found in one column pick the rows that pass. */
  lemma PickedRowsPass(rows: seq<Row>, n: nat, pc: nat, test: Value -> bool)
    requires AllWide(rows, n) && pc < n
    ensures var hits := Matches(ColumnOf(rows, pc), test, 0);
            && |hits| <= |rows|
            && (forall k :: 0 <= k < |hits| ==> hits[k] < |rows|)
            && Gather(rows, hits) == FilterRows(rows, CellTest(pc, test))
  {
    MatchesByColumn(rows, ColumnOf(rows, pc), CellTest(pc, test), test, 0);
    GatherMatchesIsFilter(rows, CellTest(pc, test));
    MatchesSound(ColumnOf(rows, pc), test, 0);
  }

  lemma PickedRepresents(schema: Schema, data: ScanData, rows: seq<Row>, indices: seq<nat>, picked: ScanData)
    requires Represents(schema, data, rows) && data.Valid() && picked.rowCount == |indices|
    requires forall k :: 0 <= k < |indices| ==> indices[k] < |rows|
    requires |picked.columns| == |data.columns|
    requires forall c :: 0 <= c < |data.columns| ==> PickedFrom(picked.columns[c], data.columns[c], indices)
    ensures Represents(schema, picked, Gather(rows, indices))
  {
    forall c | 0 <= c < |picked.columns|
      ensures ColumnIs(schema.columns[c], picked.columns[c], ColumnOf(Gather(rows, indices), c))
    {
      assert ColumnIs(schema.columns[c], data.columns[c], ColumnOf(rows, c));
      ColumnOfGather(rows, indices, c);
    }
  }

  lemma WherePicked(snapshot: Snapshot, start: i64, end: i64, pc: nat, test: Value -> bool, data: ScanData,
                    picked: ScanData)
    requires snapshot.schema.Valid() && pc < |snapshot.schema.columns| && data.Valid()
    requires Represents(snapshot.schema, data, TimeRows(snapshot, start, end))
    requires var hits := Matches(data.columns[pc].column.Values(), test, 0);
             && picked.rowCount == |hits| && |picked.columns| == |data.columns|
             && (forall k :: 0 <= k < |hits| ==> hits[k] < data.rowCount)
             && forall c :: 0 <= c < |data.columns| ==> PickedFrom(picked.columns[c], data.columns[c], hits)
    ensures Represents(snapshot.schema, picked,
              FilterRows(snapshot.LogicalRows(), WhereRow(snapshot.schema, start, end, pc, test)))
  {
    var rows, schema := TimeRows(snapshot, start, end), snapshot.schema;
    assert ColumnIs(schema.columns[pc], data.columns[pc], ColumnOf(rows, pc));
    PickedRowsPass(rows, |schema.columns|, pc, test);
    PickedRepresents(schema, data, rows, Matches(ColumnOf(rows, pc), test, 0), picked);
    FilterTwice(snapshot.LogicalRows(), InRangeRow(schema, start, end), CellTest(pc, test),
      WhereRow(schema, start, end, pc, test));
  }

  /** The first column of that name. */
  function PositionOf(columns: seq<ColumnDef>, name: Name): (at: Option<nat>)
    ensures at.None? <==> forall i :: 0 <= i < |columns| ==> columns[i].name != name
    ensures at.Some? ==> at.value < |columns| && columns[at.value].name == name
  {
    if columns == [] then None
    else if columns[0].name == name then Some(0)
    else
      match PositionOf(columns[1..], name)
      case None =>
        assert forall i :: 1 <= i < |columns| ==> columns[i] == columns[1..][i - 1];
        None
      case Some(at) => Some(at + 1)
  }

  /** What a query on a valid snapshot returns: a scan's failure, the refusal of an unknown column, or
      the plain filter of the logical rows by time and predicate, in order. */
  ghost predicate WhereAnswer(snapshot: Snapshot, start: i64, end: i64, p: Predicate,
                              res: Result<ScanData, QueryError>) {
    if |TimeRows(snapshot, start, end)| >= TWO_64 then
      res == Err(TooManyRows())
    else
      match PositionOf(snapshot.schema.columns, p.column)
      case None => res == Err(ScanFailure(UnknownColumn(p.column)))
      case Some(pc) =>
        && res.Ok?
        && Represents(snapshot.schema, res.value,
             FilterRows(snapshot.LogicalRows(), WhereRow(snapshot.schema, start, end, pc, p.test)))
  }

  /** `scan_where` */
  method ScanWhere(snapshot: Snapshot, start: i64, end: i64, p: Predicate, avx: bool)
    returns (res: Result<ScanData, QueryError>)
    requires snapshot.schema.Valid() && BuilderValid(snapshot.schema, snapshot.active) && p.Exact()
    ensures snapshot.Valid() ==> WhereAnswer(snapshot, start, end, p, res)
  {
    var timeResult := ScanTimeRange(snapshot, start, end, avx);
    if timeResult.Err? {
      return timeResult;
    }
    var data := timeResult.value;
    ghost var position := PositionOf(snapshot.schema.columns, p.column);
    if position.Some? {
      FindScanAt(data.columns, position.value);
    }
    FindScanIsMember(data.columns, p.column);
    var indices := FilterScanIndices(data, p, avx);
    if indices.Err? {
      return Err(ScanFailure(indices.error));
    }
    IndicesInRange(data, p);
    var picked := PickScanRows(data, indices.value);
    if snapshot.Valid() {
      WherePicked(snapshot, start, end, position.value, p.test, data, picked);
    }
    return Ok(picked);
  }

  lemma IndicesInRange(data: ScanData, p: Predicate)
    requires data.Valid() && FindScan(data.columns, p.column).Some?
    ensures FindScan(data.columns, p.column).value.Valid()
    ensures var hits := Matches(FindScan(data.columns, p.column).value.Values(), p.test, 0);
            |hits| < TWO_64 && forall k :: 0 <= k < |hits| ==> hits[k] < data.rowCount
  {
    FindScanIsMember(data.columns, p.column);
    var values := FindScan(data.columns, p.column).value.Values();
    MatchesSound(values, p.test, 0);
  }

  // ----- the built-in predicates -----

  /** The float the numeric predicates look at: a float cell, or an integer cell cast; a string has none. */
  function NumberOf(v: Value, asFloat: i64 -> u64): Option<u64> {
    match v
    case Bits(bits) => Some(bits)
    case Int(num) => Some(asFloat(num))
    case Str(_) => None
  }

  /** The cells of a numeric column as floats. */
  function Numbers(vs: seq<Value>, asFloat: i64 -> u64): (xs: seq<u64>)
    requires forall i :: 0 <= i < |vs| ==> !vs[i].Str?
    ensures |xs| == |vs| && forall i :: 0 <= i < |vs| ==> NumberOf(vs[i], asFloat) == Some(xs[i])
  {
    seq(|vs|, i requires 0 <= i < |vs| => NumberOf(vs[i], asFloat).value)
  }

  /** On a numeric column, integers included, the two numeric predicates find the positions their
      kernels find among the cells as floats; on a string column they find none. */
  lemma NumericHits(column: Name, a: u64, b: u64, asFloat: i64 -> u64, vs: seq<Value>)
    ensures (forall i :: 0 <= i < |vs| ==> !vs[i].Str?) ==>
              && Matches(vs, RangePredicate(column, a, b, asFloat).test, 0)
                 == Matches(Numbers(vs, asFloat), InRange(a, b).Scalar(), 0)
              && Matches(vs, GtPredicate(column, a, asFloat).test, 0)
                 == Matches(Numbers(vs, asFloat), Above(a).Scalar(), 0)
    ensures (forall i :: 0 <= i < |vs| ==> vs[i].Str?) ==>
              && Matches(vs, RangePredicate(column, a, b, asFloat).test, 0) == []
              && Matches(vs, GtPredicate(column, a, asFloat).test, 0) == []
  {
    if forall i :: 0 <= i < |vs| ==> !vs[i].Str? {
      var xs := Numbers(vs, asFloat);
      MatchesByColumn(vs, xs, RangePredicate(column, a, b, asFloat).test, InRange(a, b).Scalar(), 0);
      MatchesByColumn(vs, xs, GtPredicate(column, a, asFloat).test, Above(a).Scalar(), 0);
    }
    if forall i :: 0 <= i < |vs| ==> vs[i].Str? {
      NoHitsIff(vs, RangePredicate(column, a, b, asFloat).test, 0);
      NoHitsIff(vs, GtPredicate(column, a, asFloat).test, 0);
    }
  }

  /** Rows in the time range whose cell in column pc is a number x with min <= x < max. */
  function BetweenRow(schema: Schema, start: i64, end: i64, pc: nat, min: u64, max: u64, asFloat: i64 -> u64)
    : Row -> bool
  {
    (row: Row) =>
      && schema.timestamp < |row| && row[schema.timestamp].Int? && start <= row[schema.timestamp].num < end
      && pc < |row|
      && match NumberOf(row[pc], asFloat)
         case None => false
         case Some(x) => Ge(x, min) && Lt(x, max)
  }

  /** Rows in the time range whose cell in column pc is a number above the threshold. */
  function AboveRow(schema: Schema, start: i64, end: i64, pc: nat, threshold: u64, asFloat: i64 -> u64): Row -> bool {
    (row: Row) =>
      && schema.timestamp < |row| && row[schema.timestamp].Int? && start <= row[schema.timestamp].num < end
      && pc < |row|
      && match NumberOf(row[pc], asFloat)
         case None => false
         case Some(x) => Lt(threshold, x)
  }

  /** Rows in the time range whose cell in column pc is this byte string. */
  function StringRow(schema: Schema, start: i64, end: i64, pc: nat, value: seq<byte>): Row -> bool {
    (row: Row) =>
      && schema.timestamp < |row| && row[schema.timestamp].Int? && start <= row[schema.timestamp].num < end
      && pc < |row| && row[pc].Str? && row[pc].bytes == value
  }

  /** What the built-in queries select, in terms of times and cells alone. */
  lemma RangeRows(schema: Schema, rows: seq<Row>, start: i64, end: i64, pc: nat, column: Name, min: u64, max: u64,
                  asFloat: i64 -> u64)
    ensures FilterRows(rows, WhereRow(schema, start, end, pc, RangePredicate(column, min, max, asFloat).test))
            == FilterRows(rows, BetweenRow(schema, start, end, pc, min, max, asFloat))
  {
    FilterSame(rows, WhereRow(schema, start, end, pc, RangePredicate(column, min, max, asFloat).test),
      BetweenRow(schema, start, end, pc, min, max, asFloat));
  }

  lemma GtRows(schema: Schema, rows: seq<Row>, start: i64, end: i64, pc: nat, column: Name, threshold: u64,
               asFloat: i64 -> u64)
    ensures FilterRows(rows, WhereRow(schema, start, end, pc, GtPredicate(column, threshold, asFloat).test))
            == FilterRows(rows, AboveRow(schema, start, end, pc, threshold, asFloat))
  {
    var test := GtPredicate(column, threshold, asFloat).test;
    var keep := AboveRow(schema, start, end, pc, threshold, asFloat);
    forall i | 0 <= i < |rows|
      ensures WhereRow(schema, start, end, pc, test)(rows[i]) == keep(rows[i])
    {
      if pc < |rows[i]| && !rows[i][pc].Str? {
        var x := NumberOf(rows[i][pc], asFloat).value;
        assert test(rows[i][pc]) == Gt(x, threshold) == Lt(threshold, x);
      }
    }
    FilterSame(rows, WhereRow(schema, start, end, pc, test), keep);
  }

  lemma ScalarRows(schema: Schema, rows: seq<Row>, start: i64, end: i64, pc: nat, column: Name, value: seq<byte>)
    ensures FilterRows(rows, WhereRow(schema, start, end, pc, ScalarPredicate(column, value).test))
            == FilterRows(rows, StringRow(schema, start, end, pc, value))
  {
    FilterSame(rows, WhereRow(schema, start, end, pc, ScalarPredicate(column, value).test),
      StringRow(schema, start, end, pc, value));
  }
}
