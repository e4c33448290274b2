/** Sealed segments: flat column files, reading them whole or through a map, and the min/max
    pruning of time ranges. */
module Segment {
  import opened Wrappers
  import opened Bytes
  import opened Batch
  import Words
  import Counters

  datatype SegmentError =
    | MissingSegmentColumn(column: Name)
    | MetadataMismatch(column: Name)
    | WrongByteCount(column: Name)
    | EmptyMapping(column: Name)
    | WrongStringWidth(column: Name)
    | BadFileName(column: Name)
    | MissingFile

  datatype SegmentMeta = SegmentMeta(
    id: u64,
    rowCount: u64,
    minTs: Option<i64>,
    maxTs: Option<i64>,
    columns: seq<ColumnDef>)

  /** A segment directory: one file per column name, and the metadata written last. */
  datatype Dir = Dir(files: map<Name, seq<byte>>, meta: Option<SegmentMeta>)

  // ----- one column file -----

  function CellWidth(dtype: DType): u64 {
    if dtype.FixedStr? then dtype.width else 8
  }

  function CellBytes(v: Value): seq<byte> {
    match v
    case Bits(bits) => U64ToLe(bits)
    case Int(num) => I64ToLe(num)
    case Str(bytes) => bytes
  }

  function Cells(vs: seq<Value>): (cells: seq<seq<byte>>)
    ensures |cells| == |vs|
  {
    seq(|vs|, i requires 0 <= i < |vs| => CellBytes(vs[i]))
  }

  /** The column's cells end to end. */
  function ColumnBytes(vs: seq<Value>): seq<byte> {
    Join(Cells(vs))
  }

  function DecodeCell(dtype: DType, bytes: seq<byte>): (v: Value)
    requires |bytes| == CellWidth(dtype)
    ensures HasKind(dtype, v)
  {
    match dtype
    case F64 => Bits(U64FromLe(bytes))
    case I64 => Int(I64FromLe(bytes))
    case Timestamp => Int(I64FromLe(bytes))
    case FixedStr(_) => Str(bytes)
  }

  /** `write_column`: the file's bytes, or an error exactly when a string has another width. */
  method ColumnFile(name: Name, data: ColumnData) returns (res: Result<seq<byte>, SegmentError>)
    ensures res == if WidthsMatch(data) then Ok(ColumnBytes(data.values)) else Err(WrongStringWidth(name))
  {
    var out: seq<byte> := [];
    for k := 0 to |data.values|
      invariant out == ColumnBytes(data.values[..k])
      invariant data.dtype.FixedStr? ==> forall i :: 0 <= i < k ==> |data.values[i].bytes| == data.dtype.width
    {
      var v := data.values[k];
      if v.Str? && |v.bytes| != data.dtype.width {
        return Err(WrongStringWidth(name));
      }
      ColumnBytesNext(data.values, k);
      out := out + CellBytes(v);
    }
    assert data.values[..|data.values|] == data.values;
    return Ok(out);
  }

  lemma ColumnBytesNext(vs: seq<Value>, k: nat)
    requires k < |vs|
    ensures ColumnBytes(vs[..k + 1]) == ColumnBytes(vs[..k]) + CellBytes(vs[k])
  {
    assert Cells(vs[..k + 1]) == Cells(vs[..k]) + [CellBytes(vs[k])];
    JoinAppend(Cells(vs[..k]), [CellBytes(vs[k])]);
    JoinOne(CellBytes(vs[k]));
  }

  /** A value of the type, of the type's width when it is a string. */
  predicate CellOk(dtype: DType, v: Value) {
    HasKind(dtype, v) && (v.Str? ==> |v.bytes| == CellWidth(dtype))
  }

  lemma CellRoundTrip(dtype: DType, v: Value)
    requires CellOk(dtype, v)
    ensures |CellBytes(v)| == CellWidth(dtype)
    ensures DecodeCell(dtype, CellBytes(v)) == v
  {
    if v.Bits? {
      U64RoundTrip(v.bits);
    } else if v.Int? {
      I64RoundTrip(v.num);
    }
  }

  lemma CellBytesRoundTrip(dtype: DType, bytes: seq<byte>)
    requires |bytes| == CellWidth(dtype)
    ensures CellOk(dtype, DecodeCell(dtype, bytes)) && CellBytes(DecodeCell(dtype, bytes)) == bytes
  {
    if !dtype.FixedStr? {
      U64BytesRoundTrip(bytes);
      I64BytesRoundTrip(bytes);
    }
  }

  lemma TimesInRange(i: nat, n: nat, w: nat)
    requires i < n
    ensures 0 <= i * w <= i * w + w <= n * w
    ensures (i + 1) * w == i * w + w
  {
    Words.MulStep(n, i, w);
    Counters.Distribute(i, 1, w);
  }

  /** Cell i of a flat file of n cells of width w. */
  function Slice(bytes: seq<byte>, w: nat, i: nat): (cell: seq<byte>)
    requires i * w + w <= |bytes|
    ensures |cell| == w
  {
    bytes[i * w..i * w + w]
  }

  lemma SliceShift(bytes: seq<byte>, w: nat, i: nat)
    requires i * w + w + w <= |bytes|
    ensures (i + 1) * w == i * w + w
    ensures Slice(bytes[w..], w, i) == Slice(bytes, w, i + 1)
  {
    assert (i + 1) * w == i * w + w;
    assert bytes[w..][i * w..i * w + w] == bytes[i * w + w..i * w + w + w];
  }

  lemma {:induction false} JoinLength(cells: seq<seq<byte>>, w: nat)
    requires forall k :: 0 <= k < |cells| ==> |cells[k]| == w
    ensures |Join(cells)| == |cells| * w
  {
    if cells != [] {
      JoinLength(cells[1..], w);
      assert |cells| * w == (|cells| - 1) * w + w;
    }
  }

  /** Cells of one width can be cut back out of the flat file. */
  lemma {:induction false} SliceOfJoin(cells: seq<seq<byte>>, w: nat, i: nat)
    requires forall k :: 0 <= k < |cells| ==> |cells[k]| == w
    requires i < |cells|
    ensures i * w + w <= |Join(cells)| && Slice(Join(cells), w, i) == cells[i]
    decreases i
  {
    var flat := Join(cells);
    JoinLength(cells, w);
    TimesInRange(i, |cells|, w);
    if i == 0 {
      assert 0 * w == 0;
      assert Slice(flat, w, 0) == flat[..w] == cells[0];
    } else {
      var rest := cells[1..];
      SliceOfJoin(rest, w, i - 1);
      TimesInRange(i - 1, |rest|, w);
      assert flat[w..] == Join(rest);
      assert (i - 1) * w + w == i * w;
      SliceShift(flat, w, i - 1);
      assert rest[i - 1] == cells[i];
    }
  }

  /** Cells 0 to n - 1 of a file of n cells are its slices. */
  ghost predicate AreSlices(cells: seq<seq<byte>>, w: nat, bytes: seq<byte>) {
    && |bytes| == |cells| * w
    && forall i :: 0 <= i < |cells| ==> i * w + w <= |bytes| && cells[i] == Slice(bytes, w, i)
  }

  /** The first cell is the front of the file. */
  lemma FirstSlice(cells: seq<seq<byte>>, w: nat, bytes: seq<byte>)
    requires AreSlices(cells, w, bytes) && cells != []
    ensures w <= |bytes| && cells[0] == bytes[..w]
  {
    assert 0 * w == 0;
    assert cells[0] == Slice(bytes, w, 0);
  }

  /** The other cells are the slices of the rest. */
  lemma LaterSlices(cells: seq<seq<byte>>, w: nat, bytes: seq<byte>)
    requires AreSlices(cells, w, bytes) && cells != [] && w <= |bytes|
    ensures AreSlices(cells[1..], w, bytes[w..])
  {
    var rest, n := bytes[w..], |cells| - 1;
    Counters.Distribute(n, 1, w);
    assert |rest| == n * w;
    forall i | 0 <= i < n
      ensures i * w + w <= |rest| && cells[1..][i] == Slice(rest, w, i)
    {
      TimesInRange(i, n, w);
      SliceShift(bytes, w, i);
      assert cells[i + 1] == Slice(bytes, w, i + 1);
    }
  }

  /** A file is its own slices end to end. */
  lemma {:induction false} JoinOfSlices(cells: seq<seq<byte>>, w: nat, bytes: seq<byte>)
    requires AreSlices(cells, w, bytes)
    ensures Join(cells) == bytes
    decreases |cells|
  {
    if cells == [] {
      assert 0 * w == 0;
    } else {
      FirstSlice(cells, w, bytes);
      LaterSlices(cells, w, bytes);
      JoinOfSlices(cells[1..], w, bytes[w..]);
    }
  }

  lemma SliceOfColumn(dtype: DType, vs: seq<Value>, i: nat)
    requires forall k :: 0 <= k < |vs| ==> CellOk(dtype, vs[k])
    ensures |ColumnBytes(vs)| == |vs| * CellWidth(dtype)
    ensures i < |vs| ==> i * CellWidth(dtype) + CellWidth(dtype) <= |ColumnBytes(vs)|
                         && Slice(ColumnBytes(vs), CellWidth(dtype), i) == CellBytes(vs[i])
  {
    forall k | 0 <= k < |vs|
      ensures |Cells(vs)[k]| == CellWidth(dtype)
    {
      CellRoundTrip(dtype, vs[k]);
    }
    JoinLength(Cells(vs), CellWidth(dtype));
    if i < |vs| {
      SliceOfJoin(Cells(vs), CellWidth(dtype), i);
    }
  }

  /** `read_column`: the whole file, cell by cell, if it has exactly the expected length. */
  function ReadColumnFile(name: Name, dtype: DType, rowCount: nat, bytes: seq<byte>): Result<ColumnData, SegmentError> {
    if |bytes| != rowCount * CellWidth(dtype) then
      Err(WrongByteCount(name))
    else
      Ok(ColumnData(dtype, seq(rowCount, i requires 0 <= i < rowCount =>
        TimesInRange(i, rowCount, CellWidth(dtype)); DecodeCell(dtype, Slice(bytes, CellWidth(dtype), i)))))
  }

  /** A column file mapped into memory. */
  datatype MappedColumn = MappedColumn(dtype: DType, rowCount: nat, bytes: seq<byte>) {

    /** `f64_value`, `i64_value` and `fixed_str_value`: one cell straight from the bytes. */
    function Cell(index: nat): (v: Option<Value>)
      ensures v.Some? ==> HasKind(dtype, v.value)
    {
      var start := index * CellWidth(dtype);
      if start + CellWidth(dtype) <= |bytes| then
        Some(DecodeCell(dtype, Slice(bytes, CellWidth(dtype), index)))
      else
        None
    }

    /** What `map_column` has checked. */
    predicate Valid() {
      0 < CellWidth(dtype) && |bytes| == rowCount * CellWidth(dtype)
    }

    /** The column's values. */
    function Values(): (vs: seq<Value>)
      requires Valid()
      ensures |vs| == rowCount
      ensures forall i :: 0 <= i < rowCount ==> Cell(i) == Some(vs[i])
    {
      CellInRange();
      seq(rowCount, i requires 0 <= i < rowCount => Cell(i).value)
    }

    lemma CellInRange()
      requires Valid()
      ensures forall i: nat :: Cell(i).Some? <==> i < rowCount
    {
      forall i: nat
        ensures Cell(i).Some? <==> i < rowCount
      {
        var w := CellWidth(dtype);
        if i < rowCount {
          TimesInRange(i, rowCount, w);
        } else {
          assert (i - rowCount) * w >= 0;
        }
      }
    }
  }

  /** The values a reader can get wrong: whole-file read, mapped cells and the original agree. */
  lemma ThreeReadsAgree(name: Name, data: ColumnData)
    requires WidthsMatch(data) && CellWidth(data.dtype) > 0
    ensures var bytes := ColumnBytes(data.values);
            var mapped := MappedColumn(data.dtype, |data.values|, bytes);
            && mapped.Valid()
            && mapped.Values() == data.values
            && ReadColumnFile(name, data.dtype, |data.values|, bytes) == Ok(data)
            && forall i: nat :: mapped.Cell(i) == if i < |data.values| then Some(data.values[i]) else None
  {
    var vs := data.values;
    var bytes := ColumnBytes(vs);
    var mapped := MappedColumn(data.dtype, |vs|, bytes);
    SliceOfColumn(data.dtype, vs, 0);
    mapped.CellInRange();
    forall i | 0 <= i < |vs|
      ensures mapped.Cell(i) == Some(vs[i])
      ensures ReadColumnFile(name, data.dtype, |vs|, bytes).value.values[i] == vs[i]
    {
      SliceOfColumn(data.dtype, vs, i);
      CellRoundTrip(data.dtype, vs[i]);
    }
    assert ReadColumnFile(name, data.dtype, |vs|, bytes).value.values == vs;
    assert mapped.Values() == vs;
  }

  /** Every file of the right length is the file of exactly one column: the one read from it. */
  lemma ReadThenWriteColumn(name: Name, dtype: DType, rowCount: nat, bytes: seq<byte>)
    requires CellWidth(dtype) > 0 && |bytes| == rowCount * CellWidth(dtype)
    ensures var read := ReadColumnFile(name, dtype, rowCount, bytes);
            read.Ok? && WidthsMatch(read.value) && ColumnBytes(read.value.values) == bytes
  {
    var w := CellWidth(dtype);
    var vs := ReadColumnFile(name, dtype, rowCount, bytes).value.values;
    forall i | 0 <= i < rowCount
      ensures i * w + w <= |bytes| && CellOk(dtype, vs[i]) && CellBytes(vs[i]) == Slice(bytes, w, i)
    {
      TimesInRange(i, rowCount, w);
      CellBytesRoundTrip(dtype, Slice(bytes, w, i));
    }
    JoinOfSlices(Cells(vs), w, bytes);
  }

  // ----- metadata and pruning -----

  function Timestamps(vs: seq<Value>): (ts: seq<i64>)
    requires forall i :: 0 <= i < |vs| ==> vs[i].Int?
    ensures |ts| == |vs| && forall i :: 0 <= i < |vs| ==> ts[i] == vs[i].num
  {
    seq(|vs|, i requires 0 <= i < |vs| => vs[i].num)
  }

  function MinOf(ts: seq<i64>): (m: Option<i64>)
    ensures m.None? <==> ts == []
    ensures m.Some? ==> m.value in ts && forall i :: 0 <= i < |ts| ==> m.value <= ts[i]
  {
    if ts == [] then None
    else
      var rest := MinOf(ts[1..]);
      assert ts == [ts[0]] + ts[1..];
      if rest.Some? && rest.value < ts[0] then rest else Some(ts[0])
  }

  function MaxOf(ts: seq<i64>): (m: Option<i64>)
    ensures m.None? <==> ts == []
    ensures m.Some? ==> m.value in ts && forall i :: 0 <= i < |ts| ==> m.value >= ts[i]
  {
    if ts == [] then None
    else
      var rest := MaxOf(ts[1..]);
      assert ts == [ts[0]] + ts[1..];
      if rest.Some? && rest.value > ts[0] then rest else Some(ts[0])
  }

  /** `overlaps_time_range` */
  predicate OverlapsTimeRange(meta: SegmentMeta, start: i64, end: i64) {
    meta.minTs.Some? && meta.maxTs.Some? && meta.maxTs.value >= start && meta.minTs.value < end
  }

  /** A skipped segment holds no timestamp in the range, and a segment with one is never skipped. */
  lemma PruningKeepsMatches(meta: SegmentMeta, ts: seq<i64>, start: i64, end: i64)
    requires meta.minTs == MinOf(ts) && meta.maxTs == MaxOf(ts)
    requires !OverlapsTimeRange(meta, start, end)
    ensures forall i :: 0 <= i < |ts| ==> !(start <= ts[i] < end)
  {
  }

  /** A segment is skipped exactly when it is empty or lies wholly before or wholly behind the range. */
  lemma PruningSkipsIff(meta: SegmentMeta, ts: seq<i64>, start: i64, end: i64)
    requires meta.minTs == MinOf(ts) && meta.maxTs == MaxOf(ts)
    ensures !OverlapsTimeRange(meta, start, end) <==>
              || ts == []
              || (forall i :: 0 <= i < |ts| ==> ts[i] < start)
              || (forall i :: 0 <= i < |ts| ==> end <= ts[i])
  {
    if ts != [] {
      assert meta.minTs.value in ts && meta.maxTs.value in ts;
    }
  }

  /** The timestamp column of a schema-shaped batch. */
  function BatchTimestamps(schema: Schema, b: RowBatch): (ts: seq<i64>)
    requires schema.timestamp < |schema.columns| && schema.columns[schema.timestamp].dtype == Timestamp
    requires SchemaShaped(schema, b)
  {
    Timestamps(b.columns[schema.timestamp].data.values)
  }

  function MetaOf(schema: Schema, id: u64, b: RowBatch): SegmentMeta
    requires schema.timestamp < |schema.columns| && schema.columns[schema.timestamp].dtype == Timestamp
    requires SchemaShaped(schema, b)
  {
    var ts := BatchTimestamps(schema, b);
    SegmentMeta(id, b.rowCount, MinOf(ts), MaxOf(ts), schema.columns)
  }

  /** `column_file_name` refuses names with a slash, a backslash or two dots in a row. */
  predicate FileNameOk(name: Name) {
    && 0x2F !in name
    && 0x5C !in name
    && forall i :: 0 <= i < |name| - 1 ==> !(name[i] == 0x2E && name[i + 1] == 0x2E)
  }

  /** A directory holding `b`, sealed as segment `id`, in full. */
  ghost predicate Intact(schema: Schema, id: u64, b: RowBatch, dir: Dir) {
    && schema.Valid()
    && BuilderValid(schema, b)
    && dir.meta == Some(MetaOf(schema, id, b))
    && forall i :: 0 <= i < |b.columns| ==>
         && FileNameOk(schema.columns[i].name)
         && schema.columns[i].name in dir.files
         && dir.files[schema.columns[i].name] == ColumnBytes(b.columns[i].data.values)
  }

  /** The position of a column in the metadata. */
  function FindMeta(columns: seq<ColumnDef>, name: Name): (found: Option<ColumnDef>) {
    if columns == [] then None
    else if columns[0].name == name then Some(columns[0])
    else FindMeta(columns[1..], name)
  }

  lemma {:induction false} FindMetaAt(columns: seq<ColumnDef>, i: nat)
    requires i < |columns|
    requires forall j :: 0 <= j < i ==> columns[j].name != columns[i].name
    ensures FindMeta(columns, columns[i].name) == Some(columns[i])
  {
    if i > 0 {
      FindMetaAt(columns[1..], i - 1);
    }
  }

  /** `map_column` */
  function MapColumn(meta: SegmentMeta, files: map<Name, seq<byte>>, name: Name, dtype: DType)
    : Result<MappedColumn, SegmentError>
  {
    var column := FindMeta(meta.columns, name);
    if column.None? then Err(MissingSegmentColumn(name))
    else if column.value.dtype != dtype then Err(MetadataMismatch(name))
    else if name !in files then Err(MissingFile)
    else
      var expected := meta.rowCount * CellWidth(dtype);
      if |files[name]| != expected then Err(WrongByteCount(name))
      else if expected == 0 then Err(EmptyMapping(name))
      else Ok(MappedColumn(dtype, meta.rowCount, files[name]))
  }

  /** Mapping a column of an intact, non-empty segment gives exactly the sealed values. */
  lemma MapIntactColumn(schema: Schema, id: u64, b: RowBatch, dir: Dir, i: nat)
    requires Intact(schema, id, b, dir)
    requires b.rowCount > 0 && i < |b.columns|
    ensures var m := MapColumn(dir.meta.value, dir.files, schema.columns[i].name, schema.columns[i].dtype);
            && m.Ok? && m.value.Valid()
            && m.value.dtype == schema.columns[i].dtype
            && m.value.rowCount == b.rowCount
            && m.value.Values() == b.columns[i].data.values
  {
    FindMetaAt(schema.columns, i);
    ThreeReadsAgree(schema.columns[i].name, b.columns[i].data);
    var w := CellWidth(schema.columns[i].dtype);
    assert b.rowCount * w >= 1 * w;
  }

  // ----- reading a whole segment -----

  function ReadFile(def: ColumnDef, rowCount: nat, files: map<Name, seq<byte>>): Result<ColumnData, SegmentError> {
    if !FileNameOk(def.name) then Err(BadFileName(def.name))
    else if def.name !in files then Err(MissingFile)
    else ReadColumnFile(def.name, def.dtype, rowCount, files[def.name])
  }

  /** The columns read in schema order, or the first error. */
  function ReadFiles(defs: seq<ColumnDef>, rowCount: nat, files: map<Name, seq<byte>>)
    : Result<seq<NamedColumn>, SegmentError>
  {
    if defs == [] then Ok([])
    else
      match ReadFile(defs[0], rowCount, files)
      case Err(error) => Err(error)
      case Ok(data) =>
        match ReadFiles(defs[1..], rowCount, files)
        case Err(error) => Err(error)
        case Ok(rest) => Ok([NamedColumn(defs[0].name, data)] + rest)
  }

  function Contents(schema: Schema, meta: SegmentMeta, files: map<Name, seq<byte>>): Result<RowBatch, SegmentError> {
    match ReadFiles(schema.columns, meta.rowCount, files)
    case Err(error) => Err(error)
    case Ok(columns) => Ok(RowBatch(columns, meta.rowCount))
  }

  /** What reading has put together before column k, in front of what is still to read. */
  function Behind(read: seq<NamedColumn>, rest: Result<seq<NamedColumn>, SegmentError>)
    : Result<seq<NamedColumn>, SegmentError>
  {
    match rest
    case Err(error) => Err(error)
    case Ok(more) => Ok(read + more)
  }

  lemma BehindOneMore(read: seq<NamedColumn>, next: NamedColumn, rest: Result<seq<NamedColumn>, SegmentError>)
    ensures Behind(read, Behind([next], rest)) == Behind(read + [next], rest)
  {
    if rest.Ok? {
      assert read + ([next] + rest.value) == (read + [next]) + rest.value;
    }
  }

  /** `read_batch` */
  method ReadBatch(schema: Schema, meta: SegmentMeta, files: map<Name, seq<byte>>)
    returns (res: Result<RowBatch, SegmentError>)
    ensures res == Contents(schema, meta, files)
  {
    var columns: seq<NamedColumn> := [];
    var defs := schema.columns;
    ghost var whole := ReadFiles(defs, meta.rowCount, files);
    assert defs[0..] == defs;
    assert whole == Behind([], whole) by {
      if whole.Ok? {
        assert [] + whole.value == whole.value;
      }
    }
    for k := 0 to |defs|
      invariant |columns| == k
      invariant whole == Behind(columns, ReadFiles(defs[k..], meta.rowCount, files))
    {
      assert defs[k..][0] == defs[k] && defs[k..][1..] == defs[k + 1..];
      var data := ReadFile(defs[k], meta.rowCount, files);
      if data.Err? {
        return Err(data.error);
      }
      BehindOneMore(columns, NamedColumn(defs[k].name, data.value), ReadFiles(defs[k + 1..], meta.rowCount, files));
      columns := columns + [NamedColumn(defs[k].name, data.value)];
    }
    assert columns + [] == columns;
    return Ok(RowBatch(columns, meta.rowCount));
  }

  /** Files that read back one by one read back together. */
  lemma {:induction false} ReadFilesBack(defs: seq<ColumnDef>, rowCount: nat, files: map<Name, seq<byte>>,
          columns: seq<NamedColumn>)
    requires |columns| == |defs|
    requires forall i :: 0 <= i < |defs| ==>
               columns[i].name == defs[i].name && ReadFile(defs[i], rowCount, files) == Ok(columns[i].data)
    ensures ReadFiles(defs, rowCount, files) == Ok(columns)
    decreases |defs|
  {
    if defs != [] {
      ReadFilesBack(defs[1..], rowCount, files, columns[1..]);
      assert columns == [NamedColumn(defs[0].name, columns[0].data)] + columns[1..];
    }
  }

  /** Reading stops at the first column that cannot be read: its name cannot be a file name, its file is
      missing, or the file has another length than its rows need, and in that order. */
  lemma {:induction false} ReadFilesFailAt(defs: seq<ColumnDef>, rowCount: nat, files: map<Name, seq<byte>>, k: nat)
    requires k < |defs| && ReadFile(defs[k], rowCount, files).Err?
    requires forall i :: 0 <= i < k ==> ReadFile(defs[i], rowCount, files).Ok?
    ensures ReadFiles(defs, rowCount, files)
            == Err(if !FileNameOk(defs[k].name) then BadFileName(defs[k].name)
                   else if defs[k].name !in files then MissingFile
                   else WrongByteCount(defs[k].name))
    ensures FileNameOk(defs[k].name) && defs[k].name in files ==>
              |files[defs[k].name]| != rowCount * CellWidth(defs[k].dtype)
    decreases k
  {
    if k > 0 {
      assert ReadFile(defs[0], rowCount, files).Ok?;
      forall i | 0 <= i < k - 1
        ensures ReadFile(defs[1..][i], rowCount, files).Ok?
      {
        assert defs[1..][i] == defs[i + 1];
      }
      ReadFilesFailAt(defs[1..], rowCount, files, k - 1);
    }
  }

  /** An intact directory reads back as the batch that was sealed into it. */
  lemma IntactReadsBack(schema: Schema, id: u64, b: RowBatch, dir: Dir)
    requires Intact(schema, id, b, dir)
    ensures Contents(schema, dir.meta.value, dir.files) == Ok(b)
  {
    forall i | 0 <= i < |b.columns|
      ensures ReadFile(schema.columns[i], b.rowCount, dir.files) == Ok(b.columns[i].data)
    {
      ThreeReadsAgree(schema.columns[i].name, b.columns[i].data);
    }
    ReadFilesBack(schema.columns, b.rowCount, dir.files, b.columns);
  }

  /** A non-empty segment whose metadata and files are those of the batch it reads as. */
  ghost predicate Sound(schema: Schema, meta: SegmentMeta, files: map<Name, seq<byte>>) {
    match Contents(schema, meta, files)
    case Err(_) => false
    case Ok(b) => b.rowCount > 0 && Intact(schema, meta.id, b, Dir(files, Some(meta)))
  }
}
