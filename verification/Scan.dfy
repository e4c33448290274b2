/** Scan results: appending segments and batches, predicate filtering over chunks, and picking rows. */
module Scan {
  import opened Wrappers
  import opened Bytes
  import opened Floats
  import opened Batch
  import opened Segment
  import opened Selection
  import opened Simd
  import opened Chunks

  // ----- predicates -----

  /** A column predicate: its test on one cell, and the exact `f64` form it may announce. */
  datatype Predicate = Predicate(
    column: Name,
    range: Option<(u64, u64)>,
    gt: Option<u64>,
    test: Value -> bool) {

    /** The announced forms say what the test says. */
    ghost predicate Exact() {
      && (range.Some? ==> forall bits: u64 :: test(Bits(bits)) == InRange(range.value.0, range.value.1).Holds(bits))
      && (gt.Some? ==> forall bits: u64 :: test(Bits(bits)) == Above(gt.value).Holds(bits))
    }
  }

  /** `RangePredicate`; `asFloat` is the rounding cast of integer cells. */
  function RangePredicate(column: Name, min: u64, max: u64, asFloat: i64 -> u64): Predicate {
    Predicate(column, Some((min, max)), None, (v: Value) =>
      match v
      case Bits(bits) => Ge(bits, min) && Lt(bits, max)
      case Int(num) => var x := asFloat(num); Ge(x, min) && Lt(x, max)
      case Str(_) => false)
  }

  /** `GtPredicate` */
  function GtPredicate(column: Name, threshold: u64, asFloat: i64 -> u64): Predicate {
    Predicate(column, None, Some(threshold), (v: Value) =>
      match v
      case Bits(bits) => Gt(bits, threshold)
      case Int(num) => Gt(asFloat(num), threshold)
      case Str(_) => false)
  }

  /** `ScalarPredicate` */
  function ScalarPredicate(column: Name, value: seq<byte>): Predicate {
    Predicate(column, None, None, (v: Value) => v == Str(value))
  }

  lemma BuiltInPredicatesAreExact(column: Name, a: u64, b: u64, asFloat: i64 -> u64, value: seq<byte>)
    ensures RangePredicate(column, a, b, asFloat).Exact()
    ensures GtPredicate(column, a, asFloat).Exact()
    ensures ScalarPredicate(column, value).Exact()
  {
  }

  // ----- filtering one column -----

  /** A float test as a test on cells. */
  function OnCells(test: FloatTest): Value -> bool {
    (v: Value) => v.Bits? && test.Holds(v.bits)
  }

  lemma {:induction false} MatchesOnCells(values: seq<Value>, bits: seq<u64>, test: FloatTest, base: nat)
    requires |values| == |bits| && forall i :: 0 <= i < |values| ==> values[i] == Bits(bits[i])
    ensures Matches(bits, test.Scalar(), base) == Matches(values, OnCells(test), base)
    decreases |values|
  {
    if values != [] {
      MatchesOnCells(values[1..], bits[1..], test, base + 1);
    }
  }

  function BitsOf(values: seq<Value>): (bits: seq<u64>)
    requires forall i :: 0 <= i < |values| ==> values[i].Bits?
    ensures |bits| == |values| && forall i :: 0 <= i < |values| ==> values[i] == Bits(bits[i])
  {
    seq(|values|, i requires 0 <= i < |values| => values[i].bits)
  }

  /** A mapped chunk straight from a scan: an identity selection spans its whole column. */
  predicate IdentityIsFull(c: Chunk) {
    c.Mapped? && c.rows.IsIdentity() ==> c.rows.len == c.column.rowCount
  }

  lemma FloatCellsOfColumn(column: MappedColumn)
    requires column.Valid() && column.dtype == F64
    ensures |column.bytes| % 8 == 0 && |FloatCells(column.bytes)| == column.rowCount
    ensures forall i :: 0 <= i < column.rowCount ==> column.Values()[i] == Bits(FloatCells(column.bytes)[i])
  {
    assert |column.bytes| == column.rowCount * 8;
    forall i | 0 <= i < column.rowCount
      ensures column.Values()[i] == Bits(FloatCells(column.bytes)[i])
    {
      assert column.Cell(i) == Some(column.Values()[i]);
    }
  }

  /** `range_filter_f64_selection` and `gt_filter_f64_selection`: raw bytes for an identity
      selection, cell by cell otherwise; the same positions either way. */
  method FilterSelection(column: MappedColumn, rows: RowSelection, test: FloatTest, avx: bool)
    returns (output: seq<nat>)
    requires Mapped(column, rows).Valid(F64) && IdentityIsFull(Mapped(column, rows))
    ensures output == Matches(Mapped(column, rows).Values(F64), OnCells(test), 0)
  {
    var chunk := Mapped(column, rows);
    ghost var values := chunk.Values(F64);
    FloatCellsOfColumn(column);
    if rows.IsIdentity() {
      var fast := FilterF64Bytes(column.bytes, test, avx);
      if fast.Ok? {
        assert forall i :: 0 <= i < |values| ==> chunk.Cell(i) == Some(values[i]) && chunk.Cell(i) == column.Cell(i);
        assert values == column.Values();
        MatchesOnCells(values, FloatCells(column.bytes), test, 0);
        return fast.value;
      }
    }
    output := [];
    for local := 0 to rows.Len()
      invariant output == Matches(values[..local], OnCells(test), 0)
    {
      CellStep(values, local, OnCells(test));
      assert chunk.Cell(local) == Some(values[local]);
      var cell := column.Cell(rows.IndexAt(local).value);
      if cell.Some? && test.Holds(cell.value.bits) {
        output := output + [local];
      }
    }
    assert values[..rows.Len()] == values;
  }

  predicate NonePass<T>(cells: seq<T>, test: T -> bool) {
    forall i :: 0 <= i < |cells| ==> !test(cells[i])
  }

  lemma {:induction false} NoHitsIff<T>(cells: seq<T>, test: T -> bool, base: nat)
    ensures Matches(cells, test, base) == [] <==> NonePass(cells, test)
    decreases |cells|
  {
    if cells != [] {
      NoHitsIff(cells[1..], test, base + 1);
      assert forall i :: 1 <= i < |cells| ==> cells[i] == cells[1..][i - 1];
    }
  }

  lemma MoreCellsSameHitsIff<T>(a: seq<T>, b: seq<T>, test: T -> bool)
    ensures Matches(a + b, test, 0) == Matches(a, test, 0) <==> NonePass(b, test)
  {
    MatchesAppend(a, b, test, 0);
    NoHitsIff(b, test, |a|);
    SameIffNothingAdded(Matches(a, test, 0), Matches(b, test, |a|), Matches(a + b, test, 0));
  }

  lemma SameIffNothingAdded<T>(x: seq<T>, y: seq<T>, xy: seq<T>)
    requires xy == x + y
    ensures xy == x <==> y == []
  {
    assert |xy| == |x| + |y|;
  }

  /** Picking rows of a mapped chunk leaves an identity selection shorter than its column exactly when
      the rows picked are the first ones, in order, as many as the selection had, and the column goes
      on behind them. */
  lemma ShortIdentityIff(dtype: DType, column: MappedColumn, rows: RowSelection, locals: seq<nat>)
    requires Mapped(column, rows).Valid(dtype)
    requires forall k :: 0 <= k < |locals| ==> locals[k] < rows.Len()
    ensures TakeGroup(dtype, Mapped(column, rows), locals).Mapped?
    ensures !IdentityIsFull(TakeGroup(dtype, Mapped(column, rows), locals)) <==>
              Gather(rows.Rows(), locals) == Iota(rows.Len()) && rows.Len() != column.rowCount
  {
    rows.LocatedIsGathered(locals);
    FromIndicesDenotes(rows.Located(locals), rows.Len());
  }

  /** All of a range that starts a longer column is such a pick. */
  lemma PickedRangeIsShort(column: MappedColumn, n: nat)
    requires Mapped(column, Range(0, n)).Valid(F64) && n < column.rowCount
    ensures TakeGroup(F64, Mapped(column, Range(0, n)), Iota(n)) == Mapped(column, All(n))
    ensures !IdentityIsFull(Mapped(column, All(n)))
  {
    assert Gather(Range(0, n).Rows(), Iota(n)) == Iota(n);
    ShortIdentityIff(F64, column, Range(0, n), Iota(n));
  }

  /** After rows have been picked, an identity selection may cover only a prefix of its column. The
      raw-bytes path is then right exactly when no row behind the prefix passes the test. */
  lemma IdentityFastPathIff(column: MappedColumn, len: nat, test: FloatTest)
    requires Mapped(column, All(len)).Valid(F64) && len <= column.rowCount
    ensures |column.bytes| % 8 == 0 && |FloatCells(column.bytes)| == column.rowCount
    ensures Matches(FloatCells(column.bytes), test.Scalar(), 0)
            == Matches(Mapped(column, All(len)).Values(F64), OnCells(test), 0)
            <==> NonePass(FloatCells(column.bytes)[len..], test.Scalar())
  {
    FloatCellsOfColumn(column);
    var cells, values := FloatCells(column.bytes), Mapped(column, All(len)).Values(F64);
    forall i | 0 <= i < len
      ensures values[i] == Bits(cells[i])
    {
      assert Mapped(column, All(len)).Cell(i) == Some(values[i]);
      assert column.Cell(i) == Some(column.Values()[i]);
    }
    MatchesOnCells(values, cells[..len], test, 0);
    assert cells == cells[..len] + cells[len..];
    MoreCellsSameHitsIff(cells[..len], cells[len..], test.Scalar());
  }

  method FilterChunk(chunk: Chunk, test: FloatTest, avx: bool) returns (local: seq<nat>)
    requires chunk.Valid(F64) && IdentityIsFull(chunk)
    ensures local == Matches(chunk.Values(F64), OnCells(test), 0)
  {
    match chunk {
      case Owned(values) =>
        assert forall i :: 0 <= i < |values| ==> HasKind(F64, values[i]);
        local := FilterF64Values(BitsOf(values), test, avx);
        MatchesOnCells(values, BitsOf(values), test, 0);
      case Mapped(mapped, rows) =>
        local := FilterSelection(mapped, rows, test, avx);
    }
  }

  lemma ColumnHitsNext(chunks: seq<Chunk>, k: nat, test: FloatTest)
    requires AllValid(F64, chunks) && k < |chunks|
    ensures var base := |Flatten(F64, chunks[..k])|;
            && |Flatten(F64, chunks[..k + 1])| == base + chunks[k].RowCount()
            && Matches(Flatten(F64, chunks[..k + 1]), OnCells(test), 0)
               == Matches(Flatten(F64, chunks[..k]), OnCells(test), 0)
                  + Shifted(Matches(chunks[k].Values(F64), OnCells(test), 0), base)
  {
    FlattenNext(F64, chunks, k);
    HitsOfAppended(Flatten(F64, chunks[..k]), chunks[k].Values(F64), OnCells(test));
  }

  lemma HitsFromBase<T>(a: seq<T>, b: seq<T>, test: T -> bool, base: nat)
    ensures Matches(a + b, test, base) == Matches(a, test, base) + Shifted(Matches(b, test, base), |a|)
  {
    MatchesAppend(a, b, test, base);
    MatchesShift(b, test, base, |a|);
  }

  lemma HitsOfAppended<T>(a: seq<T>, b: seq<T>, test: T -> bool)
    ensures Matches(a + b, test, 0) == Matches(a, test, 0) + Shifted(Matches(b, test, 0), |a|)
  {
    HitsFromBase(a, b, test, 0);
  }

  /** `range_filter_f64` and `gt_filter_f64`: every chunk's local hits, moved to the chunk's base. */
  method FilterFloatColumn(column: ScanColumn, test: FloatTest, avx: bool) returns (res: Option<seq<nat>>)
    requires column.Valid()
    requires forall i :: 0 <= i < |column.chunks| ==> IdentityIsFull(column.chunks[i])
    ensures res == if column.dtype == F64 then Some(Matches(column.Values(), OnCells(test), 0)) else None
  {
    if column.dtype != F64 {
      return None;
    }
    var output: seq<nat> := [];
    var base: nat := 0;
    var chunks := column.chunks;
    for k := 0 to |chunks|
      invariant base == |Flatten(F64, chunks[..k])|
      invariant output == Matches(Flatten(F64, chunks[..k]), OnCells(test), 0)
    {
      var local := FilterChunk(chunks[k], test, avx);
      ColumnHitsNext(chunks, k, test);
      output := output + Shifted(local, base);
      base := base + chunks[k].RowCount();
    }
    assert chunks[..|chunks|] == chunks;
    return Some(output);
  }

  // ----- scan results -----

  datatype NamedScan = NamedScan(name: Name, column: ScanColumn)

  /** Every column is well formed and stands for n values. */
  predicate Sized(columns: seq<NamedScan>, n: nat) {
    forall c :: 0 <= c < |columns| ==> columns[c].column.Valid() && |columns[c].column.Values()| == n
  }

  predicate AllIdentitiesFull(columns: seq<NamedScan>) {
    forall c, k :: 0 <= c < |columns| && 0 <= k < |columns[c].column.chunks| ==>
      IdentityIsFull(columns[c].column.chunks[k])
  }

  datatype ScanData = ScanData(columns: seq<NamedScan>, rowCount: u64) {

    /** Every column is well formed and has the result's row count. */
    predicate Valid() {
      Sized(columns, rowCount)
    }

    /** Selections as `scan_time_range` makes them. */
    predicate Unpicked() {
      AllIdentitiesFull(columns)
    }
  }

  function FindScan(columns: seq<NamedScan>, name: Name): (found: Option<ScanColumn>) {
    if columns == [] then None
    else if columns[0].name == name then Some(columns[0].column)
    else FindScan(columns[1..], name)
  }

  lemma {:induction false} FindScanIsMember(columns: seq<NamedScan>, name: Name)
    ensures FindScan(columns, name).Some? ==>
              exists i :: 0 <= i < |columns| && columns[i] == NamedScan(name, FindScan(columns, name).value)
    decreases |columns|
  {
    if columns != [] && columns[0].name != name {
      FindScanIsMember(columns[1..], name);
      if FindScan(columns, name).Some? {
        var i :| 0 <= i < |columns[1..]| && columns[1..][i] == NamedScan(name, FindScan(columns[1..], name).value);
        assert columns[i + 1] == NamedScan(name, FindScan(columns, name).value);
      }
    }
  }

  /** `filter_scan_indices`: the positions whose cell passes, by whichever path is taken. */
  method FilterScanIndices(result: ScanData, p: Predicate, avx: bool) returns (res: Result<seq<nat>, ScanError>)
    requires result.Valid() && result.Unpicked() && p.Exact()
    ensures match FindScan(result.columns, p.column)
            case None => res == Err(UnknownColumn(p.column))
            case Some(column) => column.Valid() && res == Ok(Matches(column.Values(), p.test, 0))
  {
    var found := FindScan(result.columns, p.column);
    if found.None? {
      return Err(UnknownColumn(p.column));
    }
    var column := found.value;
    FindScanIsMember(result.columns, p.column);
    ghost var at :| 0 <= at < |result.columns| && result.columns[at] == NamedScan(p.column, column);
    assert column.Valid() && |column.Values()| == result.rowCount;
    assert forall k :: 0 <= k < |column.chunks| ==> IdentityIsFull(result.columns[at].column.chunks[k]);
    if p.range.Some? {
      var hits := FilterFloatColumn(column, InRange(p.range.value.0, p.range.value.1), avx);
      if hits.Some? {
        ExactOnColumn(column, InRange(p.range.value.0, p.range.value.1), p.test);
        return Ok(hits.value);
      }
    }
    if p.gt.Some? {
      var hits := FilterFloatColumn(column, Above(p.gt.value), avx);
      if hits.Some? {
        ExactOnColumn(column, Above(p.gt.value), p.test);
        return Ok(hits.value);
      }
    }
    var output := FilterCells(column, result.rowCount, p.test);
    return Ok(output);
  }

  /** The per-row path: every cell looked up through the chunks and tested. */
  method FilterCells(column: ScanColumn, rowCount: nat, test: Value -> bool) returns (output: seq<nat>)
    requires column.Valid() && |column.Values()| == rowCount
    ensures output == Matches(column.Values(), test, 0)
  {
    output := [];
    ghost var values := column.Values();
    for idx := 0 to rowCount
      invariant output == Matches(values[..idx], test, 0)
    {
      CellStep(values, idx, test);
      var cell := ValueAt(column.dtype, column.chunks, idx);
      if cell.Some? && test(cell.value) {
        output := output + [idx];
      }
    }
    assert values[..rowCount] == values;
  }

  lemma {:induction false} FlattenKinds(dtype: DType, chunks: seq<Chunk>)
    requires AllValid(dtype, chunks)
    ensures forall i :: 0 <= i < |Flatten(dtype, chunks)| ==> HasKind(dtype, Flatten(dtype, chunks)[i])
    decreases |chunks|
  {
    if chunks != [] {
      FlattenKinds(dtype, chunks[1..]);
      ChunkKinds(dtype, chunks[0]);
    }
  }

  lemma ChunkKinds(dtype: DType, c: Chunk)
    requires c.Valid(dtype)
    ensures forall i :: 0 <= i < c.RowCount() ==> HasKind(dtype, c.Values(dtype)[i])
  {
    forall i | 0 <= i < c.RowCount()
      ensures HasKind(dtype, c.Values(dtype)[i])
    {
      assert c.Cell(i) == Some(c.Values(dtype)[i]);
    }
  }

  lemma ExactOnColumn(column: ScanColumn, test: FloatTest, p: Value -> bool)
    requires column.Valid() && column.dtype == F64
    requires forall bits: u64 :: p(Bits(bits)) == test.Holds(bits)
    ensures Matches(column.Values(), OnCells(test), 0) == Matches(column.Values(), p, 0)
  {
    FlattenKinds(F64, column.chunks);
    var values := column.Values();
    forall i | 0 <= i < |values|
      ensures OnCells(test)(values[i]) == p(values[i])
    {
      assert values[i] == Bits(values[i].bits);
    }
    SameTestSameMatches(values, OnCells(test), p, 0);
  }

  predicate PickedFrom(picked: NamedScan, from: NamedScan, indices: seq<nat>)
    requires from.column.Valid()
    requires forall k :: 0 <= k < |indices| ==> indices[k] < |from.column.Values()|
  {
    && picked.name == from.name
    && picked.column.dtype == from.column.dtype
    && picked.column.Valid()
    && picked.column.Values() == Gather(from.column.Values(), indices)
  }

  method PickColumnRows(from: NamedScan, indices: seq<nat>) returns (picked: NamedScan)
    requires from.column.Valid() && |from.column.Values()| < TWO_64
    requires forall k :: 0 <= k < |indices| ==> indices[k] < |from.column.Values()|
    ensures PickedFrom(picked, from, indices)
  {
    var c := from.column;
    var chunks := TakeChunks(c.dtype, c.chunks, indices);
    picked := NamedScan(from.name, ScanColumn(c.dtype, chunks));
  }

  /** `ScanResult::take_indices` */
  method PickScanRows(result: ScanData, indices: seq<nat>) returns (picked: ScanData)
    requires result.Valid() && |indices| < TWO_64
    requires forall k :: 0 <= k < |indices| ==> indices[k] < result.rowCount
    ensures picked.Valid() && picked.rowCount == |indices| && |picked.columns| == |result.columns|
    ensures forall i :: 0 <= i < |result.columns| ==> PickedFrom(picked.columns[i], result.columns[i], indices)
  {
    var columns: seq<NamedScan> := [];
    for i := 0 to |result.columns|
      invariant |columns| == i
      invariant forall j :: 0 <= j < i ==> PickedFrom(columns[j], result.columns[j], indices)
    {
      var column := PickColumnRows(result.columns[i], indices);
      columns := columns + [column];
    }
    picked := ScanData(columns, |indices|);
  }

  // ----- growing a result -----

  function EmptyScan(schema: Schema): (d: ScanData)
    ensures d.rowCount == 0 && |d.columns| == |schema.columns|
    ensures forall i :: 0 <= i < |d.columns| ==>
              d.columns[i] == NamedScan(schema.columns[i].name, ScanColumn(schema.columns[i].dtype, []))
  {
    ScanData(seq(|schema.columns|, i requires 0 <= i < |schema.columns| =>
      NamedScan(schema.columns[i].name, ScanColumn(schema.columns[i].dtype, []))), 0)
  }

  predicate SameScanShape(a: NamedScan, b: NamedScan) {
    a.name == b.name && a.column.dtype == b.column.dtype
  }

  /** A result that grows in place. */
  class ScanResult {
    var columns: seq<NamedScan>
    var rowCount: u64

    function Value(): ScanData
      reads this
    {
      ScanData(columns, rowCount)
    }

    constructor (schema: Schema)
      ensures Value() == EmptyScan(schema)
    {
      columns, rowCount := EmptyScan(schema).columns, 0;
    }

    /** `append_columns`: success exactly when the names, types and count line up and the row count
        fits, and then every column has the incoming chunks behind its own. */
    method AppendColumns(incoming: seq<NamedScan>, rows: u64) returns (failure: Option<ScanError>)
      modifies this
      ensures failure.None? <==>
                && |incoming| >= |old(columns)|
                && (forall i :: 0 <= i < |old(columns)| ==> SameScanShape(old(columns)[i], incoming[i]))
                && old(rowCount) + rows < TWO_64
      ensures failure.None? ==>
                && rowCount == old(rowCount) + rows
                && |columns| == |old(columns)|
                && forall i :: 0 <= i < |columns| ==>
                     columns[i] == NamedScan(old(columns)[i].name,
                       ScanColumn(old(columns)[i].column.dtype,
                                  old(columns)[i].column.chunks + incoming[i].column.chunks))
      ensures failure.Some? ==> rowCount == old(rowCount)
      ensures |incoming| == |old(columns)|
              && (forall i :: 0 <= i < |old(columns)| ==> SameScanShape(old(columns)[i], incoming[i])) ==>
                failure in {None, Some(ScanError.RowCountOverflow)}
    {
      var count := 0;
      while count < |incoming| && count < |columns|
        invariant 0 <= count <= |columns| == |old(columns)| && count <= |incoming|
        invariant rowCount == old(rowCount)
        invariant forall i :: 0 <= i < count ==> SameScanShape(old(columns)[i], incoming[i])
        invariant forall i :: 0 <= i < |columns| ==>
                    columns[i] == if i < count
                      then NamedScan(old(columns)[i].name,
                             ScanColumn(old(columns)[i].column.dtype,
                                        old(columns)[i].column.chunks + incoming[i].column.chunks))
                      else old(columns)[i]
      {
        var existing, next := columns[count], incoming[count];
        if next.name != existing.name {
          assert !SameScanShape(old(columns)[count], incoming[count]);
          return Some(ColumnOrderMismatch);
        }
        if next.column.dtype != existing.column.dtype {
          assert !SameScanShape(old(columns)[count], incoming[count]);
          return Some(ScanError.ColumnTypeMismatch);
        }
        columns := columns[count := NamedScan(existing.name,
          ScanColumn(existing.column.dtype, existing.column.chunks + next.column.chunks))];
        count := count + 1;
      }
      if count != |columns| {
        return Some(ColumnOrderMismatch);
      }
      if rowCount + rows >= TWO_64 {
        return Some(ScanError.RowCountOverflow);
      }
      rowCount := rowCount + rows;
      return None;
    }
  }
}
