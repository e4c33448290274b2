/** Schemas, typed columns and row batches: the builder, appending in place, and picking rows. */
module Batch {
  import opened Wrappers
  import opened Bytes
  import Utf8

  /** A name as its UTF-8 bytes. */
  type Name = bytes: seq<byte> | Utf8.IsUtf8(bytes) witness []

  datatype DType = F64 | I64 | Timestamp | FixedStr(width: u64)

  datatype ColumnDef = ColumnDef(name: Name, dtype: DType)

  datatype Schema = Schema(columns: seq<ColumnDef>, timestamp: nat) {

    /** What `ColumnDef::new` and `Schema::new` accept. */
    ghost predicate Valid() {
      && timestamp < |columns| < TWO_64
      && (forall i :: 0 <= i < |columns| ==> columns[i].name != [] && columns[i].dtype != FixedStr(0))
      && (forall i, j :: 0 <= i < j < |columns| ==> columns[i].name != columns[j].name)
      && (forall i :: 0 <= i < |columns| ==> (columns[i].dtype == Timestamp <==> i == timestamp))
    }
  }

  /** One cell: an `f64` bit pattern, an integer or timestamp, or a byte string. */
  datatype Value = Bits(bits: u64) | Int(num: i64) | Str(bytes: seq<byte>)

  predicate HasKind(dtype: DType, v: Value) {
    match dtype
    case F64 => v.Bits?
    case I64 => v.Int?
    case Timestamp => v.Int?
    case FixedStr(_) => v.Str?
  }

  /** A typed vector: the variant (and declared width) with its values. */
  datatype RawColumn = ColumnData(dtype: DType, values: seq<Value>) {
    predicate Typed() {
      forall i :: 0 <= i < |values| ==> HasKind(dtype, values[i])
    }
  }

  type ColumnData = c: RawColumn | c.Typed() witness ColumnData(F64, [])

  datatype NamedColumn = NamedColumn(name: Name, data: ColumnData)

  datatype RowBatch = RowBatch(columns: seq<NamedColumn>, rowCount: u64)

  datatype BatchError =
    | SchemaMismatch
    | MissingColumn(column: Name)
    | ColumnTypeMismatch(column: Name, expected: DType)
    | RowCountMismatch(column: Name, expectedRows: nat, actualRows: nat)
    | FixedStringWidthMismatch(column: Name, width: u64)
    | TypeMismatch
    | RowCountOverflow

  // ----- shapes -----

  /** Column i carries the schema's i-th name and type. */
  predicate SchemaShaped(schema: Schema, b: RowBatch) {
    && |b.columns| == |schema.columns|
    && forall i :: 0 <= i < |b.columns| ==>
         && b.columns[i].name == schema.columns[i].name
         && b.columns[i].data.dtype == schema.columns[i].dtype
  }

  /** Every string of a fixed-width column has the declared width. */
  predicate WidthsMatch(data: ColumnData) {
    data.dtype.FixedStr? ==>
      forall i :: 0 <= i < |data.values| ==> |data.values[i].bytes| == data.dtype.width
  }

  /** A batch `RowBatch::builder(schema).build()` can return. */
  predicate BuilderValid(schema: Schema, b: RowBatch) {
    && SchemaShaped(schema, b)
    && (forall i :: 0 <= i < |b.columns| ==>
          WidthsMatch(b.columns[i].data) && |b.columns[i].data.values| == b.rowCount)
    && (b.columns == [] ==> b.rowCount == 0)
  }

  // ----- looking columns up -----

  /** The first column of that name. */
  function FindColumn(columns: seq<NamedColumn>, name: Name): (found: Option<ColumnData>)
    ensures found.None? <==> forall i :: 0 <= i < |columns| ==> columns[i].name != name
  {
    if columns == [] then None
    else if columns[0].name == name then Some(columns[0].data)
    else FindColumn(columns[1..], name)
  }

  lemma {:induction false} FindColumnFirst(columns: seq<NamedColumn>, i: nat)
    requires i < |columns|
    requires forall j :: 0 <= j < i ==> columns[j].name != columns[i].name
    ensures FindColumn(columns, columns[i].name) == Some(columns[i].data)
  {
    if i > 0 {
      FindColumnFirst(columns[1..], i - 1);
    }
  }

  /** In a schema-shaped batch a lookup by schema name finds that position. */
  lemma FindInShaped(schema: Schema, b: RowBatch, i: nat)
    requires schema.Valid() && SchemaShaped(schema, b) && i < |b.columns|
    ensures FindColumn(b.columns, schema.columns[i].name) == Some(b.columns[i].data)
  {
    FindColumnFirst(b.columns, i);
  }

  // ----- building -----

  /** Whether `data` may stand for `def` in a batch whose earlier columns have `rowCount` rows. */
  function CheckColumn(def: ColumnDef, found: Option<ColumnData>, rowCount: Option<nat>): Option<BatchError> {
    if found.None? then
      Some(MissingColumn(def.name))
    else if found.value.dtype != def.dtype then
      Some(ColumnTypeMismatch(def.name, def.dtype))
    else if !WidthsMatch(found.value) then
      Some(FixedStringWidthMismatch(def.name, found.value.dtype.width))
    else if rowCount.Some? && rowCount.value != |found.value.values| then
      Some(RowCountMismatch(def.name, rowCount.value, |found.value.values|))
    else
      None
  }

  /** A builder-valid batch whose columns are the given ones, looked up by schema name. */
  predicate BuiltFrom(schema: Schema, columns: seq<NamedColumn>, b: RowBatch) {
    && BuilderValid(schema, b)
    && forall i :: 0 <= i < |b.columns| ==>
         FindColumn(columns, schema.columns[i].name) == Some(b.columns[i].data)
  }

  /** The first failure in schema order. */
  function FirstFailure(defs: seq<ColumnDef>, columns: seq<NamedColumn>, rowCount: Option<nat>): Option<BatchError> {
    if defs == [] then None
    else
      var found := FindColumn(columns, defs[0].name);
      var failure := CheckColumn(defs[0], found, rowCount);
      if failure.Some? then failure
      else FirstFailure(defs[1..], columns, Some(|found.value.values|))
  }

  /** The first k columns of a batch being built. */
  predicate BuiltSoFar(schema: Schema, columns: seq<NamedColumn>, ordered: seq<NamedColumn>, rowCount: Option<u64>) {
    && |ordered| <= |schema.columns|
    && (rowCount.None? <==> ordered == [])
    && forall i :: 0 <= i < |ordered| ==>
         && ordered[i].name == schema.columns[i].name
         && FindColumn(columns, schema.columns[i].name) == Some(ordered[i].data)
         && ordered[i].data.dtype == schema.columns[i].dtype
         && WidthsMatch(ordered[i].data)
         && |ordered[i].data.values| == rowCount.value
  }

  lemma BuiltOneMore(schema: Schema, columns: seq<NamedColumn>, ordered: seq<NamedColumn>, rowCount: Option<u64>,
                     data: ColumnData)
    requires BuiltSoFar(schema, columns, ordered, rowCount) && |ordered| < |schema.columns|
    requires |data.values| < TWO_64
    requires FindColumn(columns, schema.columns[|ordered|].name) == Some(data)
    requires CheckColumn(schema.columns[|ordered|], Some(data), rowCount).None?
    ensures var next := NamedColumn(schema.columns[|ordered|].name, data);
            BuiltSoFar(schema, columns, ordered + [next], Some(|data.values|))
  {
  }

  /** Column i of the schema is there with its type and widths, and with this many rows. */
  predicate Usable(schema: Schema, columns: seq<NamedColumn>, i: nat, rowCount: nat)
    requires i < |schema.columns|
  {
    var found := FindColumn(columns, schema.columns[i].name);
    && found.Some? && found.value.dtype == schema.columns[i].dtype
    && WidthsMatch(found.value) && |found.value.values| == rowCount
  }

  /** What is wrong with a column behind usable ones of n rows: it is missing, of another type, of
      another width, or of another length, and in that order. */
  predicate FailsAs(def: ColumnDef, found: Option<ColumnData>, rowCount: Option<nat>, failure: Option<BatchError>) {
    if found.None? then failure == Some(MissingColumn(def.name))
    else if found.value.dtype != def.dtype then failure == Some(ColumnTypeMismatch(def.name, def.dtype))
    else if !WidthsMatch(found.value) then failure == Some(FixedStringWidthMismatch(def.name, def.dtype.width))
    else
      rowCount.Some? && rowCount.value != |found.value.values| ==>
        failure == Some(RowCountMismatch(def.name, rowCount.value, |found.value.values|))
  }

  lemma {:induction false} FailsFrom(schema: Schema, columns: seq<NamedColumn>, k: nat, n: nat, from: nat)
    requires from <= k < |schema.columns| && forall i :: 0 <= i < k ==> Usable(schema, columns, i, n)
    ensures FailsAs(schema.columns[k], FindColumn(columns, schema.columns[k].name), if k == 0 then None else Some(n),
              FirstFailure(schema.columns[from..], columns, if from == 0 then None else Some(n)))
    decreases k - from
  {
    assert schema.columns[from..][0] == schema.columns[from];
    assert schema.columns[from..][1..] == schema.columns[from + 1..];
    if from < k {
      assert Usable(schema, columns, from, n);
      FailsFrom(schema, columns, k, n, from + 1);
    }
  }

  /** The failure of a build is that of the first column that is not usable. */
  lemma FailsAt(schema: Schema, columns: seq<NamedColumn>, k: nat, n: nat)
    requires k < |schema.columns| && forall i :: 0 <= i < k ==> Usable(schema, columns, i, n)
    ensures FailsAs(schema.columns[k], FindColumn(columns, schema.columns[k].name), if k == 0 then None else Some(n),
              FirstFailure(schema.columns, columns, None))
  {
    FailsFrom(schema, columns, k, n, 0);
    assert schema.columns[0..] == schema.columns;
  }

  /** No batch can be built. */
  ghost predicate Unbuildable(schema: Schema, columns: seq<NamedColumn>) {
    forall b :: !BuiltFrom(schema, columns, b)
  }

  /** The loop of `build`: all columns in schema order with their row count, or the first failure. */
  method BuildColumns(schema: Schema, columns: seq<NamedColumn>)
    returns (failure: Option<BatchError>, ordered: seq<NamedColumn>, rowCount: Option<u64>)
    requires forall i :: 0 <= i < |columns| ==> |columns[i].data.values| < TWO_64
    ensures failure.None? ==> |ordered| == |schema.columns| && BuiltSoFar(schema, columns, ordered, rowCount)
    ensures failure.Some? ==> FirstFailure(schema.columns, columns, None) == failure && Unbuildable(schema, columns)
  {
    failure, ordered, rowCount := None, [], None;
    assert schema.columns[0..] == schema.columns;
    for k := 0 to |schema.columns|
      invariant failure.None? && |ordered| == k && BuiltSoFar(schema, columns, ordered, rowCount)
      invariant FirstFailure(schema.columns, columns, None) == FirstFailure(schema.columns[k..], columns, rowCount)
    {
      var def := schema.columns[k];
      var found := FindColumn(columns, def.name);
      assert schema.columns[k..][0] == def && schema.columns[k..][1..] == schema.columns[k + 1..];
      failure := CheckColumn(def, found, rowCount);
      if failure.Some? {
        BuildFails(schema, columns, k, rowCount, ordered);
        return;
      }
      FoundIsSmall(columns, def.name);
      BuiltOneMore(schema, columns, ordered, rowCount, found.value);
      if rowCount.None? {
        rowCount := Some(|found.value.values|);
      }
      ordered := ordered + [NamedColumn(def.name, found.value)];
    }
  }

  /** `RowBatchBuilder::build` */
  method Build(schema: Schema, columns: seq<NamedColumn>) returns (res: Result<RowBatch, BatchError>)
    requires forall i :: 0 <= i < |columns| ==> |columns[i].data.values| < TWO_64
    ensures forall b :: res == Ok(b) <==> |columns| == |schema.columns| && BuiltFrom(schema, columns, b)
    ensures res.Err? ==>
              if |columns| != |schema.columns| then res.error == SchemaMismatch
              else FirstFailure(schema.columns, columns, None) == Some(res.error)
  {
    if |columns| != |schema.columns| {
      return Err(SchemaMismatch);
    }
    var failure, ordered, rowCount := BuildColumns(schema, columns);
    if failure.Some? {
      return Err(failure.value);
    }
    BuiltAll(schema, columns, ordered, rowCount);
    return Ok(RowBatch(ordered, if rowCount.Some? then rowCount.value else 0));
  }

  /** The batch of all columns built is the one that can be. */
  lemma BuiltAll(schema: Schema, columns: seq<NamedColumn>, ordered: seq<NamedColumn>, rowCount: Option<u64>)
    requires BuiltSoFar(schema, columns, ordered, rowCount) && |ordered| == |schema.columns|
    ensures var a := RowBatch(ordered, if rowCount.Some? then rowCount.value else 0);
            forall b :: BuiltFrom(schema, columns, b) <==> b == a
  {
    var a := RowBatch(ordered, if rowCount.Some? then rowCount.value else 0);
    assert BuiltFrom(schema, columns, a);
    BuiltIsUnique(schema, columns, a);
  }

  lemma BuiltIsUnique(schema: Schema, columns: seq<NamedColumn>, a: RowBatch)
    requires BuiltFrom(schema, columns, a)
    ensures forall b :: BuiltFrom(schema, columns, b) ==> b == a
  {
    forall b | BuiltFrom(schema, columns, b)
      ensures b == a
    {
      assert forall i :: 0 <= i < |a.columns| ==> b.columns[i] == a.columns[i];
      assert b.columns == a.columns;
      if a.columns != [] {
        assert |b.columns[0].data.values| == b.rowCount;
      }
    }
  }

  lemma FoundIsSmall(columns: seq<NamedColumn>, name: Name)
    requires forall i :: 0 <= i < |columns| ==> |columns[i].data.values| < TWO_64
    requires FindColumn(columns, name).Some?
    ensures |FindColumn(columns, name).value.values| < TWO_64
  {
  }

  lemma BuildFails(schema: Schema, columns: seq<NamedColumn>, k: nat, rowCount: Option<nat>, ordered: seq<NamedColumn>)
    requires k < |schema.columns| && |ordered| == k
    requires rowCount.None? <==> k == 0
    requires forall i :: 0 <= i < k ==>
               && FindColumn(columns, schema.columns[i].name) == Some(ordered[i].data)
               && |ordered[i].data.values| == rowCount.value
    requires CheckColumn(schema.columns[k], FindColumn(columns, schema.columns[k].name), rowCount).Some?
    ensures Unbuildable(schema, columns)
  {
    forall b | BuiltFrom(schema, columns, b)
      ensures false
    {
      BuiltPassesChecks(schema, columns, b, k, rowCount);
    }
  }

  lemma BuiltPassesChecks(schema: Schema, columns: seq<NamedColumn>, b: RowBatch, k: nat, rowCount: Option<nat>)
    requires BuiltFrom(schema, columns, b) && k < |schema.columns|
    requires rowCount.Some? ==>
               0 < k && FindColumn(columns, schema.columns[0].name).Some?
               && rowCount.value == |FindColumn(columns, schema.columns[0].name).value.values|
    ensures CheckColumn(schema.columns[k], FindColumn(columns, schema.columns[k].name), rowCount).None?
  {
    assert FindColumn(columns, schema.columns[0].name) == Some(b.columns[0].data);
    assert FindColumn(columns, schema.columns[k].name) == Some(b.columns[k].data);
  }

  // ----- empty batches, appending, picking rows -----

  function EmptyBatch(schema: Schema): (b: RowBatch)
    ensures BuilderValid(schema, b) && b.rowCount == 0
  {
    RowBatch(seq(|schema.columns|, i requires 0 <= i < |schema.columns| =>
      NamedColumn(schema.columns[i].name, ColumnData(schema.columns[i].dtype, []))), 0)
  }

  /** Two columns of one type end to end. */
  function Joined(a: ColumnData, b: ColumnData): (c: ColumnData)
    requires a.dtype == b.dtype
  {
    ColumnData(a.dtype, a.values + b.values)
  }

  predicate SameShape(a: NamedColumn, b: NamedColumn) {
    a.name == b.name && a.data.dtype == b.data.dtype
  }

  function Grown(a: NamedColumn, b: NamedColumn): NamedColumn
    requires SameShape(a, b)
  {
    NamedColumn(a.name, Joined(a.data, b.data))
  }

  /** The columns after appending pairwise, and the error that stopped it, if any; columns before
      the failing one keep their new rows. */
  function AppendColumns(left: seq<NamedColumn>, right: seq<NamedColumn>): (r: (seq<NamedColumn>, Option<BatchError>))
    requires |left| == |right|
    ensures |r.0| == |left|
  {
    if left == [] then
      ([], None)
    else if left[0].name != right[0].name then
      (left, Some(SchemaMismatch))
    else if left[0].data.dtype != right[0].data.dtype then
      (left, Some(TypeMismatch))
    else
      var (rest, failure) := AppendColumns(left[1..], right[1..]);
      ([Grown(left[0], right[0])] + rest, failure)
  }

  /** `RowBatch::append`: the batch afterwards, and the error, if any. */
  function AppendBatch(a: RowBatch, b: RowBatch): (RowBatch, Option<BatchError>) {
    if |a.columns| != |b.columns| then
      (a, Some(SchemaMismatch))
    else
      var (columns, failure) := AppendColumns(a.columns, b.columns);
      if failure.Some? then
        (RowBatch(columns, a.rowCount), failure)
      else if a.rowCount + b.rowCount >= TWO_64 then
        (RowBatch(columns, a.rowCount), Some(RowCountOverflow))
      else
        (RowBatch(columns, a.rowCount + b.rowCount), None)
  }

  /** A batch that grows in place. */
  class BatchBuffer {
    var columns: seq<NamedColumn>
    var rowCount: u64

    function Value(): RowBatch
      reads this
    {
      RowBatch(columns, rowCount)
    }

    constructor (b: RowBatch)
      ensures Value() == b
    {
      columns, rowCount := b.columns, b.rowCount;
    }

    method Append(other: RowBatch) returns (failure: Option<BatchError>)
      modifies this
      ensures (Value(), failure) == AppendBatch(old(Value()), other)
    {
      if |columns| != |other.columns| {
        return Some(SchemaMismatch);
      }
      ghost var before := columns;
      for k := 0 to |columns|
        invariant |columns| == |before| && rowCount == old(rowCount)
        invariant forall i :: 0 <= i < k ==> SameShape(before[i], other.columns[i])
        invariant forall i :: 0 <= i < |columns| ==>
                    columns[i] == if i < k then Grown(before[i], other.columns[i]) else before[i]
      {
        var left, right := columns[k], other.columns[k];
        if left.name != right.name {
          AppendStops(before, other.columns, k);
          assert columns == AppendColumns(before, other.columns).0;
          return Some(SchemaMismatch);
        }
        if left.data.dtype != right.data.dtype {
          AppendStops(before, other.columns, k);
          assert columns == AppendColumns(before, other.columns).0;
          return Some(TypeMismatch);
        }
        columns := columns[k := Grown(left, right)];
      }
      AppendStops(before, other.columns, |before|);
      assert columns == AppendColumns(before, other.columns).0;
      if rowCount + other.rowCount >= TWO_64 {
        return Some(RowCountOverflow);
      }
      rowCount := rowCount + other.rowCount;
      return None;
    }
  }

  /** Appending stops at the first pair of different shapes; the columns before it have grown. */
  lemma {:induction false} AppendStops(left: seq<NamedColumn>, right: seq<NamedColumn>, k: nat)
    requires k <= |left| == |right|
    requires forall i :: 0 <= i < k ==> SameShape(left[i], right[i])
    requires k == |left| || !SameShape(left[k], right[k])
    ensures forall i :: 0 <= i < |left| ==>
              AppendColumns(left, right).0[i] == if i < k then Grown(left[i], right[i]) else left[i]
    ensures AppendColumns(left, right).1
            == if k == |left| then None
               else if left[k].name != right[k].name then Some(SchemaMismatch)
               else Some(TypeMismatch)
  {
    if k > 0 {
      AppendStops(left[1..], right[1..], k - 1);
    }
  }

  /** How appending a batch ends: nothing done on another number of columns; stopped at the first pair
      of different shapes; or all columns grown, and the row count too unless it overflows. */
  lemma AppendOutcomes(a: RowBatch, b: RowBatch)
    ensures |a.columns| != |b.columns| ==> AppendBatch(a, b) == (a, Some(SchemaMismatch))
    ensures |a.columns| == |b.columns| && AppendColumns(a.columns, b.columns).1.Some? ==>
              AppendBatch(a, b).0.rowCount == a.rowCount && AppendBatch(a, b).1 == AppendColumns(a.columns, b.columns).1
    ensures |a.columns| == |b.columns|
            && (forall i :: 0 <= i < |a.columns| ==> SameShape(a.columns[i], b.columns[i])) ==>
              && |AppendBatch(a, b).0.columns| == |a.columns|
              && (forall i :: 0 <= i < |a.columns| ==>
                    AppendBatch(a, b).0.columns[i] == Grown(a.columns[i], b.columns[i]))
              && if a.rowCount + b.rowCount < TWO_64 then
                   AppendBatch(a, b).0.rowCount == a.rowCount + b.rowCount && AppendBatch(a, b).1.None?
                 else
                   AppendBatch(a, b).0.rowCount == a.rowCount && AppendBatch(a, b).1 == Some(RowCountOverflow)
  {
    if |a.columns| == |b.columns| && forall i :: 0 <= i < |a.columns| ==> SameShape(a.columns[i], b.columns[i]) {
      AppendStops(a.columns, b.columns, |a.columns|);
    }
  }

  lemma AppendValid(schema: Schema, a: RowBatch, b: RowBatch)
    requires BuilderValid(schema, a) && BuilderValid(schema, b)
    requires a.rowCount + b.rowCount < TWO_64
    ensures AppendBatch(a, b).1 == None
    ensures BuilderValid(schema, AppendBatch(a, b).0)
    ensures AppendBatch(a, b).0.rowCount == a.rowCount + b.rowCount
    ensures forall i :: 0 <= i < |a.columns| ==>
              && SameShape(a.columns[i], b.columns[i])
              && AppendBatch(a, b).0.columns[i] == Grown(a.columns[i], b.columns[i])
  {
    AppendStops(a.columns, b.columns, |a.columns|);
  }

  /** The elements of `values` at `indices`, in that order. */
  function Gather<T>(values: seq<T>, indices: seq<nat>): (picked: seq<T>)
    requires forall k :: 0 <= k < |indices| ==> indices[k] < |values|
    ensures |picked| == |indices|
    ensures forall k :: 0 <= k < |indices| ==> picked[k] == values[indices[k]]
  {
    seq(|indices|, k requires 0 <= k < |indices| => values[indices[k]])
  }

  /** `ColumnData::take_indices` */
  function PickRows(c: ColumnData, indices: seq<nat>): (t: ColumnData)
    requires forall k :: 0 <= k < |indices| ==> indices[k] < |c.values|
    ensures t.dtype == c.dtype && t.values == Gather(c.values, indices)
  {
    ColumnData(c.dtype, Gather(c.values, indices))
  }

  /** `RowBatch::take_indices` */
  function PickBatchRows(b: RowBatch, indices: seq<nat>): (t: RowBatch)
    requires |indices| < TWO_64
    requires forall i, k :: 0 <= i < |b.columns| && 0 <= k < |indices| ==> indices[k] < |b.columns[i].data.values|
    ensures t.rowCount == |indices| && |t.columns| == |b.columns|
    ensures forall i :: 0 <= i < |b.columns| ==>
              t.columns[i] == NamedColumn(b.columns[i].name, PickRows(b.columns[i].data, indices))
  {
    RowBatch(seq(|b.columns|, i requires 0 <= i < |b.columns| =>
      NamedColumn(b.columns[i].name, PickRows(b.columns[i].data, indices))), |indices|)
  }
}
