/** The binary form of a row batch inside a log record: encoder, decoder, and the proof that each
    is exactly the other's inverse. */
module Codec {
  import opened Wrappers
  import opened Bytes
  import opened Batch
  import Utf8

  datatype CodecError =
    | UnexpectedEnd
    | ColumnCount
    | NameNotUtf8
    | ColumnOrder
    | UnknownTag
    | ColumnType
    | TrailingBytes
    | PayloadTooLarge(len: nat)

  // ----- the format -----

  function Tag(dtype: DType): byte {
    match dtype
    case F64 => 0
    case I64 => 1
    case Timestamp => 2
    case FixedStr(_) => 3
  }

  function PutBlob(bytes: seq<byte>): seq<byte>
    requires |bytes| < TWO_32
  {
    U32ToLe(|bytes|) + bytes
  }

  function PutType(dtype: DType): seq<byte> {
    [Tag(dtype)] + if dtype.FixedStr? then U64ToLe(dtype.width) else []
  }

  predicate ValueFits(v: Value) {
    v.Str? ==> |v.bytes| < TWO_32
  }

  function PutValue(v: Value): seq<byte>
    requires ValueFits(v)
  {
    match v
    case Bits(bits) => U64ToLe(bits)
    case Int(num) => I64ToLe(num)
    case Str(bytes) => PutBlob(bytes)
  }

  predicate ValuesFit(vs: seq<Value>) {
    forall i :: 0 <= i < |vs| ==> ValueFits(vs[i])
  }

  function PutValues(vs: seq<Value>): seq<byte>
    requires ValuesFit(vs)
  {
    if vs == [] then [] else PutValue(vs[0]) + PutValues(vs[1..])
  }

  function PutData(data: ColumnData): seq<byte>
    requires |data.values| < TWO_64 && ValuesFit(data.values)
  {
    PutType(data.dtype) + (U64ToLe(|data.values|) + PutValues(data.values))
  }

  /** Names and strings fit their 32-bit length fields, the row count its 64-bit field. */
  predicate ColumnFits(c: NamedColumn) {
    |c.name| < TWO_32 && |c.data.values| < TWO_64 && ValuesFit(c.data.values)
  }

  function PutColumn(c: NamedColumn): seq<byte>
    requires ColumnFits(c)
  {
    PutBlob(c.name) + PutData(c.data)
  }

  predicate ColumnsFit(cs: seq<NamedColumn>) {
    forall i :: 0 <= i < |cs| ==> ColumnFits(cs[i])
  }

  function PutColumns(cs: seq<NamedColumn>): seq<byte>
    requires ColumnsFit(cs)
  {
    if cs == [] then [] else PutColumn(cs[0]) + PutColumns(cs[1..])
  }

  predicate Fits(b: RowBatch) {
    |b.columns| < TWO_64 && ColumnsFit(b.columns)
  }

  /** The first string that is too long for its length field. */
  function ValuesTooLong(vs: seq<Value>): (len: Option<nat>)
    ensures len.None? <==> ValuesFit(vs)
  {
    if vs == [] then None
    else if !ValueFits(vs[0]) then Some(|vs[0].bytes|)
    else
      assert forall i :: 1 <= i < |vs| ==> vs[i] == vs[1..][i - 1];
      ValuesTooLong(vs[1..])
  }

  function ColumnTooLong(c: NamedColumn): (len: Option<nat>)
    ensures len.None? <==> ColumnFits(c)
  {
    if |c.name| >= TWO_32 then Some(|c.name|)
    else if |c.data.values| >= TWO_64 then Some(|c.data.values|)
    else ValuesTooLong(c.data.values)
  }

  function ColumnsTooLong(cs: seq<NamedColumn>): (len: Option<nat>)
    ensures len.None? <==> ColumnsFit(cs)
  {
    if cs == [] then None
    else if ColumnTooLong(cs[0]).Some? then ColumnTooLong(cs[0])
    else
      assert forall i :: 1 <= i < |cs| ==> cs[i] == cs[1..][i - 1];
      ColumnsTooLong(cs[1..])
  }

  /** The first length, in writing order, that its field cannot hold. */
  function TooLong(b: RowBatch): (len: Option<nat>)
    ensures len.None? <==> Fits(b)
  {
    if |b.columns| >= TWO_64 then Some(|b.columns|) else ColumnsTooLong(b.columns)
  }

  function Encoded(b: RowBatch): seq<byte>
    requires Fits(b)
  {
    U64ToLe(b.rowCount) + (U64ToLe(|b.columns|) + PutColumns(b.columns))
  }

  // ----- parsing -----

  /** A parsed value with the bytes after it. */
  datatype Parsed<+T> = Got(value: T, rest: seq<byte>) | Fail(error: CodecError)

  /** What the remaining parse gives, behind the elements already read. */
  function After<T>(read: seq<T>, rest: Parsed<seq<T>>): Parsed<seq<T>> {
    match rest
    case Fail(error) => Fail(error)
    case Got(more, end) => Got(read + more, end)
  }

  function TakeBytes(bytes: seq<byte>, n: nat): (p: Parsed<seq<byte>>)
    ensures p.Got? ==> |p.value| == n && bytes == p.value + p.rest
  {
    if |bytes| < n then Fail(UnexpectedEnd) else Got(bytes[..n], bytes[n..])
  }

  function TakeU64(bytes: seq<byte>): Parsed<u64> {
    match TakeBytes(bytes, 8)
    case Fail(error) => Fail(error)
    case Got(raw, rest) => Got(U64FromLe(raw), rest)
  }

  function TakeBlob(bytes: seq<byte>): Parsed<seq<byte>> {
    match TakeBytes(bytes, 4)
    case Fail(error) => Fail(error)
    case Got(raw, rest) => TakeBytes(rest, U32FromLe(raw))
  }

  function TakeType(bytes: seq<byte>): Parsed<DType> {
    match TakeBytes(bytes, 1)
    case Fail(error) => Fail(error)
    case Got(raw, rest) =>
      if raw[0] == 0 then Got(F64, rest)
      else if raw[0] == 1 then Got(I64, rest)
      else if raw[0] == 2 then Got(Timestamp, rest)
      else if raw[0] == 3 then
        match TakeU64(rest)
        case Fail(error) => Fail(error)
        case Got(width, rest') => Got(FixedStr(width), rest')
      else Fail(UnknownTag)
  }

  function TakeValue(dtype: DType, bytes: seq<byte>): (p: Parsed<Value>)
    ensures p.Got? ==> HasKind(dtype, p.value)
  {
    if dtype.FixedStr? then
      match TakeBlob(bytes)
      case Fail(error) => Fail(error)
      case Got(raw, rest) => Got(Str(raw), rest)
    else
      match TakeBytes(bytes, 8)
      case Fail(error) => Fail(error)
      case Got(raw, rest) => Got(if dtype.F64? then Bits(U64FromLe(raw)) else Int(I64FromLe(raw)), rest)
  }

  function TakeValues(dtype: DType, count: nat, bytes: seq<byte>): (p: Parsed<seq<Value>>)
    ensures p.Got? ==> |p.value| == count && forall i :: 0 <= i < count ==> HasKind(dtype, p.value[i])
    decreases count
  {
    if count == 0 then Got([], bytes)
    else
      match TakeValue(dtype, bytes)
      case Fail(error) => Fail(error)
      case Got(v, rest) => After([v], TakeValues(dtype, count - 1, rest))
  }

  function TakeData(bytes: seq<byte>): Parsed<ColumnData> {
    match TakeType(bytes)
    case Fail(error) => Fail(error)
    case Got(dtype, rest) =>
      match TakeU64(rest)
      case Fail(error) => Fail(error)
      case Got(count, rest') =>
        match TakeValues(dtype, count, rest')
        case Fail(error) => Fail(error)
        case Got(vs, rest'') => Got(ColumnData(dtype, vs), rest'')
  }

  function TakeColumn(def: ColumnDef, bytes: seq<byte>): Parsed<NamedColumn> {
    match TakeBlob(bytes)
    case Fail(error) => Fail(error)
    case Got(name, rest) =>
      if !Utf8.IsUtf8(name) then Fail(NameNotUtf8)
      else if name != def.name then Fail(ColumnOrder)
      else
        match TakeData(rest)
        case Fail(error) => Fail(error)
        case Got(data, rest') =>
          if data.dtype != def.dtype then Fail(ColumnType) else Got(NamedColumn(name, data), rest')
  }

  function TakeColumns(defs: seq<ColumnDef>, bytes: seq<byte>): (p: Parsed<seq<NamedColumn>>)
    ensures p.Got? ==> |p.value| == |defs|
  {
    if defs == [] then Got([], bytes)
    else
      match TakeColumn(defs[0], bytes)
      case Fail(error) => Fail(error)
      case Got(c, rest) => After([c], TakeColumns(defs[1..], rest))
  }

  /** What a payload decodes to against a schema. */
  function Decoded(schema: Schema, payload: seq<byte>): Result<RowBatch, CodecError> {
    match TakeU64(payload)
    case Fail(error) => Err(error)
    case Got(rowCount, rest) =>
      match TakeU64(rest)
      case Fail(error) => Err(error)
      case Got(columnCount, rest') =>
        if columnCount != |schema.columns| then Err(ColumnCount)
        else
          match TakeColumns(schema.columns, rest')
          case Fail(error) => Err(error)
          case Got(columns, end) => if end == [] then Ok(RowBatch(columns, rowCount)) else Err(TrailingBytes)
  }

  // ----- each parser undoes its printer, and only that -----

  lemma BytesThenTake(raw: seq<byte>, rest: seq<byte>)
    ensures TakeBytes(raw + rest, |raw|) == Got(raw, rest)
  {
    assert (raw + rest)[..|raw|] == raw && (raw + rest)[|raw|..] == rest;
  }

  lemma U64ThenTake(n: u64, rest: seq<byte>)
    ensures TakeU64(U64ToLe(n) + rest) == Got(n, rest)
  {
    BytesThenTake(U64ToLe(n), rest);
    U64RoundTrip(n);
  }

  lemma TakeThenU64(bytes: seq<byte>)
    requires TakeU64(bytes).Got?
    ensures bytes == U64ToLe(TakeU64(bytes).value) + TakeU64(bytes).rest
  {
    U64BytesRoundTrip(bytes[..8]);
  }

  lemma BlobThenTake(raw: seq<byte>, rest: seq<byte>)
    requires |raw| < TWO_32
    ensures TakeBlob(PutBlob(raw) + rest) == Got(raw, rest)
  {
    assert PutBlob(raw) + rest == U32ToLe(|raw|) + (raw + rest);
    BytesThenTake(U32ToLe(|raw|), raw + rest);
    U32RoundTrip(|raw|);
    BytesThenTake(raw, rest);
  }

  lemma TakeThenBlob(bytes: seq<byte>)
    requires TakeBlob(bytes).Got?
    ensures var Got(raw, rest) := TakeBlob(bytes); |raw| < TWO_32 && bytes == PutBlob(raw) + rest
  {
    U32BytesRoundTrip(bytes[..4]);
    assert bytes == bytes[..4] + bytes[4..];
  }

  lemma TypeThenTake(dtype: DType, rest: seq<byte>)
    ensures TakeType(PutType(dtype) + rest) == Got(dtype, rest)
  {
    var tail := (if dtype.FixedStr? then U64ToLe(dtype.width) else []) + rest;
    assert PutType(dtype) + rest == [Tag(dtype)] + tail;
    BytesThenTake([Tag(dtype)], tail);
    if dtype.FixedStr? {
      U64ThenTake(dtype.width, rest);
    } else {
      assert tail == rest;
    }
  }

  lemma TakeThenType(bytes: seq<byte>)
    requires TakeType(bytes).Got?
    ensures bytes == PutType(TakeType(bytes).value) + TakeType(bytes).rest
  {
    var Got(raw, rest) := TakeBytes(bytes, 1);
    assert raw == [raw[0]];
    if raw[0] == 3 {
      TakeThenU64(rest);
    }
  }

  lemma ValueThenTake(dtype: DType, v: Value, rest: seq<byte>)
    requires HasKind(dtype, v) && ValueFits(v)
    ensures TakeValue(dtype, PutValue(v) + rest) == Got(v, rest)
  {
    match v
    case Bits(bits) =>
      BytesThenTake(U64ToLe(bits), rest);
      U64RoundTrip(bits);
    case Int(num) =>
      BytesThenTake(I64ToLe(num), rest);
      I64RoundTrip(num);
    case Str(bytes) =>
      BlobThenTake(bytes, rest);
  }

  lemma TakeThenValue(dtype: DType, bytes: seq<byte>)
    requires TakeValue(dtype, bytes).Got?
    ensures var Got(v, rest) := TakeValue(dtype, bytes); ValueFits(v) && bytes == PutValue(v) + rest
  {
    if dtype.FixedStr? {
      TakeThenBlob(bytes);
    } else {
      U64BytesRoundTrip(bytes[..8]);
      I64BytesRoundTrip(bytes[..8]);
    }
  }

  lemma {:induction false} ValuesThenTake(dtype: DType, vs: seq<Value>, rest: seq<byte>)
    requires ValuesFit(vs) && forall i :: 0 <= i < |vs| ==> HasKind(dtype, vs[i])
    ensures TakeValues(dtype, |vs|, PutValues(vs) + rest) == Got(vs, rest)
    decreases |vs|
  {
    if vs == [] {
      assert PutValues(vs) + rest == rest;
    } else {
      Assoc(PutValue(vs[0]), PutValues(vs[1..]), rest);
      ValueThenTake(dtype, vs[0], PutValues(vs[1..]) + rest);
      ValuesThenTake(dtype, vs[1..], rest);
      HeadTail(vs);
    }
  }

  lemma {:induction false} TakeThenValues(dtype: DType, count: nat, bytes: seq<byte>)
    requires TakeValues(dtype, count, bytes).Got?
    ensures var Got(vs, rest) := TakeValues(dtype, count, bytes); ValuesFit(vs) && bytes == PutValues(vs) + rest
    decreases count
  {
    if count == 0 {
      assert bytes == [] + bytes;
    } else {
      var Got(v, rest) := TakeValue(dtype, bytes);
      var Got(vs, rest') := TakeValues(dtype, count - 1, rest);
      TakeThenValue(dtype, bytes);
      TakeThenValues(dtype, count - 1, rest);
      assert ([v] + vs)[1..] == vs;
      Assoc(PutValue(v), PutValues(vs), rest');
    }
  }

  lemma DataThenTake(data: ColumnData, rest: seq<byte>)
    requires |data.values| < TWO_64 && ValuesFit(data.values)
    ensures TakeData(PutData(data) + rest) == Got(data, rest)
  {
    var values := PutValues(data.values) + rest;
    var counted := U64ToLe(|data.values|) + values;
    Assoc(U64ToLe(|data.values|), PutValues(data.values), rest);
    Assoc(PutType(data.dtype), U64ToLe(|data.values|) + PutValues(data.values), rest);
    TypeThenTake(data.dtype, counted);
    U64ThenTake(|data.values|, values);
    ValuesThenTake(data.dtype, data.values, rest);
  }

  lemma TakeThenData(bytes: seq<byte>)
    requires TakeData(bytes).Got?
    ensures var Got(data, rest) := TakeData(bytes);
            |data.values| < TWO_64 && ValuesFit(data.values) && bytes == PutData(data) + rest
  {
    var Got(dtype, rest) := TakeType(bytes);
    var Got(count, rest') := TakeU64(rest);
    TakeThenType(bytes);
    TakeThenU64(rest);
    TakeThenValues(dtype, count, rest');
    var Got(data, end) := TakeData(bytes);
    Assoc(U64ToLe(count), PutValues(data.values), end);
    Assoc(PutType(dtype), U64ToLe(count) + PutValues(data.values), end);
  }

  lemma ColumnThenTake(def: ColumnDef, c: NamedColumn, rest: seq<byte>)
    requires ColumnFits(c)
    ensures TakeColumn(def, PutColumn(c) + rest)
            == if c.name != def.name then Fail(ColumnOrder)
               else if c.data.dtype != def.dtype then Fail(ColumnType)
               else Got(c, rest)
  {
    Assoc(PutBlob(c.name), PutData(c.data), rest);
    BlobThenTake(c.name, PutData(c.data) + rest);
    DataThenTake(c.data, rest);
  }

  lemma TakeThenColumn(def: ColumnDef, bytes: seq<byte>)
    requires TakeColumn(def, bytes).Got?
    ensures var Got(c, rest) := TakeColumn(def, bytes);
            ColumnFits(c) && c.name == def.name && c.data.dtype == def.dtype && bytes == PutColumn(c) + rest
  {
    var Got(name, rest) := TakeBlob(bytes);
    TakeThenBlob(bytes);
    TakeThenData(rest);
    var Got(c, end) := TakeColumn(def, bytes);
    Assoc(PutBlob(name), PutData(c.data), end);
  }

  predicate Matches(def: ColumnDef, c: NamedColumn) {
    c.name == def.name && c.data.dtype == def.dtype
  }

  lemma {:induction false} ColumnsThenTake(defs: seq<ColumnDef>, cs: seq<NamedColumn>, rest: seq<byte>)
    requires |defs| == |cs| && ColumnsFit(cs)
    requires forall i :: 0 <= i < |cs| ==> Matches(defs[i], cs[i])
    ensures TakeColumns(defs, PutColumns(cs) + rest) == Got(cs, rest)
    decreases |cs|
  {
    if cs == [] {
      assert PutColumns(cs) + rest == rest;
    } else {
      Assoc(PutColumn(cs[0]), PutColumns(cs[1..]), rest);
      ColumnThenTake(defs[0], cs[0], PutColumns(cs[1..]) + rest);
      ColumnsThenTake(defs[1..], cs[1..], rest);
      HeadTail(cs);
    }
  }

  lemma {:induction false} TakeThenColumns(defs: seq<ColumnDef>, bytes: seq<byte>)
    requires TakeColumns(defs, bytes).Got?
    ensures var Got(cs, rest) := TakeColumns(defs, bytes);
            && ColumnsFit(cs)
            && (forall i :: 0 <= i < |cs| ==> Matches(defs[i], cs[i]))
            && bytes == PutColumns(cs) + rest
    decreases |defs|
  {
    if defs == [] {
      assert bytes == [] + bytes;
    } else {
      var Got(c, rest) := TakeColumn(defs[0], bytes);
      var Got(cs, rest') := TakeColumns(defs[1..], rest);
      TakeThenColumn(defs[0], bytes);
      TakeThenColumns(defs[1..], rest);
      assert ([c] + cs)[1..] == cs;
      Assoc(PutColumn(c), PutColumns(cs), rest');
    }
  }

  /** The first column whose name is out of place stops the decoder there. */
  lemma {:induction false} MisplacedColumnStops(defs: seq<ColumnDef>, cs: seq<NamedColumn>, k: nat, rest: seq<byte>)
    requires |defs| == |cs| && ColumnsFit(cs) && k < |cs|
    requires forall i :: 0 <= i < k ==> Matches(defs[i], cs[i])
    requires cs[k].name != defs[k].name
    ensures TakeColumns(defs, PutColumns(cs) + rest) == Fail(ColumnOrder)
    decreases k
  {
    Assoc(PutColumn(cs[0]), PutColumns(cs[1..]), rest);
    ColumnThenTake(defs[0], cs[0], PutColumns(cs[1..]) + rest);
    if k > 0 {
      MisplacedColumnStops(defs[1..], cs[1..], k - 1, rest);
    }
  }

  // ----- encoder and decoder are exact inverses -----

  lemma DecodeOfEncoded(schema: Schema, b: RowBatch)
    requires SchemaShaped(schema, b) && Fits(b)
    ensures Decoded(schema, Encoded(b)) == Ok(b)
  {
    U64ThenTake(b.rowCount, U64ToLe(|b.columns|) + PutColumns(b.columns));
    U64ThenTake(|b.columns|, PutColumns(b.columns));
    ColumnsThenTake(schema.columns, b.columns, []);
    assert PutColumns(b.columns) + [] == PutColumns(b.columns);
  }

  lemma EncodedOfDecode(schema: Schema, payload: seq<byte>)
    requires Decoded(schema, payload).Ok?
    ensures var b := Decoded(schema, payload).value;
            SchemaShaped(schema, b) && Fits(b) && Encoded(b) == payload
  {
    var Got(rowCount, rest) := TakeU64(payload);
    var Got(columnCount, rest') := TakeU64(rest);
    TakeThenU64(payload);
    TakeThenU64(rest);
    TakeThenColumns(schema.columns, rest');
    var b := Decoded(schema, payload).value;
    assert PutColumns(b.columns) + [] == PutColumns(b.columns);
    forall i | 0 <= i < |b.columns|
      ensures b.columns[i].name == schema.columns[i].name && b.columns[i].data.dtype == schema.columns[i].dtype
    {
      assert Matches(schema.columns[i], b.columns[i]);
    }
  }

  /** A payload decodes to b exactly when b has the schema's shape and the payload is b's encoding:
      the round trip in both directions, and no other or trailing form of any batch. */
  lemma DecodeIffEncoded(schema: Schema, payload: seq<byte>, b: RowBatch)
    ensures Decoded(schema, payload) == Ok(b)
            <==> SchemaShaped(schema, b) && Fits(b) && Encoded(b) == payload
  {
    if SchemaShaped(schema, b) && Fits(b) && Encoded(b) == payload {
      DecodeOfEncoded(schema, b);
    }
    if Decoded(schema, payload) == Ok(b) {
      EncodedOfDecode(schema, payload);
    }
  }

  /** A batch with the right columns in another order is encoded but can never be decoded. */
  lemma ReorderedBatchIsUnreadable(schema: Schema, b: RowBatch, k: nat)
    requires Fits(b) && |b.columns| == |schema.columns| && k < |b.columns|
    requires forall i :: 0 <= i < k ==> Matches(schema.columns[i], b.columns[i])
    requires b.columns[k].name != schema.columns[k].name
    ensures Decoded(schema, Encoded(b)) == Err(ColumnOrder)
  {
    U64ThenTake(b.rowCount, U64ToLe(|b.columns|) + PutColumns(b.columns));
    U64ThenTake(|b.columns|, PutColumns(b.columns));
    MisplacedColumnStops(schema.columns, b.columns, k, []);
    assert PutColumns(b.columns) + [] == PutColumns(b.columns);
  }
}
