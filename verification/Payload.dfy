/** The encoder that grows a byte buffer and the decoder that walks one, against the format of Codec. */
module Payload {
  import opened Wrappers
  import opened Bytes
  import opened Batch
  import opened Codec
  import Layout
  import Utf8

  // ----- encoding -----

  lemma {:induction false} PutValuesAppend(a: seq<Value>, v: Value)
    requires ValuesFit(a) && ValueFits(v)
    ensures PutValues(a + [v]) == PutValues(a) + PutValue(v)
  {
    if a == [] {
      assert a + [v] == [v];
    } else {
      assert (a + [v])[1..] == a[1..] + [v];
      PutValuesAppend(a[1..], v);
      Assoc(PutValue(a[0]), PutValues(a[1..]), PutValue(v));
    }
  }

  lemma {:induction false} PutColumnsAppend(a: seq<NamedColumn>, c: NamedColumn)
    requires ColumnsFit(a) && ColumnFits(c)
    ensures PutColumns(a + [c]) == PutColumns(a) + PutColumn(c)
  {
    if a == [] {
      assert a + [c] == [c];
    } else {
      assert (a + [c])[1..] == a[1..] + [c];
      PutColumnsAppend(a[1..], c);
      Assoc(PutColumn(a[0]), PutColumns(a[1..]), PutColumn(c));
    }
  }

  /** `write_bytes` */
  method WriteBytes(out: seq<byte>, bytes: seq<byte>) returns (res: Result<seq<byte>, CodecError>)
    ensures res == if |bytes| < TWO_32 then Ok(out + PutBlob(bytes)) else Err(PayloadTooLarge(|bytes|))
  {
    if |bytes| >= TWO_32 {
      return Err(PayloadTooLarge(|bytes|));
    }
    var grown := out + U32ToLe(|bytes|);
    grown := grown + bytes;
    assert grown == out + PutBlob(bytes);
    return Ok(grown);
  }

  method WriteValue(start: seq<byte>, v: Value) returns (res: Result<seq<byte>, CodecError>)
    ensures res == if ValueFits(v) then Ok(start + PutValue(v)) else Err(PayloadTooLarge(|v.bytes|))
  {
    match v {
      case Bits(bits) => return Ok(start + U64ToLe(bits));
      case Int(num) => return Ok(start + I64ToLe(num));
      case Str(bytes) => res := WriteBytes(start, bytes);
    }
  }

  lemma OneMoreValue(start: seq<byte>, vs: seq<Value>, k: nat)
    requires k < |vs| && ValuesFit(vs[..k]) && ValueFits(vs[k])
    ensures ValuesFit(vs[..k + 1])
    ensures start + PutValues(vs[..k + 1]) == start + PutValues(vs[..k]) + PutValue(vs[k])
  {
    assert vs[..k + 1] == vs[..k] + [vs[k]];
    PutValuesAppend(vs[..k], vs[k]);
    Assoc(start, PutValues(vs[..k]), PutValue(vs[k]));
  }

  lemma {:induction false} FirstValueTooLong(vs: seq<Value>, k: nat)
    requires k < |vs| && ValuesFit(vs[..k]) && !ValueFits(vs[k])
    ensures ValuesTooLong(vs) == Some(|vs[k].bytes|)
  {
    if k > 0 {
      assert vs[..k][0] == vs[0] && vs[..k][1..] == vs[1..][..k - 1];
      FirstValueTooLong(vs[1..], k - 1);
    }
  }

  method WriteValues(start: seq<byte>, vs: seq<Value>) returns (res: Result<seq<byte>, CodecError>)
    ensures match ValuesTooLong(vs)
            case None => res == Ok(start + PutValues(vs))
            case Some(len) => res == Err(PayloadTooLarge(len))
  {
    var out := start;
    assert start + [] == start;
    for k := 0 to |vs|
      invariant ValuesFit(vs[..k]) && out == start + PutValues(vs[..k])
    {
      var grown := WriteValue(out, vs[k]);
      if grown.Err? {
        FirstValueTooLong(vs, k);
        return grown;
      }
      OneMoreValue(start, vs, k);
      out := grown.value;
    }
    assert vs[..|vs|] == vs;
    return Ok(out);
  }

  method WriteType(start: seq<byte>, dtype: DType) returns (out: seq<byte>)
    ensures out == start + PutType(dtype)
  {
    out := start + [Tag(dtype)];
    if dtype.FixedStr? {
      out := out + U64ToLe(dtype.width);
    }
  }

  method WriteColumn(start: seq<byte>, c: NamedColumn) returns (res: Result<seq<byte>, CodecError>)
    requires |c.data.values| < TWO_64
    ensures match ColumnTooLong(c)
            case None => res == Ok(start + PutColumn(c))
            case Some(len) => res == Err(PayloadTooLarge(len))
  {
    var named := WriteBytes(start, c.name);
    if named.Err? {
      return named;
    }
    var typed := WriteType(named.value, c.data.dtype);
    var counted := typed + U64ToLe(|c.data.values|);
    res := WriteValues(counted, c.data.values);
    if ColumnFits(c) {
      ghost var name, dtype, count, values :=
        PutBlob(c.name), PutType(c.data.dtype), U64ToLe(|c.data.values|), PutValues(c.data.values);
      Assoc(named.value + dtype, count, values);
      Assoc(named.value, dtype, count + values);
      Assoc(start, name, dtype + (count + values));
    }
  }

  lemma OneMoreColumn(head: seq<byte>, cs: seq<NamedColumn>, k: nat)
    requires k < |cs| && ColumnsFit(cs[..k]) && ColumnFits(cs[k])
    ensures ColumnsFit(cs[..k + 1])
    ensures head + PutColumns(cs[..k + 1]) == head + PutColumns(cs[..k]) + PutColumn(cs[k])
  {
    assert cs[..k + 1] == cs[..k] + [cs[k]];
    PutColumnsAppend(cs[..k], cs[k]);
    Assoc(head, PutColumns(cs[..k]), PutColumn(cs[k]));
  }

  lemma {:induction false} FirstColumnTooLong(cs: seq<NamedColumn>, k: nat)
    requires k < |cs| && ColumnsFit(cs[..k]) && !ColumnFits(cs[k])
    ensures ColumnsTooLong(cs) == ColumnTooLong(cs[k])
  {
    if k > 0 {
      assert cs[..k][0] == cs[0] && cs[..k][1..] == cs[1..][..k - 1];
      FirstColumnTooLong(cs[1..], k - 1);
    }
  }

  /** `encode_batch`: the encoding, or an error with the first length that exceeds its field, exactly
      when there is one. */
  method EncodeBatch(rows: RowBatch) returns (res: Result<seq<byte>, CodecError>)
    requires |rows.columns| < TWO_64
    requires forall i :: 0 <= i < |rows.columns| ==> |rows.columns[i].data.values| < TWO_64
    ensures match TooLong(rows)
            case None => res == Ok(Encoded(rows)) && Layout.PayloadIs(res.value, rows)
            case Some(len) => res == Err(PayloadTooLarge(len))
  {
    var cs := rows.columns;
    var head := U64ToLe(rows.rowCount) + U64ToLe(|cs|);
    var out := head;
    assert head + [] == head;
    for k := 0 to |cs|
      invariant ColumnsFit(cs[..k]) && out == head + PutColumns(cs[..k])
    {
      var grown := WriteColumn(out, cs[k]);
      if grown.Err? {
        FirstColumnTooLong(cs, k);
        return grown;
      }
      OneMoreColumn(head, cs, k);
      out := grown.value;
    }
    assert cs[..|cs|] == cs;
    Assoc(U64ToLe(rows.rowCount), U64ToLe(|cs|), PutColumns(cs));
    Layout.PayloadIff(out, rows);
    return Ok(out);
  }

  // ----- decoding -----

  /** A cursor over a payload. */
  class PayloadReader {
    const input: seq<byte>
    var offset: nat

    ghost predicate Valid()
      reads this
    {
      offset <= |input|
    }

    ghost function Unread(): seq<byte>
      requires Valid()
      reads this
    {
      input[offset..]
    }

    constructor (input: seq<byte>)
      ensures Valid() && this.input == input && Unread() == input
    {
      this.input := input;
      this.offset := 0;
    }

    /** `read_array` and the tail of `read_bytes`: the next n bytes, or an error with the cursor unmoved. */
    method ReadArray(n: nat) returns (res: Result<seq<byte>, CodecError>)
      requires Valid()
      modifies this
      ensures Valid()
      ensures Agrees(res, TakeBytes(old(Unread()), n), Unread())
    {
      var end := offset + n;
      if end > |input| {
        return Err(UnexpectedEnd);
      }
      var bytes := input[offset..end];
      assert bytes == Unread()[..n] && input[end..] == Unread()[n..];
      offset := end;
      return Ok(bytes);
    }

    method ReadUsize() returns (res: Result<u64, CodecError>)
      requires Valid()
      modifies this
      ensures Valid()
      ensures Agrees(res, TakeU64(old(Unread())), Unread())
    {
      var raw := ReadArray(8);
      match raw {
        case Err(error) => return Err(error);
        case Ok(bytes) => return Ok(U64FromLe(bytes));
      }
    }

    method ReadBytes() returns (res: Result<seq<byte>, CodecError>)
      requires Valid()
      modifies this
      ensures Valid()
      ensures Agrees(res, TakeBlob(old(Unread())), Unread())
    {
      var raw := ReadArray(4);
      if raw.Err? {
        return Err(raw.error);
      }
      res := ReadArray(U32FromLe(raw.value));
    }

    /** The tag byte, and the width that follows the tag of a fixed-width column. */
    method ReadType() returns (res: Result<DType, CodecError>)
      requires Valid()
      modifies this
      ensures Valid()
      ensures Agrees(res, TakeType(old(Unread())), Unread())
    {
      var raw := ReadArray(1);
      if raw.Err? {
        return Err(raw.error);
      }
      match raw.value[0] {
        case 0 => return Ok(F64);
        case 1 => return Ok(I64);
        case 2 => return Ok(Timestamp);
        case 3 =>
          var width := ReadUsize();
          match width {
            case Err(error) => return Err(error);
            case Ok(w) => return Ok(FixedStr(w));
          }
        case _ => return Err(UnknownTag);
      }
    }

    method ReadValue(dtype: DType) returns (res: Result<Value, CodecError>)
      requires Valid()
      modifies this
      ensures Valid()
      ensures Agrees(res, TakeValue(dtype, old(Unread())), Unread())
    {
      if dtype.FixedStr? {
        var raw := ReadBytes();
        match raw {
          case Err(error) => return Err(error);
          case Ok(bytes) => return Ok(Str(bytes));
        }
      }
      var raw := ReadArray(8);
      match raw {
        case Err(error) => return Err(error);
        case Ok(bytes) => return Ok(if dtype.F64? then Bits(U64FromLe(bytes)) else Int(I64FromLe(bytes)));
      }
    }

    /** The loop over `count` values. */
    method ReadValues(dtype: DType, count: nat) returns (res: Result<seq<Value>, CodecError>)
      requires Valid()
      modifies this
      ensures Valid()
      ensures Agrees(res, TakeValues(dtype, count, old(Unread())), Unread())
    {
      var values: seq<Value> := [];
      ghost var start := Unread();
      AfterNothing(TakeValues(dtype, count, start));
      for k := 0 to count
        invariant Valid() && |values| == k
        invariant TakeValues(dtype, count, start) == After(values, TakeValues(dtype, count - k, Unread()))
      {
        ghost var unread := Unread();
        var v := ReadValue(dtype);
        if v.Err? {
          return Err(v.error);
        }
        AfterOneMore(values, v.value, TakeValues(dtype, count - k - 1, Unread()));
        values := values + [v.value];
      }
      assert values + [] == values;
      return Ok(values);
    }

    /** One column: its name, its type, its values, and the checks against the schema. */
    method ReadColumn(expected: ColumnDef) returns (res: Result<NamedColumn, CodecError>)
      requires Valid()
      modifies this
      ensures Valid()
      ensures Agrees(res, TakeColumn(expected, old(Unread())), Unread())
    {
      var name := ReadBytes();
      if name.Err? {
        return Err(name.error);
      }
      if !Utf8.IsUtf8(name.value) {
        return Err(NameNotUtf8);
      }
      if name.value != expected.name {
        return Err(ColumnOrder);
      }
      var dtype := ReadType();
      if dtype.Err? {
        return Err(dtype.error);
      }
      var count := ReadUsize();
      if count.Err? {
        return Err(count.error);
      }
      var values := ReadValues(dtype.value, count.value);
      if values.Err? {
        return Err(values.error);
      }
      if dtype.value != expected.dtype {
        return Err(ColumnType);
      }
      return Ok(NamedColumn(name.value, ColumnData(dtype.value, values.value)));
    }
  }

  /** A reading step and its parser: the same value and the same unread rest, or the same error. */
  ghost predicate Agrees<T>(res: Result<T, CodecError>, parsed: Parsed<T>, unread: seq<byte>) {
    match parsed
    case Fail(error) => res == Err(error)
    case Got(value, rest) => res == Ok(value) && unread == rest
  }

  lemma AfterNothing<T>(rest: Parsed<seq<T>>)
    ensures After([], rest) == rest
  {
    if rest.Got? {
      assert [] + rest.value == rest.value;
    }
  }

  lemma AfterOneMore<T>(read: seq<T>, next: T, rest: Parsed<seq<T>>)
    ensures After(read, After([next], rest)) == After(read + [next], rest)
  {
    if rest.Got? {
      assert read + ([next] + rest.value) == (read + [next]) + rest.value;
    }
  }

  /** The loop over the schema's columns. */
  method ReadColumns(input: PayloadReader, defs: seq<ColumnDef>) returns (res: Result<seq<NamedColumn>, CodecError>)
    requires input.Valid()
    modifies input
    ensures input.Valid()
    ensures Agrees(res, TakeColumns(defs, old(input.Unread())), input.Unread())
  {
    var columns: seq<NamedColumn> := [];
    ghost var start := input.Unread();
    assert defs[0..] == defs;
    AfterNothing(TakeColumns(defs, start));
    for k := 0 to |defs|
      invariant input.Valid() && |columns| == k
      invariant TakeColumns(defs, start) == After(columns, TakeColumns(defs[k..], input.Unread()))
    {
      var c := input.ReadColumn(defs[k]);
      assert defs[k..][0] == defs[k] && defs[k..][1..] == defs[k + 1..];
      if c.Err? {
        return Err(c.error);
      }
      AfterOneMore(columns, c.value, TakeColumns(defs[k + 1..], input.Unread()));
      columns := columns + [c.value];
    }
    assert columns + [] == columns;
    return Ok(columns);
  }

  /** `decode_batch` */
  method DecodeBatch(schema: Schema, payload: seq<byte>) returns (res: Result<RowBatch, CodecError>)
    ensures res == Decoded(schema, payload)
    ensures forall b :: res == Ok(b) <==> SchemaShaped(schema, b) && Fits(b) && Layout.PayloadIs(payload, b)
  {
    forall b
      ensures Decoded(schema, payload) == Ok(b)
              <==> SchemaShaped(schema, b) && Fits(b) && Layout.PayloadIs(payload, b)
    {
      Layout.DecodedIff(schema, payload, b);
    }
    var input := new PayloadReader(payload);
    var rowCount := input.ReadUsize();
    if rowCount.Err? {
      return Err(rowCount.error);
    }
    var columnCount := input.ReadUsize();
    if columnCount.Err? {
      return Err(columnCount.error);
    }
    if columnCount.value != |schema.columns| {
      return Err(ColumnCount);
    }
    var columns := ReadColumns(input, schema.columns);
    if columns.Err? {
      return Err(columns.error);
    }
    if input.offset != |payload| {
      return Err(TrailingBytes);
    }
    return Ok(RowBatch(columns.value, rowCount.value));
  }
}
