/** Where everything stands in a batch payload, a log record and a column file, byte by byte: literal
    tags, and numbers as sums of their bytes. */
module Layout {
  import opened Wrappers
  import opened Bytes
  import opened Batch
  import opened Segment
  import opened Framing
  import Codec

  // ----- numbers -----

  /** Four bytes as a number, the first the least. */
  function Word4(b: seq<byte>): nat
    requires |b| == 4
  {
    var b0: int, b1: int, b2: int, b3: int := b[0], b[1], b[2], b[3];
    b0 + 0x100 * b1 + 0x1_0000 * b2 + 0x100_0000 * b3
  }

  /** Eight bytes as a number, the first the least. */
  function Word8(b: seq<byte>): nat
    requires |b| == 8
  {
    Word4(b[..4]) + 0x1_0000_0000 * Word4(b[4..])
  }

  lemma ValueOfOneMore(b: seq<byte>)
    requires b != []
    ensures var first: int := b[0]; LeValue(b) == first + 256 * LeValue(b[1..])
  {
  }

  lemma ValueOfFour(b: seq<byte>)
    requires |b| == 4
    ensures LeValue(b) == Word4(b)
  {
    ValueOfOneMore(b);
    ValueOfOneMore(b[1..]);
    ValueOfOneMore(b[2..]);
    ValueOfOneMore(b[3..]);
    assert b[1..][1..] == b[2..] && b[2..][1..] == b[3..] && b[3..][1..] == [];
  }

  lemma ValueOfEight(b: seq<byte>)
    requires |b| == 8
    ensures LeValue(b) == Word8(b)
  {
    ValueOfOneMore(b);
    ValueOfOneMore(b[1..]);
    ValueOfOneMore(b[2..]);
    ValueOfOneMore(b[3..]);
    assert b[1..][1..] == b[2..] && b[2..][1..] == b[3..] && b[3..][1..] == b[4..];
    ValueOfFour(b[4..]);
  }

  lemma Word4Iff(b: seq<byte>, n: u32)
    requires |b| == 4
    ensures b == U32ToLe(n) <==> Word4(b) == n
  {
    ValueOfFour(b);
    U32RoundTrip(n);
    U32BytesRoundTrip(b);
  }

  lemma Word8Iff(b: seq<byte>, n: u64)
    requires |b| == 8
    ensures b == U64ToLe(n) <==> Word8(b) == n
  {
    ValueOfEight(b);
    U64RoundTrip(n);
    U64BytesRoundTrip(b);
  }

  lemma SignedIff(b: seq<byte>, n: i64)
    requires |b| == 8
    ensures b == I64ToLe(n) <==> Word8(b) == n % TWO_64
  {
    assert I64Bits(n) == n % TWO_64;
    Word8Iff(b, I64Bits(n));
  }

  lemma SplitIff<T>(s: seq<T>, a: seq<T>, b: seq<T>)
    ensures s == a + b <==> |a| <= |s| && s[..|a|] == a && s[|a|..] == b
  {
  }

  // ----- a batch payload -----

  function CellLen(v: Value): nat {
    if v.Str? then 4 + |v.bytes| else 8
  }

  /** Floats are their bits, integers their two's complement; strings stand behind their length. */
  predicate CellIs(bytes: seq<byte>, v: Value)
    requires |bytes| == CellLen(v)
  {
    match v
    case Bits(bits) => Word8(bytes) == bits
    case Int(num) => Word8(bytes) == num % TWO_64
    case Str(s) => Word4(bytes[..4]) == |s| && bytes[4..] == s
  }

  predicate CellsAre(bytes: seq<byte>, vs: seq<Value>)
    decreases |vs|
  {
    if vs == [] then bytes == []
    else
      var n := CellLen(vs[0]);
      n <= |bytes| && CellIs(bytes[..n], vs[0]) && CellsAre(bytes[n..], vs[1..])
  }

  function TypeLen(dtype: DType): nat {
    if dtype.FixedStr? then 9 else 1
  }

  /** One byte for the type, and the width of a fixed-width string. */
  predicate TypeIs(bytes: seq<byte>, dtype: DType)
    requires |bytes| == TypeLen(dtype)
  {
    match dtype
    case F64 => bytes[0] == 0
    case I64 => bytes[0] == 1
    case Timestamp => bytes[0] == 2
    case FixedStr(width) => bytes[0] == 3 && Word8(bytes[1..]) == width
  }

  /** The name behind its length, the type, the number of values, the values. */
  predicate ColumnIs(bytes: seq<byte>, c: NamedColumn) {
    var t := 4 + |c.name|;
    var u := t + TypeLen(c.data.dtype);
    && u + 8 <= |bytes|
    && Word4(bytes[..4]) == |c.name|
    && bytes[4..t] == c.name
    && TypeIs(bytes[t..u], c.data.dtype)
    && Word8(bytes[u..u + 8]) == |c.data.values|
    && CellsAre(bytes[u + 8..], c.data.values)
  }

  function CellsLen(vs: seq<Value>): nat {
    if vs == [] then 0 else CellLen(vs[0]) + CellsLen(vs[1..])
  }

  function ColumnLen(c: NamedColumn): nat {
    4 + |c.name| + TypeLen(c.data.dtype) + 8 + CellsLen(c.data.values)
  }

  predicate ColumnsAre(bytes: seq<byte>, cs: seq<NamedColumn>)
    decreases |cs|
  {
    if cs == [] then bytes == []
    else
      var n := ColumnLen(cs[0]);
      n <= |bytes| && ColumnIs(bytes[..n], cs[0]) && ColumnsAre(bytes[n..], cs[1..])
  }

  /** The row count, the number of columns, the columns. */
  predicate PayloadIs(bytes: seq<byte>, b: RowBatch) {
    && 16 <= |bytes|
    && Word8(bytes[..8]) == b.rowCount
    && Word8(bytes[8..16]) == |b.columns|
    && ColumnsAre(bytes[16..], b.columns)
  }

  lemma CellIff(bytes: seq<byte>, v: Value)
    requires Codec.ValueFits(v)
    ensures |Codec.PutValue(v)| == CellLen(v)
    ensures bytes == Codec.PutValue(v) <==> |bytes| == CellLen(v) && CellIs(bytes, v)
  {
    if |bytes| == CellLen(v) {
      match v
      case Bits(bits) => Word8Iff(bytes, bits);
      case Int(num) => SignedIff(bytes, num);
      case Str(s) =>
        SplitIff(bytes, U32ToLe(|s|), s);
        Word4Iff(bytes[..4], |s|);
    }
  }

  lemma {:induction false} CellsIff(bytes: seq<byte>, vs: seq<Value>)
    requires Codec.ValuesFit(vs)
    ensures |Codec.PutValues(vs)| == CellsLen(vs)
    ensures bytes == Codec.PutValues(vs) <==> CellsAre(bytes, vs)
    decreases |vs|
  {
    if vs != [] {
      var n := CellLen(vs[0]);
      SplitIff(bytes, Codec.PutValue(vs[0]), Codec.PutValues(vs[1..]));
      CellIff(if n <= |bytes| then bytes[..n] else bytes, vs[0]);
      CellsIff(if n <= |bytes| then bytes[n..] else bytes, vs[1..]);
    }
  }

  lemma TypeIff(bytes: seq<byte>, dtype: DType)
    ensures |Codec.PutType(dtype)| == TypeLen(dtype)
    ensures bytes == Codec.PutType(dtype) <==> |bytes| == TypeLen(dtype) && TypeIs(bytes, dtype)
  {
    if |bytes| == TypeLen(dtype) {
      assert bytes == [bytes[0]] + bytes[1..];
      if dtype.FixedStr? {
        Word8Iff(bytes[1..], dtype.width);
      }
    }
  }

  lemma ColumnIff(bytes: seq<byte>, c: NamedColumn)
    requires Codec.ColumnFits(c)
    ensures |Codec.PutColumn(c)| == ColumnLen(c)
    ensures bytes == Codec.PutColumn(c) <==> |bytes| == ColumnLen(c) && ColumnIs(bytes, c)
  {
    var t := 4 + |c.name|;
    var u := t + TypeLen(c.data.dtype);
    TypeIff(if u <= |bytes| then bytes[t..u] else bytes, c.data.dtype);
    CellsIff(if u + 8 <= |bytes| then bytes[u + 8..] else bytes, c.data.values);
    if |bytes| == ColumnLen(c) {
      Word4Iff(bytes[..4], |c.name|);
      Word8Iff(bytes[u..u + 8], |c.data.values|);
      FiveParts(bytes, U32ToLe(|c.name|), c.name, Codec.PutType(c.data.dtype), U64ToLe(|c.data.values|),
        Codec.PutValues(c.data.values));
    }
  }

  /** Five parts end to end, each in its place. */
  lemma FiveParts(s: seq<byte>, a: seq<byte>, b: seq<byte>, c: seq<byte>, d: seq<byte>, e: seq<byte>)
    requires |s| == |a| + |b| + |c| + |d| + |e|
    ensures var t, u, v := |a| + |b|, |a| + |b| + |c|, |a| + |b| + |c| + |d|;
            s == (a + b) + (c + (d + e))
            <==> s[..|a|] == a && s[|a|..t] == b && s[t..u] == c && s[u..v] == d && s[v..] == e
  {
    var t, u, v := |a| + |b|, |a| + |b| + |c|, |a| + |b| + |c| + |d|;
    assert s == s[..|a|] + s[|a|..t] + (s[t..u] + (s[u..v] + s[v..]));
    if s == (a + b) + (c + (d + e)) {
      assert s[..|a|] == a && s[|a|..t] == b && s[t..u] == c && s[u..v] == d && s[v..] == e;
    }
  }

  lemma {:induction false} ColumnsIff(bytes: seq<byte>, cs: seq<NamedColumn>)
    requires Codec.ColumnsFit(cs)
    ensures bytes == Codec.PutColumns(cs) <==> ColumnsAre(bytes, cs)
    decreases |cs|
  {
    if cs != [] {
      var n := ColumnLen(cs[0]);
      SplitIff(bytes, Codec.PutColumn(cs[0]), Codec.PutColumns(cs[1..]));
      ColumnIff(if n <= |bytes| then bytes[..n] else bytes, cs[0]);
      ColumnsIff(if n <= |bytes| then bytes[n..] else bytes, cs[1..]);
    }
  }

  /** A payload is a batch's encoding exactly when it is laid out as that batch. */
  lemma PayloadIff(bytes: seq<byte>, b: RowBatch)
    requires Codec.Fits(b)
    ensures bytes == Codec.Encoded(b) <==> PayloadIs(bytes, b)
  {
    var rest := U64ToLe(|b.columns|) + Codec.PutColumns(b.columns);
    if 16 <= |bytes| {
      SplitIff(bytes, U64ToLe(b.rowCount), rest);
      SplitIff(bytes[8..], U64ToLe(|b.columns|), Codec.PutColumns(b.columns));
      assert bytes[8..][..8] == bytes[8..16] && bytes[8..][8..] == bytes[16..];
      Word8Iff(bytes[..8], b.rowCount);
      Word8Iff(bytes[8..16], |b.columns|);
      ColumnsIff(bytes[16..], b.columns);
    }
  }

  /** A payload decodes to a batch exactly when the batch has the schema's shape, fits its length fields,
      and the payload is laid out as it. */
  lemma DecodedIff(schema: Schema, payload: seq<byte>, b: RowBatch)
    ensures Codec.Decoded(schema, payload) == Ok(b)
            <==> SchemaShaped(schema, b) && Codec.Fits(b) && PayloadIs(payload, b)
  {
    Codec.DecodeIffEncoded(schema, payload, b);
    if Codec.Fits(b) {
      PayloadIff(payload, b);
    }
  }

  // ----- a log record -----

  /** "BYPW", the sequence number, the payload's length, the payload, and the checksum of all that. */
  predicate RecordIs(f: Format, bytes: seq<byte>, r: WalRecord) {
    var end := 16 + |r.payload|;
    && |bytes| == end + 4
    && bytes[..4] == [0x42, 0x59, 0x50, 0x57]
    && Word8(bytes[4..12]) == r.seqNo
    && Word4(bytes[12..16]) == |r.payload|
    && bytes[16..end] == r.payload
    && Word4(bytes[end..]) == f.checksum(bytes[..end])
  }

  /** A record's bytes are its encoding exactly when they are laid out so. */
  lemma RecordIff(f: Format, bytes: seq<byte>, r: WalRecord)
    requires Encodable(r)
    ensures bytes == f.Encoded(r) <==> RecordIs(f, bytes, r)
  {
    var end := 16 + |r.payload|;
    if |bytes| == end + 4 {
      Word8Iff(bytes[4..12], r.seqNo);
      Word4Iff(bytes[12..16], |r.payload|);
      FiveParts(bytes[..end], MAGIC, U64ToLe(r.seqNo), U32ToLe(|r.payload|), r.payload, []);
      assert Frame(r) == (MAGIC + U64ToLe(r.seqNo)) + (U32ToLe(|r.payload|) + (r.payload + []));
      assert bytes[..end][..4] == bytes[..4] && bytes[..end][4..12] == bytes[4..12];
      assert bytes[..end][12..16] == bytes[12..16] && bytes[..end][16..end] == bytes[16..end];
      Word4Iff(bytes[end..], f.checksum(bytes[..end]));
      SplitIff(bytes, Frame(r), U32ToLe(f.checksum(Frame(r))));
    }
  }

  // ----- a column file -----

  /** Floats are their bits, integers their two's complement, strings themselves. */
  predicate FileCellIs(cell: seq<byte>, v: Value) {
    match v
    case Bits(bits) => |cell| == 8 && Word8(cell) == bits
    case Int(num) => |cell| == 8 && Word8(cell) == num % TWO_64
    case Str(s) => cell == s
  }

  lemma FileCellIff(cell: seq<byte>, v: Value)
    ensures cell == CellBytes(v) <==> FileCellIs(cell, v)
  {
    if |cell| == 8 {
      match v
      case Bits(bits) => Word8Iff(cell, bits);
      case Int(num) => SignedIff(cell, num);
      case Str(_) =>
    }
  }

  /** Cells of one width, the i-th at i times the width, and nothing else. */
  ghost predicate FileIs(dtype: DType, bytes: seq<byte>, vs: seq<Value>) {
    var w := CellWidth(dtype);
    && |bytes| == |vs| * w
    && forall i :: 0 <= i < |vs| ==> i * w + w <= |bytes| && FileCellIs(Slice(bytes, w, i), vs[i])
  }

  /** A column's file is its cells in their places. */
  lemma FileIff(dtype: DType, bytes: seq<byte>, vs: seq<Value>)
    requires forall i :: 0 <= i < |vs| ==> CellOk(dtype, vs[i])
    ensures bytes == ColumnBytes(vs) <==> FileIs(dtype, bytes, vs)
  {
    var w := CellWidth(dtype);
    SliceOfColumn(dtype, vs, 0);
    forall i | 0 <= i < |vs|
      ensures i * w + w <= |ColumnBytes(vs)| && Slice(ColumnBytes(vs), w, i) == CellBytes(vs[i])
      ensures FileCellIs(CellBytes(vs[i]), vs[i])
    {
      SliceOfColumn(dtype, vs, i);
      FileCellIff(CellBytes(vs[i]), vs[i]);
    }
    if FileIs(dtype, bytes, vs) {
      forall i | 0 <= i < |vs|
        ensures Cells(vs)[i] == Slice(bytes, w, i)
      {
        FileCellIff(Slice(bytes, w, i), vs[i]);
      }
      JoinOfSlices(Cells(vs), w, bytes);
    }
  }
}
