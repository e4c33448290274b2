/** Which payloads the decoder refuses, and how: cut short, with bytes behind, for another number of
    columns, or at the first column that is misnamed, mistyped or malformed. */
module DecodeErrors {
  import opened Wrappers
  import opened Bytes
  import opened Batch
  import opened Codec
  import Utf8

  // ----- cut short -----

  lemma CutOf<T>(a: seq<T>, b: seq<T>, cut: nat)
    requires cut <= |a + b|
    ensures (a + b)[..cut] == if cut < |a| then a[..cut] else a + b[..cut - |a|]
  {
  }

  lemma U64Cut(n: u64, cut: nat)
    requires cut < 8
    ensures TakeU64(U64ToLe(n)[..cut]) == Fail(UnexpectedEnd)
  {
  }

  lemma BlobCut(raw: seq<byte>, cut: nat)
    requires |raw| < TWO_32 && cut < |PutBlob(raw)|
    ensures TakeBlob(PutBlob(raw)[..cut]) == Fail(UnexpectedEnd)
  {
    CutOf(U32ToLe(|raw|), raw, cut);
    if cut >= 4 {
      BytesThenTake(U32ToLe(|raw|), raw[..cut - 4]);
      U32RoundTrip(|raw|);
    }
  }

  lemma TypeCut(dtype: DType, cut: nat)
    requires cut < |PutType(dtype)|
    ensures TakeType(PutType(dtype)[..cut]) == Fail(UnexpectedEnd)
  {
    if cut > 0 {
      var width := U64ToLe(dtype.width);
      CutOf([Tag(dtype)], width, cut);
      BytesThenTake([Tag(dtype)], width[..cut - 1]);
      U64Cut(dtype.width, cut - 1);
    }
  }

  lemma ValueCut(dtype: DType, v: Value, cut: nat)
    requires HasKind(dtype, v) && ValueFits(v) && cut < |PutValue(v)|
    ensures TakeValue(dtype, PutValue(v)[..cut]) == Fail(UnexpectedEnd)
  {
    if v.Str? {
      BlobCut(v.bytes, cut);
    }
  }

  lemma {:induction false} ValuesCut(dtype: DType, vs: seq<Value>, cut: nat)
    requires ValuesFit(vs) && (forall i :: 0 <= i < |vs| ==> HasKind(dtype, vs[i])) && cut < |PutValues(vs)|
    ensures TakeValues(dtype, |vs|, PutValues(vs)[..cut]) == Fail(UnexpectedEnd)
    decreases |vs|
  {
    var first, rest := PutValue(vs[0]), PutValues(vs[1..]);
    CutOf(first, rest, cut);
    if cut < |first| {
      ValueCut(dtype, vs[0], cut);
    } else {
      ValueThenTake(dtype, vs[0], rest[..cut - |first|]);
      ValuesCut(dtype, vs[1..], cut - |first|);
    }
  }

  lemma CountedCut(dtype: DType, vs: seq<Value>, cut: nat)
    requires ValuesFit(vs) && (forall i :: 0 <= i < |vs| ==> HasKind(dtype, vs[i])) && |vs| < TWO_64
    requires cut < 8 + |PutValues(vs)|
    ensures var counted := TakeU64((U64ToLe(|vs|) + PutValues(vs))[..cut]);
            if counted.Fail? then counted.error == UnexpectedEnd
            else counted.value == |vs| && TakeValues(dtype, |vs|, counted.rest) == Fail(UnexpectedEnd)
  {
    CutOf(U64ToLe(|vs|), PutValues(vs), cut);
    if cut >= 8 {
      U64ThenTake(|vs|, PutValues(vs)[..cut - 8]);
      ValuesCut(dtype, vs, cut - 8);
    }
  }

  lemma DataCut(data: ColumnData, cut: nat)
    requires |data.values| < TWO_64 && ValuesFit(data.values) && cut < |PutData(data)|
    ensures TakeData(PutData(data)[..cut]) == Fail(UnexpectedEnd)
  {
    var dtype, rest := PutType(data.dtype), U64ToLe(|data.values|) + PutValues(data.values);
    CutOf(dtype, rest, cut);
    if cut < |dtype| {
      TypeCut(data.dtype, cut);
    } else {
      TypeThenTake(data.dtype, rest[..cut - |dtype|]);
      CountedCut(data.dtype, data.values, cut - |dtype|);
    }
  }

  lemma ColumnCut(def: ColumnDef, c: NamedColumn, cut: nat)
    requires ColumnFits(c) && c.name == def.name && cut < |PutColumn(c)|
    ensures TakeColumn(def, PutColumn(c)[..cut]) == Fail(UnexpectedEnd)
  {
    var name, data := PutBlob(c.name), PutData(c.data);
    CutOf(name, data, cut);
    if cut < |name| {
      BlobCut(c.name, cut);
    } else {
      BlobThenTake(c.name, data[..cut - |name|]);
      DataCut(c.data, cut - |name|);
    }
  }

  lemma {:induction false} ColumnsCut(defs: seq<ColumnDef>, cs: seq<NamedColumn>, cut: nat)
    requires |defs| == |cs| && ColumnsFit(cs) && cut < |PutColumns(cs)|
    requires forall i :: 0 <= i < |cs| ==> Matches(defs[i], cs[i])
    ensures TakeColumns(defs, PutColumns(cs)[..cut]) == Fail(UnexpectedEnd)
    decreases |cs|
  {
    var first, rest := PutColumn(cs[0]), PutColumns(cs[1..]);
    CutOf(first, rest, cut);
    if cut < |first| {
      ColumnCut(defs[0], cs[0], cut);
    } else {
      ColumnThenTake(defs[0], cs[0], rest[..cut - |first|]);
      ColumnsCut(defs[1..], cs[1..], cut - |first|);
    }
  }

  /** The columns' part of a payload, whatever it is. */
  lemma DecodedBehindHeader(schema: Schema, rowCount: u64, bytes: seq<byte>)
    requires |schema.columns| < TWO_64
    ensures Decoded(schema, U64ToLe(rowCount) + (U64ToLe(|schema.columns|) + bytes))
            == match TakeColumns(schema.columns, bytes)
               case Fail(error) => Err(error)
               case Got(columns, end) => if end == [] then Ok(RowBatch(columns, rowCount)) else Err(TrailingBytes)
  {
    U64ThenTake(rowCount, U64ToLe(|schema.columns|) + bytes);
    U64ThenTake(|schema.columns|, bytes);
  }

  /** A payload cut short anywhere is found to end too early, and never taken for another one. */
  lemma CutIsUnexpectedEnd(schema: Schema, b: RowBatch, cut: nat)
    requires SchemaShaped(schema, b) && Fits(b) && cut < |Encoded(b)|
    ensures Decoded(schema, Encoded(b)[..cut]) == Err(UnexpectedEnd)
  {
    var columns := PutColumns(b.columns);
    var rest := U64ToLe(|b.columns|) + columns;
    CutOf(U64ToLe(b.rowCount), rest, cut);
    if cut >= 8 {
      CutOf(U64ToLe(|b.columns|), columns, cut - 8);
      U64ThenTake(b.rowCount, rest[..cut - 8]);
      if cut >= 16 {
        ColumnsCut(schema.columns, b.columns, cut - 16);
        DecodedBehindHeader(schema, b.rowCount, columns[..cut - 16]);
      } else {
        U64Cut(|b.columns|, cut - 8);
      }
    }
  }

  // ----- with bytes behind, or for another number of columns -----

  lemma MoreIsTrailing(schema: Schema, b: RowBatch, extra: seq<byte>)
    requires SchemaShaped(schema, b) && Fits(b) && extra != []
    ensures Decoded(schema, Encoded(b) + extra) == Err(TrailingBytes)
  {
    var columns := PutColumns(b.columns);
    Assoc(U64ToLe(b.rowCount), U64ToLe(|b.columns|) + columns, extra);
    Assoc(U64ToLe(|b.columns|), columns, extra);
    ColumnsThenTake(schema.columns, b.columns, extra);
    DecodedBehindHeader(schema, b.rowCount, columns + extra);
  }

  lemma OtherCountIsRefused(schema: Schema, b: RowBatch)
    requires Fits(b) && |b.columns| != |schema.columns|
    ensures Decoded(schema, Encoded(b)) == Err(ColumnCount)
  {
    U64ThenTake(b.rowCount, U64ToLe(|b.columns|) + PutColumns(b.columns));
    U64ThenTake(|b.columns|, PutColumns(b.columns));
  }

  // ----- at a column -----

  /** Behind good columns the next one's error stops the loop. */
  lemma {:induction false} ErrorBehindColumns(defs: seq<ColumnDef>, good: seq<NamedColumn>, bytes: seq<byte>)
    requires |good| < |defs| && ColumnsFit(good) && TakeColumn(defs[|good|], bytes).Fail?
    requires forall i :: 0 <= i < |good| ==> Matches(defs[i], good[i])
    ensures TakeColumns(defs, PutColumns(good) + bytes) == Fail(TakeColumn(defs[|good|], bytes).error)
    decreases |good|
  {
    if good == [] {
      assert PutColumns(good) + bytes == bytes;
    } else {
      Assoc(PutColumn(good[0]), PutColumns(good[1..]), bytes);
      ColumnThenTake(defs[0], good[0], PutColumns(good[1..]) + bytes);
      ErrorBehindColumns(defs[1..], good[1..], bytes);
    }
  }

  /** The error of a column in front: a name that is not UTF-8, a name out of order, an unknown type, or
      another type than the schema's, and in that order. */
  lemma ColumnErrors(def: ColumnDef, raw: seq<byte>, tag: byte, rest: seq<byte>, c: NamedColumn)
    requires |raw| < TWO_32 && ColumnFits(c)
    ensures !Utf8.IsUtf8(raw) ==> TakeColumn(def, PutBlob(raw) + rest) == Fail(NameNotUtf8)
    ensures Utf8.IsUtf8(raw) && raw != def.name ==> TakeColumn(def, PutBlob(raw) + rest) == Fail(ColumnOrder)
    ensures raw == def.name && tag > 3 ==> TakeColumn(def, PutBlob(raw) + ([tag] + rest)) == Fail(UnknownTag)
    ensures c.name == def.name && c.data.dtype != def.dtype ==>
              TakeColumn(def, PutColumn(c) + rest) == Fail(ColumnType)
  {
    BlobThenTake(raw, rest);
    BlobThenTake(raw, [tag] + rest);
    BytesThenTake([tag], rest);
    ColumnThenTake(def, c, rest);
  }

  /** A payload with good columns in front decodes to the error of the column behind them. */
  lemma FirstBadColumnDecides(schema: Schema, rowCount: u64, good: seq<NamedColumn>, bytes: seq<byte>)
    requires |schema.columns| < TWO_64 && |good| < |schema.columns| && ColumnsFit(good)
    requires TakeColumn(schema.columns[|good|], bytes).Fail?
    requires forall i :: 0 <= i < |good| ==> Matches(schema.columns[i], good[i])
    ensures Decoded(schema, U64ToLe(rowCount) + (U64ToLe(|schema.columns|) + (PutColumns(good) + bytes)))
            == Err(TakeColumn(schema.columns[|good|], bytes).error)
  {
    ErrorBehindColumns(schema.columns, good, bytes);
    DecodedBehindHeader(schema, rowCount, PutColumns(good) + bytes);
  }
}
