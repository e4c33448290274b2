/** Batches as plain row sequences: the reference against which storage and queries are stated. */
module Rows {
  import opened Wrappers
  import opened Bytes
  import opened Batch
  import opened Simd

  type Row = seq<Value>

  /** Every column has the batch's row count. */
  predicate Rectangular(b: RowBatch) {
    forall c :: 0 <= c < |b.columns| ==> |b.columns[c].data.values| == b.rowCount
  }

  lemma BuilderValidIsRectangular(schema: Schema, b: RowBatch)
    requires BuilderValid(schema, b)
    ensures Rectangular(b)
  {
  }

  function RowAt(b: RowBatch, i: nat): (row: Row)
    requires Rectangular(b) && i < b.rowCount
    ensures |row| == |b.columns| && forall c :: 0 <= c < |row| ==> row[c] == b.columns[c].data.values[i]
  {
    seq(|b.columns|, c requires 0 <= c < |b.columns| => b.columns[c].data.values[i])
  }

  function RowsOf(b: RowBatch): (rows: seq<Row>)
    requires Rectangular(b)
    ensures |rows| == b.rowCount && forall i :: 0 <= i < |rows| ==> rows[i] == RowAt(b, i)
  {
    seq(b.rowCount, i requires 0 <= i < b.rowCount => RowAt(b, i))
  }

  predicate AllRectangular(bs: seq<RowBatch>) {
    forall i :: 0 <= i < |bs| ==> Rectangular(bs[i])
  }

  /** The rows of several batches, in order. */
  function AllRows(bs: seq<RowBatch>): seq<Row>
    requires AllRectangular(bs)
  {
    if bs == [] then [] else RowsOf(bs[0]) + AllRows(bs[1..])
  }

  lemma {:induction false} AllRowsAppend(a: seq<RowBatch>, b: seq<RowBatch>)
    requires AllRectangular(a) && AllRectangular(b)
    ensures AllRows(a + b) == AllRows(a) + AllRows(b)
    decreases |a|
  {
    if a == [] {
      assert a + b == b;
    } else {
      assert (a + b)[1..] == a[1..] + b;
      AllRowsAppend(a[1..], b);
    }
  }

  lemma AllRowsOne(b: RowBatch)
    requires Rectangular(b)
    ensures AllRows([b]) == RowsOf(b)
  {
    assert [b][1..] == [];
  }

  /** Appending batches of one shape appends their rows. */
  lemma AppendBatchRows(schema: Schema, a: RowBatch, b: RowBatch)
    requires BuilderValid(schema, a) && BuilderValid(schema, b)
    requires a.rowCount + b.rowCount < TWO_64
    ensures AppendBatch(a, b).1 == None && BuilderValid(schema, AppendBatch(a, b).0)
    ensures RowsOf(AppendBatch(a, b).0) == RowsOf(a) + RowsOf(b)
  {
    AppendValid(schema, a, b);
    var c := AppendBatch(a, b).0;
    forall i | 0 <= i < c.rowCount
      ensures RowsOf(c)[i] == (RowsOf(a) + RowsOf(b))[i]
    {
      assert RowAt(c, i) == if i < a.rowCount then RowAt(a, i) else RowAt(b, i - a.rowCount);
    }
  }

  lemma EmptyBatchRows(schema: Schema)
    ensures RowsOf(EmptyBatch(schema)) == []
  {
  }

  // ----- filtering rows -----

  /** One column of a row sequence. */
  function ColumnOf(rows: seq<Row>, c: nat): (vs: seq<Value>)
    requires forall i :: 0 <= i < |rows| ==> c < |rows[i]|
    ensures |vs| == |rows| && forall i :: 0 <= i < |rows| ==> vs[i] == rows[i][c]
  {
    seq(|rows|, i requires 0 <= i < |rows| => rows[i][c])
  }

  /** The plain filter. */
  function FilterRows(rows: seq<Row>, keep: Row -> bool): seq<Row> {
    if rows == [] then []
    else (if keep(rows[0]) then [rows[0]] else []) + FilterRows(rows[1..], keep)
  }

  lemma {:induction false} FilterRowsAppend(a: seq<Row>, b: seq<Row>, keep: Row -> bool)
    ensures FilterRows(a + b, keep) == FilterRows(a, keep) + FilterRows(b, keep)
    decreases |a|
  {
    if a == [] {
      assert a + b == b;
    } else {
      assert (a + b)[1..] == a[1..] + b;
      FilterRowsAppend(a[1..], b, keep);
    }
  }

  lemma {:induction false} FilterKeepsNoMore(rows: seq<Row>, keep: Row -> bool)
    ensures |FilterRows(rows, keep)| <= |rows|
    decreases |rows|
  {
    if rows != [] {
      FilterKeepsNoMore(rows[1..], keep);
    }
  }

  predicate AllBelow(indices: seq<nat>, n: nat) {
    forall k :: 0 <= k < |indices| ==> indices[k] < n
  }

  lemma GatherOneMore<T>(vs: seq<T>, k: nat, rest: seq<nat>)
    requires k < |vs| && AllBelow(rest, |vs|)
    ensures AllBelow([k] + rest, |vs|)
    ensures Gather(vs, [k] + rest) == [vs[k]] + Gather(vs, rest)
  {
  }

  /** Gathering the hits of a filter is the filter. */
  lemma {:induction false} GatherMatches(rows: seq<Row>, keep: Row -> bool, before: seq<Row>)
    ensures AllBelow(Matches(rows, keep, |before|), |before + rows|)
    ensures Gather(before + rows, Matches(rows, keep, |before|)) == FilterRows(rows, keep)
    decreases |rows|
  {
    if rows != [] {
      var all, rest, r := before + rows, Matches(rows[1..], keep, |before| + 1), rows[0];
      GatherMatches(rows[1..], keep, before + [r]);
      assert (before + [r]) + rows[1..] == all;
      if keep(r) {
        GatherOneMore(all, |before|, rest);
        assert Matches(rows, keep, |before|) == [|before|] + rest;
      } else {
        assert Matches(rows, keep, |before|) == rest && FilterRows(rows, keep) == FilterRows(rows[1..], keep);
      }
    }
  }

  lemma GatherMatchesIsFilter(rows: seq<Row>, keep: Row -> bool)
    ensures forall k :: 0 <= k < |Matches(rows, keep, 0)| ==> Matches(rows, keep, 0)[k] < |rows|
    ensures Gather(rows, Matches(rows, keep, 0)) == FilterRows(rows, keep)
  {
    GatherMatches(rows, keep, []);
    assert [] + rows == rows;
  }

  /** Hits computed on one column are hits on rows. */
  lemma {:induction false} MatchesByColumn<R, T>(rows: seq<R>, cells: seq<T>, keep: R -> bool, test: T -> bool,
                                                 base: nat)
    requires |rows| == |cells|
    requires forall i :: 0 <= i < |rows| ==> keep(rows[i]) == test(cells[i])
    ensures Matches(rows, keep, base) == Matches(cells, test, base)
    decreases |rows|
  {
    if rows != [] {
      MatchesByColumn(rows[1..], cells[1..], keep, test, base + 1);
    }
  }

  /** Filtering twice is filtering by both. */
  lemma {:induction false} FilterTwice(rows: seq<Row>, p: Row -> bool, q: Row -> bool, both: Row -> bool)
    requires forall i :: 0 <= i < |rows| ==> both(rows[i]) == (p(rows[i]) && q(rows[i]))
    ensures FilterRows(FilterRows(rows, p), q) == FilterRows(rows, both)
    decreases |rows|
  {
    if rows != [] {
      FilterTwice(rows[1..], p, q, both);
      if p(rows[0]) {
        assert ([rows[0]] + FilterRows(rows[1..], p))[1..] == FilterRows(rows[1..], p);
      } else {
        assert FilterRows(rows, p) == FilterRows(rows[1..], p);
      }
    }
  }

  /** Filters that agree on the rows are the same. */
  lemma {:induction false} FilterSame(rows: seq<Row>, p: Row -> bool, q: Row -> bool)
    requires forall i :: 0 <= i < |rows| ==> p(rows[i]) == q(rows[i])
    ensures FilterRows(rows, p) == FilterRows(rows, q)
    decreases |rows|
  {
    if rows != [] {
      FilterSame(rows[1..], p, q);
    }
  }

  lemma {:induction false} FilterNone(rows: seq<Row>, keep: Row -> bool)
    requires forall i :: 0 <= i < |rows| ==> !keep(rows[i])
    ensures FilterRows(rows, keep) == []
    decreases |rows|
  {
    if rows != [] {
      FilterNone(rows[1..], keep);
    }
  }

  lemma ColumnOfGather(rows: seq<Row>, indices: seq<nat>, c: nat)
    requires forall i :: 0 <= i < |rows| ==> c < |rows[i]|
    requires forall k :: 0 <= k < |indices| ==> indices[k] < |rows|
    ensures ColumnOf(Gather(rows, indices), c) == Gather(ColumnOf(rows, c), indices)
  {
  }

  lemma ColumnOfRows(b: RowBatch, c: nat)
    requires Rectangular(b) && c < |b.columns|
    ensures ColumnOf(RowsOf(b), c) == b.columns[c].data.values
  {
  }
}
