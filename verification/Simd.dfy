/** The four-lane filter kernels and their scalar meaning. */
module Simd {
  import opened Wrappers
  import opened Bytes
  import opened Words
  import opened Floats
  import opened Segment

  function Hit<T>(v: T, test: T -> bool, base: nat): seq<nat> {
    if test(v) then [base] else []
  }

  /** The positions, counted from `base`, of the values that pass the test, in order. */
  function Matches<T>(values: seq<T>, test: T -> bool, base: nat): seq<nat>
    decreases |values|
  {
    if values == [] then [] else Hit(values[0], test, base) + Matches(values[1..], test, base + 1)
  }

  /** Every position found is in range, passes, and is larger than the ones before it. */
  lemma {:induction false} MatchesSound<T>(values: seq<T>, test: T -> bool, base: nat)
    ensures var hits := Matches(values, test, base);
            && |hits| <= |values|
            && (forall k :: 0 <= k < |hits| ==> base <= hits[k] < base + |values| && test(values[hits[k] - base]))
            && (forall k, m :: 0 <= k < m < |hits| ==> hits[k] < hits[m])
    decreases |values|
  {
    if values != [] {
      MatchesSound(values[1..], test, base + 1);
    }
  }

  lemma {:induction false} MatchesAppend<T>(a: seq<T>, b: seq<T>, test: T -> bool, base: nat)
    ensures Matches(a + b, test, base) == Matches(a, test, base) + Matches(b, test, base + |a|)
    decreases |a|
  {
    if a == [] {
      assert a + b == b;
    } else {
      assert (a + b)[1..] == a[1..] + b;
      MatchesAppend(a[1..], b, test, base + 1);
    }
  }

  /** Counting from elsewhere shifts every position. */
  function Shifted(hits: seq<nat>, offset: nat): (r: seq<nat>)
    ensures |r| == |hits|
  {
    seq(|hits|, k requires 0 <= k < |hits| => offset + hits[k])
  }

  lemma ShiftedAppend(a: seq<nat>, b: seq<nat>, offset: nat)
    ensures Shifted(a + b, offset) == Shifted(a, offset) + Shifted(b, offset)
  {
  }

  lemma {:induction false} MatchesShift<T>(values: seq<T>, test: T -> bool, base: nat, offset: nat)
    ensures Shifted(Matches(values, test, base), offset) == Matches(values, test, offset + base)
    decreases |values|
  {
    if values != [] {
      MatchesShift(values[1..], test, base + 1, offset);
      ShiftedAppend(Hit(values[0], test, base), Matches(values[1..], test, base + 1), offset);
      assert Shifted(Hit(values[0], test, base), offset) == Hit(values[0], test, offset + base);
    }
  }

  /** Every passing value's position is found. */
  lemma {:induction false} MatchesComplete<T>(values: seq<T>, test: T -> bool, base: nat, i: nat)
    requires i < |values| && test(values[i])
    ensures base + i in Matches(values, test, base)
    decreases |values|
  {
    var head, tail := Hit(values[0], test, base), Matches(values[1..], test, base + 1);
    assert forall x :: x in head + tail <==> x in head || x in tail;
    if i > 0 {
      MatchesComplete(values[1..], test, base + 1, i - 1);
    }
  }

  /** `_mm256_movemask_pd`: one bit a lane, lane 0 lowest. */
  function Movemask(lanes: seq<bool>): nat {
    if lanes == [] then 0 else (if lanes[0] then 1 else 0) + 2 * Movemask(lanes[1..])
  }

  /** `push_mask_indices` */
  method PushMaskIndices(start: nat, base: nat, output: seq<nat>) returns (out: seq<nat>)
    ensures out == output + SetBits(start, base)
  {
    var mask := start;
    out := output;
    while mask != 0
      invariant out + SetBits(mask, base) == output + SetBits(start, base)
      decreases mask
    {
      DropLowestBit(mask, base);
      var lane := TrailingZeros(mask);
      ghost var rest := SetBits(BitAnd(mask, mask - 1), base);
      assert out + ([base + lane] + rest) == (out + [base + lane]) + rest;
      out := out + [base + lane];
      mask := BitAnd(mask, mask - 1);
    }
    assert out + [] == out;
  }

  lemma {:induction false} MaskBitsAreMatches<T>(block: seq<T>, lanes: seq<bool>, test: T -> bool, base: nat)
    requires |lanes| == |block|
    requires forall k :: 0 <= k < |block| ==> lanes[k] == test(block[k])
    ensures SetBits(Movemask(lanes), base) == Matches(block, test, base)
    decreases |block|
  {
    if block != [] {
      MaskBitsAreMatches(block[1..], lanes[1..], test, base + 1);
      var rest := Movemask(lanes[1..]);
      assert Movemask(lanes) / 2 == rest;
      if Movemask(lanes) == 0 {
        assert rest == 0;
      }
    }
  }

  lemma OneMatch<T>(v: T, test: T -> bool, base: nat)
    ensures Matches([v], test, base) == Hit(v, test, base)
  {
    assert [v][1..] == [];
  }

  /** Filtering one more block through its lane mask. */
  lemma BlockStep<T>(cells: seq<T>, idx: nat, lanes: seq<bool>, test: T -> bool)
    requires |lanes| == 4 && idx + 4 <= |cells|
    requires forall k :: 0 <= k < 4 ==> lanes[k] == test(cells[idx + k])
    ensures Matches(cells[..idx + 4], test, 0) == Matches(cells[..idx], test, 0) + SetBits(Movemask(lanes), idx)
  {
    var block := cells[idx..idx + 4];
    MaskBitsAreMatches(block, lanes, test, idx);
    assert cells[..idx + 4] == cells[..idx] + block;
    MatchesAppend(cells[..idx], block, test, 0);
  }

  /** Filtering one more cell in the scalar tail. */
  lemma CellStep<T>(cells: seq<T>, idx: nat, test: T -> bool)
    requires idx < |cells|
    ensures Matches(cells[..idx + 1], test, 0)
            == Matches(cells[..idx], test, 0) + Hit(cells[idx], test, idx)
  {
    assert cells[..idx + 1] == cells[..idx] + [cells[idx]];
    MatchesAppend(cells[..idx], [cells[idx]], test, 0);
    OneMatch(cells[idx], test, idx);
  }

  // ----- the i64 kernel -----

  /** The 8-byte cells of a buffer, read as signed integers. */
  function IntCells(bytes: seq<byte>): (vs: seq<i64>)
    ensures |vs| == |bytes| / 8
  {
    seq(|bytes| / 8, i requires 0 <= i < |bytes| / 8 => IntCell(bytes, i))
  }

  function IntCell(bytes: seq<byte>, i: nat): i64
    requires i < |bytes| / 8
  {
    I64FromLe(Slice(bytes, 8, i))
  }

  /** `_mm256_loadu_si256`: four cells at once. */
  function LoadInts(bytes: seq<byte>, idx: nat): (values: seq<i64>)
    requires idx + 4 <= |bytes| / 8
    ensures |values| == 4 && forall k :: 0 <= k < 4 ==> values[k] == IntCells(bytes)[idx + k]
  {
    [IntCell(bytes, idx), IntCell(bytes, idx + 1), IntCell(bytes, idx + 2), IntCell(bytes, idx + 3)]
  }

  function InTimeRange(start: i64, end: i64): i64 -> bool {
    v => start <= v < end
  }

  /** Four signed comparisons at once, each `a > b`. */
  function CmpGt4(a: seq<int>, b: seq<int>): (lanes: seq<bool>)
    requires |a| == |b| == 4
    ensures |lanes| == 4
  {
    [a[0] > b[0], a[1] > b[1], a[2] > b[2], a[3] > b[3]]
  }

  function And4(a: seq<bool>, b: seq<bool>): (lanes: seq<bool>)
    requires |a| == |b| == 4
    ensures |lanes| == 4
  {
    [a[0] && b[0], a[1] && b[1], a[2] && b[2], a[3] && b[3]]
  }

  /** The two vector comparisons of one block: `end > v` and `v > start - 1`, where `start - 1` does
      not exist for the smallest i64 and every value passes. */
  function RangeLanes(values: seq<int>, startMinusOne: Option<int>, end: i64): (lanes: seq<bool>)
    requires |values| == 4
    ensures |lanes| == 4
  {
    var ltEnd := CmpGt4([end, end, end, end], values);
    var geStart := match startMinusOne
      case Some(s) => CmpGt4(values, [s, s, s, s])
      case None => [true, true, true, true];
    And4(geStart, ltEnd)
  }

  /** The lanes of four cells say which of them are in range, `start` at the smallest value included. */
  lemma RangeLanesTest(bytes: seq<byte>, idx: nat, start: i64, end: i64)
    requires idx + 4 <= |bytes| / 8
    ensures var startMinusOne := if start == -TWO_63 then None else Some(start - 1);
            var lanes := RangeLanes(LoadInts(bytes, idx), startMinusOne, end);
            forall k :: 0 <= k < 4 ==> lanes[k] == InTimeRange(start, end)(IntCells(bytes)[idx + k])
  {
  }

  /** `range_filter_i64_bytes_avx2` */
  method RangeFilterI64Avx2(bytes: seq<byte>, start: i64, end: i64) returns (output: seq<nat>)
    ensures output == Matches(IntCells(bytes), InTimeRange(start, end), 0)
  {
    var lanes := |bytes| / 8;
    ghost var cells := IntCells(bytes);
    output := [];
    var idx := 0;
    var startMinusOne: Option<int> := if start == -TWO_63 then None else Some(start - 1);
    while idx + 4 <= lanes
      invariant 0 <= idx <= lanes
      invariant output == Matches(cells[..idx], InTimeRange(start, end), 0)
      decreases lanes - idx
    {
      var values := LoadInts(bytes, idx);
      RangeLanesTest(bytes, idx, start, end);
      var both := RangeLanes(values, startMinusOne, end);
      BlockStep(cells, idx, both, InTimeRange(start, end));
      output := PushMaskIndices(Movemask(both), idx, output);
      idx := idx + 4;
    }
    output := RangeTail(bytes, start, end, idx, output);
  }

  /** The scalar tail of the kernel. */
  method RangeTail(bytes: seq<byte>, start: i64, end: i64, idx: nat, blocks: seq<nat>) returns (output: seq<nat>)
    requires idx <= |bytes| / 8
    requires blocks == Matches(IntCells(bytes)[..idx], InTimeRange(start, end), 0)
    ensures output == Matches(IntCells(bytes), InTimeRange(start, end), 0)
  {
    var lanes := |bytes| / 8;
    ghost var cells := IntCells(bytes);
    output := blocks;
    for lane := idx to lanes
      invariant output == Matches(cells[..lane], InTimeRange(start, end), 0)
    {
      var value := IntCell(bytes, lane);
      CellStep(cells, lane, InTimeRange(start, end));
      if value >= start && value < end {
        output := output + [lane];
      }
    }
    assert cells[..lanes] == cells;
  }

  datatype ScanError =
    | UnknownColumn(column: seq<byte>)
    | ColumnOrderMismatch
    | ColumnTypeMismatch
    | RowCountOverflow
    | InvalidColumnBytes(len: nat, width: nat)

  /** `range_filter_i64_bytes`: with or without the vector unit, the scalar filter's answer. */
  method RangeFilterI64Bytes(bytes: seq<byte>, start: i64, end: i64, avx2: bool)
    returns (res: Result<seq<nat>, ScanError>)
    ensures res == if |bytes| % 8 != 0 then Err(InvalidColumnBytes(|bytes|, 8))
                   else Ok(Matches(IntCells(bytes), InTimeRange(start, end), 0))
  {
    if |bytes| % 8 != 0 {
      return Err(InvalidColumnBytes(|bytes|, 8));
    }
    if avx2 {
      var output := RangeFilterI64Avx2(bytes, start, end);
      return Ok(output);
    }
    SameTestSameMatches(IntCells(bytes), v => v >= start && v < end, InTimeRange(start, end), 0);
    return Ok(Matches(IntCells(bytes), v => v >= start && v < end, 0));
  }

  lemma {:induction false} SameTestSameMatches<T>(values: seq<T>, p: T -> bool, q: T -> bool, base: nat)
    requires forall i :: 0 <= i < |values| ==> p(values[i]) == q(values[i])
    ensures Matches(values, p, base) == Matches(values, q, base)
    decreases |values|
  {
    if values != [] {
      SameTestSameMatches(values[1..], p, q, base + 1);
    }
  }

  // ----- the f64 kernels -----

  /** The two predicates that have vector kernels. */
  datatype FloatTest = InRange(min: u64, max: u64) | Above(threshold: u64) {

    /** The scalar comparison. */
    predicate Holds(v: u64) {
      match this
      case InRange(min, max) => Ge(v, min) && Lt(v, max)
      case Above(threshold) => Gt(v, threshold)
    }

    /** The scalar filter's test. */
    function Scalar(): u64 -> bool {
      (v: u64) => Holds(v)
    }

    /** The vector comparisons: ordered and quiet, so a NaN lane is false. */
    function Lanes(v: seq<u64>): (lanes: seq<bool>)
      requires |v| == 4
      ensures |lanes| == 4
    {
      match this
      case InRange(min, max) =>
        And4([Ge(v[0], min), Ge(v[1], min), Ge(v[2], min), Ge(v[3], min)],
             [Lt(v[0], max), Lt(v[1], max), Lt(v[2], max), Lt(v[3], max)])
      case Above(threshold) =>
        [Gt(v[0], threshold), Gt(v[1], threshold), Gt(v[2], threshold), Gt(v[3], threshold)]
    }
  }

  /** `range_filter_f64_values_avx` and `gt_filter_f64_values_avx` */
  method FilterF64ValuesAvx(values: seq<u64>, test: FloatTest) returns (output: seq<nat>)
    ensures output == Matches(values, test.Scalar(), 0)
  {
    output := [];
    var idx := 0;
    while idx + 4 <= |values|
      invariant 0 <= idx <= |values|
      invariant output == Matches(values[..idx], test.Scalar(), 0)
      decreases |values| - idx
    {
      var lanes := test.Lanes(values[idx..idx + 4]);
      LanesAreScalar(test, values[idx..idx + 4]);
      BlockStep(values, idx, lanes, test.Scalar());
      output := PushMaskIndices(Movemask(lanes), idx, output);
      idx := idx + 4;
    }
    var rest := values[idx..];
    for offset := 0 to |rest|
      invariant output == Matches(values[..idx + offset], test.Scalar(), 0)
    {
      CellStep(values, idx + offset, test.Scalar());
      if test.Holds(rest[offset]) {
        output := output + [idx + offset];
      }
    }
    assert values[..idx + |rest|] == values;
  }

  lemma LanesAreScalar(test: FloatTest, v: seq<u64>)
    requires |v| == 4
    ensures forall k :: 0 <= k < 4 ==> test.Lanes(v)[k] == test.Holds(v[k])
  {
  }

  /** The 8-byte cells of a buffer, read as bit patterns. */
  function FloatCells(bytes: seq<byte>): (vs: seq<u64>)
    ensures |vs| == |bytes| / 8
  {
    seq(|bytes| / 8, i requires 0 <= i < |bytes| / 8 => FloatCell(bytes, i))
  }

  function FloatCell(bytes: seq<byte>, i: nat): u64
    requires i < |bytes| / 8
  {
    U64FromLe(Slice(bytes, 8, i))
  }

  /** `_mm256_loadu_pd`: four cells at once. */
  function LoadFloats(bytes: seq<byte>, idx: nat): (values: seq<u64>)
    requires idx + 4 <= |bytes| / 8
    ensures |values| == 4 && forall k :: 0 <= k < 4 ==> values[k] == FloatCells(bytes)[idx + k]
  {
    [FloatCell(bytes, idx), FloatCell(bytes, idx + 1), FloatCell(bytes, idx + 2), FloatCell(bytes, idx + 3)]
  }

  /** `range_filter_f64_bytes_avx` and `gt_filter_f64_bytes_avx` */
  method FilterF64BytesAvx(bytes: seq<byte>, test: FloatTest) returns (output: seq<nat>)
    ensures output == Matches(FloatCells(bytes), test.Scalar(), 0)
  {
    var lanes := |bytes| / 8;
    output := [];
    var idx := 0;
    while idx + 4 <= lanes
      invariant 0 <= idx <= lanes
      invariant output == Matches(FloatCells(bytes)[..idx], test.Scalar(), 0)
      decreases lanes - idx
    {
      var loaded := LoadFloats(bytes, idx);
      var mask := test.Lanes(loaded);
      LanesAreScalar(test, loaded);
      BlockStep(FloatCells(bytes), idx, mask, test.Scalar());
      output := PushMaskIndices(Movemask(mask), idx, output);
      idx := idx + 4;
    }
    for lane := idx to lanes
      invariant output == Matches(FloatCells(bytes)[..lane], test.Scalar(), 0)
    {
      CellStep(FloatCells(bytes), lane, test.Scalar());
      if test.Holds(FloatCell(bytes, lane)) {
        output := output + [lane];
      }
    }
    assert FloatCells(bytes)[..lanes] == FloatCells(bytes);
  }

  /** `range_filter_f64_values` and `gt_filter_f64_values` */
  method FilterF64Values(values: seq<u64>, test: FloatTest, avx: bool) returns (output: seq<nat>)
    ensures output == Matches(values, test.Scalar(), 0)
  {
    if avx {
      output := FilterF64ValuesAvx(values, test);
    } else {
      output := Matches(values, test.Scalar(), 0);
    }
  }

  /** `range_filter_f64_bytes` and `gt_filter_f64_bytes` */
  method FilterF64Bytes(bytes: seq<byte>, test: FloatTest, avx: bool) returns (res: Result<seq<nat>, ScanError>)
    ensures res == if |bytes| % 8 != 0 then Err(InvalidColumnBytes(|bytes|, 8))
                   else Ok(Matches(FloatCells(bytes), test.Scalar(), 0))
  {
    if |bytes| % 8 != 0 {
      return Err(InvalidColumnBytes(|bytes|, 8));
    }
    if avx {
      var output := FilterF64BytesAvx(bytes, test);
      return Ok(output);
    }
    return Ok(Matches(FloatCells(bytes), test.Scalar(), 0));
  }
}
