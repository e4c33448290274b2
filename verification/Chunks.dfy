/** Chunked scan columns: owned and mapped chunks, flattening, lookup, taking rows and filtering,
    each against the plain column the chunks stand for. */
module Chunks {
  import opened Wrappers
  import opened Bytes
  import opened Batch
  import opened Segment
  import opened Selection

  datatype Chunk = Owned(values: seq<Value>) | Mapped(column: MappedColumn, rows: RowSelection) {

    function RowCount(): nat {
      match this
      case Owned(values) => |values|
      case Mapped(_, rows) => rows.Len()
    }

    /** Right kind of values, and selected rows inside the mapped column. */
    predicate Valid(dtype: DType) {
      match this
      case Owned(values) => forall i :: 0 <= i < |values| ==> HasKind(dtype, values[i])
      case Mapped(column, rows) =>
        && column.Valid() && column.dtype == dtype
        && forall i :: 0 <= i < rows.Len() ==> rows.Rows()[i] < column.rowCount
    }

    function Cell(i: nat): Option<Value> {
      match this
      case Owned(values) => if i < |values| then Some(values[i]) else None
      case Mapped(column, rows) =>
        match rows.IndexAt(i)
        case None => None
        case Some(row) => column.Cell(row)
    }

    /** The values the chunk stands for. */
    function Values(dtype: DType): (vs: seq<Value>)
      requires Valid(dtype)
      ensures |vs| == RowCount()
      ensures forall i :: 0 <= i < |vs| ==> Cell(i) == Some(vs[i])
    {
      match this
      case Owned(values) => values
      case Mapped(column, rows) => Gather(column.Values(), rows.Rows())
    }
  }

  datatype ScanColumn = ScanColumn(dtype: DType, chunks: seq<Chunk>) {
    predicate Valid() {
      forall i :: 0 <= i < |chunks| ==> chunks[i].Valid(dtype)
    }

    /** The contiguous column. */
    function Values(): seq<Value>
      requires Valid()
    {
      Flatten(dtype, chunks)
    }
  }

  predicate AllValid(dtype: DType, chunks: seq<Chunk>) {
    forall i :: 0 <= i < |chunks| ==> chunks[i].Valid(dtype)
  }

  function Flatten(dtype: DType, chunks: seq<Chunk>): (vs: seq<Value>)
    requires AllValid(dtype, chunks)
    ensures |vs| == Total(Lengths(chunks))
  {
    if chunks == [] then []
    else
      assert Lengths(chunks)[1..] == Lengths(chunks[1..]);
      chunks[0].Values(dtype) + Flatten(dtype, chunks[1..])
  }

  function Lengths(chunks: seq<Chunk>): (ls: seq<nat>)
    ensures |ls| == |chunks|
  {
    seq(|chunks|, i requires 0 <= i < |chunks| => chunks[i].RowCount())
  }

  function Total(lengths: seq<nat>): nat {
    if lengths == [] then 0 else lengths[0] + Total(lengths[1..])
  }

  lemma {:induction false} FlattenAppend(dtype: DType, a: seq<Chunk>, b: seq<Chunk>)
    requires AllValid(dtype, a) && AllValid(dtype, b)
    ensures AllValid(dtype, a + b)
    ensures Flatten(dtype, a + b) == Flatten(dtype, a) + Flatten(dtype, b)
    decreases |a|
  {
    if a == [] {
      assert a + b == b;
    } else {
      assert (a + b)[1..] == a[1..] + b;
      FlattenAppend(dtype, a[1..], b);
    }
  }

  lemma FlattenOne(dtype: DType, c: Chunk)
    requires c.Valid(dtype)
    ensures Flatten(dtype, [c]) == c.Values(dtype)
  {
    assert [c][1..] == [];
  }

  // ----- flattening and looking up -----

  /** The mapped case of flattening: every selected row that is in the mapping. */
  method FlattenMapped(dtype: DType, column: MappedColumn, rows: RowSelection) returns (output: seq<Value>)
    requires Mapped(column, rows).Valid(dtype)
    ensures output == Mapped(column, rows).Values(dtype)
  {
    output := [];
    ghost var all := Mapped(column, rows).Values(dtype);
    for local := 0 to rows.Len()
      invariant output == all[..local]
    {
      assert Mapped(column, rows).Cell(local) == Some(all[local]);
      var cell := column.Cell(rows.IndexAt(local).value);
      if cell.Some? {
        output := output + [cell.value];
      }
    }
  }

  lemma FlattenNext(dtype: DType, chunks: seq<Chunk>, k: nat)
    requires AllValid(dtype, chunks) && k < |chunks|
    ensures Flatten(dtype, chunks[..k + 1]) == Flatten(dtype, chunks[..k]) + chunks[k].Values(dtype)
  {
    assert chunks[..k + 1] == chunks[..k] + [chunks[k]];
    FlattenAppend(dtype, chunks[..k], [chunks[k]]);
    FlattenOne(dtype, chunks[k]);
  }

  /** `flatten_f64_chunks` and its two siblings */
  method FlattenChunks(dtype: DType, chunks: seq<Chunk>) returns (output: seq<Value>)
    requires AllValid(dtype, chunks)
    ensures output == Flatten(dtype, chunks)
  {
    output := [];
    for k := 0 to |chunks|
      invariant output == Flatten(dtype, chunks[..k])
    {
      FlattenNext(dtype, chunks, k);
      match chunks[k] {
        case Owned(values) =>
          output := output + values;
        case Mapped(column, rows) =>
          var selected := FlattenMapped(dtype, column, rows);
          output := output + selected;
      }
    }
    assert chunks[..|chunks|] == chunks;
  }

  /** `value_at_f64` and its two siblings: one cell of the contiguous column. */
  method ValueAt(dtype: DType, chunks: seq<Chunk>, at: nat) returns (v: Option<Value>)
    requires AllValid(dtype, chunks)
    ensures v == if at < |Flatten(dtype, chunks)| then Some(Flatten(dtype, chunks)[at]) else None
  {
    var index: nat := at;
    assert chunks[0..] == chunks;
    ghost var all := Flatten(dtype, chunks);
    for k := 0 to |chunks|
      invariant |all| - at == |Flatten(dtype, chunks[k..])| - index
      invariant index <= at && all[at - index..] == Flatten(dtype, chunks[k..])
    {
      var rowCount := chunks[k].RowCount();
      assert chunks[k..][1..] == chunks[k + 1..];
      ghost var rest := Flatten(dtype, chunks[k..]);
      if index < rowCount {
        assert all[at] == rest[index] == chunks[k].Values(dtype)[index];
        v := chunks[k].Cell(index);
        return;
      }
      assert rest[rowCount..] == Flatten(dtype, chunks[k + 1..]);
      index := index - rowCount;
    }
    return None;
  }

  // ----- grouping indices by chunk -----

  /** Chunk and local position of a global position. */
  function Locate(lengths: seq<nat>, i: nat): Option<(nat, nat)> {
    if lengths == [] then None
    else if i < lengths[0] then Some((0, i))
    else
      match Locate(lengths[1..], i - lengths[0])
      case None => None
      case Some(p) => Some((p.0 + 1, p.1))
  }

  function LocateAll(lengths: seq<nat>, indices: seq<nat>): seq<(nat, nat)> {
    if indices == [] then []
    else (match Locate(lengths, indices[0]) case None => [] case Some(p) => [p]) + LocateAll(lengths, indices[1..])
  }

  type Group = (nat, seq<nat>)

  /** The pairs a list of groups stands for. */
  function Expand(groups: seq<Group>): seq<(nat, nat)> {
    if groups == [] then [] else ExpandOne(groups[0]) + Expand(groups[1..])
  }

  function ExpandOne(g: Group): (pairs: seq<(nat, nat)>)
    ensures |pairs| == |g.1|
  {
    seq(|g.1|, k requires 0 <= k < |g.1| => (g.0, g.1[k]))
  }

  /** No empty group, and neighbours belong to different chunks: the coarsest grouping in order. */
  predicate Coarsest(groups: seq<Group>) {
    && (forall k :: 0 <= k < |groups| ==> groups[k].1 != [])
    && (forall k :: 0 < k < |groups| ==> groups[k - 1].0 != groups[k].0)
  }

  lemma {:induction false} ExpandAppend(a: seq<Group>, b: seq<Group>)
    ensures Expand(a + b) == Expand(a) + Expand(b)
    decreases |a|
  {
    if a == [] {
      assert a + b == b;
    } else {
      assert (a + b)[1..] == a[1..] + b;
      ExpandAppend(a[1..], b);
    }
  }

  lemma {:induction false} LocateAllNext(lengths: seq<nat>, indices: seq<nat>, k: nat)
    requires k < |indices|
    ensures LocateAll(lengths, indices[..k + 1])
            == LocateAll(lengths, indices[..k])
              + (match Locate(lengths, indices[k]) case None => [] case Some(p) => [p])
    decreases k
  {
    if k == 0 {
      assert indices[..1][1..] == [] && indices[..0] == [];
    } else {
      assert indices[..k + 1][1..] == indices[1..][..k] && indices[..k][1..] == indices[1..][..k - 1];
      LocateAllNext(lengths, indices[1..], k - 1);
    }
  }

  /** One located index joins the last group if that is its chunk, and opens a group otherwise. */
  method PushLocated(groups: seq<Group>, chunk: nat, local: nat) returns (grown: seq<Group>)
    requires Coarsest(groups)
    ensures Coarsest(grown) && Expand(grown) == Expand(groups) + [(chunk, local)]
  {
    var n := |groups|;
    if n > 0 && groups[n - 1].0 == chunk {
      var last := groups[n - 1];
      grown := groups[n - 1 := (chunk, last.1 + [local])];
      assert groups == groups[..n - 1] + [last] && grown == groups[..n - 1] + [(chunk, last.1 + [local])];
      ExpandAppend(groups[..n - 1], [last]);
      ExpandAppend(groups[..n - 1], [(chunk, last.1 + [local])]);
      ExpandSingle(last);
      ExpandSingle((chunk, last.1 + [local]));
      assert ExpandOne((chunk, last.1 + [local])) == ExpandOne(last) + [(chunk, local)];
    } else {
      grown := groups + [(chunk, [local])];
      ExpandAppend(groups, [(chunk, [local])]);
      ExpandSingle((chunk, [local]));
      assert ExpandOne((chunk, [local])) == [(chunk, local)];
    }
  }

  lemma ExpandSingle(g: Group)
    ensures Expand([g]) == ExpandOne(g)
  {
    assert [g][1..] == [];
  }

  function SaturatingAdd(a: nat, b: nat): nat {
    if a + b < TWO_64 then a + b else TWO_64 - 1
  }

  /** The inner loop: the first chunk whose range holds the index takes it; an index past the end is
      skipped. */
  method PushIndex(before: seq<Group>, lengths: seq<nat>, global: nat) returns (groups: seq<Group>)
    requires Coarsest(before) && Total(lengths) < TWO_64
    ensures Coarsest(groups)
    ensures Expand(groups) == Expand(before) + (match Locate(lengths, global) case None => [] case Some(p) => [p])
  {
    var base: nat := 0;
    var chunk: nat := 0;
    assert lengths[0..] == lengths;
    while chunk < |lengths|
      invariant 0 <= chunk <= |lengths|
      invariant base <= global && base + Total(lengths[chunk..]) == Total(lengths)
      invariant Locate(lengths, global) == Deeper(chunk, Locate(lengths[chunk..], global - base))
      decreases |lengths| - chunk
    {
      var end := SaturatingAdd(base, lengths[chunk]);
      assert lengths[chunk..][0] == lengths[chunk] && lengths[chunk..][1..] == lengths[chunk + 1..];
      if global >= base && global < end {
        groups := PushLocated(before, chunk, global - base);
        return;
      }
      base := end;
      chunk := chunk + 1;
    }
    assert Expand(before) + [] == Expand(before);
    groups := before;
  }

  /** `group_indices_by_chunk`: the located pairs in input order, coarsely grouped; indices past
      the end are skipped. */
  method GroupIndicesByChunk(indices: seq<nat>, lengths: seq<nat>) returns (groups: seq<Group>)
    requires Total(lengths) < TWO_64
    ensures Coarsest(groups)
    ensures Expand(groups) == LocateAll(lengths, indices)
  {
    groups := [];
    for n := 0 to |indices|
      invariant Coarsest(groups)
      invariant Expand(groups) == LocateAll(lengths, indices[..n])
    {
      LocateAllNext(lengths, indices, n);
      groups := PushIndex(groups, lengths, indices[n]);
    }
    assert indices[..|indices|] == indices;
  }

  function Deeper(depth: nat, p: Option<(nat, nat)>): Option<(nat, nat)> {
    match p
    case None => None
    case Some(q) => Some((q.0 + depth, q.1))
  }

  // ----- taking rows -----

  /** The values at located pairs. */
  ghost predicate InChunks(chunks: seq<Chunk>, pairs: seq<(nat, nat)>) {
    forall k :: 0 <= k < |pairs| ==> pairs[k].0 < |chunks| && pairs[k].1 < chunks[pairs[k].0].RowCount()
  }

  ghost function PickPairs(dtype: DType, chunks: seq<Chunk>, pairs: seq<(nat, nat)>): (vs: seq<Value>)
    requires AllValid(dtype, chunks) && InChunks(chunks, pairs)
    ensures |vs| == |pairs|
  {
    seq(|pairs|, k requires 0 <= k < |pairs| => chunks[pairs[k].0].Values(dtype)[pairs[k].1])
  }

  /** The chunks' values, chunk by chunk. */
  function PartsOf(dtype: DType, chunks: seq<Chunk>): (parts: seq<seq<Value>>)
    requires AllValid(dtype, chunks)
    ensures |parts| == |chunks| && forall c :: 0 <= c < |parts| ==> parts[c] == chunks[c].Values(dtype)
  {
    seq(|chunks|, c requires 0 <= c < |chunks| => chunks[c].Values(dtype))
  }

  function PartLengths<T>(parts: seq<seq<T>>): (lengths: seq<nat>)
    ensures |lengths| == |parts|
  {
    seq(|parts|, c requires 0 <= c < |parts| => |parts[c]|)
  }

  lemma {:induction false} FlattenJoins(dtype: DType, chunks: seq<Chunk>)
    requires AllValid(dtype, chunks)
    ensures Flatten(dtype, chunks) == Join(PartsOf(dtype, chunks))
    decreases |chunks|
  {
    if chunks != [] {
      FlattenJoins(dtype, chunks[1..]);
      assert PartsOf(dtype, chunks)[1..] == PartsOf(dtype, chunks[1..]);
    }
  }

  /** Locating a global position finds the part and the place in it where the joined parts have it. */
  lemma {:induction false} LocateInParts<T>(parts: seq<seq<T>>, i: nat)
    ensures match Locate(PartLengths(parts), i)
            case None => i >= |Join(parts)|
            case Some((c, l)) =>
              && i < |Join(parts)| && c < |parts| && l < |parts[c]|
              && Join(parts)[i] == parts[c][l]
    decreases |parts|
  {
    if parts != [] {
      assert PartLengths(parts)[1..] == PartLengths(parts[1..]);
      if i >= |parts[0]| {
        LocateInParts(parts[1..], i - |parts[0]|);
      }
    }
  }

  lemma LocateFindsValue(dtype: DType, chunks: seq<Chunk>, i: nat)
    requires AllValid(dtype, chunks)
    ensures match Locate(Lengths(chunks), i)
            case None => i >= |Flatten(dtype, chunks)|
            case Some((c, l)) =>
              && i < |Flatten(dtype, chunks)| && c < |chunks| && l < chunks[c].RowCount()
              && Flatten(dtype, chunks)[i] == chunks[c].Values(dtype)[l]
  {
    FlattenJoins(dtype, chunks);
    LocateInParts(PartsOf(dtype, chunks), i);
    assert PartLengths(PartsOf(dtype, chunks)) == Lengths(chunks);
  }

  lemma PickPairsAppend(dtype: DType, chunks: seq<Chunk>, a: seq<(nat, nat)>, b: seq<(nat, nat)>)
    requires AllValid(dtype, chunks) && InChunks(chunks, a) && InChunks(chunks, b)
    ensures InChunks(chunks, a + b)
    ensures PickPairs(dtype, chunks, a + b) == PickPairs(dtype, chunks, a) + PickPairs(dtype, chunks, b)
  {
  }

  lemma GatherAppend<T>(vs: seq<T>, a: seq<nat>, b: seq<nat>)
    requires forall k :: 0 <= k < |a| ==> a[k] < |vs|
    requires forall k :: 0 <= k < |b| ==> b[k] < |vs|
    ensures Gather(vs, a + b) == Gather(vs, a) + Gather(vs, b)
  {
  }

  /** Located pairs pick exactly the in-range elements of the contiguous column, in input order. */
  lemma {:induction false} LocateAllGathers(dtype: DType, chunks: seq<Chunk>, indices: seq<nat>)
    requires AllValid(dtype, chunks)
    ensures InChunks(chunks, LocateAll(Lengths(chunks), indices))
    ensures PickPairs(dtype, chunks, LocateAll(Lengths(chunks), indices))
            == Gather(Flatten(dtype, chunks), Below(indices, |Flatten(dtype, chunks)|))
    decreases |indices|
  {
    if indices != [] {
      var all := Flatten(dtype, chunks);
      LocateFindsValue(dtype, chunks, indices[0]);
      LocateAllGathers(dtype, chunks, indices[1..]);
      var rest, kept := LocateAll(Lengths(chunks), indices[1..]), Below(indices[1..], |all|);
      var p := Locate(Lengths(chunks), indices[0]);
      if p.Some? {
        PickPairsAppend(dtype, chunks, [p.value], rest);
        GatherAppend(all, [indices[0]], kept);
        assert PickPairs(dtype, chunks, [p.value]) == [all[indices[0]]] == Gather(all, [indices[0]]);
      } else {
        assert [] + rest == rest && [] + kept == kept;
      }
    }
  }

  /** One group's rows of one chunk. */
  function TakeGroup(dtype: DType, chunk: Chunk, locals: seq<nat>): (taken: Chunk)
    requires chunk.Valid(dtype)
    requires forall k :: 0 <= k < |locals| ==> locals[k] < chunk.RowCount()
  {
    match chunk
    case Owned(values) => assert chunk.RowCount() == |values|; Owned(Gather(values, locals))
    case Mapped(column, rows) => Mapped(column, rows.TakeLocal(locals))
  }

  lemma TakeGroupGathers(dtype: DType, chunk: Chunk, locals: seq<nat>)
    requires chunk.Valid(dtype)
    requires forall k :: 0 <= k < |locals| ==> locals[k] < chunk.RowCount()
    ensures TakeGroup(dtype, chunk, locals).Valid(dtype)
    ensures TakeGroup(dtype, chunk, locals).Values(dtype) == Gather(chunk.Values(dtype), locals)
  {
    if chunk.Mapped? {
      TakeLocalComposes(chunk.rows, locals);
      var taken := chunk.rows.TakeLocal(locals);
      assert taken.Rows() == Gather(chunk.rows.Rows(), locals);
      assert |taken.Rows()| == |locals|;
    }
  }

  /** `take_f64_chunks` and its two siblings: indexing the contiguous column, for any index list. */
  method TakeChunks(dtype: DType, chunks: seq<Chunk>, indices: seq<nat>) returns (output: seq<Chunk>)
    requires AllValid(dtype, chunks)
    requires Total(Lengths(chunks)) < TWO_64
    ensures AllValid(dtype, output)
    ensures Flatten(dtype, output) == Gather(Flatten(dtype, chunks), Below(indices, |Flatten(dtype, chunks)|))
  {
    var groups := GroupIndicesByChunk(indices, Lengths(chunks));
    LocateAllGathers(dtype, chunks, indices);
    output := [];
    for g := 0 to |groups|
      invariant AllValid(dtype, output)
      invariant InChunks(chunks, Expand(groups[..g]))
      invariant Flatten(dtype, output) == PickPairs(dtype, chunks, Expand(groups[..g]))
    {
      var (chunk, locals) := groups[g];
      GroupInChunks(chunks, groups, g);
      var taken := TakeGroup(dtype, chunks[chunk], locals);
      GroupPicks(dtype, chunks, groups[g], taken);
      FlattenAppend(dtype, output, [taken]);
      FlattenOne(dtype, taken);
      PickPairsAppend(dtype, chunks, Expand(groups[..g]), ExpandOne(groups[g]));
      output := output + [taken];
    }
    assert groups[..|groups|] == groups;
  }

  lemma GroupPicks(dtype: DType, chunks: seq<Chunk>, group: Group, taken: Chunk)
    requires AllValid(dtype, chunks) && group.0 < |chunks| && InChunks(chunks, ExpandOne(group))
    requires forall k :: 0 <= k < |group.1| ==> group.1[k] < chunks[group.0].RowCount()
    requires taken == TakeGroup(dtype, chunks[group.0], group.1)
    ensures taken.Valid(dtype) && taken.Values(dtype) == PickPairs(dtype, chunks, ExpandOne(group))
  {
    TakeGroupGathers(dtype, chunks[group.0], group.1);
  }

  lemma GroupInChunks(chunks: seq<Chunk>, groups: seq<Group>, g: nat)
    requires g < |groups| && Coarsest(groups) && InChunks(chunks, Expand(groups))
    ensures Expand(groups[..g + 1]) == Expand(groups[..g]) + ExpandOne(groups[g])
    ensures InChunks(chunks, Expand(groups[..g + 1])) && InChunks(chunks, ExpandOne(groups[g]))
    ensures groups[g].0 < |chunks|
    ensures forall k :: 0 <= k < |groups[g].1| ==> groups[g].1[k] < chunks[groups[g].0].RowCount()
  {
    assert groups[..g + 1] == groups[..g] + [groups[g]];
    ExpandAppend(groups[..g], [groups[g]]);
    ExpandSingle(groups[g]);
    assert groups == groups[..g + 1] + groups[g + 1..];
    ExpandAppend(groups[..g + 1], groups[g + 1..]);
    var all, upTo, here := Expand(groups), Expand(groups[..g + 1]), ExpandOne(groups[g]);
    assert forall k :: 0 <= k < |upTo| ==> upTo[k] == all[k];
    var before := |Expand(groups[..g])|;
    assert forall k :: 0 <= k < |here| ==> here[k] == upTo[before + k];
    assert here[0] == (groups[g].0, groups[g].1[0]);
    forall k | 0 <= k < |groups[g].1|
      ensures groups[g].1[k] < chunks[groups[g].0].RowCount()
    {
      assert here[k] == (groups[g].0, groups[g].1[k]);
    }
  }
}
