/** Compressed row selections over a mapped column. */
module Selection {
  import opened Wrappers
  import opened Batch

  datatype RowSelection = All(len: nat) | Range(start: nat, len: nat) | Indices(rows: seq<nat>) {

    function Len(): nat {
      match this
      case All(len) => len
      case Range(_, len) => len
      case Indices(rows) => |rows|
    }

    function IndexAt(i: nat): Option<nat> {
      match this
      case All(len) => if i < len then Some(i) else None
      case Range(start, len) => if i < len then Some(start + i) else None
      case Indices(rows) => if i < |rows| then Some(rows[i]) else None
    }

    predicate IsIdentity() {
      All?
    }

    /** The rows selected, in order: what iterating the selection yields. */
    function Rows(): (rows: seq<nat>)
      ensures |rows| == Len()
      ensures forall i :: 0 <= i < Len() ==> IndexAt(i) == Some(rows[i])
    {
      seq(Len(), i requires 0 <= i < Len() => IndexAt(i).value)
    }

    /** `take_local_indices`; positions past the end are skipped. */
    function TakeLocal(locals: seq<nat>): RowSelection {
      FromIndices(Located(locals), Len())
    }

    function Located(locals: seq<nat>): seq<nat> {
      if locals == [] then []
      else (match IndexAt(locals[0]) case Some(row) => [row] case None => []) + Located(locals[1..])
    }

    lemma {:induction false} LocatedIsGathered(locals: seq<nat>)
      ensures Located(locals) == Gather(Rows(), Below(locals, Len()))
      decreases |locals|
    {
      if locals != [] {
        LocatedIsGathered(locals[1..]);
      }
    }
  }

  /** 0, 1, ..., n - 1 */
  function Iota(n: nat): (s: seq<nat>)
    ensures |s| == n && forall i :: 0 <= i < n ==> s[i] == i
  {
    seq(n, i => i)
  }

  predicate Consecutive(indices: seq<nat>) {
    forall k :: 0 <= k < |indices| ==> indices[k] == indices[0] + k
  }

  /** `RowSelection::from_indices` */
  function FromIndices(indices: seq<nat>, totalRows: nat): RowSelection {
    if |indices| == totalRows && forall k :: 0 <= k < |indices| ==> indices[k] == k then
      All(totalRows)
    else if indices == [] then
      Range(0, 0)
    else if var rest := indices[1..]; forall k :: 0 <= k < |rest| ==> rest[k] == indices[0] + k + 1 then
      Range(indices[0], |indices|)
    else
      Indices(indices)
  }

  /** The positions below n, in order. */
  function Below(indices: seq<nat>, n: nat): (kept: seq<nat>)
    ensures forall k :: 0 <= k < |kept| ==> kept[k] < n
    ensures (forall k :: 0 <= k < |indices| ==> indices[k] < n) ==> kept == indices
  {
    if indices == [] then []
    else (if indices[0] < n then [indices[0]] else []) + Below(indices[1..], n)
  }

  /** Whichever form is chosen, it selects exactly the given rows; `All` exactly for the whole
      column, an explicit list only when no contiguous form would do. */
  lemma FromIndicesDenotes(indices: seq<nat>, totalRows: nat)
    ensures var s := FromIndices(indices, totalRows);
            && s.Rows() == indices
            && (s.All? <==> indices == Iota(totalRows))
            && (s.Indices? <==> !Consecutive(indices))
  {
    var s := FromIndices(indices, totalRows);
    if indices != [] {
      var rest := indices[1..];
      if s.Range? {
        assert forall k :: 1 <= k < |indices| ==> indices[k] == rest[k - 1];
        assert s.Rows() == indices;
      }
      if Consecutive(indices) {
        assert forall k :: 0 <= k < |rest| ==> rest[k] == indices[k + 1];
      }
    }
  }

  /** Taking positions of a selection composes with it. */
  lemma TakeLocalComposes(s: RowSelection, locals: seq<nat>)
    ensures s.TakeLocal(locals).Rows() == Gather(s.Rows(), Below(locals, s.Len()))
  {
    s.LocatedIsGathered(locals);
    FromIndicesDenotes(s.Located(locals), s.Len());
  }
}
