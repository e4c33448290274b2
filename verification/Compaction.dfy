/** What compaction does to the list of segments and to the rows behind it. */
module Compaction {
  import opened Wrappers
  import opened Bytes
  import opened Batch
  import opened Segment
  import opened Rows
  import opened TableRuns

  // ----- rows behind a list of segments -----

  ghost function Concat(hs: seq<Handle>, rows: Handle -> seq<Row>): seq<Row> {
    if hs == [] then [] else rows(hs[0]) + Concat(hs[1..], rows)
  }

  lemma {:induction false} ConcatAppend(a: seq<Handle>, b: seq<Handle>, rows: Handle -> seq<Row>)
    ensures Concat(a + b, rows) == Concat(a, rows) + Concat(b, rows)
    decreases |a|
  {
    if a == [] {
      assert a + b == b;
    } else {
      assert (a + b)[1..] == a[1..] + b;
      ConcatAppend(a[1..], b, rows);
      Assoc(rows(a[0]), Concat(a[1..], rows), Concat(b, rows));
    }
  }

  lemma ConcatOne(h: Handle, rows: Handle -> seq<Row>)
    ensures Concat([h], rows) == rows(h)
  {
    assert [h][1..] == [] && rows(h) + [] == rows(h);
  }

  lemma {:induction false} ConcatSame(hs: seq<Handle>, p: Handle -> seq<Row>, q: Handle -> seq<Row>)
    requires forall i :: 0 <= i < |hs| ==> p(hs[i]) == q(hs[i])
    ensures Concat(hs, p) == Concat(hs, q)
    decreases |hs|
  {
    if hs != [] {
      ConcatSame(hs[1..], p, q);
    }
  }

  // ----- the segment list -----

  function Kept(sealed: seq<Handle>, selected: set<u64>): seq<Handle> {
    if sealed == [] then []
    else (if sealed[0].meta.id !in selected then [sealed[0]] else []) + Kept(sealed[1..], selected)
  }

  function Chosen(sealed: seq<Handle>, selected: set<u64>): seq<Handle> {
    if sealed == [] then []
    else (if sealed[0].meta.id in selected then [sealed[0]] else []) + Chosen(sealed[1..], selected)
  }

  lemma {:induction false} KeptMembers(sealed: seq<Handle>, selected: set<u64>)
    ensures forall i :: 0 <= i < |Kept(sealed, selected)| ==>
              Kept(sealed, selected)[i] in sealed && Kept(sealed, selected)[i].meta.id !in selected
    ensures forall i :: 0 <= i < |Chosen(sealed, selected)| ==>
              Chosen(sealed, selected)[i] in sealed && Chosen(sealed, selected)[i].meta.id in selected
    decreases |sealed|
  {
    if sealed != [] {
      KeptMembers(sealed[1..], selected);
    }
  }

  /** Without a replacement left to place, what remains is the unselected, in order. */
  lemma {:induction false} ReplacedByNothing(sealed: seq<Handle>, selected: set<u64>)
    ensures Replaced(sealed, selected, None) == Kept(sealed, selected)
    decreases |sealed|
  {
    if sealed != [] {
      ReplacedByNothing(sealed[1..], selected);
    }
  }

  /** The replacement stands exactly once, at the first selected place; before and after it stand
      exactly the unselected segments, in their old order. */
  lemma {:induction false} ReplacedParts(sealed: seq<Handle>, selected: set<u64>, r: Handle, at: nat)
    requires at < |sealed| && sealed[at].meta.id in selected
    requires forall i :: 0 <= i < at ==> sealed[i].meta.id !in selected
    ensures Replaced(sealed, selected, Some(r)) == sealed[..at] + ([r] + Kept(sealed[at + 1..], selected))
    ensures Kept(sealed, selected) == sealed[..at] + Kept(sealed[at + 1..], selected)
    decreases at
  {
    if at == 0 {
      ReplacedByNothing(sealed[1..], selected);
      assert sealed[..0] == [];
    } else {
      var rest := sealed[1..];
      ReplacedParts(rest, selected, r, at - 1);
      assert rest[at - 1 + 1..] == sealed[at + 1..];
      assert sealed[..at] == [sealed[0]] + rest[..at - 1];
      Assoc([sealed[0]], rest[..at - 1], [r] + Kept(sealed[at + 1..], selected));
      Assoc([sealed[0]], rest[..at - 1], Kept(sealed[at + 1..], selected));
    }
  }

  /** The old segments in the order their rows have after a compaction. */
  function SourceOrder(sealed: seq<Handle>, selected: set<u64>): seq<Handle> {
    if sealed == [] then []
    else if sealed[0].meta.id !in selected then [sealed[0]] + SourceOrder(sealed[1..], selected)
    else Chosen(sealed, selected) + Kept(sealed, selected)
  }

  lemma {:induction false} SourceMembers(sealed: seq<Handle>, selected: set<u64>)
    ensures forall i :: 0 <= i < |SourceOrder(sealed, selected)| ==> SourceOrder(sealed, selected)[i] in sealed
    decreases |sealed|
  {
    KeptMembers(sealed, selected);
    if sealed != [] && sealed[0].meta.id !in selected {
      SourceMembers(sealed[1..], selected);
    }
  }

  /** No unselected segment stands between two selected ones. */
  predicate Adjacent(sealed: seq<Handle>, selected: set<u64>) {
    forall i, j, k :: 0 <= i < j < k < |sealed| && sealed[i].meta.id in selected && sealed[k].meta.id in selected ==>
      sealed[j].meta.id in selected
  }

  lemma {:induction false} SelectedThenRest(sealed: seq<Handle>, selected: set<u64>)
    requires Adjacent(sealed, selected)
    requires sealed != [] && sealed[0].meta.id in selected
    ensures Chosen(sealed, selected) + Kept(sealed, selected) == sealed
    decreases |sealed|
  {
    var rest := sealed[1..];
    assert Adjacent(rest, selected);
    HeadTail(sealed);
    Assoc([sealed[0]], Chosen(rest, selected), Kept(rest, selected));
    if rest != [] && rest[0].meta.id in selected {
      SelectedThenRest(rest, selected);
    } else {
      assert forall k :: 0 <= k < |rest| ==> rest[k] == sealed[k + 1];
      NoneSelected(rest, selected);
    }
  }

  lemma {:induction false} NoneSelected(sealed: seq<Handle>, selected: set<u64>)
    requires forall i :: 0 <= i < |sealed| ==> sealed[i].meta.id !in selected
    ensures Chosen(sealed, selected) == [] && Kept(sealed, selected) == sealed
    ensures SourceOrder(sealed, selected) == sealed
    decreases |sealed|
  {
    if sealed != [] {
      NoneSelected(sealed[1..], selected);
      HeadTail(sealed);
    }
  }

  /** The rows keep their segments' order exactly when the selected segments are adjacent. */
  lemma {:induction false} OrderKeptIff(sealed: seq<Handle>, selected: set<u64>)
    ensures SourceOrder(sealed, selected) == sealed <==> Adjacent(sealed, selected)
    decreases |sealed|
  {
    if sealed == [] {
    } else if sealed[0].meta.id !in selected {
      var rest := sealed[1..];
      OrderKeptIff(rest, selected);
      HeadTail(sealed);
      AdjacentTail(sealed, selected);
      if SourceOrder(sealed, selected) == sealed {
        assert SourceOrder(rest, selected) == ([sealed[0]] + SourceOrder(rest, selected))[1..] == rest;
      }
    } else {
      var chosen, kept := Chosen(sealed, selected), Kept(sealed, selected);
      KeptMembers(sealed, selected);
      if Adjacent(sealed, selected) {
        SelectedThenRest(sealed, selected);
      }
      if chosen + kept == sealed {
        forall i, j, k | 0 <= i < j < k < |sealed| && sealed[i].meta.id in selected && sealed[k].meta.id in selected
          ensures sealed[j].meta.id in selected
        {
          assert sealed[j] == chosen[j];
        }
      }
    }
  }

  lemma AdjacentTail(sealed: seq<Handle>, selected: set<u64>)
    requires sealed != [] && sealed[0].meta.id !in selected
    ensures Adjacent(sealed, selected) <==> Adjacent(sealed[1..], selected)
  {
    var rest := sealed[1..];
    assert forall k :: 0 <= k < |rest| ==> rest[k] == sealed[k + 1];
    if Adjacent(rest, selected) {
      forall i, j, k | 0 <= i < j < k < |sealed| && sealed[i].meta.id in selected && sealed[k].meta.id in selected
        ensures sealed[j].meta.id in selected
      {
        assert rest[i - 1].meta.id in selected && rest[k - 1].meta.id in selected;
        assert rest[j - 1] == sealed[j];
      }
    }
  }

  // ----- rows -----

  lemma MoreOnEitherSide<T>(x: seq<T>, c: seq<T>, k: seq<T>, s: seq<T>)
    requires multiset(c) + multiset(k) == multiset(s)
    ensures multiset(x + c) + multiset(k) == multiset(x + s) == multiset(c) + multiset(x + k)
  {
  }

  lemma HeadRows(sealed: seq<Handle>, selected: set<u64>, rows: Handle -> seq<Row>)
    requires sealed != []
    ensures var x, rest := rows(sealed[0]), sealed[1..];
            var c, k := Concat(Chosen(rest, selected), rows), Concat(Kept(rest, selected), rows);
            if sealed[0].meta.id in selected then
              Concat(Chosen(sealed, selected), rows) == x + c && Concat(Kept(sealed, selected), rows) == k
            else
              Concat(Chosen(sealed, selected), rows) == c && Concat(Kept(sealed, selected), rows) == x + k
  {
    var h, chosen, kept := sealed[0], Chosen(sealed[1..], selected), Kept(sealed[1..], selected);
    assert ([h] + chosen)[1..] == chosen && ([h] + kept)[1..] == kept;
    assert [] + kept == kept && [] + chosen == chosen;
  }

  lemma {:induction false} ChosenAndKeptRows(sealed: seq<Handle>, selected: set<u64>, rows: Handle -> seq<Row>)
    ensures multiset(Concat(Chosen(sealed, selected), rows)) + multiset(Concat(Kept(sealed, selected), rows))
            == multiset(Concat(sealed, rows))
    decreases |sealed|
  {
    if sealed != [] {
      var rest := sealed[1..];
      ChosenAndKeptRows(rest, selected, rows);
      HeadRows(sealed, selected, rows);
      var chosen, kept := Concat(Chosen(rest, selected), rows), Concat(Kept(rest, selected), rows);
      MoreOnEitherSide(rows(sealed[0]), chosen, kept, Concat(rest, rows));
    }
  }

  /** With the selected rows behind the replacement, the new list has the rows of the old segments in
      `SourceOrder`. */
  lemma {:induction false} ReplacedRows(sealed: seq<Handle>, selected: set<u64>, r: Handle, rows: Handle -> seq<Row>)
    requires exists i :: 0 <= i < |sealed| && sealed[i].meta.id in selected
    requires rows(r) == Concat(Chosen(sealed, selected), rows)
    ensures Concat(Replaced(sealed, selected, Some(r)), rows) == Concat(SourceOrder(sealed, selected), rows)
    decreases |sealed|
  {
    var h, rest := sealed[0], sealed[1..];
    if h.meta.id !in selected {
      var i :| 0 <= i < |sealed| && sealed[i].meta.id in selected;
      assert rest[i - 1] == sealed[i];
      assert Chosen(sealed, selected) == Chosen(rest, selected);
      ReplacedRows(rest, selected, r, rows);
      assert ([h] + Replaced(rest, selected, Some(r)))[1..] == Replaced(rest, selected, Some(r));
      assert ([h] + SourceOrder(rest, selected))[1..] == SourceOrder(rest, selected);
    } else {
      ReplacedByNothing(rest, selected);
      assert Kept(sealed, selected) == Kept(rest, selected);
      assert ([r] + Kept(rest, selected))[1..] == Kept(rest, selected);
      ConcatAppend(Chosen(sealed, selected), Kept(sealed, selected), rows);
    }
  }

  lemma {:induction false} SourceRows(sealed: seq<Handle>, selected: set<u64>, rows: Handle -> seq<Row>)
    ensures multiset(Concat(SourceOrder(sealed, selected), rows)) == multiset(Concat(sealed, rows))
    decreases |sealed|
  {
    if sealed == [] {
    } else if sealed[0].meta.id !in selected {
      SourceRows(sealed[1..], selected, rows);
      assert ([sealed[0]] + SourceOrder(sealed[1..], selected))[1..] == SourceOrder(sealed[1..], selected);
    } else {
      ConcatAppend(Chosen(sealed, selected), Kept(sealed, selected), rows);
      ChosenAndKeptRows(sealed, selected, rows);
    }
  }

  /** Compaction keeps the rows as a bag for any selection, and as a sequence when the selected
      segments are adjacent. */
  lemma CompactionKeepsRows(sealed: seq<Handle>, selected: set<u64>, r: Handle, rows: Handle -> seq<Row>)
    requires exists i :: 0 <= i < |sealed| && sealed[i].meta.id in selected
    requires rows(r) == Concat(Chosen(sealed, selected), rows)
    ensures multiset(Concat(Replaced(sealed, selected, Some(r)), rows)) == multiset(Concat(sealed, rows))
    ensures Adjacent(sealed, selected) ==> Concat(Replaced(sealed, selected, Some(r)), rows) == Concat(sealed, rows)
  {
    ReplacedRows(sealed, selected, r, rows);
    SourceRows(sealed, selected, rows);
    OrderKeptIff(sealed, selected);
  }

  lemma ConcatTwo(a: Handle, b: Handle, rows: Handle -> seq<Row>)
    ensures Concat([a, b], rows) == rows(a) + rows(b)
  {
    assert [a, b][1..] == [b];
    ConcatOne(b, rows);
  }

  lemma ConcatThree(a: Handle, b: Handle, c: Handle, rows: Handle -> seq<Row>)
    ensures Concat([a, b, c], rows) == rows(a) + (rows(b) + rows(c))
  {
    assert [a, b, c][1..] == [b, c];
    ConcatTwo(b, c, rows);
  }

  lemma ReplaceOuterTwo(a: Handle, b: Handle, c: Handle, r: Handle)
    requires b.meta.id != a.meta.id && b.meta.id != c.meta.id
    ensures Replaced([a, b, c], {a.meta.id, c.meta.id}, Some(r)) == [r, b]
  {
    var selected := {a.meta.id, c.meta.id};
    assert [a, b, c][1..] == [b, c] && [b, c][1..] == [c] && [c][1..] == [];
    assert Replaced([c], selected, None) == [];
    assert Replaced([b, c], selected, None) == [b];
  }

  /** Compacting the outer two of three segments moves the third one's rows in front of the second's:
      the scan order changes unless those two happen to commute. */
  lemma OuterTwoOfThree(a: Handle, b: Handle, c: Handle, r: Handle, rows: Handle -> seq<Row>)
    requires b.meta.id != a.meta.id && b.meta.id != c.meta.id
    requires rows(r) == rows(a) + rows(c)
    ensures var compacted := Replaced([a, b, c], {a.meta.id, c.meta.id}, Some(r));
            && Concat(compacted, rows) == rows(a) + (rows(c) + rows(b))
            && (Concat(compacted, rows) == Concat([a, b, c], rows) <==> rows(c) + rows(b) == rows(b) + rows(c))
  {
    ReplaceOuterTwo(a, b, c, r);
    ConcatTwo(r, b, rows);
    ConcatThree(a, b, c, rows);
    Assoc(rows(a), rows(c), rows(b));
    SameTail(rows(a), rows(c) + rows(b), rows(b) + rows(c));
  }

  lemma SameTail<T>(a: seq<T>, x: seq<T>, y: seq<T>)
    ensures a + x == a + y <==> x == y
  {
    assert (a + x)[|a|..] == x && (a + y)[|a|..] == y;
  }
}
