/** Compaction keeps what disk and memory stand for, in every state it passes through. */
module CompactSteps {
  import opened Wrappers
  import opened Bytes
  import opened Batch
  import opened Segment
  import opened Rows
  import opened Storage
  import opened Sealing
  import opened Framing
  import opened TableRuns
  import opened Compaction
  import opened TableState
  import opened TableSteps

  // ----- handles -----

  /** A loaded segment whose directory is in place. */
  ghost predicate HandleOk(reading: Reading, d: Disk, h: Handle) {
    h.dir == h.meta.id && reading.InPlace(d, h.dir) && d.dirs[h.dir].meta == Some(h.meta)
  }

  ghost predicate AllHandlesOk(reading: Reading, d: Disk, hs: seq<Handle>) {
    forall i :: 0 <= i < |hs| ==> HandleOk(reading, d, hs[i])
  }

  ghost predicate DistinctIds(hs: seq<Handle>) {
    forall i, j :: 0 <= i < j < |hs| ==> hs[i].meta.id != hs[j].meta.id
  }

  ghost predicate IdsBelow(hs: seq<Handle>, n: nat) {
    forall i :: 0 <= i < |hs| ==> hs[i].meta.id < n
  }

  lemma ListedHandles(reading: Reading, d: Disk, m: Memory)
    requires SealedAgree(d, m) && reading.ManifestOk(d, m.manifest)
    ensures AllHandlesOk(reading, d, m.sealed) && DistinctIds(m.sealed) && IdsBelow(m.sealed, m.manifest.nextId)
  {
    var refs := m.manifest.sealed;
    forall i | 0 <= i < |refs|
      ensures reading.InPlace(d, refs[i].id) && m.sealed[i] == Handle(refs[i].id, d.dirs[refs[i].id].meta.value)
    {
    }
  }

  /** Good handles listed by reference load back as themselves. */
  lemma RefsLoadBack(reading: Reading, d: Disk, hs: seq<Handle>, applied: nat, nextId: u64)
    requires AllHandlesOk(reading, d, hs) && DistinctIds(hs) && IdsBelow(hs, nextId) && 1 <= nextId
    ensures Present(d, RefsOf(hs)) && HandlesOf(d, RefsOf(hs)) == hs
    ensures reading.ManifestOk(d, Manifest(applied, nextId, RefsOf(hs)))
  {
    var refs := RefsOf(hs);
    forall i | 0 <= i < |refs|
      ensures refs[i].id == hs[i].dir && reading.InPlace(d, refs[i].id)
      ensures Describes(refs[i], d.dirs[refs[i].id].meta.value)
      ensures Handle(refs[i].id, d.dirs[refs[i].id].meta.value) == hs[i]
    {
      assert HandleOk(reading, d, hs[i]);
    }
  }

  lemma HandlesMoved(reading: Reading, d: Disk, e: Disk, hs: seq<Handle>, id: u64)
    requires AllHandlesOk(reading, d, hs) && OnlyDir(d, e, id) && IdsBelow(hs, id)
    ensures AllHandlesOk(reading, e, hs)
    ensures Concat(hs, reading.RowsOn(e)) == Concat(hs, reading.RowsOn(d))
  {
    forall i | 0 <= i < |hs|
      ensures HandleOk(reading, e, hs[i]) && reading.RowsOn(e)(hs[i]) == reading.RowsOn(d)(hs[i])
    {
      assert HandleOk(reading, d, hs[i]);
      assert FilesOf(e, hs[i].dir) == FilesOf(d, hs[i].dir);
    }
    ConcatSame(hs, reading.RowsOn(e), reading.RowsOn(d));
  }

  /** The new list: old unselected handles and the replacement, ids still distinct. */
  lemma {:induction false} ReplacedHandles(sealed: seq<Handle>, selected: set<u64>, replacement: Option<Handle>,
                                           id: u64)
    requires DistinctIds(sealed) && IdsBelow(sealed, id)
    requires replacement.Some? ==> replacement.value.meta.id == id
    ensures var hs := Replaced(sealed, selected, replacement);
            && DistinctIds(hs)
            && forall i :: 0 <= i < |hs| ==>
                 Some(hs[i]) == replacement || (hs[i] in sealed && hs[i].meta.id !in selected)
    decreases |sealed|
  {
    if sealed != [] {
      var rest := sealed[1..];
      if sealed[0].meta.id !in selected {
        ReplacedHandles(rest, selected, replacement, id);
        NewHead(sealed, Replaced(rest, selected, replacement), replacement);
      } else {
        ReplacedHandles(rest, selected, None, id);
      }
    }
  }

  lemma NewHead(sealed: seq<Handle>, hs: seq<Handle>, replacement: Option<Handle>)
    requires sealed != [] && DistinctIds(sealed) && DistinctIds(hs)
    requires replacement.Some? ==> sealed[0].meta.id != replacement.value.meta.id
    requires forall i :: 0 <= i < |hs| ==> Some(hs[i]) == replacement || hs[i] in sealed[1..]
    ensures DistinctIds([sealed[0]] + hs)
  {
    forall i | 0 <= i < |hs|
      ensures hs[i].meta.id != sealed[0].meta.id
    {
      if hs[i] in sealed[1..] {
        var j :| 0 <= j < |sealed[1..]| && sealed[1..][j] == hs[i];
        assert sealed[j + 1] == hs[i];
      }
    }
  }

  // ----- reading the selected segments -----

  lemma HandleReads(reading: Reading, schema: Schema, d: Disk, h: Handle) returns (b: RowBatch)
    requires schema.Valid() && ReadsAs(reading, schema) && HandleOk(reading, d, h)
    ensures Contents(schema, h.meta, FilesOf(d, h.dir)) == Ok(b)
    ensures BuilderValid(schema, b) && Rectangular(b) && b.rowCount > 0 && AllNamesOk(schema.columns)
    ensures reading.RowsOn(d)(h) == RowsOf(b)
  {
    var dir := d.dirs[h.dir];
    b :| Reads(reading, schema, dir, b);
    assert Dir(FilesOf(d, h.dir), Some(h.meta)) == dir;
  }

  /** The combined batch holds the chosen segments' rows, in manifest order. */
  lemma {:induction false} CombinedRows(reading: Reading, schema: Schema, d: Disk, sealed: seq<Handle>,
          selected: set<u64>, soFar: RowBatch)
    returns (b: RowBatch)
    requires schema.Valid() && ReadsAs(reading, schema) && AllHandlesOk(reading, d, sealed)
    requires BuilderValid(schema, soFar) && Rectangular(soFar)
    requires soFar.rowCount + |Concat(Chosen(sealed, selected), reading.RowsOn(d))| < TWO_64
    ensures Combine(schema, d, sealed, selected, soFar) == Ok(b)
    ensures BuilderValid(schema, b) && Rectangular(b)
    ensures RowsOf(b) == RowsOf(soFar) + Concat(Chosen(sealed, selected), reading.RowsOn(d))
    decreases |sealed|
  {
    if sealed == [] {
      b := soFar;
      assert RowsOf(soFar) + [] == RowsOf(soFar);
    } else {
      var rest, rows := sealed[1..], reading.RowsOn(d);
      HeadRows(sealed, selected, rows);
      if sealed[0].meta.id !in selected {
        b := CombinedRows(reading, schema, d, rest, selected, soFar);
      } else {
        assert HandleOk(reading, d, sealed[0]);
        var next := HandleReads(reading, schema, d, sealed[0]);
        AppendBatchRows(schema, soFar, next);
        var grown := AppendBatch(soFar, next).0;
        BuilderValidIsRectangular(schema, grown);
        b := CombinedRows(reading, schema, d, rest, selected, grown);
        Assoc(RowsOf(soFar), RowsOf(next), Concat(Chosen(rest, selected), rows));
      }
    }
  }

  /** The selected segments hold no more rows than all of them. */
  lemma ChosenAreFew(sealed: seq<Handle>, selected: set<u64>, rows: Handle -> seq<Row>)
    ensures |Concat(Chosen(sealed, selected), rows)| <= |Concat(sealed, rows)|
  {
    ChosenAndKeptRows(sealed, selected, rows);
    var c, k, s := Concat(Chosen(sealed, selected), rows), Concat(Kept(sealed, selected), rows), Concat(sealed, rows);
    assert |multiset(c) + multiset(k)| == |multiset(s)|;
  }

  // ----- removing the old directories -----

  /** Nothing but directories among `dirs` is gone. */
  ghost predicate OnlyLoses(d: Disk, e: Disk, dirs: seq<u64>) {
    && e.manifest == d.manifest && e.log == d.log && e.synced == d.synced
    && forall k :: k !in dirs ==> (k in e.dirs <==> k in d.dirs) && (k in d.dirs ==> e.dirs[k] == d.dirs[k])
  }

  lemma {:induction false} RemovalsLose(d: Disk, dirs: seq<u64>)
    ensures forall i :: 0 <= i < |RemoveDirs(d, dirs)| ==> OnlyLoses(d, RemoveDirs(d, dirs)[i], dirs)
    decreases |dirs|
  {
    if dirs != [] {
      var next := if dirs[0] in d.dirs then d.WithoutDir(dirs[0]) else d;
      var states := RemoveDirs(next, dirs[1..]);
      RemovalsLose(next, dirs[1..]);
      forall i | 0 <= i < |states|
        ensures OnlyLoses(d, states[i], dirs)
      {
        assert OnlyLoses(next, states[i], dirs[1..]);
      }
      assert OnlyLoses(d, next, dirs);
    }
  }

  /** In the end every one of `dirs` is gone. */
  lemma {:induction false} RemovalsClear(d: Disk, dirs: seq<u64>)
    ensures Final(d, RemoveDirs(d, dirs)).dirs.Keys == d.dirs.Keys - set k | k in dirs
    decreases |dirs|
  {
    if dirs != [] {
      var next := if dirs[0] in d.dirs then d.WithoutDir(dirs[0]) else d;
      RemovalsClear(next, dirs[1..]);
      FinalAppend(d, if dirs[0] in d.dirs then [next] else [], RemoveDirs(next, dirs[1..]));
      HeadTail(dirs);
    }
  }

  lemma {:induction false} SelectedDirsAreSelected(reading: Reading, d: Disk, sealed: seq<Handle>, selected: set<u64>)
    requires AllHandlesOk(reading, d, sealed)
    ensures forall k :: k in SelectedDirs(sealed, selected) <==>
              k in selected && exists i :: 0 <= i < |sealed| && sealed[i].meta.id == k
    decreases |sealed|
  {
    if sealed != [] {
      var rest := sealed[1..];
      assert forall i :: 0 <= i < |rest| ==> rest[i] == sealed[i + 1];
      SelectedDirsAreSelected(reading, d, rest, selected);
      assert HandleOk(reading, d, sealed[0]);
      forall k | k in selected && exists i :: 0 <= i < |sealed| && sealed[i].meta.id == k
        ensures k in SelectedDirs(sealed, selected)
      {
        var i :| 0 <= i < |sealed| && sealed[i].meta.id == k;
        if i > 0 {
          assert rest[i - 1].meta.id == k;
        }
      }
    }
  }

  /** Once the new list is stored and the removals are done, the selected directories are gone, the
      replacement's is there, and no other has come or gone. */
  lemma DirsReplaced(reading: Reading, d: Disk, m: Memory, selected: set<u64>, e: Disk, r: Handle, listed: Disk)
    requires SealedAgree(d, m) && reading.ManifestOk(d, m.manifest) && selected <= IdsOf(m.sealed)
    requires ReplacementOk(reading, d, m, selected, e, r) && listed.dirs == e.dirs
    ensures Final(listed, RemoveDirs(listed, SelectedDirs(m.sealed, selected))).dirs.Keys
            == (d.dirs.Keys - selected) + {m.manifest.nextId}
  {
    var id, dirs := m.manifest.nextId, SelectedDirs(m.sealed, selected);
    ListedHandles(reading, d, m);
    SelectedDirsAreSelected(reading, d, m.sealed, selected);
    RemovalsClear(listed, dirs);
    assert (set k | k in dirs) == selected;
    assert id !in selected;
    assert e.dirs.Keys == d.dirs.Keys + {id};
  }

  // ----- listing the replacement -----

  /** A replacement whose directory is in place and holds the rows of the chosen segments. */
  ghost predicate ReplacementOk(reading: Reading, d: Disk, m: Memory, selected: set<u64>, e: Disk, r: Handle) {
    && OnlyDir(d, e, m.manifest.nextId)
    && r.meta.id == m.manifest.nextId && HandleOk(reading, e, r)
    && reading.rows(e.dirs[r.dir]) == Concat(Chosen(m.sealed, selected), reading.RowsOn(d))
  }

  /** No listed directory is among those removed. */
  ghost predicate Survive(hs: seq<Handle>, sealed: seq<Handle>, selected: set<u64>) {
    forall i :: 0 <= i < |hs| ==>
      hs[i].meta.id !in selected || forall j :: 0 <= j < |sealed| ==> sealed[j].meta.id != hs[i].meta.id
  }

  lemma NewListOk(reading: Reading, d: Disk, m: Memory, selected: set<u64>, e: Disk, r: Handle)
    requires SealedAgree(d, m) && reading.ManifestOk(d, m.manifest) && m.manifest.nextId + 1 < TWO_64
    requires ReplacementOk(reading, d, m, selected, e, r)
    ensures var hs := Replaced(m.sealed, selected, Some(r));
            && AllHandlesOk(reading, e, hs) && DistinctIds(hs) && IdsBelow(hs, m.manifest.nextId + 1)
            && Survive(hs, m.sealed, selected)
  {
    var id, hs := m.manifest.nextId, Replaced(m.sealed, selected, Some(r));
    ListedHandles(reading, d, m);
    HandlesMoved(reading, d, e, m.sealed, id);
    ReplacedHandles(m.sealed, selected, Some(r), id);
    forall i | 0 <= i < |hs|
      ensures HandleOk(reading, e, hs[i]) && hs[i].meta.id < id + 1
    {
      if hs[i] != r {
        var j :| 0 <= j < |m.sealed| && m.sealed[j] == hs[i];
        assert HandleOk(reading, e, m.sealed[j]);
      }
    }
  }

  lemma NewListRows(reading: Reading, d: Disk, m: Memory, selected: set<u64>, e: Disk, r: Handle)
    requires SealedAgree(d, m) && reading.ManifestOk(d, m.manifest)
    requires ReplacementOk(reading, d, m, selected, e, r)
    requires exists i :: 0 <= i < |m.sealed| && m.sealed[i].meta.id in selected
    ensures var hs := Replaced(m.sealed, selected, Some(r));
            && multiset(Concat(hs, reading.RowsOn(e))) == multiset(Concat(m.sealed, reading.RowsOn(d)))
            && Concat(hs, reading.RowsOn(e)) == Concat(SourceOrder(m.sealed, selected), reading.RowsOn(d))
  {
    var sealed := m.sealed;
    ListedHandles(reading, d, m);
    KeptMembers(sealed, selected);
    SomeHandlesMoved(reading, d, e, sealed, Chosen(sealed, selected), m.manifest.nextId);
    SourceMembers(sealed, selected);
    SomeHandlesMoved(reading, d, e, sealed, SourceOrder(sealed, selected), m.manifest.nextId);
    assert Dir(FilesOf(e, r.dir), Some(r.meta)) == e.dirs[r.dir];
    ReplacedRows(sealed, selected, r, reading.RowsOn(e));
    SourceRows(sealed, selected, reading.RowsOn(d));
  }

  lemma SomeHandlesMoved(reading: Reading, d: Disk, e: Disk, all: seq<Handle>, some: seq<Handle>, id: u64)
    requires AllHandlesOk(reading, d, all) && OnlyDir(d, e, id) && IdsBelow(all, id)
    requires forall i :: 0 <= i < |some| ==> some[i] in all
    ensures Concat(some, reading.RowsOn(e)) == Concat(some, reading.RowsOn(d))
  {
    HandlesMoved(reading, d, e, some, id);
  }

  /** The disk once the new list is stored. */
  lemma CompactedDisk(reading: Reading, d: Disk, m: Memory, selected: set<u64>, e: Disk, r: Handle,
                      records: seq<WalRecord>, history: seq<RowBatch>)
    requires reading.DiskOk(d, records, history) && SealedAgree(d, m) && m.manifest.nextId + 1 < TWO_64
    requires ReplacementOk(reading, d, m, selected, e, r)
    requires exists i :: 0 <= i < |m.sealed| && m.sealed[i].meta.id in selected
    ensures var hs := Replaced(m.sealed, selected, Some(r));
            var manifest := Manifest(m.manifest.applied, m.manifest.nextId + 1, RefsOf(hs));
            && reading.DiskOk(e.WithManifest(manifest), records, history)
            && SealedAgree(e.WithManifest(manifest), m.(manifest := manifest, sealed := hs))
            && Concat(hs, reading.RowsOn(e.WithManifest(manifest)))
              == Concat(SourceOrder(m.sealed, selected), reading.RowsOn(d))
  {
    var hs := Replaced(m.sealed, selected, Some(r));
    var manifest := Manifest(m.manifest.applied, m.manifest.nextId + 1, RefsOf(hs));
    var last := e.WithManifest(manifest);
    assert OnlyDir(d.WithManifest(manifest), last, m.manifest.nextId);
    NewListOk(reading, d, m, selected, e, r);
    NewListRows(reading, d, m, selected, e, r);
    assert AllHandlesOk(reading, last, hs) by {
      assert forall h :: HandleOk(reading, e, h) ==> HandleOk(reading, last, h);
    }
    RefsLoadBack(reading, last, hs, manifest.applied, manifest.nextId);
    SameRows(reading, e, last, hs);
  }

  lemma SameRows(reading: Reading, d: Disk, e: Disk, hs: seq<Handle>)
    requires e.dirs == d.dirs
    ensures Concat(hs, reading.RowsOn(e)) == Concat(hs, reading.RowsOn(d))
  {
    forall i | 0 <= i < |hs|
      ensures reading.RowsOn(e)(hs[i]) == reading.RowsOn(d)(hs[i])
    {
      assert FilesOf(e, hs[i].dir) == FilesOf(d, hs[i].dir);
    }
    ConcatSame(hs, reading.RowsOn(e), reading.RowsOn(d));
  }

  /** Removing what was replaced touches no listed directory. */
  lemma RemovalsKeep(reading: Reading, d: Disk, sealed: seq<Handle>, selected: set<u64>, listed: Disk, m: Memory,
                     records: seq<WalRecord>, history: seq<RowBatch>)
    requires AllHandlesOk(reading, d, sealed)
    requires reading.DiskOk(listed, records, history) && SealedAgree(listed, m)
    requires Survive(m.sealed, sealed, selected)
    ensures var states := RemoveDirs(listed, SelectedDirs(sealed, selected));
            && AllDiskOk(reading, states, records, history)
            && SealedAgree(Final(listed, states), m)
            && Concat(m.sealed, reading.RowsOn(Final(listed, states))) == Concat(m.sealed, reading.RowsOn(listed))
  {
    var dirs := SelectedDirs(sealed, selected);
    var states := RemoveDirs(listed, dirs);
    RemovalsLose(listed, dirs);
    SelectedDirsAreSelected(reading, d, sealed, selected);
    ListedHandles(reading, listed, m);
    forall i | 0 <= i < |states|
      ensures reading.DiskOk(states[i], records, history) && SealedAgree(states[i], m)
      ensures Concat(m.sealed, reading.RowsOn(states[i])) == Concat(m.sealed, reading.RowsOn(listed))
    {
      UnselectedStay(reading, listed, m, states[i], dirs);
      reading.DiskFrame(listed, states[i], records, history);
      SealedFrame(listed, states[i], m);
      reading.SameDirsSameRows(listed, states[i], m.manifest.sealed);
    }
  }

  lemma UnselectedStay(reading: Reading, listed: Disk, m: Memory, s: Disk, dirs: seq<u64>)
    requires SealedAgree(listed, m) && AllHandlesOk(reading, listed, m.sealed) && OnlyLoses(listed, s, dirs)
    requires forall i :: 0 <= i < |m.sealed| ==> m.sealed[i].meta.id !in dirs
    ensures SameDirs(listed, s, m.manifest.sealed)
  {
    var refs := m.manifest.sealed;
    forall i | 0 <= i < |refs| && refs[i].id in listed.dirs
      ensures refs[i].id !in dirs
    {
      assert HandleOk(reading, listed, m.sealed[i]) && m.sealed[i].dir == refs[i].id;
    }
  }

  // ----- the whole compaction -----

  ghost predicate SomeSelected(sealed: seq<Handle>, selected: set<u64>) {
    exists i :: 0 <= i < |sealed| && sealed[i].meta.id in selected
  }

  lemma HandlesHoldRows(reading: Reading, schema: Schema, d: Disk, hs: seq<Handle>)
    requires schema.Valid() && ReadsAs(reading, schema) && AllHandlesOk(reading, d, hs)
    ensures hs != [] ==> AllNamesOk(schema.columns)
    ensures forall i :: 0 <= i < |hs| ==> reading.RowsOn(d)(hs[i]) != []
  {
    forall i | 0 <= i < |hs|
      ensures AllNamesOk(schema.columns) && reading.RowsOn(d)(hs[i]) != []
    {
      assert HandleOk(reading, d, hs[i]);
      var b := HandleReads(reading, schema, d, hs[i]);
    }
    if hs != [] {
      assert HandleOk(reading, d, hs[0]);
      var b := HandleReads(reading, schema, d, hs[0]);
    }
  }

  lemma {:induction false} ChosenHoldRows(sealed: seq<Handle>, selected: set<u64>, rows: Handle -> seq<Row>)
    requires forall i :: 0 <= i < |sealed| ==> rows(sealed[i]) != []
    requires SomeSelected(sealed, selected)
    ensures Concat(Chosen(sealed, selected), rows) != []
    decreases |sealed|
  {
    HeadRows(sealed, selected, rows);
    if sealed[0].meta.id !in selected {
      var i :| 0 <= i < |sealed| && sealed[i].meta.id in selected;
      assert sealed[1..][i - 1] == sealed[i];
      ChosenHoldRows(sealed[1..], selected, rows);
    }
  }

  /** Reading and combining the selected segments of a good disk never fails. */
  lemma SelectedCombine(reading: Reading, schema: Schema, d: Disk, m: Memory, selected: set<u64>,
                        records: seq<WalRecord>, history: seq<RowBatch>)
    returns (b: RowBatch)
    requires schema.Valid() && ReadsAs(reading, schema)
    requires reading.DiskOk(d, records, history) && SealedAgree(d, m)
    requires |AllRows(history)| < TWO_64 && SomeSelected(m.sealed, selected)
    ensures Combine(schema, d, m.sealed, selected, EmptyBatch(schema)) == Ok(b)
    ensures BuilderValid(schema, b) && Rectangular(b) && b.rowCount > 0 && AllNamesOk(schema.columns)
    ensures RowsOf(b) == Concat(Chosen(m.sealed, selected), reading.RowsOn(d))
  {
    var rows := reading.RowsOn(d);
    ListedHandles(reading, d, m);
    ChosenAreFew(m.sealed, selected, rows);
    HistoryParts(history, m.manifest.applied);
    assert |multiset(Concat(m.sealed, rows))| == |multiset(AllRows(history[..m.manifest.applied]))|;
    BuilderValidIsRectangular(schema, EmptyBatch(schema));
    EmptyBatchRows(schema);
    b := CombinedRows(reading, schema, d, m.sealed, selected, EmptyBatch(schema));
    HandlesHoldRows(reading, schema, d, m.sealed);
    ChosenHoldRows(m.sealed, selected, rows);
  }

  lemma ListReplacedParts(d: Disk, m: Memory, selected: set<u64>, seal: SegmentSeal)
    requires seal.result.Ok? && m.manifest.nextId + 1 < TWO_64
    ensures var id, e := m.manifest.nextId, Final(d, seal.states);
            var hs := Replaced(m.sealed, selected, Some(Handle(id, seal.result.value)));
            var manifest := Manifest(m.manifest.applied, id + 1, RefsOf(hs));
            var listed := e.WithManifest(manifest);
            var removals := RemoveDirs(listed, SelectedDirs(m.sealed, selected));
            var run := ListReplaced(d, m, selected, seal);
            && run.states == seal.states + [listed] + removals
            && Final(d, run.states) == Final(listed, removals)
            && run.memory == m.(manifest := manifest, sealed := hs)
            && run.failure.None?
  {
  }

  /** What a compaction of `selected` leaves: the memory agrees with the disk, the active rows and the
      count of applied records are the old ones, and the sealed rows are those of the old segments in
      their new order: the unselected in their places, all the selected at the first selected one. */
  ghost predicate Compacted(reading: Reading, d: Disk, m: Memory, selected: set<u64>, e: Disk, after: Memory) {
    && SealedAgree(e, after)
    && after == m.(manifest := after.manifest, sealed := after.sealed)
    && after.manifest.applied == m.manifest.applied
    && Concat(after.sealed, reading.RowsOn(e)) == Concat(SourceOrder(m.sealed, selected), reading.RowsOn(d))
  }

  /** The directories of `selected` are gone, the next one is there, and no other has come or gone. */
  ghost predicate DirsMoved(d: Disk, m: Memory, selected: set<u64>, e: Disk) {
    e.dirs.Keys == (d.dirs.Keys - selected) + {m.manifest.nextId}
  }

  /** Storing the new list, and each removal after it, keeps the disk. */
  lemma ReplacementKeeps(reading: Reading, d: Disk, m: Memory, selected: set<u64>, e: Disk, r: Handle, after: Memory,
                         listed: Disk, records: seq<WalRecord>, history: seq<RowBatch>)
    requires reading.DiskOk(d, records, history) && SealedAgree(d, m) && m.manifest.nextId + 1 < TWO_64
    requires ReplacementOk(reading, d, m, selected, e, r)
    requires SomeSelected(m.sealed, selected) && selected <= IdsOf(m.sealed)
    requires after.sealed == Replaced(m.sealed, selected, Some(r))
    requires after.manifest == Manifest(m.manifest.applied, m.manifest.nextId + 1, RefsOf(after.sealed))
    requires after == m.(manifest := after.manifest, sealed := after.sealed)
    requires listed == e.WithManifest(after.manifest)
    ensures var removals := RemoveDirs(listed, SelectedDirs(m.sealed, selected));
            && reading.DiskOk(listed, records, history)
            && AllDiskOk(reading, removals, records, history)
            && Compacted(reading, d, m, selected, Final(listed, removals), after)
            && DirsMoved(d, m, selected, Final(listed, removals))
  {
    DirsReplaced(reading, d, m, selected, e, r, listed);
    ListedHandles(reading, d, m);
    CompactedDisk(reading, d, m, selected, e, r, records, history);
    assert SealedAgree(listed, after);
    NewListOk(reading, d, m, selected, e, r);
    RemovalsKeep(reading, d, m.sealed, selected, listed, after, records, history);
  }

  /** The states before the new list is stored, that state, and those after it. */
  lemma ThreeParts(reading: Reading, a: seq<Disk>, listed: Disk, b: seq<Disk>, records: seq<WalRecord>,
                   history: seq<RowBatch>)
    requires AllDiskOk(reading, a, records, history) && AllDiskOk(reading, b, records, history)
    requires reading.DiskOk(listed, records, history)
    ensures AllDiskOk(reading, a + [listed] + b, records, history)
  {
    AllDiskOkAppend(reading, a, [listed], records, history);
    AllDiskOkAppend(reading, a + [listed], b, records, history);
  }

  /** The run once the replacement is written. */
  lemma ListReplacedKeeps(reading: Reading, d: Disk, m: Memory, selected: set<u64>, seal: SegmentSeal,
                          records: seq<WalRecord>, history: seq<RowBatch>)
    requires reading.DiskOk(d, records, history) && SealedAgree(d, m)
    requires AllDiskOk(reading, seal.states, records, history)
    requires seal.result.Ok? && m.manifest.nextId + 1 < TWO_64
    requires ReplacementOk(reading, d, m, selected, Final(d, seal.states), Handle(m.manifest.nextId, seal.result.value))
    requires SomeSelected(m.sealed, selected) && selected <= IdsOf(m.sealed)
    ensures var run := ListReplaced(d, m, selected, seal);
            && AllDiskOk(reading, run.states, records, history)
            && Compacted(reading, d, m, selected, Final(d, run.states), run.memory)
            && DirsMoved(d, m, selected, Final(d, run.states))
            && run.memory.manifest.nextId == m.manifest.nextId + 1
            && run.failure.None?
  {
    var e, r := Final(d, seal.states), Handle(m.manifest.nextId, seal.result.value);
    var after := ListReplaced(d, m, selected, seal).memory;
    ListReplacedParts(d, m, selected, seal);
    var listed := e.WithManifest(after.manifest);
    ReplacementKeeps(reading, d, m, selected, e, r, after, listed, records, history);
    ThreeParts(reading, seal.states, listed, RemoveDirs(listed, SelectedDirs(m.sealed, selected)), records, history);
  }

  /** Compacting from the combined batch on. */
  lemma CompactIntoKeeps(reading: Reading, schema: Schema, d: Disk, m: Memory, selected: set<u64>, b: RowBatch,
                         records: seq<WalRecord>, history: seq<RowBatch>)
    requires schema.Valid() && SealsAs(reading, schema)
    requires reading.DiskOk(d, records, history) && SealedAgree(d, m)
    requires BuilderValid(schema, b) && Rectangular(b) && b.rowCount > 0 && AllNamesOk(schema.columns)
    requires RowsOf(b) == Concat(Chosen(m.sealed, selected), reading.RowsOn(d))
    requires SomeSelected(m.sealed, selected) && selected <= IdsOf(m.sealed)
    ensures var run := CompactInto(schema, d, m, selected, b);
            && AllDiskOk(reading, run.states, records, history)
            && SealedAgree(Final(d, run.states), run.memory)
            && if m.manifest.nextId + 1 >= TWO_64 then
                 run.memory == m && run.failure == Some(SegmentIdOverflow)
               else
                 && run.failure.None? && run.memory.manifest.nextId == m.manifest.nextId + 1
                 && Compacted(reading, d, m, selected, Final(d, run.states), run.memory)
                 && DirsMoved(d, m, selected, Final(d, run.states))
  {
    var id := m.manifest.nextId;
    var seal := SealRun(d, schema, id, b);
    SealKeeps(reading, schema, d, m, b, records, history);
    SealedIff(d, schema, id, b);
    SealedReads(reading, schema, Final(d, seal.states), id, b);
    if id + 1 < TWO_64 {
      assert ReplacementOk(reading, d, m, selected, Final(d, seal.states), Handle(id, seal.result.value));
      ListReplacedKeeps(reading, d, m, selected, seal, records, history);
    }
  }

  /** How a compaction ends: with nothing done when nothing is asked for or an id is unknown, with the
      old memory when the ids are used up, and otherwise with the selected segments replaced by the
      next one, in the list, among the directories and, row by row, in the order `Compacted` says. */
  ghost predicate CompactEnds(reading: Reading, d: Disk, m: Memory, ids: seq<u64>, run: Outcome) {
    var selected := set id | id in ids;
    if ids == [] then
      run == Outcome([], m, None)
    else if !(selected <= IdsOf(m.sealed)) then
      run == Outcome([], m, Some(UnknownSegments(selected - IdsOf(m.sealed))))
    else if m.manifest.nextId + 1 >= TWO_64 then
      run.memory == m && run.failure == Some(SegmentIdOverflow)
    else
      && run.failure.None? && run.memory.manifest.nextId == m.manifest.nextId + 1
      && Compacted(reading, d, m, selected, Final(d, run.states), run.memory)
      && DirsMoved(d, m, selected, Final(d, run.states))
  }

  /** Compaction keeps what disk and memory stand for in every state, and ends as it should. */
  lemma CompactKeeps(reading: Reading, schema: Schema, d: Disk, m: Memory, ids: seq<u64>,
                     records: seq<WalRecord>, history: seq<RowBatch>)
    requires schema.Valid() && SealsAs(reading, schema) && ReadsAs(reading, schema)
    requires reading.DiskOk(d, records, history) && MemoryOk(schema, d, m, history) && |AllRows(history)| < TWO_64
    ensures var selected, run := Requested(ids), CompactRun(schema, d, m, ids);
            && AllDiskOk(reading, run.states, records, history)
            && MemoryOk(schema, Final(d, run.states), run.memory, history)
            && (run.failure.None? <==> ids == [] || (selected <= IdsOf(m.sealed) && m.manifest.nextId + 1 < TWO_64))
            && (run.failure.None? ==> Compacted(reading, d, m, selected, Final(d, run.states), run.memory))
            && CompactEnds(reading, d, m, ids, run)
  {
    var selected := Requested(ids);
    if ids != [] && selected - IdsOf(m.sealed) == {} {
      KnownIsSelected(m.sealed, ids);
      var b := SelectedCombine(reading, schema, d, m, selected, records, history);
      CompactIntoKeeps(reading, schema, d, m, selected, b, records, history);
    } else if ids == [] {
      NoneSelected(m.sealed, selected);
    } else {
      assert !(selected <= IdsOf(m.sealed));
    }
  }

  /** The rows on disk keep their order when no unselected segment stands between selected ones. */
  lemma AdjacentKeepsOrder(reading: Reading, d: Disk, m: Memory, selected: set<u64>, e: Disk, after: Memory)
    requires Compacted(reading, d, m, selected, e, after) && Adjacent(m.sealed, selected)
    ensures Concat(after.sealed, reading.RowsOn(e)) == Concat(m.sealed, reading.RowsOn(d))
  {
    OrderKeptIff(m.sealed, selected);
  }

  lemma KnownIsSelected(sealed: seq<Handle>, ids: seq<u64>)
    requires ids != [] && Requested(ids) - IdsOf(sealed) == {}
    ensures SomeSelected(sealed, Requested(ids))
    ensures Requested(ids) <= IdsOf(sealed)
  {
    forall id | id in Requested(ids)
      ensures id in IdsOf(sealed)
    {
      assert id !in Requested(ids) - IdsOf(sealed);
    }
    assert ids[0] in Requested(ids);
  }
}
