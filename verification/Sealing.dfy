/** Sealing a batch into a segment directory, step by step. */
module Sealing {
  import opened Wrappers
  import opened Bytes
  import opened Batch
  import opened Segment
  import opened Storage

  /** The states left by the steps of a sealing, and its result. */
  datatype Seal<+R> = Seal(states: seq<Disk>, result: R)

  type SegmentSeal = Seal<Result<SegmentMeta, SegmentError>>

  /** States already left behind, in front of the rest. */
  function Behind<R>(states: seq<Disk>, rest: Seal<R>): Seal<R> {
    Seal(states + rest.states, rest.result)
  }

  lemma BehindTwice<R>(a: seq<Disk>, b: seq<Disk>, rest: Seal<R>)
    ensures Behind(a, Behind(b, rest)) == Behind(a + b, rest)
  {
    Assoc(a, b, rest.states);
  }

  /** The column files in schema order, up to the first that cannot be written. */
  function SealColumns(d: Disk, id: u64, defs: seq<ColumnDef>, b: RowBatch): (seal: Seal<Option<SegmentError>>)
    requires id in d.dirs
    ensures id in Final(d, seal.states).dirs
    decreases |defs|
  {
    if defs == [] then
      Seal([], None)
    else if !FileNameOk(defs[0].name) then
      Seal([], Some(BadFileName(defs[0].name)))
    else
      var data := FindColumn(b.columns, defs[0].name);
      if data.None? then
        Seal([], Some(MissingSegmentColumn(defs[0].name)))
      else if !WidthsMatch(data.value) then
        Seal([], Some(WrongStringWidth(defs[0].name)))
      else
        var next := d.WithFile(id, defs[0].name, ColumnBytes(data.value.values));
        var rest := SealColumns(next, id, defs[1..], b);
        FinalAppend(d, [next], rest.states);
        Behind([next], rest)
  }

  /** `seal_batch` */
  function SealRun(d: Disk, schema: Schema, id: u64, b: RowBatch): (seal: SegmentSeal)
    requires schema.Valid()
  {
    var d1 := d.WithDir(id);
    var name := schema.columns[schema.timestamp].name;
    var timestamps := FindColumn(b.columns, name);
    if timestamps.None? || timestamps.value.dtype != Timestamp then
      Seal([d1], Err(MissingSegmentColumn(name)))
    else
      var columns := SealColumns(d1, id, schema.columns, b);
      if columns.result.Some? then
        Seal([d1] + columns.states, Err(columns.result.value))
      else
        var ts := Timestamps(timestamps.value.values);
        var meta := SegmentMeta(id, b.rowCount, MinOf(ts), MaxOf(ts), schema.columns);
        Seal([d1] + columns.states + [Final(d1, columns.states).WithMeta(id, meta)], Ok(meta))
  }

  /** The loop over the columns. */
  method WriteColumns(volume: Volume, id: u64, defs: seq<ColumnDef>, b: RowBatch)
    returns (failure: Option<SegmentError>)
    requires id in volume.disk.dirs
    modifies volume
    ensures var seal := SealColumns(old(volume.disk), id, defs, b);
            && failure == seal.result
            && volume.trace == old(volume.trace) + seal.states
            && volume.disk == Final(old(volume.disk), seal.states)
  {
    ghost var d, whole := volume.disk, SealColumns(volume.disk, id, defs, b);
    ghost var states: seq<Disk> := [];
    assert defs[0..] == defs;
    assert [] + whole.states == whole.states;
    assert volume.trace + [] == volume.trace;
    for k := 0 to |defs|
      invariant id in volume.disk.dirs
      invariant volume.disk == Final(d, states) && volume.trace == old(volume.trace) + states
      invariant whole == Behind(states, SealColumns(volume.disk, id, defs[k..], b))
    {
      assert defs[k..][0] == defs[k] && defs[k..][1..] == defs[k + 1..];
      failure := WriteColumn(volume, id, defs[k], b, defs[k..]);
      if failure.Some? {
        assert states + [] == states;
        return;
      }
      BehindTwice(states, [volume.disk], SealColumns(volume.disk, id, defs[k + 1..], b));
      Assoc(old(volume.trace), states, [volume.disk]);
      states := states + [volume.disk];
    }
    assert states + [] == states;
    return None;
  }

  /** The loop's body: one column's file is written, or the failure ends the loop. */
  method WriteColumn(volume: Volume, id: u64, def: ColumnDef, b: RowBatch, ghost left: seq<ColumnDef>)
    returns (failure: Option<SegmentError>)
    requires id in volume.disk.dirs && left != [] && left[0] == def
    modifies volume
    ensures failure.Some? ==>
              && volume.disk == old(volume.disk) && volume.trace == old(volume.trace)
              && SealColumns(old(volume.disk), id, left, b) == Seal([], failure)
    ensures failure.None? ==>
              && id in volume.disk.dirs && volume.trace == old(volume.trace) + [volume.disk]
              && SealColumns(old(volume.disk), id, left, b)
                 == Behind([volume.disk], SealColumns(volume.disk, id, left[1..], b))
  {
    var name := def.name;
    if !FileNameOk(name) {
      return Some(BadFileName(name));
    }
    var data := FindColumn(b.columns, name);
    if data.None? {
      return Some(MissingSegmentColumn(name));
    }
    var file := ColumnFile(name, data.value);
    if file.Err? {
      return Some(file.error);
    }
    volume.WriteFile(id, name, file.value);
    return None;
  }

  method SealBatch(volume: Volume, schema: Schema, id: u64, b: RowBatch)
    returns (res: Result<SegmentMeta, SegmentError>)
    requires schema.Valid()
    modifies volume
    ensures var seal := SealRun(old(volume.disk), schema, id, b);
            && res == seal.result
            && volume.trace == old(volume.trace) + seal.states
            && volume.disk == Final(old(volume.disk), seal.states)
  {
    var name := schema.columns[schema.timestamp].name;
    volume.CreateDir(id);
    ghost var d1 := volume.disk;
    var timestamps := FindColumn(b.columns, name);
    if timestamps.None? || timestamps.value.dtype != Timestamp {
      return Err(MissingSegmentColumn(name));
    }
    var ts := Timestamps(timestamps.value.values);
    var minTs, maxTs := MinOf(ts), MaxOf(ts);
    var failure := WriteColumns(volume, id, schema.columns, b);
    ghost var states := SealColumns(d1, id, schema.columns, b).states;
    Assoc(old(volume.trace), [d1], states);
    FinalAppend(old(volume.disk), [d1], states);
    if failure.Some? {
      return Err(failure.value);
    }
    var meta := SegmentMeta(id, b.rowCount, minTs, maxTs, schema.columns);
    volume.WriteMeta(id, meta);
    Assoc(old(volume.trace), [d1] + states, [volume.disk]);
    return Ok(meta);
  }

  // ----- what a sealing leaves behind -----

  predicate AllNamesOk(defs: seq<ColumnDef>) {
    forall i :: 0 <= i < |defs| ==> FileNameOk(defs[i].name)
  }

  /** Every state differs from the first only in the directory being written. */
  ghost predicate AllOnlyDir(d: Disk, states: seq<Disk>, id: u64) {
    forall i :: 0 <= i < |states| ==> OnlyDir(d, states[i], id)
  }

  lemma StepsTouchOneDir(before: Disk, d: Disk, id: u64, name: Name, bytes: seq<byte>, meta: SegmentMeta)
    requires OnlyDir(before, d, id)
    ensures OnlyDir(before, d.WithDir(id), id)
    ensures id in d.dirs ==>
              OnlyDir(before, d.WithFile(id, name, bytes), id) && OnlyDir(before, d.WithMeta(id, meta), id)
  {
  }

  lemma AllOnlyDirAppend(before: Disk, a: seq<Disk>, b: seq<Disk>, id: u64)
    requires AllOnlyDir(before, a, id) && AllOnlyDir(before, b, id)
    ensures AllOnlyDir(before, a + b, id)
  {
  }

  lemma {:induction false} ColumnsTouchOneDir(d: Disk, id: u64, defs: seq<ColumnDef>, b: RowBatch, before: Disk,
                                              meta: SegmentMeta)
    requires id in d.dirs && OnlyDir(before, d, id)
    ensures AllOnlyDir(before, SealColumns(d, id, defs, b).states, id)
    decreases |defs|
  {
    if defs != [] && FindColumn(b.columns, defs[0].name).Some? {
      var bytes := ColumnBytes(FindColumn(b.columns, defs[0].name).value.values);
      StepsTouchOneDir(before, d, id, defs[0].name, bytes, meta);
      var next := d.WithFile(id, defs[0].name, bytes);
      ColumnsTouchOneDir(next, id, defs[1..], b, before, meta);
      AllOnlyDirAppend(before, [next], SealColumns(next, id, defs[1..], b).states, id);
    }
  }

  /** However it ends, sealing segment `id` writes nothing outside that segment's directory. */
  lemma SealTouchesOneDir(d: Disk, schema: Schema, id: u64, b: RowBatch)
    requires schema.Valid()
    ensures AllOnlyDir(d, SealRun(d, schema, id, b).states, id)
  {
    var seal, d1 := SealRun(d, schema, id, b), d.WithDir(id);
    var columns := SealColumns(d1, id, schema.columns, b);
    var meta := if seal.result.Ok? then seal.result.value else SegmentMeta(id, 0, None, None, []);
    StepsTouchOneDir(d, d, id, [], [], meta);
    ColumnsTouchOneDir(d1, id, schema.columns, b, d, meta);
    StepsTouchOneDir(d, Final(d1, columns.states), id, [], [], meta);
    AllOnlyDirAppend(d, [d1], columns.states, id);
    AllOnlyDirAppend(d, [d1] + columns.states, [Final(d1, columns.states).WithMeta(id, meta)], id);
  }

  /** A column the loop can write. */
  predicate Sealable(def: ColumnDef, b: RowBatch) {
    var data := FindColumn(b.columns, def.name);
    FileNameOk(def.name) && data.Some? && WidthsMatch(data.value)
  }

  predicate FileWritten(dir: Dir, def: ColumnDef, b: RowBatch) {
    && Sealable(def, b)
    && def.name in dir.files
    && dir.files[def.name] == ColumnBytes(FindColumn(b.columns, def.name).value.values)
  }

  predicate FilesWritten(dir: Dir, defs: seq<ColumnDef>, b: RowBatch) {
    forall i :: 0 <= i < |defs| ==> FileWritten(dir, defs[i], b)
  }

  lemma OneMoreFile(dir: Dir, done: seq<ColumnDef>, def: ColumnDef, b: RowBatch)
    requires FilesWritten(dir, done, b) && Sealable(def, b)
    ensures var bytes := ColumnBytes(FindColumn(b.columns, def.name).value.values);
            FilesWritten(dir.(files := dir.files[def.name := bytes]), done + [def], b)
  {
  }

  /** The column loop succeeds exactly when every column can be written; then every file is in place. */
  lemma {:induction false} ColumnsSealedIff(d: Disk, id: u64, defs: seq<ColumnDef>, b: RowBatch, done: seq<ColumnDef>)
    requires id in d.dirs && FilesWritten(d.dirs[id], done, b)
    ensures SealColumns(d, id, defs, b).result.None? <==> forall i :: 0 <= i < |defs| ==> Sealable(defs[i], b)
    ensures SealColumns(d, id, defs, b).result.None? ==>
              FilesWritten(Final(d, SealColumns(d, id, defs, b).states).dirs[id], done + defs, b)
    decreases |defs|
  {
    if defs == [] {
      assert done + defs == done;
    } else if Sealable(defs[0], b) {
      var next := d.WithFile(id, defs[0].name, ColumnBytes(FindColumn(b.columns, defs[0].name).value.values));
      var rest := SealColumns(next, id, defs[1..], b);
      OneMoreFile(d.dirs[id], done, defs[0], b);
      ColumnsSealedIff(next, id, defs[1..], b, done + [defs[0]]);
      FinalAppend(d, [next], rest.states);
      Assoc(done, [defs[0]], defs[1..]);
      HeadTail(defs);
      assert forall i :: 1 <= i < |defs| ==> defs[i] == defs[1..][i - 1];
    }
  }

  lemma SealableIff(schema: Schema, b: RowBatch)
    requires schema.Valid() && BuilderValid(schema, b)
    ensures forall i :: 0 <= i < |schema.columns| ==>
              && FindColumn(b.columns, schema.columns[i].name) == Some(b.columns[i].data)
              && (Sealable(schema.columns[i], b) <==> FileNameOk(schema.columns[i].name))
  {
    forall i | 0 <= i < |schema.columns|
      ensures FindColumn(b.columns, schema.columns[i].name) == Some(b.columns[i].data)
    {
      FindInShaped(schema, b, i);
    }
  }

  /** What the run does on a builder-valid batch. */
  lemma SealRunParts(d: Disk, schema: Schema, id: u64, b: RowBatch)
    requires schema.Valid() && BuilderValid(schema, b)
    ensures id in d.WithDir(id).dirs
    ensures var d1 := d.WithDir(id);
            var columns := SealColumns(d1, id, schema.columns, b);
            var last := Final(d1, columns.states);
            match columns.result
            case Some(error) => SealRun(d, schema, id, b).result == Err(error)
            case None =>
              && SealRun(d, schema, id, b).result == Ok(MetaOf(schema, id, b))
              && Final(d, SealRun(d, schema, id, b).states) == last.WithMeta(id, MetaOf(schema, id, b))
  {
    FindInShaped(schema, b, schema.timestamp);
  }

  lemma FilesMakeIntact(schema: Schema, id: u64, b: RowBatch, dir: Dir)
    requires schema.Valid() && BuilderValid(schema, b)
    requires FilesWritten(dir, schema.columns, b) && dir.meta == Some(MetaOf(schema, id, b))
    ensures Intact(schema, id, b, dir)
  {
    SealableIff(schema, b);
    assert forall i :: 0 <= i < |b.columns| ==> FileWritten(dir, schema.columns[i], b);
  }

  /** Sealing a builder-valid batch succeeds exactly when every column name can be a file name, and
      then leaves an intact directory, whatever an earlier crash had left in it. */
  lemma SealedIff(d: Disk, schema: Schema, id: u64, b: RowBatch)
    requires schema.Valid() && BuilderValid(schema, b)
    ensures SealRun(d, schema, id, b).result.Ok? <==> AllNamesOk(schema.columns)
    ensures AllNamesOk(schema.columns) ==>
              && SealRun(d, schema, id, b).result == Ok(MetaOf(schema, id, b))
              && id in Final(d, SealRun(d, schema, id, b).states).dirs
              && Intact(schema, id, b, Final(d, SealRun(d, schema, id, b).states).dirs[id])
  {
    var d1, last := d.WithDir(id), Final(d, SealRun(d, schema, id, b).states);
    var columns := SealColumns(d1, id, schema.columns, b);
    SealRunParts(d, schema, id, b);
    ColumnsOfSchemaIff(d1, schema, id, b);
    if columns.result.None? {
      var written := Final(d1, columns.states).dirs[id];
      assert last.dirs[id] == written.(meta := Some(MetaOf(schema, id, b)));
      assert FilesWritten(last.dirs[id], schema.columns, b);
      FilesMakeIntact(schema, id, b, last.dirs[id]);
    }
  }

  lemma ColumnsOfSchemaIff(d: Disk, schema: Schema, id: u64, b: RowBatch)
    requires schema.Valid() && BuilderValid(schema, b) && id in d.dirs
    ensures var columns := SealColumns(d, id, schema.columns, b);
            && (columns.result.None? <==> AllNamesOk(schema.columns))
            && (columns.result.None? ==> FilesWritten(Final(d, columns.states).dirs[id], schema.columns, b))
  {
    SealableIff(schema, b);
    ColumnsSealedIff(d, id, schema.columns, b, []);
    assert [] + schema.columns == schema.columns;
  }

  // ----- the steps, one by one -----

  /** A directory in the making: the old metadata, and the files of `done`. */
  ghost predicate InTheMaking(d: Disk, id: u64, meta: Option<SegmentMeta>, done: seq<ColumnDef>, b: RowBatch) {
    id in d.dirs && d.dirs[id].meta == meta && FilesWritten(d.dirs[id], done, b)
  }

  /** The first k columns are written in schema order and nothing else is; the next one, if there is one
      and its name is no file name, ends the loop. */
  lemma {:induction false} ColumnSteps(d: Disk, id: u64, defs: seq<ColumnDef>, b: RowBatch, done: seq<ColumnDef>,
                                       k: nat)
    requires k <= |defs| && forall i :: 0 <= i < k ==> Sealable(defs[i], b)
    requires k < |defs| ==> !FileNameOk(defs[k].name)
    requires id in d.dirs && FilesWritten(d.dirs[id], done, b)
    ensures var seal := SealColumns(d, id, defs, b);
            && |seal.states| == k
            && seal.result == (if k < |defs| then Some(BadFileName(defs[k].name)) else None)
            && forall i :: 0 <= i < k ==> InTheMaking(seal.states[i], id, d.dirs[id].meta, done + defs[..i + 1], b)
    decreases k
  {
    if k > 0 {
      var next := d.WithFile(id, defs[0].name, ColumnBytes(FindColumn(b.columns, defs[0].name).value.values));
      var rest := SealColumns(next, id, defs[1..], b);
      assert Sealable(defs[0], b);
      OneMoreFile(d.dirs[id], done, defs[0], b);
      ColumnSteps(next, id, defs[1..], b, done + [defs[0]], k - 1);
      assert InTheMaking(next, id, d.dirs[id].meta, done + [defs[0]], b);
      StepsShift(next, rest.states, id, d.dirs[id].meta, done, defs, b, k);
    }
  }

  lemma StepsShift(next: Disk, states: seq<Disk>, id: u64, meta: Option<SegmentMeta>, done: seq<ColumnDef>,
                   defs: seq<ColumnDef>, b: RowBatch, k: nat)
    requires 0 < k <= |defs| && |states| == k - 1
    requires InTheMaking(next, id, meta, done + [defs[0]], b)
    requires forall i :: 0 <= i < k - 1 ==>
               InTheMaking(states[i], id, meta, (done + [defs[0]]) + defs[1..][..i + 1], b)
    ensures forall i :: 0 <= i < k ==> InTheMaking(([next] + states)[i], id, meta, done + defs[..i + 1], b)
  {
    forall i | 0 <= i < k
      ensures InTheMaking(([next] + states)[i], id, meta, done + defs[..i + 1], b)
    {
      PrefixShift(done, defs, i);
      if i > 0 {
        assert ([next] + states)[i] == states[i - 1];
        assert InTheMaking(states[i - 1], id, meta, (done + [defs[0]]) + defs[1..][..i - 1 + 1], b);
      }
    }
  }

  lemma PrefixShift<T>(done: seq<T>, defs: seq<T>, i: nat)
    requires i < |defs|
    ensures done + defs[..i + 1] == (done + [defs[0]]) + defs[1..][..i]
    ensures i == 0 ==> done + defs[..i + 1] == done + [defs[0]]
  {
  }

  lemma SealRunStates(d: Disk, schema: Schema, id: u64, b: RowBatch)
    requires schema.Valid() && BuilderValid(schema, b)
    ensures id in d.WithDir(id).dirs
    ensures var d1 := d.WithDir(id);
            var columns := SealColumns(d1, id, schema.columns, b);
            var meta := MetaOf(schema, id, b);
            SealRun(d, schema, id, b)
            == if columns.result.Some? then Seal([d1] + columns.states, Err(columns.result.value))
               else Seal([d1] + columns.states + [Final(d1, columns.states).WithMeta(id, meta)], Ok(meta))
  {
    FindInShaped(schema, b, schema.timestamp);
  }

  /** Sealing a builder-valid batch makes the directory, writes the columns in schema order, each whole,
      and the metadata last; a name that cannot be a file name ends it there, with an error naming it. */
  lemma SealSteps(d: Disk, schema: Schema, id: u64, b: RowBatch, k: nat)
    requires schema.Valid() && BuilderValid(schema, b) && k <= |schema.columns|
    requires forall i :: 0 <= i < k ==> FileNameOk(schema.columns[i].name)
    requires k < |schema.columns| ==> !FileNameOk(schema.columns[k].name)
    ensures var seal, before := SealRun(d, schema, id, b), if id in d.dirs then d.dirs[id].meta else None;
            && |seal.states| == (if k < |schema.columns| then k + 1 else k + 2)
            && (forall i :: 0 <= i <= k ==> InTheMaking(seal.states[i], id, before, schema.columns[..i], b))
            && (k < |schema.columns| ==> seal.result == Err(BadFileName(schema.columns[k].name)))
            && (k == |schema.columns| ==> seal.result == Ok(MetaOf(schema, id, b)))
  {
    var d1, before := d.WithDir(id), if id in d.dirs then d.dirs[id].meta else None;
    SealRunStates(d, schema, id, b);
    SealableIff(schema, b);
    ColumnSteps(d1, id, schema.columns, b, [], k);
    var seal, columns := SealRun(d, schema, id, b), SealColumns(d1, id, schema.columns, b);
    forall i | 0 <= i <= k
      ensures InTheMaking(seal.states[i], id, before, schema.columns[..i], b)
    {
      if i > 0 {
        assert seal.states[i] == columns.states[i - 1];
        assert InTheMaking(columns.states[i - 1], id, d1.dirs[id].meta, [] + schema.columns[..i], b);
        assert [] + schema.columns[..i] == schema.columns[..i];
      }
    }
  }
}
