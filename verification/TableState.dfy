/** What the disk and the memory of a table stand for: a history of appended batches. */
module TableState {
  import opened Wrappers
  import opened Bytes
  import opened Batch
  import opened Segment
  import opened Rows
  import opened Storage
  import opened Framing
  import opened TableRuns
  import opened Compaction

  predicate Present(d: Disk, refs: seq<SegmentRef>) {
    forall i :: 0 <= i < |refs| ==> refs[i].id in d.dirs && d.dirs[refs[i].id].meta.Some?
  }

  /** The listed segments as they are loaded. */
  function HandlesOf(d: Disk, refs: seq<SegmentRef>): (hs: seq<Handle>)
    requires Present(d, refs)
    ensures |hs| == |refs|
  {
    seq(|refs|, i requires 0 <= i < |refs| => Handle(refs[i].id, d.dirs[refs[i].id].meta.value))
  }

  /** The listed directories are the same. */
  ghost predicate SameDirs(d: Disk, e: Disk, refs: seq<SegmentRef>) {
    forall i :: 0 <= i < |refs| && refs[i].id in d.dirs ==>
      refs[i].id in e.dirs && e.dirs[refs[i].id] == d.dirs[refs[i].id]
  }

  ghost predicate DistinctRefs(refs: seq<SegmentRef>) {
    forall i, j :: 0 <= i < j < |refs| ==> refs[i].id != refs[j].id
  }

  /** The manifest entry repeats the segment's metadata. */
  predicate Describes(ref: SegmentRef, meta: SegmentMeta) {
    ref.id == meta.id && ref.rowCount == meta.rowCount && ref.minTs == meta.minTs && ref.maxTs == meta.maxTs
  }

  /** How directories and log records are read: which directories are complete, what rows they hold,
      and which record was written for which batch. */
  datatype Reading = Reading(
    format: Format,
    sound: Dir -> bool,
    rows: Dir -> seq<Row>,
    wrote: (WalRecord, RowBatch) -> bool) {

    /** The log holds one record for each batch of the history, in order, and nothing else. */
    ghost predicate Logged(log: seq<byte>, records: seq<WalRecord>, history: seq<RowBatch>) {
      && AllEncodable(records) && log == format.LogOf(records)
      && |records| == |history| && AllRectangular(history)
      && forall i :: 0 <= i < |records| ==> wrote(records[i], history[i])
    }

    ghost predicate InPlace(d: Disk, id: u64) {
      && id in d.dirs && d.dirs[id].meta.Some?
      && d.dirs[id].meta.value.id == id
      && sound(d.dirs[id])
    }

    ghost predicate AllInPlace(d: Disk, refs: seq<SegmentRef>) {
      forall i :: 0 <= i < |refs| ==> InPlace(d, refs[i].id) && Describes(refs[i], d.dirs[refs[i].id].meta.value)
    }

    /** Only distinct ids below the next one, each with its directory in place and described as it is. */
    ghost predicate ManifestOk(d: Disk, m: Manifest) {
      && 1 <= m.nextId
      && (forall i :: 0 <= i < |m.sealed| ==> m.sealed[i].id < m.nextId)
      && DistinctRefs(m.sealed)
      && AllInPlace(d, m.sealed)
    }

    ghost function RowsOn(d: Disk): Handle -> seq<Row> {
      (h: Handle) => rows(Dir(FilesOf(d, h.dir), Some(h.meta)))
    }

    ghost function ListedRows(d: Disk, refs: seq<SegmentRef>): seq<Row>
      requires Present(d, refs)
    {
      Concat(HandlesOf(d, refs), RowsOn(d))
    }

    /** The listed segments hold the rows of the history's applied part, as a bag. */
    ghost predicate HoldsApplied(d: Disk, m: Manifest, history: seq<RowBatch>) {
      && Present(d, m.sealed) && m.applied <= |history| && AllRectangular(history)
      && multiset(ListedRows(d, m.sealed)) == multiset(AllRows(history[..m.applied]))
    }

    /** The log's applied part is durable. */
    ghost predicate AppliedIsDurable(d: Disk, applied: nat, records: seq<WalRecord>) {
      && applied <= |records| && AllEncodable(records)
      && |format.LogOf(records[..applied])| <= d.synced <= |d.log|
    }

    /** The disk stands for `history`. */
    ghost predicate DiskOk(d: Disk, records: seq<WalRecord>, history: seq<RowBatch>) {
      && Logged(d.log, records, history)
      && ManifestOk(d, d.CurrentManifest())
      && HoldsApplied(d, d.CurrentManifest(), history)
      && AppliedIsDurable(d, d.CurrentManifest().applied, records)
    }

    // ----- frames -----

    lemma SameDirsSameRows(d: Disk, e: Disk, refs: seq<SegmentRef>)
      requires Present(d, refs) && SameDirs(d, e, refs)
      ensures Present(e, refs) && HandlesOf(e, refs) == HandlesOf(d, refs)
      ensures ListedRows(e, refs) == ListedRows(d, refs)
    {
      var hs := HandlesOf(d, refs);
      assert HandlesOf(e, refs) == hs;
      forall i | 0 <= i < |hs|
        ensures RowsOn(d)(hs[i]) == RowsOn(e)(hs[i])
      {
        assert hs[i].dir == refs[i].id && FilesOf(d, refs[i].id) == FilesOf(e, refs[i].id);
      }
      ConcatSame(hs, RowsOn(d), RowsOn(e));
    }

    lemma ManifestFrame(d: Disk, e: Disk, m: Manifest)
      requires ManifestOk(d, m) && SameDirs(d, e, m.sealed)
      ensures Present(d, m.sealed) && ManifestOk(e, m)
    {
      forall i | 0 <= i < |m.sealed|
        ensures InPlace(d, m.sealed[i].id) && InPlace(e, m.sealed[i].id)
        ensures Describes(m.sealed[i], e.dirs[m.sealed[i].id].meta.value)
      {
      }
    }

    /** Steps outside the listed directories that lose no log byte keep what the disk stands for. */
    lemma DiskFrame(d: Disk, e: Disk, records: seq<WalRecord>, history: seq<RowBatch>)
      requires DiskOk(d, records, history)
      requires e.CurrentManifest() == d.CurrentManifest() && e.log == d.log && d.synced <= e.synced <= |e.log|
      requires SameDirs(d, e, d.CurrentManifest().sealed)
      ensures DiskOk(e, records, history)
    {
      ManifestFrame(d, e, d.CurrentManifest());
      SameDirsSameRows(d, e, d.CurrentManifest().sealed);
    }

    /** The reader finds exactly the records of the history. */
    lemma LoggedReads(log: seq<byte>, records: seq<WalRecord>, history: seq<RowBatch>)
      requires Logged(log, records, history)
      ensures format.ReadLog(log) == Ok(records)
    {
      assert log[|format.LogOf(records)|..] == [];
      format.ReadLogIff(log, records);
    }

    lemma PrefixLogged(log: seq<byte>, records: seq<WalRecord>, history: seq<RowBatch>, k: nat)
      requires Logged(log, records, history) && k <= |records|
      ensures Logged(format.LogOf(records[..k]), records[..k], history[..k])
    {
    }
  }

  /** A directory that is not listed is free to change. */
  lemma OtherDirIsFree(d: Disk, e: Disk, id: u64, refs: seq<SegmentRef>)
    requires OnlyDir(d, e, id)
    requires forall i :: 0 <= i < |refs| ==> refs[i].id != id
    ensures SameDirs(d, e, refs)
  {
  }

  // ----- memory -----

  /** The segments in memory are those listed on disk. */
  ghost predicate SealedAgree(d: Disk, m: Memory) {
    && d.manifest == Some(m.manifest)
    && Present(d, m.manifest.sealed)
    && m.sealed == HandlesOf(d, m.manifest.sealed)
  }

  /** The active rows are those of the history's unapplied part. */
  ghost predicate ActiveOk(schema: Schema, active: RowBatch, applied: nat, history: seq<RowBatch>) {
    && BuilderValid(schema, active) && Rectangular(active)
    && applied <= |history| && AllRectangular(history)
    && RowsOf(active) == AllRows(history[applied..])
  }

  ghost predicate MemoryOk(schema: Schema, d: Disk, m: Memory, history: seq<RowBatch>) {
    SealedAgree(d, m) && ActiveOk(schema, m.active, m.manifest.applied, history)
  }

  lemma SealedFrame(d: Disk, e: Disk, m: Memory)
    requires SealedAgree(d, m) && e.manifest == d.manifest && SameDirs(d, e, m.manifest.sealed)
    ensures SealedAgree(e, m)
  {
    assert HandlesOf(e, m.manifest.sealed) == HandlesOf(d, m.manifest.sealed);
  }

  // ----- histories -----

  lemma HistoryParts(history: seq<RowBatch>, k: nat)
    requires AllRectangular(history) && k <= |history|
    ensures AllRows(history) == AllRows(history[..k]) + AllRows(history[k..])
  {
    assert history == history[..k] + history[k..];
    AllRowsAppend(history[..k], history[k..]);
  }

  lemma HistoryGrows(history: seq<RowBatch>, b: RowBatch)
    requires AllRectangular(history) && Rectangular(b)
    ensures AllRectangular(history + [b])
    ensures AllRows(history + [b]) == AllRows(history) + RowsOf(b)
  {
    AllRowsAppend(history, [b]);
    AllRowsOne(b);
  }

  // ----- lengths of logs -----

  lemma {:induction false} LogTakesBytes(f: Format, records: seq<WalRecord>)
    requires AllEncodable(records)
    ensures |f.LogOf(records)| >= |records|
    decreases |records|
  {
    if records != [] {
      LogTakesBytes(f, records[1..]);
    }
  }

  lemma PrefixIsShorter(f: Format, records: seq<WalRecord>, i: nat, j: nat)
    requires AllEncodable(records) && i <= j <= |records|
    ensures |f.LogOf(records[..j])| >= |f.LogOf(records[..i])| + (j - i)
  {
    assert records[..j] == records[..i] + records[i..j];
    f.LogOfAppend(records[..i], records[i..j]);
    LogTakesBytes(f, records[i..j]);
  }

  /** Longer record prefixes take more bytes, so byte lengths order the prefixes. */
  lemma LogLengths(f: Format, records: seq<WalRecord>, i: nat, j: nat)
    requires AllEncodable(records) && i <= |records| && j <= |records|
    ensures |f.LogOf(records[..i])| <= |f.LogOf(records[..j])| <==> i <= j
  {
    if i <= j {
      PrefixIsShorter(f, records, i, j);
    } else {
      PrefixIsShorter(f, records, j, i);
    }
  }
}
