/** The table directory on disk: segment directories, one manifest replaced atomically, and the log.
    Every change is one of a few atomic steps, and a crash can fall between any two of them. */
module Storage {
  import opened Wrappers
  import opened Bytes
  import opened Batch
  import opened Segment

  /** A manifest entry. Its path is a function of the id. */
  datatype SegmentRef = SegmentRef(id: u64, rowCount: u64, minTs: Option<i64>, maxTs: Option<i64>)

  datatype Manifest = Manifest(applied: nat, nextId: u64, sealed: seq<SegmentRef>)

  function FreshManifest(): Manifest {
    Manifest(0, 1, [])
  }

  function RefOf(meta: SegmentMeta): SegmentRef {
    SegmentRef(meta.id, meta.rowCount, meta.minTs, meta.maxTs)
  }

  /** `synced` is the length of the log prefix known to be durable. */
  datatype Disk = Disk(dirs: map<u64, Dir>, manifest: Option<Manifest>, log: seq<byte>, synced: nat) {

    /** `create_dir_all`: an existing directory keeps its files. */
    function WithDir(id: u64): Disk {
      if id in dirs then this else this.(dirs := dirs[id := Dir(map[], None)])
    }

    function WithFile(id: u64, name: Name, bytes: seq<byte>): Disk
      requires id in dirs
    {
      this.(dirs := dirs[id := dirs[id].(files := dirs[id].files[name := bytes])])
    }

    function WithMeta(id: u64, meta: SegmentMeta): Disk
      requires id in dirs
    {
      this.(dirs := dirs[id := dirs[id].(meta := Some(meta))])
    }

    function WithoutDir(id: u64): Disk {
      this.(dirs := dirs - {id})
    }

    /** Writing a temporary file and renaming it over the manifest. */
    function WithManifest(m: Manifest): Disk {
      this.(manifest := Some(m))
    }

    function WithLog(bytes: seq<byte>): Disk {
      this.(log := log + bytes)
    }

    function Synced(): Disk {
      this.(synced := |log|)
    }

    /** `Manifest::load` */
    function CurrentManifest(): Manifest {
      if manifest.Some? then manifest.value else FreshManifest()
    }
  }

  /** The disk after a run of steps that left these states behind. */
  function Final(d: Disk, states: seq<Disk>): Disk {
    if states == [] then d else states[|states| - 1]
  }

  lemma FinalAppend(d: Disk, a: seq<Disk>, b: seq<Disk>)
    ensures Final(d, a + b) == Final(Final(d, a), b)
  {
  }

  /** Nothing but one segment directory differs. */
  ghost predicate OnlyDir(d: Disk, e: Disk, id: u64) {
    && e.manifest == d.manifest && e.log == d.log && e.synced == d.synced
    && forall k :: k != id ==> (k in e.dirs <==> k in d.dirs) && (k in d.dirs ==> e.dirs[k] == d.dirs[k])
  }

  /** The file system under a table, with every state it has been in. */
  class Volume {
    var disk: Disk
    ghost var trace: seq<Disk>

    constructor (d: Disk)
      ensures disk == d && trace == []
    {
      disk, trace := d, [];
    }

    method CreateDir(id: u64)
      modifies this
      ensures disk == old(disk).WithDir(id) && trace == old(trace) + [disk]
    {
      disk := disk.WithDir(id);
      trace := trace + [disk];
    }

    method WriteFile(id: u64, name: Name, bytes: seq<byte>)
      requires id in disk.dirs
      modifies this
      ensures disk == old(disk).WithFile(id, name, bytes) && trace == old(trace) + [disk]
    {
      disk := disk.WithFile(id, name, bytes);
      trace := trace + [disk];
    }

    method WriteMeta(id: u64, meta: SegmentMeta)
      requires id in disk.dirs
      modifies this
      ensures disk == old(disk).WithMeta(id, meta) && trace == old(trace) + [disk]
    {
      disk := disk.WithMeta(id, meta);
      trace := trace + [disk];
    }

    method RemoveDir(id: u64)
      modifies this
      ensures disk == old(disk).WithoutDir(id) && trace == old(trace) + [disk]
    {
      disk := disk.WithoutDir(id);
      trace := trace + [disk];
    }

    method StoreManifest(m: Manifest)
      modifies this
      ensures disk == old(disk).WithManifest(m) && trace == old(trace) + [disk]
    {
      disk := disk.WithManifest(m);
      trace := trace + [disk];
    }

    method AppendLog(bytes: seq<byte>)
      modifies this
      ensures disk == old(disk).WithLog(bytes) && trace == old(trace) + [disk]
    {
      disk := disk.WithLog(bytes);
      trace := trace + [disk];
    }

    method SyncLog()
      modifies this
      ensures disk == old(disk).Synced() && trace == old(trace) + [disk]
    {
      disk := disk.Synced();
      trace := trace + [disk];
    }
  }
}
