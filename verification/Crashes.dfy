/** Runs of operations with crashes between any two disk steps, for any operations that keep what the
    disk stands for. */
module Crashes {
  import opened Wrappers
  import opened Bytes
  import opened Batch
  import opened Rows
  import opened Storage
  import opened Framing
  import opened TableRuns
  import opened TableState
  import opened TableSteps
  import opened OpenSteps
  import Codec

  datatype Op = Append(rows: RowBatch) | Flush | Compact(ids: seq<u64>) | Open

  /** A table directory, the process working on it, if any, and what went before: the records in the
      log, the batches they were written for, and how many were in the log at the last good flush. */
  datatype World = World(
    disk: Disk,
    memory: Option<Memory>,
    records: seq<WalRecord>,
    history: seq<RowBatch>,
    durable: nat)

  function NewWorld(): World {
    World(Disk(map[], None, [], 0), None, [], [], 0)
  }

  /** One process at a time; it appends batches built for the schema, within a machine word of rows. */
  ghost predicate Allowed(schema: Schema, w: World, op: Op) {
    && (op.Open? <==> w.memory.None?)
    && (op.Append? ==>
          && BuilderValid(schema, op.rows) && AllRectangular(w.history)
          && |AllRows(w.history)| + op.rows.rowCount < TWO_64)
  }

  /** What running an operation leaves: each disk state in turn, the memory, and the failure, if any. */
  datatype Performance = Performance(states: seq<Disk>, memory: Option<Memory>, failure: Option<TableError>)

  /** The records in the log and their batches after n steps of the operation. */
  function Logs(w: World, op: Op, n: nat): (seq<WalRecord>, seq<RowBatch>) {
    if n > 0 && op.Append? && w.memory.Some? && Codec.Fits(op.rows) then
      (w.records + [RecordOf(w.memory.value, op.rows)], w.history + [op.rows])
    else
      (w.records, w.history)
  }

  /** The operation ran to its end, with or without a failure. */
  ghost predicate Completes(w: World, op: Op, run: Performance, w': World) {
    && w'.disk == Final(w.disk, run.states)
    && w'.memory == run.memory
    && (w'.records, w'.history) == Logs(w, op, |run.states|)
    && w'.durable == if op.Flush? && run.failure.None? then |w.history| else w.durable
  }

  /** The process died after n disk steps of the operation, and the log kept k records. */
  ghost predicate Interrupted(f: Format, w: World, op: Op, run: Performance, n: nat, k: nat, w': World) {
    var (records, history) := Logs(w, op, n);
    && n <= |run.states|
    && k <= |history|
    && CutTo(f, Final(w.disk, run.states[..n]), w'.disk, records, k)
    && w'.memory == None
    && w'.records == records[..k] && w'.history == history[..k]
    && w'.durable == w.durable
  }

  /** How operations run. */
  datatype Machine = Machine(format: Format, schema: Schema, perform: (World, Op) -> Performance) {

    ghost predicate Step(w: World, op: Op, n: nat, k: nat, w': World) {
      && Allowed(schema, w, op)
      && (Completes(w, op, perform(w, op), w') || Interrupted(format, w, op, perform(w, op), n, k, w'))
    }

    ghost predicate Next(w: World, w': World) {
      exists op: Op, n: nat, k: nat :: Step(w, op, n, k, w')
    }

    /** From an empty directory, any operations and any crashes. */
    ghost predicate Run(ws: seq<World>) {
      && ws != [] && ws[0] == NewWorld()
      && forall i, j :: 0 <= i && j == i + 1 && j < |ws| ==> Next(ws[i], ws[j])
    }
  }

  // ----- the invariant -----

  ghost predicate Safe(reading: Reading, schema: Schema, w: World) {
    && reading.DiskOk(w.disk, w.records, w.history)
    && (w.memory.Some? ==> MemoryOk(schema, w.disk, w.memory.value, w.history))
    && AllRectangular(w.history) && |AllRows(w.history)| < TWO_64
    && reading.AppliedIsDurable(w.disk, w.durable, w.records)
  }

  /** Every state along a run stands for the history so far, or for one batch more; the memory at its
      end agrees, and a flush has synced the log. */
  ghost predicate RunKeeps(reading: Reading, schema: Schema, w: World, op: Op, run: Performance) {
    && (forall n :: 0 < n <= |run.states| ==>
          reading.DiskOk(run.states[n - 1], Logs(w, op, n).0, Logs(w, op, n).1))
    && (run.memory.Some? ==> MemoryOk(schema, Final(w.disk, run.states), run.memory.value, Logs(w, op, |run.states|).1))
    && (op.Open? ==> run.memory.Some? && run.failure.None?)
    && (op.Flush? ==> Final(w.disk, run.states).synced == |Final(w.disk, run.states).log|)
  }

  /** The sync mark at every point is at least where it was. */
  ghost predicate MarkKept(w: World, run: Performance) {
    forall i :: 0 <= i < |run.states| ==> w.disk.synced <= run.states[i].synced
  }

  /** Operations that keep what disk and memory stand for. */
  ghost predicate Works(reading: Reading, machine: Machine) {
    && reading.format == machine.format
    && forall w: World, op: Op :: Safe(reading, machine.schema, w) && Allowed(machine.schema, w, op) ==>
         RunKeeps(reading, machine.schema, w, op, machine.perform(w, op)) && MarkKept(w, machine.perform(w, op))
  }

  // ----- one step -----

  lemma LogsSize(schema: Schema, w: World, op: Op, n: nat)
    requires Allowed(schema, w, op) && AllRectangular(w.history) && |AllRows(w.history)| < TWO_64
    ensures AllRectangular(Logs(w, op, n).1) && |AllRows(Logs(w, op, n).1)| < TWO_64
    ensures w.history <= Logs(w, op, n).1
  {
    if op.Append? {
      BuilderValidIsRectangular(schema, op.rows);
      HistoryGrows(w.history, op.rows);
    }
  }

  lemma PointStands(reading: Reading, schema: Schema, w: World, op: Op, run: Performance, n: nat)
    requires Safe(reading, schema, w) && RunKeeps(reading, schema, w, op, run) && n <= |run.states|
    ensures reading.DiskOk(Final(w.disk, run.states[..n]), Logs(w, op, n).0, Logs(w, op, n).1)
  {
    assert Final(w.disk, run.states[..n]) == if n > 0 then run.states[n - 1] else w.disk;
  }

  lemma PointDurable(reading: Reading, d: Disk, e: Disk, durable: nat, records: seq<WalRecord>, more: seq<WalRecord>)
    requires reading.AppliedIsDurable(d, durable, records) && records <= more && AllEncodable(more)
    requires d.synced <= e.synced <= |e.log|
    ensures reading.AppliedIsDurable(e, durable, more)
  {
    assert more[..durable] == records[..durable];
  }

  /** Any point of a run: what the disk stands for there, and what stays durable. */
  lemma PointKept(reading: Reading, schema: Schema, w: World, op: Op, run: Performance, n: nat)
    requires Safe(reading, schema, w) && RunKeeps(reading, schema, w, op, run) && MarkKept(w, run) && n <= |run.states|
    ensures reading.DiskOk(Final(w.disk, run.states[..n]), Logs(w, op, n).0, Logs(w, op, n).1)
    ensures reading.AppliedIsDurable(Final(w.disk, run.states[..n]), w.durable, Logs(w, op, n).0)
  {
    PointStands(reading, schema, w, op, run, n);
    assert Final(w.disk, run.states[..n]) == if n > 0 then run.states[n - 1] else w.disk;
    PointDurable(reading, w.disk, Final(w.disk, run.states[..n]), w.durable, w.records, Logs(w, op, n).0);
  }

  lemma AllDurable(reading: Reading, d: Disk, records: seq<WalRecord>, history: seq<RowBatch>)
    requires reading.Logged(d.log, records, history) && d.synced == |d.log|
    ensures reading.AppliedIsDurable(d, |history|, records)
  {
    assert records[..|history|] == records;
  }

  /** What was durable still is, unchanged. */
  ghost predicate KeepsDurable(w: World, w': World) {
    && w.durable <= w'.durable
    && w.durable <= |w.history| && w.durable <= |w'.history|
    && w'.history[..w.durable] == w.history[..w.durable]
  }

  lemma KeepsDurableTwice(a: World, b: World, c: World)
    requires KeepsDurable(a, b) && KeepsDurable(b, c)
    ensures KeepsDurable(a, c)
  {
    assert c.history[..a.durable] == c.history[..b.durable][..a.durable];
    assert b.history[..a.durable] == b.history[..b.durable][..a.durable];
  }

  lemma FinishSafe(reading: Reading, schema: Schema, w: World, op: Op, run: Performance, w': World)
    requires Safe(reading, schema, w) && Allowed(schema, w, op)
    requires RunKeeps(reading, schema, w, op, run) && MarkKept(w, run) && Completes(w, op, run, w')
    ensures Safe(reading, schema, w')
  {
    var n := |run.states|;
    assert run.states[..n] == run.states;
    PointKept(reading, schema, w, op, run, n);
    LogsSize(schema, w, op, n);
    if op.Flush? {
      AllDurable(reading, w'.disk, w'.records, w'.history);
    }
  }

  lemma FinishKeepsDurable(reading: Reading, schema: Schema, w: World, op: Op, run: Performance, w': World)
    requires Safe(reading, schema, w) && Completes(w, op, run, w')
    ensures KeepsDurable(w, w')
  {
  }

  lemma CrashSafe(reading: Reading, schema: Schema, w: World, op: Op, run: Performance, n: nat, k: nat, w': World)
    requires Safe(reading, schema, w) && Allowed(schema, w, op)
    requires RunKeeps(reading, schema, w, op, run) && MarkKept(w, run)
    requires Interrupted(reading.format, w, op, run, n, k, w')
    ensures Safe(reading, schema, w') && w.durable <= k
  {
    var mid := Final(w.disk, run.states[..n]);
    var (records, history) := Logs(w, op, n);
    PointKept(reading, schema, w, op, run, n);
    LogsSize(schema, w, op, n);
    CutKeeps(reading, mid, w'.disk, records, history, k);
    DurableSurvives(reading, mid, w'.disk, records, w.durable, k);
    PrefixRows(history, k);
  }

  lemma CrashKeepsDurable(f: Format, w: World, op: Op, run: Performance, n: nat, k: nat, w': World)
    requires Interrupted(f, w, op, run, n, k, w')
    requires w.durable <= k && w.durable <= |w.history|
    ensures KeepsDurable(w, w')
  {
    var history := Logs(w, op, n).1;
    assert history[..k][..w.durable] == history[..w.durable] == w.history[..w.durable];
  }

  /** Any step, to its end or to a crash, leads from a safe world to a safe world. */
  lemma StepSafe(reading: Reading, machine: Machine, w: World, op: Op, n: nat, k: nat, w': World)
    requires Works(reading, machine) && Safe(reading, machine.schema, w) && machine.Step(w, op, n, k, w')
    ensures Safe(reading, machine.schema, w') && KeepsDurable(w, w')
  {
    var run, schema := machine.perform(w, op), machine.schema;
    if Completes(w, op, run, w') {
      FinishSafe(reading, schema, w, op, run, w');
      FinishKeepsDurable(reading, schema, w, op, run, w');
    } else {
      CrashSafe(reading, schema, w, op, run, n, k, w');
      CrashKeepsDurable(reading.format, w, op, run, n, k, w');
    }
  }

  lemma NextSafe(reading: Reading, machine: Machine, w: World, w': World)
    requires Works(reading, machine) && Safe(reading, machine.schema, w) && machine.Next(w, w')
    ensures Safe(reading, machine.schema, w') && KeepsDurable(w, w')
  {
    var op: Op, n: nat, k: nat :| machine.Step(w, op, n, k, w');
    StepSafe(reading, machine, w, op, n, k, w');
  }

  // ----- whole runs -----

  /** An operation run to its end. */
  function Finished(w: World, op: Op, run: Performance): World {
    var (records, history) := Logs(w, op, |run.states|);
    World(Final(w.disk, run.states), run.memory, records, history,
      if op.Flush? && run.failure.None? then |w.history| else w.durable)
  }

  /** A run goes on with any allowed operation, run to its end. */
  lemma RunGoesOn(machine: Machine, ws: seq<World>, op: Op)
    requires machine.Run(ws) && Allowed(machine.schema, ws[|ws| - 1], op)
    ensures machine.Run(ws + [Finished(ws[|ws| - 1], op, machine.perform(ws[|ws| - 1], op))])
  {
    var last := ws[|ws| - 1];
    var w := Finished(last, op, machine.perform(last, op));
    assert Completes(last, op, machine.perform(last, op), w);
    assert machine.Step(last, op, 0, 0, w);
    assert machine.Next(last, w);
  }

  lemma {:induction false} WorldSafe(reading: Reading, machine: Machine, ws: seq<World>, i: nat)
    requires Works(reading, machine) && Safe(reading, machine.schema, NewWorld())
    requires machine.Run(ws) && i < |ws|
    ensures Safe(reading, machine.schema, ws[i])
    decreases i
  {
    if i > 0 {
      WorldSafe(reading, machine, ws, i - 1);
      NextSafe(reading, machine, ws[i - 1], ws[i]);
    }
  }

  /** Every world keeps what the one before it had durable. */
  ghost predicate EachKeepsDurable(ws: seq<World>) {
    && (forall i :: 0 <= i < |ws| ==> ws[i].durable <= |ws[i].history|)
    && forall i, j :: 0 <= i && j == i + 1 && j < |ws| ==> KeepsDurable(ws[i], ws[j])
  }

  lemma RunKeepsDurable(reading: Reading, machine: Machine, ws: seq<World>)
    requires Works(reading, machine) && Safe(reading, machine.schema, NewWorld()) && machine.Run(ws)
    ensures EachKeepsDurable(ws)
  {
    forall i | 0 <= i < |ws|
      ensures ws[i].durable <= |ws[i].history|
    {
      WorldSafe(reading, machine, ws, i);
    }
    forall i, j | 0 <= i && j == i + 1 && j < |ws|
      ensures KeepsDurable(ws[i], ws[j])
    {
      WorldSafe(reading, machine, ws, i);
      NextSafe(reading, machine, ws[i], ws[j]);
    }
  }

  lemma {:induction false} WorldsKeepDurable(ws: seq<World>, i: nat, j: nat)
    requires EachKeepsDurable(ws) && i <= j < |ws|
    ensures KeepsDurable(ws[i], ws[j])
    decreases j
  {
    if i < j {
      WorldsKeepDurable(ws, i, j - 1);
      KeepsDurableTwice(ws[i], ws[j - 1], ws[j]);
    }
  }
}
