/** The buffer pool as interleaved two-step operations: the queue changes first, the counter after. */
module BufPool {
  import opened Wrappers
  import opened Words
  import opened Counters
  import opened Paths

  /** A handle's life: acquiring pops the queue and then decrements the counter, dropping pushes the
      queue and then increments it. */
  datatype Handle<B> =
    | Absent
    | Acquiring
    | Popped(buf: B)
    | Held(buf: B)
    | Dropping(buf: B)
    | Pushed

  /** `free` is the queue, oldest first; `available` is a word of `width` bits. `taken` lists the buffers
      ever popped and `given` those ever pushed back, in order. */
  datatype Pool<B> = Pool(
    width: nat,
    free: seq<B>,
    available: nat,
    handles: seq<Handle<B>>,
    taken: seq<B>,
    given: seq<B>) {
    function Modulus(): nat {
      Pow2(width)
    }
  }

  /** `BufPool::new` over freshly allocated buffers, with room for some number of handles. */
  function NewPool<B>(width: nat, bufs: seq<B>, handles: nat): Pool<B> {
    Pool(width, bufs, |bufs| % Pow2(width), seq(handles, _ => Absent), [], [])
  }

  datatype Step =
    | Acquire(h: nat)
    | PopFree(h: nat)
    | FetchSub(h: nat)
    | Release(h: nat)
    | PushFree(h: nat)
    | FetchAdd(h: nat)

  predicate Enabled<B>(s: Pool<B>, step: Step) {
    && step.h < |s.handles|
    && match step
       case Acquire(h) => s.handles[h].Absent?
       case PopFree(h) => s.handles[h].Acquiring?
       case FetchSub(h) => s.handles[h].Popped?
       case Release(h) => s.handles[h].Held?
       case PushFree(h) => s.handles[h].Dropping?
       case FetchAdd(h) => s.handles[h].Pushed?
  }

  function WithHandle<B>(s: Pool<B>, h: nat, next: Handle<B>): Pool<B>
    requires h < |s.handles|
  {
    s.(handles := s.handles[h := next])
  }

  /** Popping an empty queue ends the acquire with nothing. */
  function Apply<B>(s: Pool<B>, step: Step): Pool<B>
    requires Enabled(s, step)
  {
    match step
    case Acquire(h) => WithHandle(s, h, Acquiring)
    case PopFree(h) =>
      if s.free == [] then WithHandle(s, h, Absent)
      else WithHandle(s, h, Popped(s.free[0])).(free := s.free[1..], taken := s.taken + [s.free[0]])
    case FetchSub(h) => WithHandle(s, h, Held(s.handles[h].buf)).(available := (s.available - 1) % s.Modulus())
    case Release(h) => WithHandle(s, h, Dropping(s.handles[h].buf))
    case PushFree(h) =>
      WithHandle(s, h, Pushed).(free := s.free + [s.handles[h].buf], given := s.given + [s.handles[h].buf])
    case FetchAdd(h) => WithHandle(s, h, Absent).(available := (s.available + 1) % s.Modulus())
  }

  // ----- counting -----

  /** The buffers behind the handles. */
  function OutOf<B>(h: Handle<B>): seq<B> {
    if h.Popped? || h.Held? || h.Dropping? then [h.buf] else []
  }

  function Out<B>(handles: seq<Handle<B>>): seq<B> {
    if handles == [] then [] else OutOf(handles[0]) + Out(handles[1..])
  }

  function OwedBy<B>(h: Handle<B>): int {
    if h.Popped? then 1 else if h.Pushed? then -1 else 0
  }

  /** Acquirers past their pop, minus releasers past their push. */
  function Owed<B>(handles: seq<Handle<B>>): int {
    if handles == [] then 0 else OwedBy(handles[0]) + Owed(handles[1..])
  }

  lemma OtherInFront<B>(x: seq<B>, a: seq<B>, b: seq<B>, p: seq<B>, q: seq<B>)
    requires multiset(a) + multiset(p) == multiset(b) + multiset(q)
    ensures multiset(x + a) + multiset(p) == multiset(x + b) + multiset(q)
  {
    assert multiset(x + a) + multiset(p) == multiset(x) + (multiset(a) + multiset(p));
    assert multiset(x + b) + multiset(q) == multiset(x) + (multiset(b) + multiset(q));
  }

  lemma SwapFront<B>(p: seq<B>, q: seq<B>, rest: seq<B>)
    ensures multiset(p + rest) + multiset(q) == multiset(q + rest) + multiset(p)
  {
  }

  /** One handle's change changes the buffers behind the handles by that handle's buffer. */
  lemma {:induction false} OutChanges<B>(handles: seq<Handle<B>>, h: nat, next: Handle<B>)
    requires h < |handles|
    ensures multiset(Out(handles[h := next])) + multiset(OutOf(handles[h]))
            == multiset(Out(handles)) + multiset(OutOf(next))
    decreases h
  {
    var rest := handles[1..];
    if h == 0 {
      assert handles[0 := next][1..] == rest;
      SwapFront(OutOf(next), OutOf(handles[0]), Out(rest));
    } else {
      OutChanges(rest, h - 1, next);
      assert handles[h := next][1..] == rest[h - 1 := next];
      OtherInFront(OutOf(handles[0]), Out(rest[h - 1 := next]), Out(rest), OutOf(handles[h]), OutOf(next));
    }
  }

  lemma {:induction false} OwedChanges<B>(handles: seq<Handle<B>>, h: nat, next: Handle<B>)
    requires h < |handles|
    ensures Owed(handles[h := next]) - OwedBy(next) == Owed(handles) - OwedBy(handles[h])
    decreases h
  {
    if h == 0 {
      assert handles[0 := next][1..] == handles[1..];
    } else {
      OwedChanges(handles[1..], h - 1, next);
      assert handles[h := next][1..] == handles[1..][h - 1 := next];
    }
  }

  /** First in, first out: the buffers taken are the first of the original ones and those given back, in
      that order, and the queue is what is left of these. */
  ghost predicate InOrder<B>(s: Pool<B>, bufs: seq<B>) {
    s.taken + s.free == bufs + s.given
  }

  /** Every buffer is in exactly one place, the queue in order, and the counter is the free count plus
      what is owed. */
  ghost predicate Inv<B>(s: Pool<B>, bufs: seq<B>) {
    && multiset(s.free) + multiset(Out(s.handles)) == multiset(bufs)
    && InOrder(s, bufs)
    && s.available == (|s.free| + Owed(s.handles)) % s.Modulus()
  }

  lemma {:induction false} NobodyOut<B>(handles: seq<Handle<B>>)
    requires forall h :: 0 <= h < |handles| ==> handles[h].Absent?
    ensures Out(handles) == [] && Owed(handles) == 0
    decreases |handles|
  {
    if handles != [] {
      NobodyOut(handles[1..]);
    }
  }

  lemma NewPoolOk<B>(width: nat, bufs: seq<B>, handles: nat)
    ensures Inv(NewPool(width, bufs, handles), bufs)
  {
    NobodyOut(NewPool(width, bufs, handles).handles);
  }

  lemma Cancel<B>(a: multiset<B>, b: multiset<B>, x: multiset<B>)
    requires a + x == b + x
    ensures a == b
  {
    assert a == (a + x) - x && b == (b + x) - x;
  }

  lemma MovedOut<B>(b: B, free: seq<B>, out: multiset<B>, out': multiset<B>)
    requires free != [] && free[0] == b && out' + multiset([]) == out + multiset([b])
    ensures multiset(free[1..]) + out' == multiset(free) + out
  {
    HeadTail(free);
    assert out' == out + multiset{b};
    assert multiset(free) == multiset{b} + multiset(free[1..]);
  }

  lemma MovedBack<B>(b: B, free: seq<B>, out: multiset<B>, out': multiset<B>)
    requires out' + multiset{b} == out
    ensures multiset(free + [b]) + out' == multiset(free) + out
  {
    assert multiset(free + [b]) == multiset(free) + multiset{b};
    assert multiset(free) + (multiset{b} + out') == multiset(free) + out;
  }

  /** No step makes or loses a buffer. */
  lemma BuffersKept<B>(s: Pool<B>, step: Step)
    requires Enabled(s, step)
    ensures multiset(Apply(s, step).free) + multiset(Out(Apply(s, step).handles))
            == multiset(s.free) + multiset(Out(s.handles))
  {
    var h := step.h;
    var old', next := s.handles[h], Apply(s, step).handles[h];
    var out, out' := multiset(Out(s.handles)), multiset(Out(s.handles[h := next]));
    OutChanges(s.handles, h, next);
    if step.PopFree? && s.free != [] {
      MovedOut(s.free[0], s.free, out, out');
    } else if step.PushFree? {
      assert OutOf(old') == [old'.buf] && OutOf(next) == [];
      assert out' + multiset(OutOf(old')) == out;
      MovedBack(old'.buf, s.free, out, out');
    } else {
      assert OutOf(old') == OutOf(next);
      Cancel(out', out, multiset(OutOf(next)));
    }
  }

  /** Every step keeps the counter in step with the queue and what is owed. */
  lemma CountKept<B>(s: Pool<B>, step: Step)
    requires Enabled(s, step) && s.available == (|s.free| + Owed(s.handles)) % s.Modulus()
    ensures var s' := Apply(s, step); s'.available == (|s'.free| + Owed(s'.handles)) % s'.Modulus()
  {
    OwedChanges(s.handles, step.h, Apply(s, step).handles[step.h]);
    if step.FetchSub? {
      WrappedSum(|s.free| + Owed(s.handles), -1, s.Modulus());
    } else if step.FetchAdd? {
      WrappedSum(|s.free| + Owed(s.handles), 1, s.Modulus());
    }
  }

  /** Buffers leave the queue at its front and join it at its end. */
  lemma OrderKept<B>(s: Pool<B>, step: Step, bufs: seq<B>)
    requires Enabled(s, step) && InOrder(s, bufs)
    ensures InOrder(Apply(s, step), bufs)
  {
    if step.PopFree? && s.free != [] {
      HeadTail(s.free);
      Assoc(s.taken, [s.free[0]], s.free[1..]);
    } else if step.PushFree? {
      var buf := s.handles[step.h].buf;
      Assoc(s.taken, s.free, [buf]);
      Assoc(bufs, s.given, [buf]);
    }
  }

  /** Any step of any handle. */
  lemma StepKeeps<B>(s: Pool<B>, step: Step, bufs: seq<B>)
    requires Inv(s, bufs) && Enabled(s, step)
    ensures Inv(Apply(s, step), bufs)
  {
    BuffersKept(s, step);
    OrderKept(s, step, bufs);
    CountKept(s, step);
  }

  // ----- runs -----

  ghost predicate Next<B>(s: Pool<B>, s': Pool<B>) {
    exists step :: Enabled(s, step) && s' == Apply(s, step)
  }

  ghost predicate Run<B>(bufs: seq<B>, ss: seq<Pool<B>>) {
    && ss != []
    && (exists width, handles :: ss[0] == NewPool(width, bufs, handles))
    && forall i, j :: 0 <= i && j == i + 1 && j < |ss| ==> Next(ss[i], ss[j])
  }

  lemma {:induction false} EveryStateOk<B>(bufs: seq<B>, ss: seq<Pool<B>>, i: nat)
    requires Run(bufs, ss) && i < |ss|
    ensures Inv(ss[i], bufs)
    decreases i
  {
    if i == 0 {
      var width, handles :| ss[0] == NewPool(width, bufs, handles);
      NewPoolOk(width, bufs, handles);
    } else {
      EveryStateOk(bufs, ss, i - 1);
      assert Next(ss[i - 1], ss[i]);
      var step :| Enabled(ss[i - 1], step) && ss[i] == Apply(ss[i - 1], step);
      StepKeeps(ss[i - 1], step, bufs);
    }
  }

  /** Between an acquire's or a release's two changes. */
  predicate InFlight<B>(h: Handle<B>) {
    h.Popped? || h.Pushed?
  }

  lemma {:induction false} NothingOwed<B>(handles: seq<Handle<B>>)
    requires forall h :: 0 <= h < |handles| ==> !InFlight(handles[h])
    ensures Owed(handles) == 0
    decreases |handles|
  {
    if handles != [] {
      NothingOwed(handles[1..]);
    }
  }

  /** In every reachable state, over distinct buffers, each buffer is in the queue or behind a handle,
      once in all; and the counter is the queue's length plus the acquirers past their pop minus the
      releasers past their push, as a word. */
  lemma PoolIsSafe<B>(bufs: seq<B>, ss: seq<Pool<B>>, i: nat, b: B)
    requires Run(bufs, ss) && i < |ss|
    ensures multiset(ss[i].free)[b] + multiset(Out(ss[i].handles))[b] == multiset(bufs)[b]
    ensures ss[i].available == (|ss[i].free| + Owed(ss[i].handles)) % ss[i].Modulus()
  {
    EveryStateOk(bufs, ss, i);
    assert (multiset(ss[i].free) + multiset(Out(ss[i].handles)))[b] == multiset(bufs)[b];
  }

  /** In every reachable state the buffers taken so far are the first of the original ones followed by
      those given back, in that order, and the queue is the rest of these. */
  lemma FirstInFirstOut<B>(bufs: seq<B>, ss: seq<Pool<B>>, i: nat)
    requires Run(bufs, ss) && i < |ss|
    ensures ss[i].taken <= bufs + ss[i].given
    ensures ss[i].free == (bufs + ss[i].given)[|ss[i].taken|..]
  {
    EveryStateOk(bufs, ss, i);
  }

  /** One step adds to the buffers taken and given back only at the end. */
  lemma StepExtends<B>(s: Pool<B>, step: Step)
    requires Enabled(s, step)
    ensures s.taken <= Apply(s, step).taken && s.given <= Apply(s, step).given
  {
  }

  /** While no operation is between its two changes, the counter is exact. */
  lemma QuiescentCountIsExact<B>(bufs: seq<B>, ss: seq<Pool<B>>, i: nat)
    requires Run(bufs, ss) && i < |ss| && |bufs| < ss[i].Modulus()
    requires forall h :: 0 <= h < |ss[i].handles| ==> !InFlight(ss[i].handles[h])
    ensures ss[i].available == |ss[i].free|
  {
    EveryStateOk(bufs, ss, i);
    NothingOwed(ss[i].handles);
    assert |multiset(ss[i].free) + multiset(Out(ss[i].handles))| == |multiset(bufs)|;
    ModIs(|ss[i].free|, ss[i].Modulus(), 0, |ss[i].free|);
  }

  /** An acquire finds nothing exactly when every buffer is behind a handle. */
  lemma AcquireFailsIff<B>(bufs: seq<B>, ss: seq<Pool<B>>, i: nat, h: nat)
    requires Run(bufs, ss) && i < |ss| && Enabled(ss[i], PopFree(h))
    ensures Apply(ss[i], PopFree(h)).handles[h].Absent? <==> multiset(Out(ss[i].handles)) == multiset(bufs)
  {
    EveryStateOk(bufs, ss, i);
    var free, out := multiset(ss[i].free), multiset(Out(ss[i].handles));
    if out == multiset(bufs) {
      assert |free + out| == |out|;
    }
  }

  // ----- the code -----

  ghost function Steps<B(!new)>(): (Pool<B>, Pool<B>) -> bool {
    (s: Pool<B>, t: Pool<B>) => Next(s, t)
  }

  /** Steps lead from s to t, and the buffers taken and given back have only grown at the end. */
  ghost predicate Goes<B(!new)>(s: Pool<B>, t: Pool<B>) {
    Leads(Steps<B>(), s, t) && s.taken <= t.taken && s.given <= t.given
  }

  lemma GoesOn<B(!new)>(s: Pool<B>, t: Pool<B>, u: Pool<B>)
    requires Goes(s, t) && Goes(t, u)
    ensures Goes(s, u)
  {
    LeadsOn(Steps<B>(), s, t, u);
  }

  /** What a handle may count on while the others run: they lead from s to t and leave it alone. */
  ghost predicate Meanwhile<B(!new)>(h: nat, bufs: seq<B>, s: Pool<B>, t: Pool<B>) {
    && Goes(s, t) && Inv(t, bufs) && t.width == s.width
    && h < |s.handles| == |t.handles| && t.handles[h] == s.handles[h]
  }

  lemma StepLeads<B(!new)>(s: Pool<B>, step: Step, bufs: seq<B>)
    requires Inv(s, bufs) && Enabled(s, step)
    ensures Inv(Apply(s, step), bufs) && Goes(s, Apply(s, step))
  {
    StepKeeps(s, step, bufs);
    StepExtends(s, step);
    assert Next(s, Apply(s, step));
    LeadsByStep(Steps<B>(), s, Apply(s, step));
  }

  /** The pool's shared fields, and in `system` all there is: the fields, and where every handle stands. */
  class Shared<B(!new)> {
    const width: nat
    ghost const bufs: seq<B>
    var free: seq<B>
    var available: nat
    var system: Pool<B>

    ghost predicate Valid()
      reads this
    {
      system.width == width && system.free == free && system.available == available && Inv(system, bufs)
    }

    constructor (width: nat, bufs: seq<B>, handles: nat)
      ensures Valid() && system == NewPool(width, bufs, handles) && this.bufs == bufs
    {
      this.width, this.bufs := width, bufs;
      free, available := bufs, |bufs| % Pow2(width);
      system := NewPool(width, bufs, handles);
      NewPoolOk(width, bufs, handles);
    }

    /** Other handles run: the first burst of the schedule, if there is one, without the steps that
        cannot be taken. */
    method Pause(h: nat, schedule: seq<seq<Step>>) returns (rest: seq<seq<Step>>)
      requires Valid() && h < |system.handles|
      modifies this
      ensures Valid() && Meanwhile(h, bufs, old(system), system)
      ensures schedule == [] ==> rest == [] && system == old(system)
    {
      LeadsNowhere(Steps<B>(), system);
      if schedule == [] {
        return [];
      }
      for j := 0 to |schedule[0]|
        invariant Valid() && Meanwhile(h, bufs, old(system), system)
      {
        var step := schedule[0][j];
        if Enabled(system, step) && step.h != h {
          var next := Apply(system, step);
          StepLeads(system, step, bufs);
          GoesOn(old(system), system, next);
          system, free, available := next, next.free, next.available;
        }
      }
      rest := schedule[1..];
    }

    /** One step of the handle's own, with what it changes in the fields. */
    method Own(step: Step, newFree: seq<B>, newAvailable: nat)
      requires Valid() && Enabled(system, step)
      requires newFree == Apply(system, step).free && newAvailable == Apply(system, step).available
      modifies this
      ensures Valid() && system == Apply(old(system), step) && Goes(old(system), system)
    {
      StepLeads(system, step, bufs);
      free, available := newFree, newAvailable;
      system := Apply(system, step);
    }

    /** Popping the queue: the next of the original and returned buffers, or nothing when all are taken. */
    method PopQueue(h: nat) returns (buf: Option<B>)
      requires Valid() && Enabled(system, PopFree(h))
      modifies this
      ensures Valid() && Goes(old(system), system) && system.given == old(system).given
      ensures available == old(available)
      ensures var all, n := bufs + system.given, |old(system).taken|;
              n <= |all| && buf == if n == |all| then None else Some(all[n])
      ensures system.taken == old(system).taken + if buf.Some? then [buf.value] else []
      ensures h < |system.handles| && system.handles[h] == if buf.Some? then Popped(buf.value) else Absent
    {
      ghost var taken := system.taken;
      assert |taken + free| == |bufs + system.given|;
      if |free| == 0 {
        Own(PopFree(h), free, available);
        assert taken + [] == taken;
        return None;
      }
      assert (taken + free)[|taken|] == free[0];
      buf := Some(free[0]);
      Own(PopFree(h), free[1..], available);
    }

    /** The counter's change, after the others have run. */
    method Settle(h: nat, step: Step, schedule: seq<seq<Step>>)
      requires Valid() && Enabled(system, step) && step.h == h && (step.FetchSub? || step.FetchAdd?)
      modifies this
      ensures Valid() && Goes(old(system), system)
      ensures h < |system.handles| && system.handles[h] == Apply(old(system), step).handles[h]
      ensures schedule == [] ==> system.taken == old(system).taken && system.given == old(system).given
      ensures schedule == [] && step.FetchSub? ==> available == (old(available) - 1) % Pow2(width)
      ensures schedule == [] && step.FetchAdd? ==> available == (old(available) + 1) % Pow2(width)
    {
      var left := Pause(h, schedule);
      ghost var waited := system;
      Own(step, free, (available + if step.FetchSub? then -1 else 1) % Pow2(width));
      GoesOn(old(system), waited, system);
    }

    /** `acquire` by handle h: in state `decided` the queue was empty, all buffers there are having been
        taken, or the next of the original and returned buffers was taken; the counter follows later. */
    method Acquire(h: nat, schedule: seq<seq<Step>>) returns (buf: Option<B>, ghost decided: Pool<B>)
      requires Valid() && Enabled(system, Step.Acquire(h))
      modifies this
      ensures Valid() && Goes(old(system), decided) && Goes(decided, system)
      ensures var all := bufs + decided.given;
              && |decided.taken| <= |all|
              && buf == (if |decided.taken| == |all| then None else Some(all[|decided.taken|]))
              && (buf.Some? ==> decided.taken + [buf.value] <= system.taken)
      ensures h < |system.handles| && system.handles[h] == if buf.Some? then Held(buf.value) else Absent
      ensures schedule == [] ==> system.taken == decided.taken + if buf.Some? then [buf.value] else []
      ensures schedule == [] ==> decided.taken == old(system).taken && system.given == old(system).given
      ensures schedule == [] ==>
                available == if buf.Some? then (old(available) - 1) % Pow2(width) else old(available)
    {
      Own(Step.Acquire(h), free, available);
      ghost var entered := system;
      var left := Pause(h, schedule);
      decided := system;
      GoesOn(old(system), entered, decided);
      buf := PopQueue(h);
      if buf.None? {
        return;
      }
      ghost var popped := system;
      Settle(h, FetchSub(h), left);
      GoesOn(decided, popped, system);
    }

    /** Dropping handle h: in state `decided` its buffer was given back, behind all others; the counter
        follows later. */
    method Release(h: nat, buf: B, schedule: seq<seq<Step>>) returns (ghost decided: Pool<B>)
      requires Valid() && Enabled(system, Step.Release(h)) && system.handles[h] == Held(buf)
      modifies this
      ensures Valid() && Goes(old(system), decided) && Goes(decided, system)
      ensures decided.given + [buf] <= system.given
      ensures h < |system.handles| && system.handles[h].Absent?
      ensures schedule == [] ==> system.given == old(system).given + [buf] && system.taken == old(system).taken
      ensures schedule == [] ==> available == (old(available) + 1) % Pow2(width)
    {
      Own(Step.Release(h), free, available);
      ghost var entered := system;
      var left := Pause(h, schedule);
      decided := system;
      GoesOn(old(system), entered, decided);
      Own(PushFree(h), free + [buf], available);
      ghost var pushed := system;
      Settle(h, FetchAdd(h), left);
      GoesOn(decided, pushed, system);
    }
  }

  // ----- the counter below zero -----

  lemma RunOneMore<B>(bufs: seq<B>, ss: seq<Pool<B>>, step: Step)
    requires Run(bufs, ss) && Enabled(ss[|ss| - 1], step)
    ensures Run(bufs, ss + [Apply(ss[|ss| - 1], step)])
  {
    assert Next(ss[|ss| - 1], Apply(ss[|ss| - 1], step));
  }

  /** With one buffer, a second thread can take it between a release's push and its increment: the
      counter then reads one below zero, the largest word. */
  lemma CounterCanWrap<B>(width: nat, b: B) returns (ss: seq<Pool<B>>)
    requires width > 0
    ensures Run([b], ss) && ss[|ss| - 1].available == Pow2(width) - 1
  {
    var m := Pow2(width);
    PowOrder(0, width);
    ModIs(1, m, 0, 1);
    EuclidIs(0, m, 0, 0);
    EuclidIs(-1, m, -1, m - 1);
    ss := [NewPool(width, [b], 2)];
    ss := TakeStep([b], ss, Acquire(0));
    ss := TakeStep([b], ss, PopFree(0));
    ss := TakeStep([b], ss, FetchSub(0));
    ss := TakeStep([b], ss, Release(0));
    ss := TakeStep([b], ss, PushFree(0));
    ss := TakeStep([b], ss, Acquire(1));
    ss := TakeStep([b], ss, PopFree(1));
    ss := TakeStep([b], ss, FetchSub(1));
  }

  lemma TakeStep<B>(bufs: seq<B>, before: seq<Pool<B>>, step: Step) returns (ss: seq<Pool<B>>)
    requires Run(bufs, before) && Enabled(before[|before| - 1], step)
    ensures Run(bufs, ss) && ss != [] && ss[|ss| - 1] == Apply(before[|before| - 1], step)
  {
    RunOneMore(bufs, before, step);
    ss := before + [Apply(before[|before| - 1], step)];
  }
}
