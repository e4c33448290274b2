/** The multi-producer ring's code: `push` and `pop` as one thread runs them on words and slots, with any
    steps of the other threads between any two of its own. */
module MpscCode {
  import opened Wrappers
  import opened Words
  import opened Counters
  import opened Paths
  import opened MpscRing
  import opened MpscSafety

  // ----- what happens meanwhile -----

  ghost function Steps<T(!new)>(): (Ring<T>, Ring<T>) -> bool {
    (s: Ring<T>, t: Ring<T>) => Next(s, t)
  }

  predicate Settled(phase: Phase) {
    phase == Published || phase == Taken
  }

  /** Steps went from s to t in which the reservations kept their order and owners and no settled one
      came undone, and producer p made new ones at most at the places `mine`. */
  ghost predicate Grows<T(!new)>(p: nat, mine: set<nat>, s: Ring<T>, t: Ring<T>) {
    && Leads(Steps<T>(), s, t)
    && t.width == s.width && t.bits == s.bits && |t.producers| == |s.producers|
    && |s.log| <= |t.log| && s.popped <= t.popped
    && (forall i :: 0 <= i < |s.log| ==> t.log[i].item == s.log[i].item && t.log[i].owner == s.log[i].owner)
    && (forall i :: 0 <= i < |s.log| && Settled(s.log[i].phase) ==> Settled(t.log[i].phase))
    && (forall i :: |s.log| <= i < |t.log| && t.log[i].owner == p ==> i in mine)
  }

  lemma GrowsNowhere<T(!new)>(p: nat, s: Ring<T>)
    ensures Grows(p, {}, s, s)
  {
    LeadsNowhere(Steps<T>(), s);
  }

  lemma GrowsOn<T(!new)>(p: nat, a: set<nat>, b: set<nat>, s: Ring<T>, t: Ring<T>, u: Ring<T>)
    requires Grows(p, a, s, t) && Grows(p, b, t, u)
    ensures Grows(p, a + b, s, u)
  {
    LeadsOn(Steps<T>(), s, t, u);
    PrefixOfPrefix(s.popped, t.popped, u.popped);
  }

  lemma GrowsThenNothing<T(!new)>(p: nat, mine: set<nat>, s: Ring<T>, t: Ring<T>, u: Ring<T>)
    requires Grows(p, mine, s, t) && Grows(p, {}, t, u)
    ensures Grows(p, mine, s, u)
  {
    GrowsOn(p, mine, {}, s, t, u);
    assert mine + {} == mine;
  }

  /** The place a step reserves for producer p, if it does. */
  ghost function Reserves<T>(p: nat, s: Ring<T>, step: Step<T>): set<nat>
    requires Enabled(s, step)
  {
    if step.CompareExchange? && step.p == p && !step.spurious && s.head == s.producers[p].head then {|s.log|} else {}
  }

  /** No step moves or unsettles a reservation. */
  lemma StepKeepsLog<T>(s: Ring<T>, step: Step<T>)
    requires Inv(s) && Enabled(s, step) && Defined(s, step)
    ensures var t := Apply(s, step);
            && |s.log| <= |t.log| && s.popped <= t.popped
            && (forall i :: 0 <= i < |s.log| ==> t.log[i].item == s.log[i].item && t.log[i].owner == s.log[i].owner)
            && (forall i :: 0 <= i < |s.log| && Settled(s.log[i].phase) ==> Settled(t.log[i].phase))
  {
    if step.WriteItem? || step.Publish? {
      assert ProducerOk(s, step.p);
    }
  }

  /** A step reserves one place at most. */
  lemma StepReserves<T>(p: nat, s: Ring<T>, step: Step<T>)
    requires Enabled(s, step) && Defined(s, step)
    ensures var t := Apply(s, step);
            && t.width == s.width && t.bits == s.bits && |t.producers| == |s.producers|
            && forall i :: |s.log| <= i < |t.log| && t.log[i].owner == p ==> i in Reserves(p, s, step)
  {
  }

  /** Any step grows the log so. */
  lemma StepGrows<T(!new)>(p: nat, s: Ring<T>, step: Step<T>)
    requires Inv(s) && Enabled(s, step)
    ensures Defined(s, step) && Inv(Apply(s, step))
    ensures Grows(p, Reserves(p, s, step), s, Apply(s, step))
  {
    StepKeeps(s, step);
    assert Next(s, Apply(s, step));
    LeadsByStep(Steps<T>(), s, Apply(s, step));
    StepKeepsLog(s, step);
    StepReserves(p, s, step);
  }

  // ----- the other threads -----

  /** A thread: a producer, or the consumer. */
  type Thread = Option<nat>

  predicate OfOthers<T>(who: Thread, step: Step<T>) {
    match who
    case Some(p) => !(OfProducer(step) && step.p == p)
    case None => OfProducer(step)
  }

  /** The time bound on a push that is under way. */
  predicate OnTime<T>(s: Ring<T>, who: Thread) {
    who.Some? && who.value < |s.producers| ==>
      var me := s.producers[who.value];
      me.AtTail? || me.AtCas? ==> Timely(s, me.seen)
  }

  /** The number to tell the thread's reservations by; the consumer makes none. */
  function Name<T>(who: Thread, s: Ring<T>): nat {
    if who.Some? then who.value else |s.producers|
  }

  ghost predicate Untouched<T>(who: Thread, s: Ring<T>, t: Ring<T>) {
    match who
    case Some(p) => p < |s.producers| == |t.producers| && t.producers[p] == s.producers[p]
    case None => t.consumer == s.consumer && t.popped == s.popped && t.tail == s.tail
  }

  /** What a thread may count on while others run. */
  ghost predicate Meanwhile<T(!new)>(who: Thread, s: Ring<T>, t: Ring<T>) {
    Inv(t) && OnTime(t, who) && Untouched(who, s, t) && Grows(Name(who, s), {}, s, t)
  }

  lemma MeanwhileOn<T(!new)>(who: Thread, s: Ring<T>, t: Ring<T>, u: Ring<T>)
    requires Meanwhile(who, s, t) && Meanwhile(who, t, u)
    ensures Meanwhile(who, s, u)
  {
    GrowsThenNothing(Name(who, s), {}, s, t, u);
  }

  lemma OtherStep<T(!new)>(who: Thread, s: Ring<T>, step: Step<T>)
    requires Inv(s) && Enabled(s, step) && OfOthers(who, step) && (who.Some? ==> who.value < |s.producers|)
    ensures Defined(s, step) && Inv(Apply(s, step))
    ensures OnTime(Apply(s, step), who) ==> Meanwhile(who, s, Apply(s, step))
  {
    StepGrows(Name(who, s), s, step);
    assert Reserves(Name(who, s), s, step) == {};
  }

  // ----- what push and pop promise -----

  datatype Round = Full | Won | Again

  /** As the exchange succeeded there was a free place and the item became the next reservation; no other
      was made for p, and in the end it is published. */
  ghost predicate Accepts<T(!new)>(p: nat, item: T, s: Ring<T>, decided: Ring<T>, t: Ring<T>) {
    && Grows(p, {}, s, decided) && Grows(p, {|decided.log|}, decided, t)
    && |decided.log| < |decided.popped| + decided.Capacity()
    && |decided.log| < |t.log| && t.log[|decided.log|] == Entry(item, p, Published)
    && p < |t.producers| && t.producers[p] == Accepted
  }

  /** As tail was loaded the ring was full; nothing was reserved for p. */
  ghost predicate Refuses<T(!new)>(p: nat, item: T, s: Ring<T>, decided: Ring<T>, t: Ring<T>) {
    && Grows(p, {}, s, decided) && Grows(p, {}, decided, t)
    && |decided.log| == |decided.popped| + decided.Capacity()
    && p < |t.producers| && t.producers[p] == Refused(item)
  }

  /** The consumer's call: from s, by way of the state in which the outcome was decided. */
  ghost predicate Passes<T(!new)>(s: Ring<T>, decided: Ring<T>, t: Ring<T>) {
    && Grows(|s.producers|, {}, s, decided) && Grows(|s.producers|, {}, decided, t)
    && decided.popped == s.popped && |s.popped| <= |decided.log|
  }

  /** Nothing was reserved as head was loaded, or the next place was not published as its flag was. */
  ghost predicate FindsNothing<T(!new)>(s: Ring<T>, decided: Ring<T>, t: Ring<T>) {
    && Passes(s, decided, t) && t.popped == s.popped
    && (|decided.log| == |s.popped| || !Settled(decided.log[|s.popped|].phase))
  }

  /** The oldest item had been published, and is now handed out. */
  ghost predicate TakesOldest<T(!new)>(item: T, s: Ring<T>, decided: Ring<T>, t: Ring<T>) {
    && Passes(s, decided, t) && t.popped == s.popped + [item]
    && |s.popped| < |decided.log| && decided.log[|s.popped|].phase == Published && decided.log[|s.popped|].item == item
  }

  /** The ring's fields, and in `system` all there is: the fields, and where every thread stands. */
  class Shared<T(!new)> {
    const width: nat
    const bits: nat
    var head: nat
    var tail: nat
    const slots: array<Slot<T>>
    var system: Ring<T>

    ghost predicate Valid()
      reads this, slots
    {
      && system.width == width && system.bits == bits
      && system.head == head && system.tail == tail && system.slots == slots[..]
      && Inv(system)
    }

    constructor (width: nat, bits: nat, producers: nat)
      requires bits < width
      ensures Valid() && fresh(slots) && system == NewRing<T>(width, bits, producers)
    {
      this.width, this.bits := width, bits;
      head, tail := 0, 0;
      slots := new Slot<T>[Pow2(bits)](_ => FreeSlot());
      system := NewRing<T>(width, bits, producers);
      new;
      NewRingOk<T>(width, bits, producers);
    }

    /** The fields as other threads have left them. */
    method Become(next: Ring<T>)
      requires Valid() && Inv(next) && next.width == width && next.bits == bits
      modifies this, slots
      ensures Valid() && system == next
    {
      system, head, tail := next, next.head, next.tail;
      forall j | 0 <= j < slots.Length {
        slots[j] := next.slots[j];
      }
    }

    /** One step of another thread, if it can be taken and leaves a push that is under way on time. */
    method OthersStep(who: Thread, step: Step<T>)
      requires Valid() && OnTime(system, who) && (who.Some? ==> who.value < |system.producers|)
      modifies this, slots
      ensures Valid() && Meanwhile(who, old(system), system)
    {
      GrowsNowhere(Name(who, system), system);
      if Enabled(system, step) && OfOthers(who, step) {
        OtherStep(who, system, step);
        var next := if OfProducer(step) then PushStep(system, step) else PopStep(system, step);
        if OnTime(next, who) {
          Become(next);
        }
      }
    }

    /** Other threads run: the first burst of the schedule, if there is one. */
    method Pause(who: Thread, schedule: seq<seq<Step<T>>>) returns (rest: seq<seq<Step<T>>>)
      requires Valid() && OnTime(system, who) && (who.Some? ==> who.value < |system.producers|)
      modifies this, slots
      ensures Valid() && Meanwhile(who, old(system), system)
      ensures if schedule == [] then rest == [] && system == old(system) else rest == schedule[1..]
    {
      GrowsNowhere(Name(who, system), system);
      if schedule == [] {
        return [];
      }
      for j := 0 to |schedule[0]|
        invariant Valid() && Meanwhile(who, old(system), system)
      {
        ghost var before := system;
        OthersStep(who, schedule[0][j]);
        MeanwhileOn(who, old(system), before, system);
      }
      rest := schedule[1..];
    }

    /** `push`, with its exchange failing spuriously `spurious` times and the others running as the
        schedule says. */
    method Push(p: nat, item: T, spurious: nat, schedule: seq<seq<Step<T>>>)
      returns (refused: Option<T>, ghost decided: Ring<T>)
      requires Valid() && Enabled(system, Step.Push(p, item))
      modifies this, slots
      ensures Valid()
      ensures if refused.None? then Accepts(p, item, old(system), decided, system)
              else refused == Some(item) && Refuses(p, item, old(system), decided, system)
    {
      var h, left := LoadHeadWord(p, item, schedule);
      ghost var loaded := system;
      var full;
      full, h, left, decided := ReserveLoop(p, item, h, spurious, left);
      GrowsThenNothing(p, {}, old(system), loaded, decided);
      if full {
        return Some(item), decided;
      }
      ghost var reserved := system;
      Finish(p, item, h, |decided.log|, left);
      GrowsThenNothing(p, {|decided.log|}, decided, reserved, system);
      return None, decided;
    }

    /** Entering `push` and loading head. */
    method LoadHeadWord(p: nat, item: T, schedule: seq<seq<Step<T>>>) returns (h: nat, left: seq<seq<Step<T>>>)
      requires Valid() && Enabled(system, Step.Push(p, item))
      modifies this, slots
      ensures Valid() && Grows(p, {}, old(system), system)
      ensures h == head && p < |system.producers| && system.producers[p] == AtTail(item, h, |system.log|)
    {
      StepGrows(p, system, Step.Push(p, item));
      system := PushStep(system, Step.Push(p, item));
      ghost var entered := system;
      left := Pause(Some(p), schedule);
      GrowsThenNothing(p, {}, old(system), entered, system);
      ghost var before := system;
      h := head;
      StepGrows(p, system, LoadHead(p));
      system := PushStep(system, LoadHead(p));
      GrowsThenNothing(p, {}, old(system), before, system);
    }

    /** Loading tail and testing for a full ring, after the others have run. */
    method LoadTailWord(p: nat, item: T, h: nat, schedule: seq<seq<Step<T>>>)
      returns (full: bool, left: seq<seq<Step<T>>>, ghost decided: Ring<T>)
      requires Valid() && p < |system.producers| && system.producers[p] == AtTail(item, h, |system.log|) && h == head
      modifies this, slots
      ensures Valid() && Grows(p, {}, old(system), decided) && Grows(p, {}, decided, system)
      ensures p < |system.producers|
      ensures if full then
                |decided.log| == |decided.popped| + decided.Capacity() && system.producers[p] == Refused(item)
              else
                system.producers[p] == AtCas(item, h, |old(system).log|) && OnTime(system, Some(p))
      ensures if schedule == [] then left == [] && head == old(head) && |system.log| == |old(system).log|
              else left == schedule[1..]
    {
      PowOrder(bits, width);
      left := Pause(Some(p), schedule);
      decided := system;
      full := TestFull(p, item, h, |old(system).log|);
    }

    /** The test itself. */
    method TestFull(p: nat, item: T, h: nat, ghost seen: nat) returns (full: bool)
      requires Valid() && OnTime(system, Some(p))
      requires p < |system.producers| && system.producers[p] == AtTail(item, h, seen)
      modifies this`system
      ensures Valid() && Grows(p, {}, old(system), system) && p < |system.producers|
      ensures |system.log| == |old(system).log|
      ensures if full then
                && |old(system).log| == |old(system).popped| + old(system).Capacity()
                && system.producers[p] == Refused(item)
              else
                system.producers[p] == AtCas(item, h, seen) && OnTime(system, Some(p))
    {
      PowOrder(bits, width);
      FullIff(system, p);
      StepGrows(p, system, LoadTail(p));
      var t := tail;
      full := (h - t) % Pow2(width) == slots.Length;
      system := PushStep(system, LoadTail(p));
    }

    /** The compare-and-exchange, after the others have run; a failing one loads head again. */
    method Exchange(p: nat, item: T, h: nat, ghost seen: nat, spurious: bool, schedule: seq<seq<Step<T>>>)
      returns (done: bool, next: nat, left: seq<seq<Step<T>>>, ghost decided: Ring<T>)
      requires Valid() && OnTime(system, Some(p))
      requires p < |system.producers| && system.producers[p] == AtCas(item, h, seen)
      modifies this, slots
      ensures Valid() && Grows(p, {}, old(system), decided) && p < |system.producers|
      ensures if done then
                && Grows(p, {|decided.log|}, decided, system)
                && |decided.log| < |decided.popped| + decided.Capacity() && |system.log| == |decided.log| + 1
                && system.producers[p] == AtWrite(item, next, |decided.log|)
              else
                && Grows(p, {}, old(system), system) && next == head
                && system.producers[p] == AtTail(item, next, |system.log|)
      ensures if schedule == [] then left == [] && (old(head) == h && !spurious ==> done) else left == schedule[1..]
    {
      left := Pause(Some(p), schedule);
      decided := system;
      if head == h && !spurious {
        Win(p, item, h, seen);
        done, next := true, h;
      } else {
        done := false;
        next := Lose(p, item, h, seen, spurious);
        GrowsThenNothing(p, {}, old(system), decided, system);
      }
    }

    /** The exchange that succeeds. */
    method Win(p: nat, item: T, h: nat, ghost seen: nat)
      requires Valid() && OnTime(system, Some(p))
      requires p < |system.producers| && system.producers[p] == AtCas(item, h, seen)
      requires head == h
      modifies this`head, this`system
      ensures Valid() && Grows(p, {|old(system).log|}, old(system), system) && p < |system.producers|
      ensures |old(system).log| < |old(system).popped| + old(system).Capacity() && |system.log| == |old(system).log| + 1
      ensures system.producers[p] == AtWrite(item, h, |old(system).log|)
    {
      PowOrder(bits, width);
      ReservationHasRoom(system, p);
      StepGrows(p, system, CompareExchange(p, false));
      head := (h + 1) % Pow2(width);
      system := PushStep(system, CompareExchange(p, false));
    }

    /** The exchange that fails, spuriously or because head has moved, and loads head again. */
    method Lose(p: nat, item: T, h: nat, ghost seen: nat, spurious: bool) returns (next: nat)
      requires Valid() && OnTime(system, Some(p))
      requires p < |system.producers| && system.producers[p] == AtCas(item, h, seen)
      requires head != h || spurious
      modifies this`system
      ensures Valid() && Grows(p, {}, old(system), system) && p < |system.producers|
      ensures next == head && system.producers[p] == AtTail(item, next, |system.log|)
    {
      PowOrder(bits, width);
      StepGrows(p, system, CompareExchange(p, spurious));
      next := head;
      system := PushStep(system, CompareExchange(p, spurious));
    }

    /** One round of the loop: a full ring, a reservation, or a head value to try again with. */
    method Attempt(p: nat, item: T, h: nat, spurious: bool, schedule: seq<seq<Step<T>>>)
      returns (round: Round, next: nat, left: seq<seq<Step<T>>>, ghost decided: Ring<T>)
      requires Valid() && p < |system.producers| && system.producers[p] == AtTail(item, h, |system.log|) && h == head
      modifies this, slots
      ensures Valid() && Grows(p, {}, old(system), decided) && p < |system.producers|
      ensures match round
              case Full =>
                && Grows(p, {}, decided, system) && system.producers[p] == Refused(item)
                && |decided.log| == |decided.popped| + decided.Capacity()
              case Won =>
                && Grows(p, {|decided.log|}, decided, system)
                && |decided.log| < |decided.popped| + decided.Capacity() && |system.log| == |decided.log| + 1
                && system.producers[p] == AtWrite(item, next, |decided.log|)
              case Again =>
                && Grows(p, {}, old(system), system) && next == head
                && system.producers[p] == AtTail(item, next, |system.log|)
      ensures if schedule == [] then left == [] && (!spurious ==> !round.Again?) else |left| < |schedule|
    {
      var full;
      full, left, decided := LoadTailWord(p, item, h, schedule);
      if full {
        return Full, h, left, decided;
      }
      ghost var passed, tested := decided, system;
      GrowsThenNothing(p, {}, old(system), passed, tested);
      var done;
      done, next, left, decided := Exchange(p, item, h, |old(system).log|, spurious, left);
      GrowsThenNothing(p, {}, old(system), tested, decided);
      if done {
        return Won, next, left, decided;
      }
      GrowsThenNothing(p, {}, old(system), tested, system);
      return Again, next, left, decided;
    }

    /** The loop of `push`: until the ring is seen full or a place is reserved. */
    method ReserveLoop(p: nat, item: T, start: nat, spurious: nat, schedule: seq<seq<Step<T>>>)
      returns (full: bool, h: nat, left: seq<seq<Step<T>>>, ghost decided: Ring<T>)
      requires Valid() && p < |system.producers| && start == head
      requires system.producers[p] == AtTail(item, start, |system.log|)
      modifies this, slots
      ensures Valid() && Grows(p, {}, old(system), decided) && p < |system.producers|
      ensures if full then
                && Grows(p, {}, decided, system) && system.producers[p] == Refused(item)
                && |decided.log| == |decided.popped| + decided.Capacity()
              else
                && Grows(p, {|decided.log|}, decided, system)
                && |decided.log| < |decided.popped| + decided.Capacity() && |system.log| == |decided.log| + 1
                && system.producers[p] == AtWrite(item, h, |decided.log|)
    {
      var again := spurious;
      h, left := start, schedule;
      GrowsNowhere(p, system);
      while true
        invariant Valid() && Grows(p, {}, old(system), system)
        invariant p < |system.producers| && system.producers[p] == AtTail(item, h, |system.log|) && h == head
        decreases |left| + again
      {
        ghost var before := system;
        var round;
        round, h, left, decided := Attempt(p, item, h, again > 0, left);
        GrowsThenNothing(p, {}, old(system), before, decided);
        if !round.Again? {
          return round.Full?, h, left, decided;
        }
        GrowsThenNothing(p, {}, old(system), before, system);
        again := if again > 0 then again - 1 else 0;
      }
    }

    /** What is left to do once a place is reserved. */
    method Finish(p: nat, item: T, reserved: nat, ghost place: nat, schedule: seq<seq<Step<T>>>)
      requires Valid() && p < |system.producers| && system.producers[p] == AtWrite(item, reserved, place)
      modifies this, slots
      ensures Valid() && Grows(p, {}, old(system), system)
      ensures p < |system.producers| && system.producers[p] == Accepted
      ensures place < |system.log| && system.log[place] == Entry(item, p, Published)
    {
      var left := Fill(p, item, reserved, place, schedule);
      ghost var filled := system;
      Announce(p, item, reserved, place, left);
      GrowsThenNothing(p, {}, old(system), filled, system);
    }

    /** Writing the item into the reserved slot, after the others have run. */
    method Fill(p: nat, item: T, reserved: nat, ghost place: nat, schedule: seq<seq<Step<T>>>)
      returns (left: seq<seq<Step<T>>>)
      requires Valid() && p < |system.producers| && system.producers[p] == AtWrite(item, reserved, place)
      modifies this, slots
      ensures Valid() && Grows(p, {}, old(system), system)
      ensures p < |system.producers| && system.producers[p] == AtPublish(reserved, place)
      ensures place < |system.log| && system.log[place].item == item
    {
      left := Pause(Some(p), schedule);
      ghost var before := system;
      assert ProducerOk(system, p);
      WriteFindsFreeSlot(system, p);
      StepGrows(p, system, WriteItem(p));
      var i := BitAnd(reserved, slots.Length - 1);
      slots[i] := slots[i].(cell := Init(item));
      system := PushStep(system, WriteItem(p));
      GrowsThenNothing(p, {}, old(system), before, system);
    }

    /** Raising the ready flag, after the others have run. */
    method Announce(p: nat, item: T, reserved: nat, ghost place: nat, schedule: seq<seq<Step<T>>>)
      requires Valid() && p < |system.producers| && system.producers[p] == AtPublish(reserved, place)
      requires place < |system.log| && system.log[place].item == item
      modifies this, slots
      ensures Valid() && Grows(p, {}, old(system), system)
      ensures p < |system.producers| && system.producers[p] == Accepted
      ensures place < |system.log| && system.log[place] == Entry(item, p, Published)
    {
      var left := Pause(Some(p), schedule);
      ghost var before := system;
      assert ProducerOk(system, p);
      PublishFindsItem(system, p);
      StepGrows(p, system, Publish(p));
      var i := BitAnd(reserved, slots.Length - 1);
      slots[i] := slots[i].(ready := true);
      system := PushStep(system, Publish(p));
      GrowsThenNothing(p, {}, old(system), before, system);
    }

    /** `pop`, the producers running as the schedule says. */
    method Pop(schedule: seq<seq<Step<T>>>) returns (popped: Option<T>, ghost decided: Ring<T>)
      requires Valid() && Enabled(system, Step.Pop)
      modifies this, slots
      ensures Valid()
      ensures if popped.None? then FindsNothing(old(system), decided, system)
              else TakesOldest(popped.value, old(system), decided, system)
    {
      var ready, t, left;
      ready, t, left, decided := FindReady(schedule);
      if !ready {
        return None, decided;
      }
      ghost var found := system;
      var item := TakeOut(t, left);
      GrowsThenNothing(|old(system).producers|, {}, decided, found, system);
      return Some(item), decided;
    }

    /** Loading tail, and head after the producers have run. */
    method FindHead(schedule: seq<seq<Step<T>>>)
      returns (empty: bool, t: nat, left: seq<seq<Step<T>>>, ghost decided: Ring<T>)
      requires Valid() && Enabled(system, Step.Pop)
      modifies this, slots
      ensures Valid() && Passes(old(system), decided, system) && system.popped == old(system).popped
      ensures |decided.log| == |system.log| && (empty <==> |decided.log| == |system.popped|)
      ensures if empty then system.consumer.Resting? else system.consumer == LoadingReady(t)
    {
      ghost var n := |system.producers|;
      t := tail;
      StepGrows(n, system, Step.Pop);
      system := PopStep(system, Step.Pop);
      ghost var entered := system;
      left := Pause(None, schedule);
      decided := system;
      GrowsThenNothing(n, {}, old(system), entered, decided);
      EmptyIff(system);
      StepGrows(n, system, LoadHeadForPop);
      empty := t == head;
      system := PopStep(system, LoadHeadForPop);
    }

    /** The two tests before an item is taken. */
    method FindReady(schedule: seq<seq<Step<T>>>)
      returns (ready: bool, t: nat, left: seq<seq<Step<T>>>, ghost decided: Ring<T>)
      requires Valid() && Enabled(system, Step.Pop)
      modifies this, slots
      ensures Valid() && Passes(old(system), decided, system) && system.popped == old(system).popped
      ensures if ready then
                && system.consumer == Reading(t)
                && |system.popped| < |decided.log| == |system.log| && decided.log[|system.popped|].phase == Published
                && decided.log[|system.popped|].item == system.log[|system.popped|].item
              else FindsNothing(old(system), decided, system)
    {
      ghost var n := |system.producers|;
      var empty;
      empty, t, left, decided := FindHead(schedule);
      if empty {
        return false, t, left, decided;
      }
      ghost var loaded := system;
      GrowsThenNothing(n, {}, old(system), decided, loaded);
      left := Pause(None, left);
      decided := system;
      GrowsThenNothing(n, {}, old(system), loaded, decided);
      ConsumerSlot(system);
      StepGrows(n, system, LoadReady);
      ready := slots[BitAnd(t, slots.Length - 1)].ready;
      system := PopStep(system, LoadReady);
    }

    /** Moving the item out of its slot, after the producers have run. */
    method Take(t: nat, schedule: seq<seq<Step<T>>>) returns (item: T, left: seq<seq<Step<T>>>)
      requires Valid() && system.consumer == Reading(t)
      modifies this, slots
      ensures Valid() && Grows(|old(system).producers|, {}, old(system), system) && system.popped == old(system).popped
      ensures system.consumer == Clearing(t, item)
      ensures |system.popped| < |old(system).log| && item == old(system).log[|system.popped|].item
    {
      ghost var n := |system.producers|;
      left := Pause(None, schedule);
      ghost var before := system;
      ReadFindsItem(system);
      StepGrows(n, system, ReadItem);
      var i := BitAnd(t, slots.Length - 1);
      item := slots[i].cell.value;
      slots[i] := slots[i].(cell := Uninit);
      system := PopStep(system, ReadItem);
      GrowsThenNothing(n, {}, old(system), before, system);
    }

    /** Clearing the ready flag, after the producers have run. */
    method Clear(t: nat, ghost item: T, schedule: seq<seq<Step<T>>>) returns (left: seq<seq<Step<T>>>)
      requires Valid() && system.consumer == Clearing(t, item)
      modifies this, slots
      ensures Valid() && Grows(|old(system).producers|, {}, old(system), system) && system.popped == old(system).popped
      ensures system.consumer == Releasing(t, item)
    {
      ghost var n := |system.producers|;
      left := Pause(None, schedule);
      ghost var before := system;
      ConsumerSlot(system);
      StepGrows(n, system, ClearReady);
      var i := BitAnd(t, slots.Length - 1);
      slots[i] := slots[i].(ready := false);
      system := PopStep(system, ClearReady);
      GrowsThenNothing(n, {}, old(system), before, system);
    }

    /** Storing the incremented tail, after the producers have run. */
    method Release(t: nat, ghost item: T, schedule: seq<seq<Step<T>>>)
      requires Valid() && system.consumer == Releasing(t, item)
      modifies this, slots
      ensures Valid() && Grows(|old(system).producers|, {}, old(system), system)
      ensures system.popped == old(system).popped + [item]
    {
      ghost var n := |system.producers|;
      var left := Pause(None, schedule);
      ghost var before := system;
      StepGrows(n, system, StoreTail);
      tail := (t + 1) % Pow2(width);
      system := PopStep(system, StoreTail);
      GrowsThenNothing(n, {}, old(system), before, system);
    }

    /** The three stores that take the item and give its slot back. */
    method TakeOut(t: nat, schedule: seq<seq<Step<T>>>) returns (item: T)
      requires Valid() && system.consumer == Reading(t)
      modifies this, slots
      ensures Valid() && Grows(|old(system).producers|, {}, old(system), system)
      ensures system.popped == old(system).popped + [item]
      ensures |old(system).popped| < |old(system).log| && item == old(system).log[|old(system).popped|].item
    {
      ghost var n := |system.producers|;
      var left;
      item, left := Take(t, schedule);
      ghost var taken := system;
      left := Clear(t, item, left);
      ghost var cleared := system;
      GrowsThenNothing(n, {}, old(system), taken, cleared);
      Release(t, item, left);
      GrowsThenNothing(n, {}, old(system), cleared, system);
    }

    /** `Drop`: nobody else left, the items reserved and not popped are destroyed, each once. */
    method Destroy() returns (destroyed: seq<T>)
      requires Valid() && Quiescent(system)
      modifies slots
      ensures |system.popped| <= |system.log|
      ensures multiset(destroyed) == multiset(Items(system.log)[|system.popped|..])
      ensures forall j :: 0 <= j < slots.Length ==> !slots[j].ready
    {
      QuiescentHolds(system);
      HeldItems(system.slots, |system.popped|, Items(system.log)[|system.popped|..]);
      forall j | 0 <= j < slots.Length
        ensures slots[j].ready ==> slots[j].cell.Init?
      {
        ReadyIff(system, j);
      }
      destroyed := Drop(slots);
    }
  }
}
