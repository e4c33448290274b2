/** The single-producer ring's code: `push` and `pop` on words and slots, with any steps of the other
    thread between any two of its own, and index loads that may lag. */
module SpscCode {
  import opened Wrappers
  import opened Words
  import opened Counters
  import opened Paths
  import opened SpscRing

  // ----- the other thread -----

  datatype Side = Pushing | Popping

  function SideOf<T>(step: Step<T>): Side {
    if step.Push? || step.LoadHead? || step.LoadTail? || step.WriteItem? || step.StoreHead? then Pushing else Popping
  }

  ghost function Steps<T(!new)>(): (Ring<T>, Ring<T>) -> bool {
    (s: Ring<T>, t: Ring<T>) => Next(s, t)
  }

  /** Steps went from s to t; what was pushed and popped only grew at the end. */
  ghost predicate Grows<T(!new)>(s: Ring<T>, t: Ring<T>) {
    && Leads(Steps<T>(), s, t)
    && t.width == s.width && t.bits == s.bits && s.pushed <= t.pushed && s.popped <= t.popped
  }

  lemma GrowsNowhere<T(!new)>(s: Ring<T>)
    ensures Grows(s, s)
  {
    LeadsNowhere(Steps<T>(), s);
  }

  lemma GrowsOn<T(!new)>(s: Ring<T>, t: Ring<T>, u: Ring<T>)
    requires Grows(s, t) && Grows(t, u)
    ensures Grows(s, u)
  {
    LeadsOn(Steps<T>(), s, t, u);
  }

  lemma StepGrows<T(!new)>(s: Ring<T>, step: Step<T>)
    requires Inv(s) && Enabled(s, step)
    ensures Defined(step) && Inv(Apply(s, step)) && Grows(s, Apply(s, step))
  {
    StepKeeps(s, step);
    assert Next(s, Apply(s, step));
    LeadsByStep(Steps<T>(), s, Apply(s, step));
  }

  /** What one side may count on while the other runs. */
  ghost predicate Meanwhile<T(!new)>(me: Side, s: Ring<T>, t: Ring<T>) {
    && Inv(t) && Grows(s, t)
    && match me
       case Pushing =>
         t.producer == s.producer && t.pushed == s.pushed && t.writes == s.writes && t.tailView == s.tailView
       case Popping =>
         t.consumer == s.consumer && t.popped == s.popped && t.headView == s.headView
  }

  lemma OtherStep<T(!new)>(me: Side, s: Ring<T>, step: Step<T>)
    requires Inv(s) && Enabled(s, step) && SideOf(step) != me
    ensures Defined(step) && Meanwhile(me, s, Apply(s, step))
  {
    StepGrows(s, step);
  }

  // ----- what push and pop promise -----

  /** The store a load sees: the one asked for, if it may still be seen, otherwise the newest. */
  function Seen(view: Option<nat>, oldest: nat, newest: nat): nat {
    if view.Some? && oldest <= view.value <= newest then view.value else newest
  }

  /** The producer's call: tail was loaded in state `decided`. */
  ghost predicate Pushes<T(!new)>(view: Option<nat>, s: Ring<T>, decided: Ring<T>, t: Ring<T>) {
    && Grows(s, decided) && Grows(decided, t) && decided.pushed == s.pushed
    && t.tailView == Seen(view, s.tailView, |decided.popped|)
  }

  /** The consumer's call: head was loaded in state `decided`. */
  ghost predicate Pops<T(!new)>(view: Option<nat>, s: Ring<T>, decided: Ring<T>, t: Ring<T>) {
    && Grows(s, decided) && Grows(decided, t) && decided.popped == s.popped
    && t.headView == Seen(view, s.headView, |decided.pushed|)
  }

  /** The ring's fields, and in `system` all there is: the fields, and where both threads stand. */
  class Shared<T(!new)> {
    const width: nat
    const bits: nat
    var head: nat
    var tail: nat
    const buf: array<Cell<T>>
    var system: Ring<T>

    ghost predicate Valid()
      reads this, buf
    {
      && system.width == width && system.bits == bits && Inv(system)
      && head == system.Word(|system.pushed|) && tail == system.Word(|system.popped|)
      && buf.Length == system.Capacity()
      && forall j :: 0 <= j < buf.Length ==> buf[j] == LastWrite(system.writes, j)
    }

    constructor (width: nat, bits: nat)
      requires bits < width
      ensures Valid() && fresh(buf) && system == NewRing<T>(width, bits)
    {
      this.width, this.bits := width, bits;
      head, tail := 0, 0;
      buf := new Cell<T>[Pow2(bits)](_ => Uninit);
      system := NewRing<T>(width, bits);
      new;
      ZeroMod(Pow2(width));
    }

    /** The fields as the other thread has left them. */
    method Become(next: Ring<T>)
      requires Valid() && Inv(next) && next.width == width && next.bits == bits
      modifies this, buf
      ensures Valid() && system == next
    {
      system, head, tail := next, next.Word(|next.pushed|), next.Word(|next.popped|);
      forall j | 0 <= j < buf.Length {
        buf[j] := LastWrite(next.writes, j);
      }
    }

    /** The other thread runs: the first burst of the schedule, if there is one, without the steps that
        cannot be taken. */
    method Pause(me: Side, schedule: seq<seq<Step<T>>>) returns (rest: seq<seq<Step<T>>>)
      requires Valid()
      modifies this, buf
      ensures Valid() && Meanwhile(me, old(system), system)
      ensures if schedule == [] then rest == [] && system == old(system) else rest == schedule[1..]
    {
      GrowsNowhere(system);
      if schedule == [] {
        return [];
      }
      for j := 0 to |schedule[0]|
        invariant Valid() && Meanwhile(me, old(system), system)
      {
        var step := schedule[0][j];
        if Enabled(system, step) && SideOf(step) != me {
          OtherStep(me, system, step);
          GrowsOn(old(system), system, Apply(system, step));
          Become(Apply(system, step));
        }
      }
      rest := schedule[1..];
    }

    /** `push`, its load of tail seeing `view` and the consumer running as the schedule says: refused
        exactly when head is a lap ahead of the store seen, and otherwise the item is pushed. */
    method Push(item: T, view: Option<nat>, schedule: seq<seq<Step<T>>>)
      returns (refused: Option<T>, ghost decided: Ring<T>)
      requires Valid() && Enabled(system, Step.Push(item))
      modifies this, buf
      ensures Valid() && Pushes(view, old(system), decided, system)
      ensures refused == if |old(system).pushed| == system.tailView + system.Capacity() then Some(item) else None
      ensures system.pushed == old(system).pushed + if refused.None? then [item] else []
      ensures system.producer == if refused.None? then Accepted else Refused(item)
    {
      assert system.pushed + [] == system.pushed;
      var full, h, left;
      full, h, left, decided := FindFull(item, view, schedule);
      if full {
        return Some(item), decided;
      }
      ghost var found := system;
      left := WriteSlot(item, h, left);
      ghost var written := system;
      GrowsOn(decided, found, written);
      Publish(item, h, left);
      GrowsOn(decided, written, system);
      return None, decided;
    }

    /** Entering `push` and loading head. */
    method LoadOwnHead(item: T) returns (h: nat)
      requires Valid() && Enabled(system, Step.Push(item))
      modifies this`system
      ensures Valid() && Grows(old(system), system) && h == head
      ensures system == old(system).(producer := LoadingTail(item, h))
    {
      StepGrows(system, Step.Push(item));
      system := Apply(system, Step.Push(item));
      ghost var entered := system;
      StepGrows(system, LoadHead);
      h := head;
      system := Apply(system, LoadHead);
      GrowsOn(old(system), entered, system);
    }

    /** The loads of both indices and the test for a full ring. */
    method FindFull(item: T, view: Option<nat>, schedule: seq<seq<Step<T>>>)
      returns (full: bool, h: nat, left: seq<seq<Step<T>>>, ghost decided: Ring<T>)
      requires Valid() && Enabled(system, Step.Push(item))
      modifies this, buf
      ensures Valid() && Pushes(view, old(system), decided, system) && system.pushed == old(system).pushed
      ensures full <==> |system.pushed| == system.tailView + system.Capacity()
      ensures system.producer == if full then Refused(item) else Writing(item, h)
    {
      h := LoadOwnHead(item);
      ghost var loaded := system;
      left := Pause(Pushing, schedule);
      decided := system;
      GrowsOn(old(system), loaded, decided);
      var seen := Seen(view, system.tailView, |system.popped|);
      FullIff(system, seen);
      StepGrows(system, LoadTail(seen));
      full := (h - system.Word(seen)) % Pow2(width) == buf.Length;
      system := Apply(system, LoadTail(seen));
    }

    /** Writing the item into the slot of head, after the consumer has run. */
    method WriteSlot(item: T, h: nat, schedule: seq<seq<Step<T>>>) returns (left: seq<seq<Step<T>>>)
      requires Valid() && system.producer == Writing(item, h)
      modifies this, buf
      ensures Valid() && Grows(old(system), system) && system.producer == StoringHead(item, h)
      ensures system.pushed == old(system).pushed && system.tailView == old(system).tailView
    {
      left := Pause(Pushing, schedule);
      ghost var before := system;
      WriteFindsReadSlot(system);
      StepGrows(system, WriteItem);
      buf[BitAnd(h, buf.Length - 1)] := Init(item);
      system := Apply(system, WriteItem);
      LastWriteAfter(before.writes, before.Index(h), item);
      GrowsOn(old(system), before, system);
    }

    /** Storing the incremented head, after the consumer has run. */
    method Publish(item: T, h: nat, schedule: seq<seq<Step<T>>>)
      requires Valid() && system.producer == StoringHead(item, h)
      modifies this, buf
      ensures Valid() && Grows(old(system), system) && system.producer == Accepted
      ensures system.pushed == old(system).pushed + [item] && system.tailView == old(system).tailView
    {
      var left := Pause(Pushing, schedule);
      ghost var before := system;
      NextWord(|system.pushed|, Pow2(width));
      StepGrows(system, StoreHead);
      head := (h + 1) % Pow2(width);
      system := Apply(system, StoreHead);
      GrowsOn(old(system), before, system);
    }

    /** `pop`, its load of head seeing `view` and the producer running as the schedule says: nothing
        exactly when the store seen is for an item already popped, and otherwise the oldest item. */
    method Pop(view: Option<nat>, schedule: seq<seq<Step<T>>>) returns (popped: Option<T>, ghost decided: Ring<T>)
      requires Valid() && Enabled(system, Step<T>.Pop)
      modifies this, buf
      ensures Valid() && Pops(view, old(system), decided, system)
      ensures |old(system).popped| <= |system.pushed|
      ensures popped == if |old(system).popped| == system.headView then None
                        else Some(system.pushed[|old(system).popped|])
      ensures system.popped == old(system).popped + if popped.Some? then [popped.value] else []
      ensures system.consumer == Resting(popped)
      ensures schedule == [] ==> system.pushed == old(system).pushed
    {
      assert system.popped + [] == system.popped;
      var empty, t, left;
      empty, t, left, decided := FindEmpty(view, schedule);
      if empty {
        return None, decided;
      }
      ghost var found := system;
      var item;
      item, left := ReadSlot(t, left);
      ghost var read := system;
      GrowsOn(decided, found, read);
      Advance(t, item, left);
      GrowsOn(decided, read, system);
      return Some(item), decided;
    }

    /** Entering `pop` and loading tail. */
    method LoadOwnTail() returns (t: nat)
      requires Valid() && Enabled(system, Step<T>.Pop)
      modifies this`system
      ensures Valid() && Grows(old(system), system) && t == tail
      ensures system == old(system).(consumer := Consumer<T>.LoadingHeadForPop(t))
    {
      StepGrows(system, Step<T>.Pop);
      system := Apply(system, Step<T>.Pop);
      ghost var entered := system;
      StepGrows(system, LoadTailForPop);
      t := tail;
      system := Apply(system, LoadTailForPop);
      GrowsOn(old(system), entered, system);
    }

    /** The loads of both indices and the test for an empty ring. */
    method FindEmpty(view: Option<nat>, schedule: seq<seq<Step<T>>>)
      returns (empty: bool, t: nat, left: seq<seq<Step<T>>>, ghost decided: Ring<T>)
      requires Valid() && Enabled(system, Step<T>.Pop)
      modifies this, buf
      ensures Valid() && Pops(view, old(system), decided, system) && system.popped == old(system).popped
      ensures |system.popped| <= |system.pushed| && (empty <==> |system.popped| == system.headView)
      ensures system.consumer == if empty then Resting(None) else Reading(t)
      ensures schedule == [] ==> left == [] && system.pushed == old(system).pushed
    {
      t := LoadOwnTail();
      ghost var loaded := system;
      left := Pause(Popping, schedule);
      decided := system;
      GrowsOn(old(system), loaded, decided);
      var seen := Seen(view, system.headView, |system.pushed|);
      EmptyIff(system, seen);
      StepGrows(system, LoadHeadForPop(seen));
      empty := t == system.Word(seen);
      system := Apply(system, LoadHeadForPop(seen));
    }

    /** Reading the oldest item, after the producer has run. */
    method ReadSlot(t: nat, schedule: seq<seq<Step<T>>>) returns (item: T, left: seq<seq<Step<T>>>)
      requires Valid() && system.consumer == Reading(t)
      modifies this, buf
      ensures Valid() && Grows(old(system), system) && system.consumer == StoringTail(t, item)
      ensures system.popped == old(system).popped && system.headView == old(system).headView
      ensures |system.popped| < |system.pushed| && item == system.pushed[|system.popped|]
      ensures schedule == [] ==> left == [] && system.pushed == old(system).pushed
    {
      left := Pause(Popping, schedule);
      ghost var before := system;
      OldestIsInSlot(system);
      StepGrows(system, ReadItem(Some(|system.popped|)));
      item := buf[BitAnd(t, buf.Length - 1)].value;
      system := Apply(system, ReadItem(Some(|system.popped|)));
      GrowsOn(old(system), before, system);
    }

    /** Storing the incremented tail, after the producer has run. */
    method Advance(t: nat, item: T, schedule: seq<seq<Step<T>>>)
      requires Valid() && system.consumer == StoringTail(t, item)
      modifies this, buf
      ensures Valid() && Grows(old(system), system) && system.consumer == Resting(Some(item))
      ensures system.popped == old(system).popped + [item] && system.headView == old(system).headView
      ensures schedule == [] ==> system.pushed == old(system).pushed
    {
      var left := Pause(Popping, schedule);
      ghost var before := system;
      NextWord(|system.popped|, Pow2(width));
      StepGrows(system, StoreTail);
      tail := (t + 1) % Pow2(width);
      system := Apply(system, StoreTail);
      GrowsOn(old(system), before, system);
    }

    /** `Drop`: popping until nothing is left, nobody else there, destroys exactly the pushed items that
        were not popped, in order. */
    method Drop() returns (destroyed: seq<T>)
      requires Valid() && Enabled(system, Step<T>.Pop)
      modifies this, buf
      ensures old(|system.popped|) <= old(|system.pushed|)
      ensures destroyed == old(system).pushed[old(|system.popped|)..]
    {
      destroyed := [];
      while true
        invariant Valid() && Enabled(system, Step<T>.Pop) && system.pushed == old(system).pushed
        invariant |old(system).popped| <= |system.popped| <= |system.pushed|
        invariant destroyed == system.pushed[|old(system).popped|..|system.popped|]
        decreases |system.pushed| - |system.popped|
      {
        var item, decided := Pop(None, []);
        if item.None? {
          return;
        }
        destroyed := destroyed + [item.value];
      }
    }
  }
}
