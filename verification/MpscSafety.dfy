/** The multi-producer ring over whole runs: safety, order, what refusals mean, and dropping. */
module MpscSafety {
  import opened Wrappers
  import opened Words
  import opened Counters
  import opened MpscRing

  // ----- runs -----

  /** What a step needs to be memory-safe: an index in range, a free slot to write, an item to read. */
  ghost predicate Defined<T>(s: Ring<T>, step: Step<T>)
    requires Enabled(s, step)
  {
    match step
    case WriteItem(p) =>
      InSlots(s, s.producers[p].reserved) && s.slots[s.Index(s.producers[p].reserved)] == FreeSlot()
    case Publish(p) =>
      InSlots(s, s.producers[p].reserved) && s.slots[s.Index(s.producers[p].reserved)].cell.Init?
    case LoadReady => InSlots(s, s.consumer.tail)
    case ReadItem =>
      InSlots(s, s.consumer.tail)
      && s.slots[s.Index(s.consumer.tail)].ready && s.slots[s.Index(s.consumer.tail)].cell.Init?
    case ClearReady => InSlots(s, s.consumer.tail)
    case _ => true
  }

  predicate OfProducer<T>(step: Step<T>) {
    step.Push? || step.LoadHead? || step.LoadTail? || step.CompareExchange? || step.WriteItem? || step.Publish?
  }

  ghost function Apply<T>(s: Ring<T>, step: Step<T>): Ring<T>
    requires Enabled(s, step) && Defined(s, step)
  {
    if OfProducer(step) then PushStep(s, step) else PopStep(s, step)
  }

  ghost predicate Next<T(!new)>(s: Ring<T>, s': Ring<T>) {
    exists step :: Enabled(s, step) && Defined(s, step) && s' == Apply(s, step)
  }

  /** Any interleaving of any number of producers and the consumer. */
  ghost predicate Run<T(!new)>(ss: seq<Ring<T>>) {
    && ss != []
    && (exists width, bits, producers :: bits < width && ss[0] == NewRing(width, bits, producers))
    && forall i, j :: 0 <= i && j == i + 1 && j < |ss| ==> Next(ss[i], ss[j])
  }

  /** Every step that can be taken is memory-safe and keeps the invariant. */
  lemma StepKeeps<T>(s: Ring<T>, step: Step<T>)
    requires Inv(s) && Enabled(s, step)
    ensures Defined(s, step) && Inv(Apply(s, step))
  {
    match step {
      case Push(_, _) => LoadsKeep(s, step);
      case LoadHead(_) => LoadsKeep(s, step);
      case LoadTail(_) => LoadsKeep(s, step);
      case CompareExchange(p, spurious) =>
        if s.head == s.producers[p].head && !spurious {
          ReserveKeeps(s, p);
        } else {
          RetryKeeps(s, p, spurious);
        }
      case WriteItem(p) =>
        WriteFindsFreeSlot(s, p);
        WriteKeeps(s, p);
      case Publish(p) =>
        PublishFindsItem(s, p);
        PublishKeeps(s, p);
      case Pop => ConsumerLoadsKeep(s, step);
      case LoadHeadForPop => ConsumerLoadsKeep(s, step);
      case LoadReady => ConsumerLoadsKeep(s, step);
      case ReadItem =>
        ReadFindsItem(s);
        ReadKeeps(s);
      case ClearReady => ClearKeeps(s);
      case StoreTail => ReleaseKeeps(s);
    }
  }

  lemma {:induction false} EveryStateOk<T(!new)>(ss: seq<Ring<T>>, i: nat)
    requires Run(ss) && i < |ss|
    ensures Inv(ss[i])
    decreases i
  {
    if i == 0 {
      var width, bits, producers :| bits < width && ss[0] == NewRing<T>(width, bits, producers);
      NewRingOk<T>(width, bits, producers);
    } else {
      EveryStateOk(ss, i - 1);
      assert Next(ss[i - 1], ss[i]);
      var step :| Enabled(ss[i - 1], step) && Defined(ss[i - 1], step) && ss[i] == Apply(ss[i - 1], step);
      StepKeeps(ss[i - 1], step);
    }
  }

  // ----- safety and order -----

  /** The items in reservation order. */
  function Items<T>(log: seq<Entry<T>>): (items: seq<T>)
    ensures |items| == |log| && forall i :: 0 <= i < |log| ==> items[i] == log[i].item
  {
    seq(|log|, i requires 0 <= i < |log| => log[i].item)
  }

  /** In every reachable state: at most a ring's worth of items is reserved and not popped, that number
      is what the two words differ by, the popped items are the first ones reserved, in order, and no
      step that can be taken writes over an unread item, reads an unwritten one or misses the slots. */
  lemma RingIsSafe<T(!new)>(ss: seq<Ring<T>>, i: nat)
    requires Run(ss) && i < |ss|
    ensures var s := ss[i];
            && |s.popped| <= |s.log| <= |s.popped| + s.Capacity()
            && s.WrappingSub(s.head, s.tail) == |s.log| - |s.popped|
            && s.popped == Items(s.log)[..|s.popped|]
            && forall step :: Enabled(s, step) ==> Defined(s, step)
  {
    var s := ss[i];
    EveryStateOk(ss, i);
    PowOrder(s.bits, s.width);
    WrappedDifference(|s.log|, |s.popped|, s.Modulus(), |s.log| - |s.popped|, 0);
    forall step | Enabled(s, step)
      ensures Defined(s, step)
    {
      StepKeeps(s, step);
    }
  }

  /** One step changes the reservation order and the popped items only by adding at the end. */
  lemma StepExtends<T>(s: Ring<T>, step: Step<T>)
    requires Inv(s) && Enabled(s, step) && Defined(s, step)
    ensures Items(s.log) <= Items(Apply(s, step).log) && s.popped <= Apply(s, step).popped
  {
  }

  /** Over a run, reservations keep their order and popped items stay popped. */
  lemma {:induction false} OrderNeverChanges<T(!new)>(ss: seq<Ring<T>>, i: nat, j: nat)
    requires Run(ss) && i <= j < |ss|
    ensures Items(ss[i].log) <= Items(ss[j].log) && ss[i].popped <= ss[j].popped
    decreases j
  {
    if i < j {
      OrderNeverChanges(ss, i, j - 1);
      EveryStateOk(ss, j - 1);
      assert Next(ss[j - 1], ss[j]);
      var step :| Enabled(ss[j - 1], step) && Defined(ss[j - 1], step) && ss[j] == Apply(ss[j - 1], step);
      StepExtends(ss[j - 1], step);
      PrefixOfPrefix(Items(ss[i].log), Items(ss[j - 1].log), Items(ss[j].log));
      PrefixOfPrefix(ss[i].popped, ss[j - 1].popped, ss[j].popped);
    }
  }

  lemma PrefixOfPrefix<T>(a: seq<T>, b: seq<T>, c: seq<T>)
    requires a <= b <= c
    ensures a <= c
  {
  }

  // ----- what refusals mean -----

  /** `push` hands the item back exactly when, as it loads tail, the ring is full and the head value it
      holds is still current. */
  lemma PushRefusedIff<T(!new)>(ss: seq<Ring<T>>, i: nat, p: nat)
    requires Run(ss) && i < |ss| && Enabled(ss[i], LoadTail(p))
    ensures var s := ss[i];
            PushStep(s, LoadTail(p)).producers[p].Refused?
            <==> |s.log| - |s.popped| == s.Capacity() && s.producers[p].seen == |s.log|
  {
    EveryStateOk(ss, i);
    FullIff(ss[i], p);
  }

  /** `pop` finds the ring empty at its head load exactly when nothing is reserved beyond the popped,
      and gives up at its ready load exactly when the next place is reserved but not published. */
  lemma PopNoneIff<T(!new)>(ss: seq<Ring<T>>, i: nat)
    requires Run(ss) && i < |ss|
    ensures var s := ss[i];
            Enabled(s, LoadHeadForPop) ==>
              (PopStep(s, LoadHeadForPop).consumer == Resting(None) <==> |s.log| == |s.popped|)
    ensures var s := ss[i];
            Enabled(s, LoadReady) ==>
              && Defined(s, LoadReady) && |s.popped| < |s.log|
              && (PopStep(s, LoadReady).consumer == Resting(None) <==> s.log[|s.popped|].phase in {Reserved, Written})
  {
    var s := ss[i];
    EveryStateOk(ss, i);
    EmptyIff(s);
    if Enabled(s, LoadReady) {
      ConsumerSlot(s);
    }
  }

  // ----- dropping -----

  /** No `push` or `pop` is between its reservation and its end. */
  predicate Quiescent<T>(s: Ring<T>) {
    && s.consumer.Resting?
    && forall p :: 0 <= p < |s.producers| ==> !s.producers[p].AtWrite? && !s.producers[p].AtPublish?
  }

  /** In a quiescent state a slot is ready exactly when it holds a reserved item that was not popped. */
  lemma ReadyIff<T>(s: Ring<T>, j: nat)
    requires Inv(s) && Quiescent(s) && j < |s.slots|
    ensures s.slots[j].ready <==> exists i :: |s.popped| <= i < |s.log| && i % s.Capacity() == j
    ensures forall i :: |s.popped| <= i < |s.log| && i % s.Capacity() == j ==>
              s.slots[j] == Slot(true, Init(s.log[i].item))
    ensures !s.slots[j].ready ==> s.slots[j] == FreeSlot()
  {
    var i := PlaceOfSlot(|s.popped|, s.Capacity(), j);
    assert SlotOk(s, i);
    if i < |s.log| {
      assert OwnerOk(s, i);
    }
    forall k | |s.popped| <= k < |s.log| && k % s.Capacity() == j
      ensures k == i
    {
      OtherSlot(s, i, k);
    }
  }

  /** Every slot has a place in the lap that starts at t. */
  lemma PlaceOfSlot(t: nat, cap: nat, j: nat) returns (i: nat)
    requires j < cap
    ensures t <= i < t + cap && i % cap == j
  {
    DivMod(t, cap);
    i := PlaceFrom(t, cap, j, t / cap, t % cap);
  }

  lemma PlaceFrom(t: nat, cap: nat, j: nat, q: nat, r: nat) returns (i: nat)
    requires j < cap && r < cap && t == q * cap + r
    ensures t <= i < t + cap && i % cap == j
  {
    if j >= r {
      i := t - r + j;
      ModIs(i, cap, q, j);
    } else {
      i := t - r + cap + j;
      Distribute(q, 1, cap);
      ModIs(i, cap, q + 1, j);
    }
  }

  function ReadyItem<T>(slot: Slot<T>): seq<T> {
    if slot.ready && slot.cell.Init? then [slot.cell.value] else []
  }

  /** The items in ready slots, slot by slot. */
  function ReadyItems<T>(slots: seq<Slot<T>>): seq<T> {
    if slots == [] then [] else ReadyItem(slots[0]) + ReadyItems(slots[1..])
  }

  lemma {:induction false} ReadyItemsNext<T>(slots: seq<Slot<T>>, k: nat)
    requires k < |slots|
    ensures ReadyItems(slots[..k + 1]) == ReadyItems(slots[..k]) + ReadyItem(slots[k])
    decreases k
  {
    if k == 0 {
      assert slots[..1][1..] == [];
    } else {
      assert slots[..k + 1][1..] == slots[1..][..k] && slots[..k][1..] == slots[1..][..k - 1];
      ReadyItemsNext(slots[1..], k - 1);
      Assoc(ReadyItem(slots[0]), ReadyItems(slots[1..][..k - 1]), ReadyItem(slots[k]));
    }
  }

  lemma {:induction false} ReadyItemsFrom<T>(slots: seq<Slot<T>>, k: nat)
    requires k <= |slots|
    ensures ReadyItems(slots[..k]) <= ReadyItems(slots)
    decreases |slots| - k
  {
    if k < |slots| {
      ReadyItemsNext(slots, k);
      ReadyItemsFrom(slots, k + 1);
    } else {
      assert slots[..k] == slots;
    }
  }

  /** The ready slots' items stand in slot order: each behind those of the slots before its own. */
  lemma ReadyItemsInSlotOrder<T>(slots: seq<Slot<T>>, j: nat)
    requires j < |slots| && slots[j].ready && slots[j].cell.Init?
    ensures ReadyItems(slots[..j]) + [slots[j].cell.value] <= ReadyItems(slots)
  {
    ReadyItemsNext(slots, j);
    ReadyItemsFrom(slots, j + 1);
  }

  /** `Drop`: with the ring to itself, it destroys the item of every ready slot, and nothing else. */
  method Drop<T>(slots: array<Slot<T>>) returns (destroyed: seq<T>)
    requires forall j :: 0 <= j < slots.Length && slots[j].ready ==> slots[j].cell.Init?
    modifies slots
    ensures destroyed == ReadyItems(old(slots[..]))
    ensures forall j :: 0 <= j < slots.Length ==>
              slots[j] == if old(slots[j].ready) then FreeSlot() else old(slots[j])
  {
    destroyed := [];
    ghost var before := slots[..];
    for k := 0 to slots.Length
      invariant destroyed == ReadyItems(before[..k])
      invariant forall j :: 0 <= j < k ==> slots[j] == if before[j].ready then FreeSlot() else before[j]
      invariant forall j :: k <= j < slots.Length ==> slots[j] == before[j]
    {
      ReadyItemsNext(before, k);
      var slot := slots[k];
      if slot.ready {
        destroyed := destroyed + [slot.cell.value];
        slots[k] := FreeSlot();
      } else {
        assert destroyed + [] == destroyed;
      }
    }
    assert before[..slots.Length] == before;
  }

  lemma {:induction false} FreedSlot<T>(slots: seq<Slot<T>>, j: nat)
    requires j < |slots|
    ensures multiset(ReadyItems(slots)) == multiset(ReadyItems(slots[j := FreeSlot()])) + multiset(ReadyItem(slots[j]))
    decreases j
  {
    if j > 0 {
      FreedSlot(slots[1..], j - 1);
      assert slots[j := FreeSlot()][1..] == slots[1..][j - 1 := FreeSlot()];
    } else {
      assert slots[0 := FreeSlot<T>()][1..] == slots[1..];
    }
  }

  lemma {:induction false} NoneReady<T>(slots: seq<Slot<T>>)
    requires forall j :: 0 <= j < |slots| ==> !slots[j].ready
    ensures ReadyItems(slots) == []
    decreases |slots|
  {
    if slots != [] {
      NoneReady(slots[1..]);
    }
  }

  /** The slot of the i-th place from t. */
  function SlotFrom(t: nat, i: nat, cap: nat): (j: nat)
    requires cap > 0
    ensures j < cap
  {
    DivMod(t + i, cap);
    (t + i) % cap
  }

  /** Slots in which exactly the places t, t + 1, ... are ready, holding `items`. */
  ghost predicate Holds<T>(slots: seq<Slot<T>>, t: nat, items: seq<T>) {
    && 0 < |slots| && |items| <= |slots|
    && (forall i :: 0 <= i < |items| ==> slots[SlotFrom(t, i, |slots|)] == Slot(true, Init(items[i])))
    && (forall j :: 0 <= j < |slots| && slots[j].ready ==> exists i :: 0 <= i < |items| && SlotFrom(t, i, |slots|) == j)
  }

  lemma HoldsOneFewer<T>(slots: seq<Slot<T>>, t: nat, items: seq<T>)
    requires Holds(slots, t, items) && items != []
    ensures var n := |items| - 1;
            Holds(slots[SlotFrom(t, n, |slots|) := FreeSlot()], t, items[..n])
  {
    var n := |items| - 1;
    var j := SlotFrom(t, n, |slots|);
    forall i | 0 <= i < n
      ensures SlotFrom(t, i, |slots|) != j
    {
      DifferentSlots(t + i, t + n, |slots|);
    }
  }

  lemma BagSplit<T>(items: seq<T>, k: nat)
    requires k <= |items|
    ensures multiset(items) == multiset(items[..k]) + multiset(items[k..])
  {
    assert items == items[..k] + items[k..];
  }

  lemma {:induction false} HeldItems<T>(slots: seq<Slot<T>>, t: nat, items: seq<T>)
    requires Holds(slots, t, items)
    ensures multiset(ReadyItems(slots)) == multiset(items)
    decreases |items|
  {
    if items == [] {
      NoneReady(slots);
    } else {
      var n := |items| - 1;
      var j := SlotFrom(t, n, |slots|);
      HoldsOneFewer(slots, t, items);
      HeldItems(slots[j := FreeSlot()], t, items[..n]);
      FreedSlot(slots, j);
      assert ReadyItem(slots[j]) == [items[n]] == items[n..];
      BagSplit(items, n);
    }
  }

  lemma QuiescentHolds<T>(s: Ring<T>)
    requires Inv(s) && Quiescent(s)
    ensures Holds(s.slots, |s.popped|, Items(s.log)[|s.popped|..])
  {
    var t, items := |s.popped|, Items(s.log)[|s.popped|..];
    forall j | 0 <= j < |s.slots| && s.slots[j].ready
      ensures exists i :: 0 <= i < |items| && SlotFrom(t, i, |s.slots|) == j
    {
      ReadyIff(s, j);
      var i :| t <= i < |s.log| && i % s.Capacity() == j;
      assert SlotFrom(t, i - t, |s.slots|) == j;
    }
    forall i | 0 <= i < |items|
      ensures s.slots[SlotFrom(t, i, |s.slots|)] == Slot(true, Init(items[i]))
    {
      ReadyIff(s, SlotFrom(t, i, |s.slots|));
    }
  }

  /** Dropping a quiescent ring destroys each item that was reserved and not popped exactly once. */
  lemma DropDestroysTheRest<T(!new)>(ss: seq<Ring<T>>, k: nat)
    requires Run(ss) && k < |ss| && Quiescent(ss[k])
    ensures forall j :: 0 <= j < |ss[k].slots| && ss[k].slots[j].ready ==> ss[k].slots[j].cell.Init?
    ensures |ss[k].popped| <= |ss[k].log|
    ensures multiset(ReadyItems(ss[k].slots)) == multiset(Items(ss[k].log)[|ss[k].popped|..])
    ensures multiset(Items(ss[k].log)) == multiset(ss[k].popped) + multiset(ReadyItems(ss[k].slots))
  {
    var s := ss[k];
    EveryStateOk(ss, k);
    RingIsSafe(ss, k);
    QuiescentHolds(s);
    HeldItems(s.slots, |s.popped|, Items(s.log)[|s.popped|..]);
    BagSplit(Items(s.log), |s.popped|);
  }
}
