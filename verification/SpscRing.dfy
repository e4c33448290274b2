/** The single-producer single-consumer ring with views of the other side's index that may lag. */
module SpscRing {
  import opened Wrappers
  import opened Words
  import opened Counters

  datatype Producer<T> =
    | Idle
    | Accepted
    | Refused(item: T)
    | LoadingHead(item: T)
    | LoadingTail(item: T, head: nat)
    | Writing(item: T, head: nat)
    | StoringHead(item: T, head: nat)

  datatype Consumer<T> =
    | Resting(result: Option<T>)
    | LoadingTailForPop
    | LoadingHeadForPop(tail: nat)
    | Reading(tail: nat)
    | StoringTail(tail: nat, item: T)

  /** A write to a slot. */
  datatype Write<T> = Write(slot: nat, item: T)

  /** Head has been stored once for each of `pushed`, tail once for each of `popped`, and the slots have
      been written `writes` in that order. `tailView` is the newest tail store the producer has
      acquired, and `headView` the newest head store the consumer has acquired: with it come the slot
      writes released before that store. */
  datatype Ring<T> = Ring(
    width: nat,
    bits: nat,
    pushed: seq<T>,
    popped: seq<T>,
    writes: seq<Write<T>>,
    tailView: nat,
    headView: nat,
    producer: Producer<T>,
    consumer: Consumer<T>) {

    function Modulus(): nat {
      Pow2(width)
    }

    function Capacity(): nat {
      Pow2(bits)
    }

    function Index(word: nat): nat {
      BitAnd(word, Capacity() - 1)
    }

    function WrappingSub(a: nat, b: nat): nat {
      (a - b) % Modulus()
    }

    /** The value of an index after n stores. */
    function Word(n: nat): nat {
      n % Modulus()
    }
  }

  function NewRing<T>(width: nat, bits: nat): Ring<T> {
    Ring(width, bits, [], [], [], 0, 0, Idle, Resting(None))
  }

  // ----- steps -----

  /** A load of the other side's index may return any store from the newest one seen before up to the
      newest one there is. A read of a slot may return any write to it that no acquired write
      supersedes, or the uninitialised slot when no write to it has been acquired. */
  datatype Step<T> =
    | Push(item: T)
    | LoadHead
    | LoadTail(seen: nat)
    | WriteItem
    | StoreHead
    | Pop
    | LoadTailForPop
    | LoadHeadForPop(seen: nat)
    | ReadItem(write: Option<nat>)
    | StoreTail

  /** A write the consumer may find in a slot. */
  predicate MayRead<T>(s: Ring<T>, slot: nat, write: Option<nat>) {
    match write
    case Some(j) => j < |s.writes| && s.writes[j].slot == slot && NotSuperseded(s, slot, j + 1)
    case None => NotSuperseded(s, slot, 0)
  }

  /** No acquired write from the j-th on goes to the slot. */
  predicate NotSuperseded<T>(s: Ring<T>, slot: nat, j: nat) {
    forall k :: j <= k < s.headView && k < |s.writes| ==> s.writes[k].slot != slot
  }

  predicate Enabled<T>(s: Ring<T>, step: Step<T>) {
    match step
    case Push(_) => s.producer.Idle? || s.producer.Accepted? || s.producer.Refused?
    case LoadHead => s.producer.LoadingHead?
    case LoadTail(seen) => s.producer.LoadingTail? && s.tailView <= seen <= |s.popped|
    case WriteItem => s.producer.Writing?
    case StoreHead => s.producer.StoringHead?
    case Pop => s.consumer.Resting?
    case LoadTailForPop => s.consumer.LoadingTailForPop?
    case LoadHeadForPop(seen) => s.consumer.LoadingHeadForPop? && s.headView <= seen <= |s.pushed|
    case ReadItem(write) => s.consumer.Reading? && MayRead(s, s.Index(s.consumer.tail), write)
    case StoreTail => s.consumer.StoringTail?
  }

  /** Reading an uninitialised slot gives no value. */
  predicate Defined<T>(step: Step<T>) {
    step.ReadItem? ==> step.write.Some?
  }

  function Apply<T>(s: Ring<T>, step: Step<T>): Ring<T>
    requires Enabled(s, step) && Defined(step)
  {
    match step
    case Push(item) => s.(producer := LoadingHead(item))
    case LoadHead => s.(producer := LoadingTail(s.producer.item, s.Word(|s.pushed|)))
    case LoadTail(seen) =>
      var me := s.producer;
      s.(tailView := seen,
         producer := if s.WrappingSub(me.head, s.Word(seen)) == s.Capacity() then Refused(me.item)
                     else Writing(me.item, me.head))
    case WriteItem =>
      var me := s.producer;
      s.(writes := s.writes + [Write(s.Index(me.head), me.item)], producer := StoringHead(me.item, me.head))
    case StoreHead => s.(pushed := s.pushed + [s.producer.item], producer := Accepted)
    case Pop => s.(consumer := LoadingTailForPop)
    case LoadTailForPop => s.(consumer := Consumer.LoadingHeadForPop(s.Word(|s.popped|)))
    case LoadHeadForPop(seen) =>
      var t := s.consumer.tail;
      s.(headView := seen, consumer := if t == s.Word(seen) then Resting(None) else Reading(t))
    case ReadItem(write) => s.(consumer := StoringTail(s.consumer.tail, s.writes[write.value].item))
    case StoreTail => s.(popped := s.popped + [s.consumer.item], consumer := Resting(Some(s.consumer.item)))
  }

  // ----- the invariant -----

  /** Each side's view lags behind the other's index, but by no more than a lap. */
  ghost predicate ViewsOk<T>(s: Ring<T>) {
    && s.bits < s.width
    && s.tailView <= |s.popped| <= s.headView <= |s.pushed| <= s.tailView + s.Capacity()
  }

  /** Place i was written to slot i modulo the capacity, before head was stored for it. */
  ghost predicate WritesOk<T>(s: Ring<T>) {
    && |s.writes| == |s.pushed| + (if s.producer.StoringHead? then 1 else 0)
    && (forall i :: 0 <= i < |s.writes| ==> s.writes[i].slot == i % s.Capacity())
    && (forall i :: 0 <= i < |s.pushed| ==> s.writes[i].item == s.pushed[i])
    && s.popped <= s.pushed
  }

  ghost predicate ProducerOk<T>(s: Ring<T>) {
    match s.producer
    case LoadingTail(_, head) => head == s.Word(|s.pushed|)
    case Writing(_, head) => head == s.Word(|s.pushed|) && |s.pushed| < s.tailView + s.Capacity()
    case StoringHead(item, head) =>
      && head == s.Word(|s.pushed|) && |s.pushed| < s.tailView + s.Capacity()
      && |s.writes| == |s.pushed| + 1 && s.writes[|s.pushed|].item == item
    case _ => true
  }

  ghost predicate ConsumerOk<T>(s: Ring<T>) {
    match s.consumer
    case LoadingHeadForPop(tail) => tail == s.Word(|s.popped|)
    case Reading(tail) => tail == s.Word(|s.popped|) && |s.popped| < s.headView
    case StoringTail(tail, item) =>
      tail == s.Word(|s.popped|) && |s.popped| < s.headView <= |s.pushed| && item == s.pushed[|s.popped|]
    case _ => true
  }

  ghost predicate Inv<T>(s: Ring<T>) {
    ViewsOk(s) && WritesOk(s) && ProducerOk(s) && ConsumerOk(s)
  }

  lemma SlotOfPlace<T>(s: Ring<T>, place: nat)
    requires s.bits < s.width
    ensures s.Index(s.Word(place)) == place % s.Capacity() < s.Capacity()
  {
    MaskOfWord(place, s.bits, s.width);
    DivMod(place, s.Capacity());
  }

  /** The equality test says full exactly when the view is a whole lap behind: with a view that never
      goes back, head is never further ahead than that. */
  lemma FullIff<T>(s: Ring<T>, seen: nat)
    requires Inv(s) && Enabled(s, LoadTail(seen))
    ensures |s.pushed| <= seen + s.Capacity()
    ensures s.WrappingSub(s.producer.head, s.Word(seen)) == s.Capacity() <==> |s.pushed| == seen + s.Capacity()
  {
    PowOrder(s.bits, s.width);
    FullTest(|s.pushed|, seen, s.Capacity(), s.Modulus());
  }

  lemma EmptyIff<T>(s: Ring<T>, seen: nat)
    requires Inv(s) && Enabled(s, LoadHeadForPop(seen))
    ensures s.consumer.tail == s.Word(seen) <==> |s.popped| == seen
  {
    PowOrder(s.bits, s.width);
    if s.consumer.tail == s.Word(seen) {
      SameWord(|s.popped|, seen, s.Modulus());
    }
  }

  /** The producer writes to the slot of place H, whose previous item, if any, was popped, and the
      producer has acquired the tail store that says so. */
  lemma WriteFindsReadSlot<T>(s: Ring<T>)
    requires Inv(s) && Enabled(s, WriteItem)
    ensures var slot := s.Index(s.producer.head);
            && slot == |s.pushed| % s.Capacity() < s.Capacity()
            && forall i :: 0 <= i < |s.writes| && s.writes[i].slot == slot ==> i < s.tailView <= |s.popped|
  {
    SlotOfPlace(s, |s.pushed|);
    forall i | 0 <= i < |s.writes| && s.writes[i].slot == s.Index(s.producer.head)
      ensures i < s.tailView
    {
      if s.tailView <= i {
        DifferentSlots(i, |s.pushed|, s.Capacity());
      }
    }
  }

  /** There is exactly one write the memory model lets the consumer find: the oldest item's. */
  lemma ReadFindsOldest<T>(s: Ring<T>, write: Option<nat>)
    requires Inv(s) && s.consumer.Reading?
    ensures Enabled(s, ReadItem(write)) <==> write == Some(|s.popped|)
    ensures |s.popped| < |s.pushed| && s.writes[|s.popped|].item == s.pushed[|s.popped|]
  {
    var t := |s.popped|;
    SlotOfPlace(s, t);
    assert s.writes[t].slot == s.Index(s.consumer.tail);
    if write.Some? && t < write.value < |s.writes| {
      DifferentSlots(t, write.value, s.Capacity());
    }
    forall k | t < k < s.headView && k < |s.writes|
      ensures s.writes[k].slot != s.writes[t].slot
    {
      DifferentSlots(t, k, s.Capacity());
    }
  }

  /** While the consumer reads a slot, the producer is writing another one. */
  lemma NoRace<T>(s: Ring<T>)
    requires Inv(s) && s.producer.Writing? && s.consumer.Reading?
    ensures s.Index(s.producer.head) != s.Index(s.consumer.tail)
  {
    SlotOfPlace(s, |s.pushed|);
    SlotOfPlace(s, |s.popped|);
    DifferentSlots(|s.popped|, |s.pushed|, s.Capacity());
  }

  lemma PushStepKeeps<T>(s: Ring<T>, step: Step<T>)
    requires Inv(s) && Enabled(s, step)
    requires step.Push? || step.LoadHead? || step.LoadTail? || step.WriteItem? || step.StoreHead?
    ensures Defined(step) && Inv(Apply(s, step))
  {
    match step {
      case LoadTail(seen) => FullIff(s, seen);
      case WriteItem => WriteFindsReadSlot(s);
      case _ =>
    }
  }

  lemma PopStepKeeps<T>(s: Ring<T>, step: Step<T>)
    requires Inv(s) && Enabled(s, step)
    requires step.Pop? || step.LoadTailForPop? || step.LoadHeadForPop? || step.ReadItem? || step.StoreTail?
    ensures Defined(step) && Inv(Apply(s, step))
  {
    match step {
      case LoadHeadForPop(seen) => EmptyIff(s, seen);
      case ReadItem(write) => ReadFindsOldest(s, write);
      case _ =>
    }
  }

  lemma StepKeeps<T>(s: Ring<T>, step: Step<T>)
    requires Inv(s) && Enabled(s, step)
    ensures Defined(step) && Inv(Apply(s, step))
  {
    if step.Push? || step.LoadHead? || step.LoadTail? || step.WriteItem? || step.StoreHead? {
      PushStepKeeps(s, step);
    } else {
      PopStepKeeps(s, step);
    }
  }

  // ----- runs -----

  ghost predicate Next<T(!new)>(s: Ring<T>, s': Ring<T>) {
    exists step :: Enabled(s, step) && Defined(step) && s' == Apply(s, step)
  }

  ghost predicate Run<T(!new)>(ss: seq<Ring<T>>) {
    && ss != []
    && (exists width, bits :: bits < width && ss[0] == NewRing(width, bits))
    && forall i, j :: 0 <= i && j == i + 1 && j < |ss| ==> Next(ss[i], ss[j])
  }

  lemma {:induction false} EveryStateOk<T(!new)>(ss: seq<Ring<T>>, i: nat)
    requires Run(ss) && i < |ss|
    ensures Inv(ss[i])
    decreases i
  {
    if i > 0 {
      EveryStateOk(ss, i - 1);
      assert Next(ss[i - 1], ss[i]);
      var step :| Enabled(ss[i - 1], step) && Defined(step) && ss[i] == Apply(ss[i - 1], step);
      StepKeeps(ss[i - 1], step);
    }
  }

  /** In every reachable state the pops are the first pushes in order, at most a ring's worth is unread,
      every read the memory model allows finds an initialised slot with the oldest item in it, and a
      write goes to a slot whose items were all popped, never to one being read. */
  lemma RingIsSafe<T(!new)>(ss: seq<Ring<T>>, i: nat)
    requires Run(ss) && i < |ss|
    ensures var s := ss[i];
            && s.popped <= s.pushed && |s.pushed| - |s.popped| <= s.Capacity()
            && (forall step :: Enabled(s, step) ==> Defined(step))
            && (s.consumer.Reading? ==>
                  |s.popped| < |s.pushed| && forall write :: Enabled(s, ReadItem(write)) <==> write == Some(|s.popped|))
            && (Enabled(s, WriteItem) ==>
                  forall k :: 0 <= k < |s.writes| && s.writes[k].slot == s.Index(s.producer.head) ==>
                    k < s.tailView <= |s.popped|)
            && (s.producer.Writing? && s.consumer.Reading? ==> s.Index(s.producer.head) != s.Index(s.consumer.tail))
  {
    var s := ss[i];
    EveryStateOk(ss, i);
    forall step | Enabled(s, step)
      ensures Defined(step)
    {
      StepKeeps(s, step);
    }
    if s.consumer.Reading? {
      ReadFindsOldest(s, None);
      forall write
        ensures Enabled(s, ReadItem(write)) <==> write == Some(|s.popped|)
      {
        ReadFindsOldest(s, write);
      }
    }
    if Enabled(s, WriteItem) {
      WriteFindsReadSlot(s);
    }
    if s.producer.Writing? && s.consumer.Reading? {
      NoRace(s);
    }
  }

  /** `push` is refused exactly when head is a whole lap ahead of the tail store it sees; `pop` finds
      nothing exactly when the head store it sees is for an item already popped. */
  lemma RefusalsMean<T(!new)>(ss: seq<Ring<T>>, i: nat, seen: nat)
    requires Run(ss) && i < |ss|
    ensures Enabled(ss[i], LoadTail(seen)) ==>
              (Apply(ss[i], LoadTail(seen)).producer.Refused? <==> |ss[i].pushed| == seen + ss[i].Capacity())
    ensures Enabled(ss[i], LoadHeadForPop(seen)) ==>
              (Apply(ss[i], LoadHeadForPop(seen)).consumer == Resting(None) <==> |ss[i].popped| == seen)
  {
    EveryStateOk(ss, i);
    if Enabled(ss[i], LoadTail(seen)) {
      FullIff(ss[i], seen);
    }
    if Enabled(ss[i], LoadHeadForPop(seen)) {
      EmptyIff(ss[i], seen);
    }
  }

  /** The equality test is only enough because a view never goes back: on a full ring, a tail store
      older than one already seen would let the producer write over the oldest unread item. */
  lemma OlderViewOverwrites<T>(s: Ring<T>, seen: nat)
    requires Inv(s) && s.producer.LoadingTail?
    requires |s.pushed| == |s.popped| + s.Capacity() && seen < |s.popped| && |s.pushed| - seen < s.Modulus()
    ensures seen < s.tailView
    ensures s.WrappingSub(s.producer.head, s.Word(seen)) != s.Capacity()
    ensures s.Index(s.producer.head) == s.writes[|s.popped|].slot
  {
    WrappedDifference(|s.pushed|, seen, s.Modulus(), |s.pushed| - seen, 0);
    SlotOfPlace(s, |s.pushed|);
    NextLap(|s.popped|, s.Capacity());
  }

  // ----- dropping -----

  datatype Cell<T> = Uninit | Init(value: T)

  /** What a slot holds after all writes. */
  function LastWrite<T>(writes: seq<Write<T>>, slot: nat): Cell<T> {
    if writes == [] then Uninit
    else if writes[|writes| - 1].slot == slot then Init(writes[|writes| - 1].item)
    else LastWrite(writes[..|writes| - 1], slot)
  }

  lemma {:induction false} LastWriteIs<T>(writes: seq<Write<T>>, i: nat)
    requires i < |writes|
    requires forall k :: i < k < |writes| ==> writes[k].slot != writes[i].slot
    ensures LastWrite(writes, writes[i].slot) == Init(writes[i].item)
    decreases |writes|
  {
    if i < |writes| - 1 {
      LastWriteIs(writes[..|writes| - 1], i);
    }
  }

  /** Every item not yet popped is what its slot holds. */
  lemma UnreadItemsStay<T(!new)>(ss: seq<Ring<T>>, k: nat, i: nat)
    requires Run(ss) && k < |ss| && |ss[k].popped| <= i < |ss[k].pushed|
    ensures LastWrite(ss[k].writes, i % ss[k].Capacity()) == Init(ss[k].pushed[i])
  {
    var s := ss[k];
    EveryStateOk(ss, k);
    forall j | i < j < |s.writes|
      ensures s.writes[j].slot != s.writes[i].slot
    {
      DifferentSlots(i, j, s.Capacity());
    }
    LastWriteIs(s.writes, i);
  }

  lemma LastWriteAfter<T>(writes: seq<Write<T>>, slot: nat, item: T)
    ensures forall j :: LastWrite(writes + [Write(slot, item)], j)
                        == if j == slot then Init(item) else LastWrite(writes, j)
  {
    assert (writes + [Write(slot, item)])[..|writes|] == writes;
  }

  /** The oldest unread item is what its slot holds. */
  lemma OldestIsInSlot<T>(s: Ring<T>)
    requires Inv(s) && s.consumer.Reading?
    ensures |s.popped| < |s.pushed| && s.Index(s.consumer.tail) < s.Capacity()
    ensures LastWrite(s.writes, s.Index(s.consumer.tail)) == Init(s.pushed[|s.popped|])
    ensures Enabled(s, ReadItem(Some(|s.popped|)))
  {
    var i := |s.popped|;
    SlotOfPlace(s, i);
    ReadFindsOldest(s, Some(i));
    forall j | i < j < |s.writes|
      ensures s.writes[j].slot != s.writes[i].slot
    {
      DifferentSlots(i, j, s.Capacity());
    }
    LastWriteIs(s.writes, i);
  }
}
