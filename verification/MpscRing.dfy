/** The multi-producer single-consumer ring as interleaved atomic steps on machine words. */
module MpscRing {
  import opened Wrappers
  import opened Words
  import opened Counters

  // ----- state -----

  datatype Cell<T> = Uninit | Init(value: T)

  datatype Slot<T> = Slot(ready: bool, cell: Cell<T>)

  function FreeSlot<T>(): Slot<T> {
    Slot(false, Uninit)
  }

  /** How far a reserved place has come. */
  datatype Phase = Reserved | Written | Published | Taken

  datatype Entry<T> = Entry(item: T, owner: nat, phase: Phase)

  /** A producer between the atomic steps of `push`. `head` is the word it loaded and `seen` the number
      of reservations there had been at that moment; `place` is the number of its own reservation. */
  datatype Producer<T> =
    | Idle
    | Accepted
    | Refused(item: T)
    | AtHead(item: T)
    | AtTail(item: T, head: nat, seen: nat)
    | AtCas(item: T, head: nat, seen: nat)
    | AtWrite(item: T, reserved: nat, place: nat)
    | AtPublish(reserved: nat, place: nat)

  /** The consumer between the atomic steps of `pop`. */
  datatype Consumer<T> =
    | Resting(result: Option<T>)
    | LoadingHead(tail: nat)
    | LoadingReady(tail: nat)
    | Reading(tail: nat)
    | Clearing(tail: nat, item: T)
    | Releasing(tail: nat, item: T)

  /** Words have `width` bits and the ring `2^bits` slots. `log` lists the reservations in the order
      their compare-and-exchange succeeded, `popped` the items handed out. */
  datatype Ring<T> = Ring(
    width: nat,
    bits: nat,
    head: nat,
    tail: nat,
    slots: seq<Slot<T>>,
    producers: seq<Producer<T>>,
    consumer: Consumer<T>,
    log: seq<Entry<T>>,
    popped: seq<T>) {

    function Modulus(): nat {
      Pow2(width)
    }

    function Capacity(): nat {
      Pow2(bits)
    }

    /** `word & mask` */
    function Index(word: nat): nat {
      BitAnd(word, Capacity() - 1)
    }

    function WrappingSub(a: nat, b: nat): nat {
      (a - b) % Modulus()
    }

    function WrappingInc(a: nat): nat {
      (a + 1) % Modulus()
    }
  }

  /** `MpscRing::new`, with some number of producers about. */
  function NewRing<T>(width: nat, bits: nat, producers: nat): Ring<T> {
    Ring(width, bits, 0, 0, seq(Pow2(bits), _ => FreeSlot()), seq(producers, _ => Idle), Resting(None), [], [])
  }

  // ----- steps -----

  datatype Step<T> =
    | Push(p: nat, item: T)
    | LoadHead(p: nat)
    | LoadTail(p: nat)
    | CompareExchange(p: nat, spurious: bool)
    | WriteItem(p: nat)
    | Publish(p: nat)
    | Pop
    | LoadHeadForPop
    | LoadReady
    | ReadItem
    | ClearReady
    | StoreTail

  /** Since this producer loaded head, head has not gone all the way round. */
  predicate Timely<T>(s: Ring<T>, seen: nat) {
    |s.log| - seen < s.Modulus() - s.Capacity()
  }

  /** Which steps can be taken, and the time bound on a push. */
  predicate Enabled<T>(s: Ring<T>, step: Step<T>) {
    match step
    case Push(p, _) =>
      p < |s.producers| && (s.producers[p].Idle? || s.producers[p].Accepted? || s.producers[p].Refused?)
    case LoadHead(p) => p < |s.producers| && s.producers[p].AtHead?
    case LoadTail(p) => p < |s.producers| && s.producers[p].AtTail? && Timely(s, s.producers[p].seen)
    case CompareExchange(p, _) => p < |s.producers| && s.producers[p].AtCas? && Timely(s, s.producers[p].seen)
    case WriteItem(p) => p < |s.producers| && s.producers[p].AtWrite?
    case Publish(p) => p < |s.producers| && s.producers[p].AtPublish?
    case Pop => s.consumer.Resting?
    case LoadHeadForPop => s.consumer.LoadingHead?
    case LoadReady => s.consumer.LoadingReady?
    case ReadItem => s.consumer.Reading?
    case ClearReady => s.consumer.Clearing?
    case StoreTail => s.consumer.Releasing?
  }

  function WithProducer<T>(s: Ring<T>, p: nat, next: Producer<T>): Ring<T>
    requires p < |s.producers|
  {
    s.(producers := s.producers[p := next])
  }

  /** The indices a step uses are those of slots. */
  predicate InSlots<T>(s: Ring<T>, word: nat) {
    s.Index(word) < |s.slots|
  }

  function WithPhase<T>(log: seq<Entry<T>>, place: nat, phase: Phase): seq<Entry<T>> {
    if place < |log| then log[place := log[place].(phase := phase)] else log
  }

  /** A producer's step. */
  function PushStep<T>(s: Ring<T>, step: Step<T>): Ring<T>
    requires Enabled(s, step)
    requires step.WriteItem? ==> InSlots(s, s.producers[step.p].reserved)
    requires step.Publish? ==> InSlots(s, s.producers[step.p].reserved)
  {
    match step
    case Push(p, item) => WithProducer(s, p, AtHead(item))
    case LoadHead(p) => WithProducer(s, p, AtTail(s.producers[p].item, s.head, |s.log|))
    case LoadTail(p) =>
      var me := s.producers[p];
      if s.WrappingSub(me.head, s.tail) == s.Capacity() then WithProducer(s, p, Refused(me.item))
      else WithProducer(s, p, AtCas(me.item, me.head, me.seen))
    case CompareExchange(p, spurious) =>
      var me := s.producers[p];
      if s.head == me.head && !spurious then
        WithProducer(s, p, AtWrite(me.item, me.head, |s.log|))
          .(head := s.WrappingInc(me.head), log := s.log + [Entry(me.item, p, Reserved)])
      else
        WithProducer(s, p, AtTail(me.item, s.head, |s.log|))
    case WriteItem(p) =>
      var me := s.producers[p];
      var i := s.Index(me.reserved);
      WithProducer(s, p, AtPublish(me.reserved, me.place))
        .(slots := s.slots[i := s.slots[i].(cell := Init(me.item))], log := WithPhase(s.log, me.place, Written))
    case Publish(p) =>
      var me := s.producers[p];
      var i := s.Index(me.reserved);
      WithProducer(s, p, Accepted)
        .(slots := s.slots[i := s.slots[i].(ready := true)], log := WithPhase(s.log, me.place, Published))
    case _ => s
  }

  /** A consumer's step. Reading moves the item out of its slot. */
  function PopStep<T>(s: Ring<T>, step: Step<T>): Ring<T>
    requires Enabled(s, step)
    requires step.LoadReady? || step.ReadItem? || step.ClearReady? ==> InSlots(s, s.consumer.tail)
    requires step.ReadItem? ==> s.slots[s.Index(s.consumer.tail)].cell.Init?
  {
    match step
    case Pop => s.(consumer := LoadingHead(s.tail))
    case LoadHeadForPop =>
      var t := s.consumer.tail;
      s.(consumer := if t == s.head then Resting(None) else LoadingReady(t))
    case LoadReady =>
      var t := s.consumer.tail;
      s.(consumer := if s.slots[s.Index(t)].ready then Reading(t) else Resting(None))
    case ReadItem =>
      var t := s.consumer.tail;
      var i := s.Index(t);
      s.(consumer := Clearing(t, s.slots[i].cell.value),
         slots := s.slots[i := s.slots[i].(cell := Uninit)],
         log := WithPhase(s.log, |s.popped|, Taken))
    case ClearReady =>
      var t := s.consumer.tail;
      var i := s.Index(t);
      s.(consumer := Releasing(t, s.consumer.item), slots := s.slots[i := s.slots[i].(ready := false)])
    case StoreTail =>
      s.(consumer := Resting(Some(s.consumer.item)),
         tail := s.WrappingInc(s.consumer.tail),
         popped := s.popped + [s.consumer.item])
    case _ => s
  }

  // ----- the invariant -----

  /** The words are the counts, and the counts are at most a lap apart. */
  ghost predicate CountsOk<T>(s: Ring<T>) {
    && s.bits < s.width
    && |s.slots| == s.Capacity()
    && s.head == |s.log| % s.Modulus() && s.tail == |s.popped| % s.Modulus()
    && |s.popped| <= |s.log| <= |s.popped| + s.Capacity()
  }

  /** What was popped is the front of the log; nothing behind the tail's own place is taken. */
  ghost predicate HistoryOk<T>(s: Ring<T>) {
    && |s.popped| <= |s.log|
    && (forall i :: 0 <= i < |s.popped| ==> s.log[i].item == s.popped[i] && s.log[i].phase == Taken)
    && (forall i :: |s.popped| < i < |s.log| ==> s.log[i].phase != Taken)
    && (|s.popped| < |s.log| ==> (s.log[|s.popped|].phase == Taken <==> s.consumer.Clearing? || s.consumer.Releasing?))
  }

  /** The slot of place i, for the places of the lap that starts at tail. */
  ghost predicate SlotOk<T>(s: Ring<T>, i: nat)
    requires |s.slots| == s.Capacity()
  {
    var slot := s.slots[i % s.Capacity()];
    if i >= |s.log| then slot == FreeSlot()
    else match s.log[i].phase
      case Reserved => slot == FreeSlot()
      case Written => slot == Slot(false, Init(s.log[i].item))
      case Published => slot == Slot(true, Init(s.log[i].item))
      case Taken => slot == Slot(s.consumer.Clearing?, Uninit)
  }

  ghost predicate SlotsOk<T>(s: Ring<T>) {
    && |s.slots| == s.Capacity()
    && forall i :: |s.popped| <= i < |s.popped| + s.Capacity() ==> SlotOk(s, i)
  }

  /** An unfinished reservation belongs to a producer about to finish it. */
  ghost predicate OwnerOk<T>(s: Ring<T>, i: nat)
    requires i < |s.log|
  {
    var e := s.log[i];
    && (e.phase == Reserved ==>
          e.owner < |s.producers| && s.producers[e.owner].AtWrite? && s.producers[e.owner].place == i)
    && (e.phase == Written ==>
          e.owner < |s.producers| && s.producers[e.owner].AtPublish? && s.producers[e.owner].place == i)
  }

  ghost predicate OwnersOk<T>(s: Ring<T>) {
    forall i :: 0 <= i < |s.log| ==> OwnerOk(s, i)
  }

  ghost predicate ProducerOk<T>(s: Ring<T>, p: nat)
    requires p < |s.producers|
  {
    match s.producers[p]
    case AtTail(_, head, seen) => seen <= |s.log| && head == seen % s.Modulus()
    case AtCas(_, head, seen) =>
      && seen <= |s.log| && head == seen % s.Modulus()
      && (seen == |s.log| ==> |s.log| < |s.popped| + s.Capacity())
    case AtWrite(item, reserved, place) =>
      && |s.popped| <= place < |s.log| && reserved == place % s.Modulus()
      && s.log[place] == Entry(item, p, Reserved)
    case AtPublish(reserved, place) =>
      && |s.popped| <= place < |s.log| && reserved == place % s.Modulus()
      && s.log[place].owner == p && s.log[place].phase == Written
    case _ => true
  }

  ghost predicate ProducersOk<T>(s: Ring<T>) {
    forall p :: 0 <= p < |s.producers| ==> ProducerOk(s, p)
  }

  ghost predicate ConsumerOk<T>(s: Ring<T>) {
    match s.consumer
    case Resting(_) => true
    case LoadingHead(t) => t == s.tail
    case LoadingReady(t) => t == s.tail && |s.popped| < |s.log|
    case Reading(t) => t == s.tail && |s.popped| < |s.log| && s.log[|s.popped|].phase == Published
    case Clearing(t, item) => t == s.tail && |s.popped| < |s.log| && s.log[|s.popped|].item == item
    case Releasing(t, item) => t == s.tail && |s.popped| < |s.log| && s.log[|s.popped|].item == item
  }

  ghost predicate Inv<T>(s: Ring<T>) {
    CountsOk(s) && HistoryOk(s) && SlotsOk(s) && OwnersOk(s) && ProducersOk(s) && ConsumerOk(s)
  }

  // ----- places and slots -----

  /** The masked word of a place is its slot. */
  lemma SlotOfPlace<T>(s: Ring<T>, place: nat)
    requires CountsOk(s)
    ensures s.Index(place % s.Modulus()) == place % s.Capacity() < |s.slots|
  {
    MaskOfWord(place, s.bits, s.width);
  }

  /** Another place of the same lap has another slot. */
  lemma OtherSlot<T>(s: Ring<T>, i: nat, j: nat)
    requires |s.popped| <= i < |s.popped| + s.Capacity() && |s.popped| <= j < |s.popped| + s.Capacity()
    ensures i != j ==> i % s.Capacity() != j % s.Capacity()
  {
    if i < j {
      DifferentSlots(i, j, s.Capacity());
    } else if j < i {
      DifferentSlots(j, i, s.Capacity());
    }
  }

  lemma NewRingOk<T>(width: nat, bits: nat, producers: nat)
    requires bits < width
    ensures Inv(NewRing<T>(width, bits, producers))
  {
    var s := NewRing<T>(width, bits, producers);
    ZeroMod(Pow2(width));
    forall i | 0 <= i < s.Capacity()
      ensures SlotOk(s, i)
    {
      DivMod(i, s.Capacity());
    }
  }

  // ----- what every step finds -----

  /** The compare-and-exchange succeeds only if nobody reserved since head was loaded, and then there
      is a free place. */
  lemma ReservationHasRoom<T>(s: Ring<T>, p: nat)
    requires Inv(s) && Enabled(s, CompareExchange(p, false)) && s.head == s.producers[p].head
    ensures s.producers[p].seen == |s.log| && |s.log| < |s.popped| + s.Capacity()
  {
    assert ProducerOk(s, p);
    SameWord(s.producers[p].seen, |s.log|, s.Modulus());
  }

  /** `push` sees a full ring exactly when its head value is current and the ring is full. */
  lemma FullIff<T>(s: Ring<T>, p: nat)
    requires Inv(s) && Enabled(s, LoadTail(p))
    ensures s.WrappingSub(s.producers[p].head, s.tail) == s.Capacity()
            <==> s.producers[p].seen == |s.log| == |s.popped| + s.Capacity()
  {
    assert ProducerOk(s, p);
    PowOrder(s.bits, s.width);
    FullTest(s.producers[p].seen, |s.popped|, s.Capacity(), s.Modulus());
  }

  /** A producer writes into its own free slot: no unread item, no ready flag. */
  lemma WriteFindsFreeSlot<T>(s: Ring<T>, p: nat)
    requires Inv(s) && Enabled(s, WriteItem(p))
    ensures var me := s.producers[p];
            && s.Index(me.reserved) == me.place % s.Capacity() < |s.slots|
            && s.slots[s.Index(me.reserved)] == FreeSlot()
  {
    assert ProducerOk(s, p);
    SlotOfPlace(s, s.producers[p].place);
    assert SlotOk(s, s.producers[p].place);
  }

  lemma PublishFindsItem<T>(s: Ring<T>, p: nat)
    requires Inv(s) && Enabled(s, Publish(p))
    ensures var me := s.producers[p];
            && s.Index(me.reserved) == me.place % s.Capacity() < |s.slots|
            && me.place < |s.log|
            && s.slots[s.Index(me.reserved)] == Slot(false, Init(s.log[me.place].item))
  {
    assert ProducerOk(s, p);
    SlotOfPlace(s, s.producers[p].place);
    assert SlotOk(s, s.producers[p].place);
  }

  lemma ConsumerSlot<T>(s: Ring<T>)
    requires Inv(s) && |s.popped| < |s.log|
    ensures s.Index(s.tail) == |s.popped| % s.Capacity() < |s.slots|
    ensures SlotOk(s, |s.popped|)
  {
    SlotOfPlace(s, |s.popped|);
  }

  /** The consumer reads the oldest item, published and whole. */
  lemma ReadFindsItem<T>(s: Ring<T>)
    requires Inv(s) && Enabled(s, ReadItem)
    ensures |s.popped| < |s.log|
    ensures s.Index(s.consumer.tail) < |s.slots|
    ensures s.slots[s.Index(s.consumer.tail)] == Slot(true, Init(s.log[|s.popped|].item))
  {
    ConsumerSlot(s);
  }

  // ----- every step keeps the invariant -----

  /** A producer holding no reservation moves without touching anything shared. */
  lemma ProducerMoves<T>(s: Ring<T>, p: nat, next: Producer<T>)
    requires Inv(s) && p < |s.producers|
    requires !s.producers[p].AtWrite? && !s.producers[p].AtPublish? && !next.AtWrite? && !next.AtPublish?
    requires ProducerOk(WithProducer(s, p, next), p)
    ensures Inv(WithProducer(s, p, next))
  {
    var s' := WithProducer(s, p, next);
    forall i | |s.popped| <= i < |s.popped| + s.Capacity()
      ensures SlotOk(s', i)
    {
      assert SlotOk(s, i);
    }
    forall i | 0 <= i < |s.log|
      ensures OwnerOk(s', i)
    {
      assert OwnerOk(s, i);
    }
    forall q | 0 <= q < |s.producers|
      ensures ProducerOk(s', q)
    {
      assert ProducerOk(s, q);
    }
  }

  lemma LoadsKeep<T>(s: Ring<T>, step: Step<T>)
    requires Inv(s) && Enabled(s, step) && (step.Push? || step.LoadHead? || step.LoadTail?)
    ensures Inv(PushStep(s, step))
  {
    var p := step.p;
    assert ProducerOk(s, p);
    if step.LoadTail? {
      FullIff(s, p);
    }
    ProducerMoves(s, p, PushStep(s, step).producers[p]);
  }

  lemma RetryKeeps<T>(s: Ring<T>, p: nat, spurious: bool)
    requires Inv(s) && Enabled(s, CompareExchange(p, spurious)) && (s.head != s.producers[p].head || spurious)
    ensures Inv(PushStep(s, CompareExchange(p, spurious)))
  {
    ProducerMoves(s, p, PushStep(s, CompareExchange(p, spurious)).producers[p]);
  }

  lemma ReserveKeeps<T>(s: Ring<T>, p: nat)
    requires Inv(s) && Enabled(s, CompareExchange(p, false)) && s.head == s.producers[p].head
    ensures Inv(PushStep(s, CompareExchange(p, false)))
  {
    var s', n := PushStep(s, CompareExchange(p, false)), |s.log|;
    ReservationHasRoom(s, p);
    NextWord(n, s.Modulus());
    assert forall i :: 0 <= i < n ==> s'.log[i] == s.log[i];
    forall i | |s.popped| <= i < |s.popped| + s.Capacity()
      ensures SlotOk(s', i)
    {
      assert SlotOk(s, i);
    }
    forall i | 0 <= i < |s'.log|
      ensures OwnerOk(s', i)
    {
      if i < n {
        assert OwnerOk(s, i);
      }
    }
    forall q | 0 <= q < |s.producers|
      ensures ProducerOk(s', q)
    {
      assert ProducerOk(s, q);
    }
  }

  lemma WriteKeeps<T>(s: Ring<T>, p: nat)
    requires Inv(s) && Enabled(s, WriteItem(p))
    ensures InSlots(s, s.producers[p].reserved) && Inv(PushStep(s, WriteItem(p)))
  {
    WriteFindsFreeSlot(s, p);
    assert ProducerOk(s, p);
    FinishKeeps(s, PushStep(s, WriteItem(p)), p, s.producers[p].place);
  }

  lemma PublishKeeps<T>(s: Ring<T>, p: nat)
    requires Inv(s) && Enabled(s, Publish(p))
    ensures InSlots(s, s.producers[p].reserved) && Inv(PushStep(s, Publish(p)))
  {
    PublishFindsItem(s, p);
    assert ProducerOk(s, p);
    FinishKeeps(s, PushStep(s, Publish(p)), p, s.producers[p].place);
  }

  /** A change to one reserved place, its slot and its owner. */
  lemma FinishKeeps<T>(s: Ring<T>, s': Ring<T>, p: nat, place: nat)
    requires Inv(s) && p < |s.producers| == |s'.producers|
    requires |s.popped| <= place < |s.log| == |s'.log|
    requires s' == s.(producers := s'.producers, slots := s'.slots, log := s'.log)
    requires forall q :: 0 <= q < |s.producers| && q != p ==> s'.producers[q] == s.producers[q]
    requires |s'.slots| == |s.slots|
    requires forall j :: 0 <= j < |s.slots| && j != place % s.Capacity() ==> s'.slots[j] == s.slots[j]
    requires forall i :: 0 <= i < |s.log| && i != place ==> s'.log[i] == s.log[i]
    requires s.log[place].phase in {Reserved, Written} && s.log[place].owner == p
    requires s'.log[place] == s.log[place].(phase := s'.log[place].phase) && s'.log[place].phase != Taken
    requires SlotOk(s', place) && OwnerOk(s', place) && ProducerOk(s', p)
    ensures Inv(s')
  {
    forall i | |s.popped| <= i < |s.popped| + s.Capacity()
      ensures SlotOk(s', i)
    {
      assert SlotOk(s, i);
      OtherSlot(s, i, place);
      SlotInRange(s, i);
    }
    forall i | 0 <= i < |s.log|
      ensures OwnerOk(s', i)
    {
      assert OwnerOk(s, i) && OwnerOk(s, place);
    }
    forall q | 0 <= q < |s.producers|
      ensures ProducerOk(s', q)
    {
      assert ProducerOk(s, q);
    }
  }

  lemma SlotInRange<T>(s: Ring<T>, i: nat)
    requires |s.slots| == s.Capacity()
    ensures i % s.Capacity() < |s.slots|
  {
    DivMod(i, s.Capacity());
  }

  // ----- the consumer's steps -----

  lemma ConsumerLoadsKeep<T>(s: Ring<T>, step: Step<T>)
    requires Inv(s) && Enabled(s, step) && (step.Pop? || step.LoadHeadForPop? || step.LoadReady?)
    ensures (step.LoadReady? ==> InSlots(s, s.consumer.tail)) && Inv(PopStep(s, step))
  {
    if step.LoadHeadForPop? {
      EmptyIff(s);
    }
    if step.LoadReady? {
      ConsumerSlot(s);
    }
    var s' := PopStep(s, step);
    forall i | |s.popped| <= i < |s.popped| + s.Capacity()
      ensures SlotOk(s', i)
    {
      assert SlotOk(s, i);
    }
    forall i | 0 <= i < |s.log|
      ensures OwnerOk(s', i)
    {
      assert OwnerOk(s, i);
    }
    forall q | 0 <= q < |s.producers|
      ensures ProducerOk(s', q)
    {
      assert ProducerOk(s, q);
    }
  }

  /** `pop` sees head equal to tail exactly when nothing is reserved. */
  lemma EmptyIff<T>(s: Ring<T>)
    requires Inv(s)
    ensures s.tail == s.head <==> |s.popped| == |s.log|
  {
    PowOrder(s.bits, s.width);
    if s.tail == s.head {
      SameWord(|s.popped|, |s.log|, s.Modulus());
    }
  }

  /** A consumer's change to the oldest place and its slot. */
  lemma TakeKeeps<T>(s: Ring<T>, s': Ring<T>)
    requires Inv(s) && |s.popped| < |s.log| == |s'.log|
    requires s' == s.(consumer := s'.consumer, slots := s'.slots, log := s'.log)
    requires |s'.slots| == |s.slots|
    requires forall j :: 0 <= j < |s.slots| && j != |s.popped| % s.Capacity() ==> s'.slots[j] == s.slots[j]
    requires forall i :: 0 <= i < |s.log| && i != |s.popped| ==> s'.log[i] == s.log[i]
    requires s.log[|s.popped|].phase in {Published, Taken}
    requires s'.log[|s.popped|] == s.log[|s.popped|].(phase := Taken)
    requires s'.consumer.Clearing? || s'.consumer.Releasing?
    requires SlotOk(s', |s.popped|) && ConsumerOk(s')
    ensures Inv(s')
  {
    var place := |s.popped|;
    forall i | |s.popped| <= i < |s.popped| + s.Capacity()
      ensures SlotOk(s', i)
    {
      assert SlotOk(s, i);
      OtherSlot(s, i, place);
      SlotInRange(s, i);
    }
    forall i | 0 <= i < |s.log|
      ensures OwnerOk(s', i)
    {
      assert OwnerOk(s, i);
    }
    forall q | 0 <= q < |s.producers|
      ensures ProducerOk(s', q)
    {
      assert ProducerOk(s, q);
    }
  }

  lemma ReadKeeps<T>(s: Ring<T>)
    requires Inv(s) && Enabled(s, ReadItem)
    ensures InSlots(s, s.consumer.tail) && s.slots[s.Index(s.consumer.tail)].cell.Init?
    ensures Inv(PopStep(s, ReadItem))
  {
    ReadFindsItem(s);
    ConsumerSlot(s);
    TakeKeeps(s, PopStep(s, ReadItem));
  }

  lemma ClearKeeps<T>(s: Ring<T>)
    requires Inv(s) && Enabled(s, ClearReady)
    ensures InSlots(s, s.consumer.tail) && Inv(PopStep(s, ClearReady))
  {
    ConsumerSlot(s);
    TakeKeeps(s, PopStep(s, ClearReady));
  }

  lemma ReleaseKeeps<T>(s: Ring<T>)
    requires Inv(s) && Enabled(s, StoreTail)
    ensures Inv(PopStep(s, StoreTail))
  {
    var s', t, cap := PopStep(s, StoreTail), |s.popped|, s.Capacity();
    ConsumerSlot(s);
    NextWord(t, s.Modulus());
    NextLap(t, cap);
    forall i | t + 1 <= i < t + 1 + cap
      ensures SlotOk(s', i)
    {
      if i < t + cap {
        assert SlotOk(s, i);
      }
    }
    forall i | 0 <= i < |s.log|
      ensures OwnerOk(s', i)
    {
      assert OwnerOk(s, i);
    }
    forall q | 0 <= q < |s.producers|
      ensures ProducerOk(s', q)
    {
      assert ProducerOk(s, q);
    }
  }
}
