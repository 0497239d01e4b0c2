/** The single-producer single-consumer queue, as atomic steps of two threads that may interleave in any order and
    may read each other's counter late. The counters are 64-bit and wrap; a capacity is any that passes the static
    assertion of the class. */
module SpscQueue {
  import opened Words
  import opened Wrappers

  type uint64 = n: nat | n < WORD_RANGE

  function Wrap(n: nat): uint64 {
    n % WORD_RANGE
  }

  /** `(Capacity & (Capacity - 1)) == 0` in 64-bit arithmetic. */
  predicate StaticAssert(capacity: uint64) {
    And(capacity, Minus(capacity, 1)) == 0
  }

  /** `counter & (Capacity - 1)`. */
  function Slot(capacity: uint64, counter: uint64): nat {
    And(counter, Minus(capacity, 1))
  }

  /** Where the producer is inside `push`, with the local variables it holds there. */
  datatype Producer<T> =
    | NotPushing
    | TailLoaded(item: T, tail: uint64)
    | HeadLoaded(item: T, tail: uint64, head: uint64)
    | SlotWritten(item: T, tail: uint64)
    | PushReturned(ok: bool, item: T, left: Option<T>)

  /** Where the consumer is inside `pop`. */
  datatype Consumer<T> =
    | NotPopping
    | OwnHeadLoaded(head: uint64)
    | OtherTailLoaded(head: uint64, tail: uint64)
    | SlotTaken(head: uint64, item: Option<T>)
    | PopReturned(ok: bool, item: Option<T>)

  /** Slots hold None when never filled or moved from. `pushed` and `popped` record what was published by the stores
      to the two counters; `headSeen` and `tailSeen` are how many of the other thread's stores each has observed. */
  datatype State<T> = State(
    buffer: seq<Option<T>>, head: uint64, tail: uint64,
    producer: Producer<T>, consumer: Consumer<T>,
    pushed: seq<T>, popped: seq<Option<T>>, headSeen: nat, tailSeen: nat)

  function Init<T>(capacity: uint64): State<T> {
    State(seq(capacity, _ => None), 0, 0, NotPushing, NotPopping, [], [], 0, 0)
  }

  datatype Step<T> =
    | LoadOwnTail(item: T)
    | LoadHead(seen: nat)
    | CheckAndWrite
    | StoreTail
    | LoadOwnHead
    | LoadTail(seen: nat)
    | CheckAndTake
    | StoreHead

  /** A load of the other thread's counter yields any of its stores that is not older than one seen before. */
  predicate Enabled<T>(s: State<T>, step: Step<T>) {
    match step
    case LoadOwnTail(_) => s.producer.NotPushing? || s.producer.PushReturned?
    case LoadHead(seen) => s.producer.TailLoaded? && s.headSeen <= seen <= |s.popped|
    case CheckAndWrite => s.producer.HeadLoaded?
    case StoreTail => s.producer.SlotWritten?
    case LoadOwnHead => s.consumer.NotPopping? || s.consumer.PopReturned?
    case LoadTail(seen) => s.consumer.OwnHeadLoaded? && s.tailSeen <= seen <= |s.pushed|
    case CheckAndTake => s.consumer.OtherTailLoaded?
    case StoreHead => s.consumer.SlotTaken?
  }

  /** The producer's test of a full queue. */
  predicate Full<T>(capacity: uint64, s: State<T>)
    requires s.producer.HeadLoaded?
  {
    Minus(s.producer.tail, s.producer.head) >= capacity
  }

  function PutAt<V>(buffer: seq<V>, slot: nat, v: V): seq<V> {
    if slot < |buffer| then buffer[slot := v] else buffer
  }

  function Apply<T>(capacity: uint64, s: State<T>, step: Step<T>): State<T>
    requires Enabled(s, step)
  {
    match step
    case LoadOwnTail(item) => s.(producer := TailLoaded(item, s.tail))
    case LoadHead(seen) => s.(producer := HeadLoaded(s.producer.item, s.producer.tail, Wrap(seen)), headSeen := seen)
    case CheckAndWrite =>
      var p := s.producer;
      if Full(capacity, s) then
        s.(producer := PushReturned(false, p.item, Some(p.item)))
      else
        s.(buffer := PutAt(s.buffer, Slot(capacity, p.tail), Some(p.item)), producer := SlotWritten(p.item, p.tail))
    case StoreTail =>
      s.(tail := Wrap(s.producer.tail + 1), pushed := s.pushed + [s.producer.item],
         producer := PushReturned(true, s.producer.item, None))
    case LoadOwnHead => s.(consumer := OwnHeadLoaded(s.head))
    case LoadTail(seen) => s.(consumer := OtherTailLoaded(s.consumer.head, Wrap(seen)), tailSeen := seen)
    case CheckAndTake =>
      var c := s.consumer;
      var slot := Slot(capacity, c.head);
      if c.head == c.tail then
        s.(consumer := PopReturned(false, None))
      else
        s.(buffer := PutAt(s.buffer, slot, None),
           consumer := SlotTaken(c.head, if slot < |s.buffer| then s.buffer[slot] else None))
    case StoreHead =>
      s.(head := Wrap(s.consumer.head + 1), popped := s.popped + [s.consumer.item],
         consumer := PopReturned(true, s.consumer.item))
  }

  /** The state after an interleaving that starts from the empty queue; None when it cannot happen. */
  function After<T>(capacity: uint64, steps: seq<Step<T>>): Option<State<T>> {
    if steps == [] then Some(Init(capacity))
    else
      match After(capacity, steps[..|steps| - 1])
      case None => None
      case Some(s) => if Enabled(s, steps[|steps| - 1]) then Some(Apply(capacity, s, steps[|steps| - 1])) else None
  }

  // ---------------------------------------------------------------- indices

  /** The static assertion admits powers of two, and zero. */
  lemma CapacityIsPower(capacity: uint64) returns (k: nat)
    requires StaticAssert(capacity) && capacity > 0
    ensures capacity == Pow2(k) && Minus(capacity, 1) == Pow2(k) - 1
  {
    k := SingleBit(capacity);
  }

  /** The mask agrees with the remainder of the unbounded count, also after the counter has wrapped. */
  lemma SlotIsRemainder(capacity: uint64, count: nat)
    requires StaticAssert(capacity) && capacity > 0
    ensures Slot(capacity, Wrap(count)) == count % capacity
  {
    var k := CapacityIsPower(capacity);
    MaskIsRemainder(Wrap(count), k);
    WrapKeepsRemainder(count, k);
  }

  lemma NotPositive(d: int, c: nat)
    requires d <= 0
    ensures d * c <= 0
  {
  }

  /** Counts less than the capacity apart have different slots. */
  lemma SlotsDistinct(capacity: nat, i: nat, j: nat)
    requires capacity > 0 && i < j < i + capacity
    ensures i % capacity != j % capacity
  {
    if i % capacity == j % capacity {
      var d := j / capacity - i / capacity;
      assert j - i == d * capacity by {
        assert j == (j / capacity) * capacity + j % capacity;
        assert i == (i / capacity) * capacity + i % capacity;
      }
      if d > 0 {
        MultipleIsLarge(d, capacity);
      } else {
        NotPositive(d, capacity);
      }
    }
  }

  // ---------------------------------------------------------------- the invariant

  /** Everything published, and the item already in its slot but not yet published. */
  ghost function Written<T>(s: State<T>): seq<T> {
    if s.producer.SlotWritten? then s.pushed + [s.producer.item] else s.pushed
  }

  /** How many items have left their slots. */
  ghost function Taken<T>(s: State<T>): nat {
    |s.popped| + if s.consumer.SlotTaken? then 1 else 0
  }

  ghost predicate Counted<T>(capacity: uint64, s: State<T>) {
    && s.head == Wrap(|s.popped|) && s.tail == Wrap(|s.pushed|)
    && s.headSeen <= |s.popped| <= s.tailSeen <= |s.pushed| <= s.headSeen + capacity
  }

  ghost predicate ProducerOk<T>(capacity: uint64, s: State<T>) {
    match s.producer
    case NotPushing => true
    case TailLoaded(_, tail) => tail == s.tail
    case HeadLoaded(_, tail, head) => tail == s.tail && head == Wrap(s.headSeen)
    case SlotWritten(_, tail) => tail == s.tail && |s.pushed| < s.headSeen + capacity
    case PushReturned(ok, item, left) =>
      && left == (if ok then None else Some(item))
      && (ok ==> s.pushed != [] && s.pushed[|s.pushed| - 1] == item)
  }

  ghost predicate ConsumerOk<T>(s: State<T>) {
    match s.consumer
    case NotPopping => true
    case OwnHeadLoaded(head) => head == s.head
    case OtherTailLoaded(head, tail) => head == s.head && tail == Wrap(s.tailSeen)
    case SlotTaken(head, item) =>
      head == s.head && |s.popped| < s.tailSeen <= |s.pushed| && item == Some(s.pushed[|s.popped|])
    case PopReturned(ok, item) =>
      if ok then s.popped != [] && s.popped[|s.popped| - 1] == item else item == None
  }

  /** Items waiting in the queue are in the slots of their numbers. */
  ghost predicate Stored<T>(capacity: uint64, s: State<T>) {
    && |s.buffer| == capacity
    && forall i: nat :: Taken(s) <= i < |Written(s)| && capacity > 0 ==> s.buffer[i % capacity] == Some(Written(s)[i])
  }

  /** What was popped is what was pushed, in order. */
  ghost predicate Fifo<T>(s: State<T>) {
    && |s.popped| <= |s.pushed|
    && forall i :: 0 <= i < |s.popped| ==> s.popped[i] == Some(s.pushed[i])
  }

  ghost predicate Inv<T>(capacity: uint64, s: State<T>) {
    Counted(capacity, s) && ProducerOk(capacity, s) && ConsumerOk(s) && Stored(capacity, s) && Fifo(s)
  }

  /** The test for a full queue is exact for the head that was observed. */
  lemma FullExactly<T>(capacity: uint64, s: State<T>)
    requires Inv(capacity, s) && s.producer.HeadLoaded?
    ensures Full(capacity, s) <==> |s.pushed| == s.headSeen + capacity
  {
    WrappedDifference(|s.pushed|, s.headSeen);
  }

  lemma SameWrap(a: nat, b: nat)
    requires a <= b < a + WORD_RANGE
    ensures Wrap(a) == Wrap(b) <==> a == b
  {
    if a < b {
      SlotsDistinct(WORD_RANGE, a, b);
    }
  }

  /** The test for an empty queue is exact for the tail that was observed. */
  lemma EmptyExactly<T>(capacity: uint64, s: State<T>)
    requires Inv(capacity, s) && s.consumer.OtherTailLoaded?
    ensures s.consumer.head == s.consumer.tail <==> |s.popped| == s.tailSeen
  {
    SameWrap(|s.popped|, s.tailSeen);
  }

  /** The slot the producer is about to write belongs to no item that is waiting, and it is not the slot the consumer
      is about to read: plain slot accesses never race. */
  lemma WriteIsSafe<T>(capacity: uint64, s: State<T>, i: nat)
    requires StaticAssert(capacity) && Inv(capacity, s) && s.producer.HeadLoaded? && !Full(capacity, s)
    requires |s.popped| <= i < |s.pushed|
    ensures capacity > 0 && Slot(capacity, s.producer.tail) == |s.pushed| % capacity
    ensures Slot(capacity, Wrap(i)) == i % capacity != |s.pushed| % capacity
  {
    FullExactly(capacity, s);
    SlotIsRemainder(capacity, |s.pushed|);
    SlotIsRemainder(capacity, i);
    SlotsDistinct(capacity, i, |s.pushed|);
  }

  lemma InvWrite<T>(capacity: uint64, s: State<T>)
    requires StaticAssert(capacity) && Inv(capacity, s) && s.producer.HeadLoaded? && !Full(capacity, s)
    ensures Inv(capacity, Apply(capacity, s, CheckAndWrite))
  {
    FullExactly(capacity, s);
    SlotIsRemainder(capacity, |s.pushed|);
    var t := Apply(capacity, s, CheckAndWrite);
    forall i: nat | Taken(t) <= i < |Written(t)|
      ensures t.buffer[i % capacity] == Some(Written(t)[i])
    {
      if i < |s.pushed| {
        WriteIsSafe(capacity, s, i);
      }
    }
  }

  lemma InvTake<T>(capacity: uint64, s: State<T>)
    requires StaticAssert(capacity) && Inv(capacity, s)
    requires s.consumer.OtherTailLoaded? && s.consumer.head != s.consumer.tail
    ensures Inv(capacity, Apply(capacity, s, CheckAndTake))
  {
    EmptyExactly(capacity, s);
    SlotIsRemainder(capacity, |s.popped|);
    var t := Apply(capacity, s, CheckAndTake);
    assert s.buffer[|s.popped| % capacity] == Some(Written(s)[|s.popped|]);
    forall i: nat | Taken(t) <= i < |Written(t)|
      ensures t.buffer[i % capacity] == Some(Written(t)[i])
    {
      SlotsDistinct(capacity, |s.popped|, i);
    }
  }

  lemma WrapNext(n: nat)
    ensures Wrap(Wrap(n) + 1) == Wrap(n + 1)
  {
  }

  lemma InvPublish<T>(capacity: uint64, s: State<T>)
    requires Inv(capacity, s) && s.producer.SlotWritten?
    ensures Inv(capacity, Apply(capacity, s, StoreTail))
  {
    WrapNext(|s.pushed|);
    assert Written(Apply(capacity, s, StoreTail)) == Written(s);
  }

  lemma InvRelease<T>(capacity: uint64, s: State<T>)
    requires Inv(capacity, s) && s.consumer.SlotTaken?
    ensures Inv(capacity, Apply(capacity, s, StoreHead))
  {
    WrapNext(|s.popped|);
  }

  lemma InvStep<T>(capacity: uint64, s: State<T>, step: Step<T>)
    requires StaticAssert(capacity) && Inv(capacity, s) && Enabled(s, step)
    ensures Inv(capacity, Apply(capacity, s, step))
  {
    if step.CheckAndWrite? && !Full(capacity, s) {
      InvWrite(capacity, s);
    } else if step.CheckAndTake? && s.consumer.head != s.consumer.tail {
      InvTake(capacity, s);
    } else if step.StoreTail? {
      InvPublish(capacity, s);
    } else if step.StoreHead? {
      InvRelease(capacity, s);
    } else {
      InvLoad(capacity, s, step);
    }
  }

  lemma StoredSame<T>(capacity: uint64, s: State<T>, t: State<T>)
    requires Stored(capacity, s) && t.buffer == s.buffer && Written(t) == Written(s) && Taken(t) == Taken(s)
    ensures Stored(capacity, t)
  {
  }

  /** Loads, and checks that fail, touch neither slots nor counters. */
  lemma InvLoad<T>(capacity: uint64, s: State<T>, step: Step<T>)
    requires Inv(capacity, s) && Enabled(s, step) && !step.StoreTail? && !step.StoreHead?
    requires step.CheckAndWrite? ==> Full(capacity, s)
    requires step.CheckAndTake? ==> s.consumer.head == s.consumer.tail
    ensures Inv(capacity, Apply(capacity, s, step))
  {
    var t := Apply(capacity, s, step);
    assert t.pushed == s.pushed && t.popped == s.popped;
    StoredSame(capacity, s, t);
    assert ProducerOk(capacity, t) && ConsumerOk(t);
  }

  lemma {:induction false} InvAlways<T>(capacity: uint64, steps: seq<Step<T>>)
    requires StaticAssert(capacity) && After(capacity, steps).Some?
    ensures Inv(capacity, After(capacity, steps).value)
  {
    if steps != [] {
      var before := steps[..|steps| - 1];
      InvAlways(capacity, before);
      InvStep(capacity, After(capacity, before).value, steps[|steps| - 1]);
    }
  }

  // ---------------------------------------------------------------- what it gives

  /** In every interleaving: the popped items are a prefix of the pushed ones, between zero and `capacity` items are in
      the queue, the wrapped subtraction of the counters counts them, and a push that failed still has its item. */
  lemma FirstInFirstOut<T>(capacity: uint64, steps: seq<Step<T>>)
    requires StaticAssert(capacity) && After(capacity, steps).Some?
    ensures var s := After(capacity, steps).value;
      && Fifo(s)
      && 0 <= |s.pushed| - |s.popped| <= capacity
      && Minus(s.tail, s.head) == |s.pushed| - |s.popped|
      && (s.producer.PushReturned? && !s.producer.ok ==> s.producer.left == Some(s.producer.item))
      && (s.producer.PushReturned? && s.producer.ok ==>
            s.pushed != [] && s.producer.item == s.pushed[|s.pushed| - 1])
      && (s.consumer.PopReturned? && s.consumer.ok ==> s.popped != [] && s.consumer.item == s.popped[|s.popped| - 1])
  {
    InvAlways(capacity, steps);
    var s := After(capacity, steps).value;
    WrappedDifference(|s.pushed|, |s.popped|);
  }

  /** In every interleaving, when the producer is about to write a slot, no waiting item occupies it and the consumer is
      not about to read it. */
  lemma NeverOverwrites<T>(capacity: uint64, steps: seq<Step<T>>, i: nat)
    requires StaticAssert(capacity) && After(capacity, steps).Some?
    requires var s := After(capacity, steps).value; s.producer.HeadLoaded? && !Full(capacity, s)
    requires var s := After(capacity, steps).value; |s.popped| <= i < |s.pushed|
    ensures var s := After(capacity, steps).value;
      && Slot(capacity, s.producer.tail) < |s.buffer|
      && Slot(capacity, s.producer.tail) != Slot(capacity, Wrap(i))
      && (s.consumer.OtherTailLoaded? && s.consumer.head != s.consumer.tail ==>
            Slot(capacity, s.producer.tail) != Slot(capacity, s.consumer.head))
  {
    InvAlways(capacity, steps);
    var s := After(capacity, steps).value;
    WriteIsSafe(capacity, s, i);
    if s.consumer.OtherTailLoaded? && s.consumer.head != s.consumer.tail {
      EmptyExactly(capacity, s);
      WriteIsSafe(capacity, s, |s.popped|);
    }
  }

  lemma OneMore<T>(capacity: uint64, steps: seq<Step<T>>, step: Step<T>)
    requires After(capacity, steps).Some? && Enabled(After(capacity, steps).value, step)
    ensures After(capacity, steps + [step]) == Some(Apply(capacity, After(capacity, steps).value, step))
  {
    assert (steps + [step])[..|steps|] == steps;
  }

  /** What the check of a push does next, in every interleaving: it fails and keeps its item if and only if `capacity`
      items lie between the head it loaded and the tail, and otherwise the item is in its slot. With a current head that
      is exactly when the queue is full; with a late one it can fail on a queue that is no longer full. */
  lemma PushFailsExactlyWhenFull<T>(capacity: uint64, steps: seq<Step<T>>)
    requires StaticAssert(capacity) && After(capacity, steps).Some? && After(capacity, steps).value.producer.HeadLoaded?
    ensures After(capacity, steps + [CheckAndWrite]).Some?
    ensures var s, t := After(capacity, steps).value, After(capacity, steps + [CheckAndWrite]).value;
      var item := s.producer.item;
      && t.pushed == s.pushed && t.popped == s.popped
      && (|s.pushed| - s.headSeen == capacity ==> t.producer == PushReturned(false, item, Some(item)))
      && (|s.pushed| - s.headSeen != capacity ==>
            && t.producer == SlotWritten(item, s.producer.tail) && |s.pushed| - s.headSeen < capacity
            && |t.buffer| == capacity && t.buffer[|s.pushed| % capacity] == Some(item))
      && (s.headSeen == |s.popped| ==> (t.producer.PushReturned? <==> |s.pushed| - |s.popped| == capacity))
  {
    InvAlways(capacity, steps);
    OneMore(capacity, steps, CheckAndWrite);
    InvAlways(capacity, steps + [CheckAndWrite]);
    var s := After(capacity, steps).value;
    FullExactly(capacity, s);
    if capacity > 0 {
      SlotIsRemainder(capacity, |s.pushed|);
    }
  }

  /** The same of a pop: it fails if and only if it has popped all that it saw pushed, and otherwise it has the oldest
      item. With a current tail that is exactly when the queue is empty. */
  lemma PopFailsExactlyWhenEmpty<T>(capacity: uint64, steps: seq<Step<T>>)
    requires StaticAssert(capacity) && After(capacity, steps).Some?
    requires After(capacity, steps).value.consumer.OtherTailLoaded?
    ensures After(capacity, steps + [CheckAndTake]).Some?
    ensures var s, t := After(capacity, steps).value, After(capacity, steps + [CheckAndTake]).value;
      && t.pushed == s.pushed && t.popped == s.popped
      && (|s.popped| == s.tailSeen ==> t.consumer == PopReturned(false, None))
      && (|s.popped| != s.tailSeen ==>
            |s.popped| < |s.pushed| && t.consumer == SlotTaken(s.consumer.head, Some(s.pushed[|s.popped|])))
      && (s.tailSeen == |s.pushed| ==> (t.consumer.PopReturned? <==> |s.pushed| == |s.popped|))
  {
    InvAlways(capacity, steps);
    OneMore(capacity, steps, CheckAndTake);
    InvAlways(capacity, steps + [CheckAndTake]);
    EmptyExactly(capacity, After(capacity, steps).value);
  }

  // ---------------------------------------------------------------- whole calls

  /** The item of the last push that began. */
  function Offered<T>(steps: seq<Step<T>>): Option<T> {
    if steps == [] then None
    else if steps[|steps| - 1].LoadOwnTail? then Some(steps[|steps| - 1].item)
    else Offered(steps[..|steps| - 1])
  }

  /** The items of the pushes that published theirs, in order. */
  function Published<T>(steps: seq<Step<T>>): seq<Option<T>> {
    if steps == [] then []
    else Published(steps[..|steps| - 1]) + if steps[|steps| - 1].StoreTail? then [Offered(steps[..|steps| - 1])] else []
  }

  function Stores<T>(steps: seq<Step<T>>): nat {
    if steps == [] then 0 else Stores(steps[..|steps| - 1]) + if steps[|steps| - 1].StoreHead? then 1 else 0
  }

  ghost predicate CarriesOffer<T>(producer: Producer<T>, offered: Option<T>) {
    producer.TailLoaded? || producer.HeadLoaded? || producer.SlotWritten? ==> offered == Some(producer.item)
  }

  /** In every interleaving the queue has taken in exactly the items of the pushes that stored the tail, each that of
      its own call, and as many pops have gone out as stored the head. */
  lemma {:induction false} CallsAreCounted<T>(capacity: uint64, steps: seq<Step<T>>)
    requires After(capacity, steps).Some?
    ensures var s := After(capacity, steps).value;
      && CarriesOffer(s.producer, Offered(steps))
      && |Published(steps)| == |s.pushed|
      && (forall i :: 0 <= i < |s.pushed| ==> Published(steps)[i] == Some(s.pushed[i]))
      && Stores(steps) == |s.popped|
  {
    if steps != [] {
      CallsAreCounted(capacity, steps[..|steps| - 1]);
    }
  }

  /** A step that can be taken, appended. */
  lemma Then<T>(capacity: uint64, steps: seq<Step<T>>, s: State<T>, step: Step<T>)
      returns (more: seq<Step<T>>, t: State<T>)
    requires After(capacity, steps) == Some(s) && Enabled(s, step)
    ensures more == steps + [step] && t == Apply(capacity, s, step) && After(capacity, more) == Some(t)
  {
    OneMore(capacity, steps, step);
    more, t := steps + [step], Apply(capacity, s, step);
  }

  /** From every reachable state, a push that nobody disturbs and that loads the current head appends its item exactly
      when there is room; otherwise it returns with the item and changes nothing. */
  lemma UndisturbedPush<T>(capacity: uint64, steps: seq<Step<T>>, item: T) returns (more: seq<Step<T>>, t: State<T>)
    requires StaticAssert(capacity) && After(capacity, steps).Some?
    requires Enabled(After(capacity, steps).value, LoadOwnTail(item))
    ensures steps <= more && |more| <= |steps| + 4 && After(capacity, more) == Some(t)
    ensures forall i :: |steps| <= i < |more| ==>
      more[i].LoadOwnTail? || more[i].LoadHead? || more[i].CheckAndWrite? || more[i].StoreTail?
    ensures var s := After(capacity, steps).value;
      if |s.pushed| - |s.popped| < capacity then
        t.pushed == s.pushed + [item] && t.popped == s.popped && t.producer == PushReturned(true, item, None)
      else
        t.pushed == s.pushed && t.popped == s.popped && t.producer == PushReturned(false, item, Some(item))
  {
    InvAlways(capacity, steps);
    var s := After(capacity, steps).value;
    more, t := Then(capacity, steps, s, LoadOwnTail(item));
    more, t := Then(capacity, more, t, LoadHead(|s.popped|));
    PushFailsExactlyWhenFull(capacity, more);
    more, t := Then(capacity, more, t, CheckAndWrite);
    if |s.pushed| - |s.popped| < capacity {
      more, t := Then(capacity, more, t, StoreTail);
    }
  }

  /** And a pop that nobody disturbs takes the oldest item exactly when there is one. */
  lemma UndisturbedPop<T>(capacity: uint64, steps: seq<Step<T>>) returns (more: seq<Step<T>>, t: State<T>)
    requires StaticAssert(capacity) && After(capacity, steps).Some?
    requires Enabled(After(capacity, steps).value, LoadOwnHead)
    ensures steps <= more && |more| <= |steps| + 4 && After(capacity, more) == Some(t)
    ensures forall i :: |steps| <= i < |more| ==>
      more[i].LoadOwnHead? || more[i].LoadTail? || more[i].CheckAndTake? || more[i].StoreHead?
    ensures var s := After(capacity, steps).value;
      && |s.popped| <= |s.pushed|
      && if |s.popped| < |s.pushed| then
           && t.pushed == s.pushed && t.popped == s.popped + [Some(s.pushed[|s.popped|])]
           && t.consumer == PopReturned(true, Some(s.pushed[|s.popped|]))
         else
           t.pushed == s.pushed && t.popped == s.popped && t.consumer == PopReturned(false, None)
  {
    var s := After(capacity, steps).value;
    more, t := UndisturbedCheck(capacity, steps, s);
    if |s.popped| < |s.pushed| {
      more, t := Then(capacity, more, t, StoreHead);
    }
  }

  /** Its first three steps. */
  lemma UndisturbedCheck<T>(capacity: uint64, steps: seq<Step<T>>, s: State<T>)
      returns (more: seq<Step<T>>, t: State<T>)
    requires StaticAssert(capacity) && After(capacity, steps) == Some(s) && Enabled(s, LoadOwnHead)
    ensures more == steps + [LoadOwnHead, LoadTail(|s.pushed|), CheckAndTake] && After(capacity, more) == Some(t)
    ensures t.pushed == s.pushed && t.popped == s.popped && |s.popped| <= |s.pushed|
    ensures t.consumer == if |s.popped| < |s.pushed| then SlotTaken(s.head, Some(s.pushed[|s.popped|]))
                          else PopReturned(false, None)
  {
    InvAlways(capacity, steps);
    more, t := Then(capacity, steps, s, LoadOwnHead);
    more, t := Then(capacity, more, t, LoadTail(|s.pushed|));
    PopFailsExactlyWhenEmpty(capacity, more);
    more, t := Then(capacity, more, t, CheckAndTake);
  }

  // ---------------------------------------------------------------- the queue as an object

  /** The queued items sit in the slots of their numbers, `popped` being the number of the oldest. */
  ghost predicate Held<T>(buffer: seq<T>, popped: nat, contents: seq<T>) {
    && |contents| <= |buffer|
    && forall i: nat :: i < |contents| ==> buffer[(popped + i) % |buffer|] == contents[i]
  }

  lemma HeldAfterPush<T>(buffer: seq<T>, popped: nat, contents: seq<T>, item: T, j: nat, written: seq<T>)
    requires Held(buffer, popped, contents) && |contents| < |buffer|
    requires j == (popped + |contents|) % |buffer| && written == buffer[j := item]
    ensures Held(written, popped, contents + [item])
  {
    forall i: nat | i < |contents| + 1
      ensures written[(popped + i) % |buffer|] == (contents + [item])[i]
    {
      if i < |contents| {
        SlotsDistinct(|buffer|, popped + i, popped + |contents|);
      }
    }
  }

  lemma HeldAfterPop<T>(buffer: seq<T>, popped: nat, contents: seq<T>, moved: T)
    requires Held(buffer, popped, contents) && contents != []
    ensures buffer[popped % |buffer|] == contents[0]
    ensures Held(buffer[popped % |buffer| := moved], popped + 1, contents[1..])
  {
    assert buffer[(popped + 0) % |buffer|] == contents[0];
    var taken := buffer[popped % |buffer| := moved];
    forall i: nat | i < |contents| - 1
      ensures taken[(popped + 1 + i) % |buffer|] == contents[1..][i]
    {
      SlotsDistinct(|buffer|, popped, popped + (1 + i));
      assert buffer[(popped + (1 + i)) % |buffer|] == contents[1 + i];
      assert popped + 1 + i == popped + (1 + i);
    }
  }

  /** The class itself, called by one thread at a time. `pushed` and `popped` count the successful calls. */
  class LockFreeQueue<T(0)> {
    const capacity: uint64
    const buffer: array<T>
    var head: uint64
    var tail: uint64
    ghost var contents: seq<T>
    ghost var popped: nat

    ghost predicate Valid()
      reads this, buffer
    {
      && StaticAssert(capacity) && buffer.Length == capacity
      && head == Wrap(popped) && tail == Wrap(popped + |contents|)
      && Held(buffer[..], popped, contents)
    }

    constructor (capacity: uint64)
      requires StaticAssert(capacity)
      ensures Valid() && fresh(buffer) && contents == [] && this.capacity == capacity
    {
      this.capacity := capacity;
      buffer := new T[capacity];
      head, tail := 0, 0;
      contents, popped := [], 0;
    }

    /** Appends exactly when fewer than `capacity` items are queued. */
    method Push(item: T) returns (ok: bool)
      requires Valid()
      modifies this`tail, this`contents, buffer
      ensures Valid()
      ensures ok <==> |old(contents)| < capacity
      ensures contents == if ok then old(contents) + [item] else old(contents)
      ensures !ok ==> tail == old(tail) && buffer[..] == old(buffer[..])
    {
      WrappedDifference(popped + |contents|, popped);
      if Minus(tail, head) >= capacity {
        return false;
      }
      SlotIsRemainder(capacity, popped + |contents|);
      WrapNext(popped + |contents|);
      var j := Slot(capacity, tail);
      ghost var before := buffer[..];
      buffer[j] := item;
      assert buffer[..] == before[j := item];
      HeldAfterPush(before, popped, contents, item, j, buffer[..]);
      tail := Wrap(tail + 1);
      contents := contents + [item];
      return true;
    }

    /** Removes the oldest item exactly when there is one; the slot keeps a moved-from value. */
    method Pop(moved: T) returns (ok: bool, item: T)
      requires Valid()
      modifies this`head, this`contents, this`popped, buffer
      ensures Valid()
      ensures ok <==> old(contents) != []
      ensures ok ==> old(contents) == [item] + contents
      ensures !ok ==> contents == [] && head == old(head)
    {
      SameWrap(popped, popped + |contents|);
      item := moved;
      if head == tail {
        return false, item;
      }
      SlotIsRemainder(capacity, popped);
      WrapNext(popped);
      HeldAfterPop(buffer[..], popped, contents, moved);
      ghost var before := buffer[..];
      var slot := Slot(capacity, head);
      item := buffer[slot];
      buffer[slot] := moved;
      assert buffer[..] == before[popped % capacity := moved];
      head := Wrap(head + 1);
      contents := contents[1..];
      popped := popped + 1;
      return true, item;
    }
  }
}
