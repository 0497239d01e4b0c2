/** The jitter buffer on values: two parallel 32-slot rings, a counter and a read pointer. The functions
    are total: they also say what happens when a push lands on an occupied slot. */
module JitterModel {
  import opened Wrappers
  import opened Reassembly

  const CAPACITY: nat := 32
  const HIGH_WATER: nat := 28

  datatype EntryInfo = EntryInfo(frameId: nat, occupied: bool)

  datatype Jitter = Jitter(
    ring: seq<Option<Frame>>, info: seq<EntryInfo>, nextPop: nat, initialized: bool, count: nat)

  predicate Sized(s: Jitter) {
    |s.ring| == |s.info| == CAPACITY
  }

  function Cell(id: nat): (j: nat)
    ensures j < CAPACITY
  {
    id % CAPACITY
  }

  function Empty(): Jitter {
    Jitter(seq(CAPACITY, _ => None), seq(CAPACITY, _ => EntryInfo(0, false)), 0, false, 0)
  }

  /** A slot holds a frame exactly when its entry is occupied, under the same id, in the right place. */
  predicate LinkedAt(s: Jitter, j: nat)
    requires Sized(s) && j < CAPACITY
  {
    && (s.ring[j].Some? <==> s.info[j].occupied)
    && (s.ring[j].Some? ==>
          && s.info[j].frameId == s.ring[j].value.frameId
          && Cell(s.info[j].frameId) == j && s.nextPop <= s.info[j].frameId)
  }

  ghost predicate Linked(s: Jitter) {
    Sized(s) && forall j :: 0 <= j < CAPACITY ==> LinkedAt(s, j)
  }

  /** How many of the first `n` slots are occupied. */
  function Occupied(info: seq<EntryInfo>, n: nat): (c: nat)
    requires n <= |info|
    ensures c <= n
  {
    if n == 0 then 0 else Occupied(info, n - 1) + if info[n - 1].occupied then 1 else 0
  }

  lemma {:induction false} OccupiedPositive(info: seq<EntryInfo>, n: nat, j: nat)
    requires j < n <= |info| && info[j].occupied
    ensures Occupied(info, n) > 0
  {
    if j < n - 1 {
      OccupiedPositive(info, n - 1, j);
    }
  }

  /** What holds after any calls with any frames: linked rings, a counter that never falls below the number
      of occupied slots, and nothing held before the first push. */
  ghost predicate Tracked(s: Jitter) {
    && Linked(s) && Occupied(s.info, CAPACITY) <= s.count
    && (!s.initialized ==> s.count == 0 && forall j :: 0 <= j < CAPACITY ==> s.ring[j].None?)
  }

  // ---------------------------------------------------------------- overflow

  /** The scan for the oldest entry looks at the `n` slots from the read pointer on. */
  function Oldest(s: Jitter, n: nat): Option<nat>
    requires Sized(s)
  {
    if n == 0 then None
    else
      var r, last := Oldest(s, n - 1), s.nextPop + n - 1;
      var e := s.info[Cell(last)];
      if e.occupied && (r.None? || e.frameId < r.value) then Some(e.frameId) else r
  }

  /** It finds an occupied entry, if there is one, and no occupied entry has a smaller id. */
  lemma {:induction false} OldestFacts(s: Jitter, n: nat, r: Option<nat>)
    requires Sized(s) && r == Oldest(s, n)
    ensures r.Some? ==> exists k :: s.nextPop <= k < s.nextPop + n && s.info[Cell(k)] == EntryInfo(r.value, true)
    ensures forall k :: s.nextPop <= k < s.nextPop + n && s.info[Cell(k)].occupied ==>
      r.Some? && r.value <= s.info[Cell(k)].frameId
  {
    if n > 0 {
      OldestFacts(s, n - 1, Oldest(s, n - 1));
      var last := s.nextPop + n - 1;
      assert r.Some? && r != Oldest(s, n - 1) ==> s.info[Cell(last)] == EntryInfo(r.value, true);
    }
  }

  function Vacate(info: seq<EntryInfo>, j: nat): seq<EntryInfo>
    requires j < |info|
  {
    info[j := info[j].(occupied := false)]
  }

  function Drop(s: Jitter, id: nat): Jitter
    requires Sized(s) && s.count > 0
  {
    s.(ring := s.ring[Cell(id) := None], info := Vacate(s.info, Cell(id)), count := s.count - 1,
       nextPop := if id == s.nextPop then s.nextPop + 1 else s.nextPop)
  }

  /** The overflow loop. */
  function Shrink(s: Jitter): (t: Jitter)
    requires Sized(s)
    ensures Sized(t)
    decreases s.count
  {
    if s.count <= HIGH_WATER || Oldest(s, CAPACITY).None? then s
    else Shrink(Drop(s, Oldest(s, CAPACITY).value))
  }

  /** The frames the overflow loop gives back. */
  function Shed(s: Jitter): seq<Frame>
    requires Sized(s)
    decreases s.count
  {
    if s.count <= HIGH_WATER || Oldest(s, CAPACITY).None? then []
    else
      var id := Oldest(s, CAPACITY).value;
      Released(s.ring[Cell(id)]) + Shed(Drop(s, id))
  }

  /** One turn of the overflow loop. */
  lemma ShrinkStep(s: Jitter, oldest: Option<nat>)
    requires Sized(s) && s.count > HIGH_WATER && oldest == Oldest(s, CAPACITY)
    ensures oldest.None? ==> Shrink(s) == s && Shed(s) == []
    ensures oldest.Some? ==> Shrink(s) == Shrink(Drop(s, oldest.value))
    ensures oldest.Some? ==> forall l: seq<Frame> ::
      l + Shed(s) == (l + Released(s.ring[Cell(oldest.value)])) + Shed(Drop(s, oldest.value))
  {
    if oldest.Some? {
      var first, rest := Released(s.ring[Cell(oldest.value)]), Shed(Drop(s, oldest.value));
      assert Shed(s) == first + rest;
      forall l: seq<Frame>
        ensures l + Shed(s) == (l + first) + rest
      {
        Associate(l, first, rest);
      }
    }
  }

  lemma Associate<T>(a: seq<T>, b: seq<T>, c: seq<T>)
    ensures a + (b + c) == (a + b) + c
  {
  }

  /** What destroying a slot's pointer gives back. */
  function Released(e: Option<Frame>): seq<Frame> {
    if e.Some? then [e.value] else []
  }

  // ---------------------------------------------------------------- operations

  function Started(s: Jitter, f: Frame): Jitter {
    if s.initialized then s else s.(nextPop := f.frameId, initialized := true)
  }

  /** The frame is refused: too old, or already there. */
  predicate Refused(s: Jitter, f: Frame)
    requires Sized(s)
  {
    || f.frameId < Started(s, f).nextPop
    || (s.ring[Cell(f.frameId)].Some? && s.ring[Cell(f.frameId)].value.frameId == f.frameId)
  }

  function Insert(s: Jitter, f: Frame): Jitter
    requires Sized(s)
  {
    s.(ring := s.ring[Cell(f.frameId) := Some(f)],
       info := s.info[Cell(f.frameId) := EntryInfo(f.frameId, true)], count := s.count + 1)
  }

  function Push(s: Jitter, f: Frame): (t: Jitter)
    requires Sized(s)
    ensures Sized(t)
  {
    if Refused(s, f) then Started(s, f) else Shrink(Insert(Started(s, f), f))
  }

  /** The frames a push gives back: the pushed one if refused, else an overwritten one and the shed ones. */
  function PushReleases(s: Jitter, f: Frame): seq<Frame>
    requires Sized(s)
  {
    if Refused(s, f) then [f]
    else Released(s.ring[Cell(f.frameId)]) + Shed(Insert(Started(s, f), f))
  }

  /** When the frame at the read pointer may leave. `early` stands for the jitter-delay clock. */
  predicate Due(s: Jitter, sync: nat, early: bool, maxFrames: nat)
    requires Sized(s)
  {
    var j := Cell(s.nextPop);
    && s.info[j].occupied && s.info[j].frameId == s.nextPop && s.ring[j].Some?
    && (if sync > 0 then s.ring[j].value.stamps.capture <= sync + 5000 else !(early && s.count < maxFrames))
  }

  function Pop(s: Jitter, sync: nat, early: bool, maxFrames: nat): (r: (Jitter, Option<Frame>))
    requires Tracked(s)
  {
    if Due(s, sync, early, maxFrames) then
      OccupiedPositive(s.info, CAPACITY, Cell(s.nextPop));
      (s.(ring := s.ring[Cell(s.nextPop) := None], info := Vacate(s.info, Cell(s.nextPop)),
          count := s.count - 1, nextPop := s.nextPop + 1), s.ring[Cell(s.nextPop)])
    else (s, None)
  }

  function Reset(s: Jitter, id: nat): Jitter
    requires Sized(s)
  {
    Jitter(seq(CAPACITY, _ => None),
           seq(CAPACITY, j requires 0 <= j < CAPACITY => s.info[j].(occupied := false)), id, true, 0)
  }

  // ---------------------------------------------------------------- every operation keeps the rings linked

  /** Every slot belongs to one of the next 32 ids. */
  lemma EveryCell(base: nat, j: nat) returns (k: nat)
    requires j < CAPACITY
    ensures base <= k < base + CAPACITY && Cell(k) == j
  {
    k := base + (j + CAPACITY - Cell(base)) % CAPACITY;
  }

  /** The entry found is really in the ring, in the slot of its id, and nothing in the ring is older. */
  lemma OldestIsMinimal(s: Jitter)
    requires Linked(s) && Oldest(s, CAPACITY).Some?
    ensures var id := Oldest(s, CAPACITY).value;
      && s.ring[Cell(id)].Some? && s.ring[Cell(id)].value.frameId == id && s.nextPop <= id
      && forall j :: 0 <= j < CAPACITY && s.ring[j].Some? ==> id <= s.ring[j].value.frameId
  {
    var id := Oldest(s, CAPACITY).value;
    OldestFacts(s, CAPACITY, Some(id));
    var k :| s.nextPop <= k < s.nextPop + CAPACITY && s.info[Cell(k)] == EntryInfo(id, true);
    assert LinkedAt(s, Cell(k));
    forall j | 0 <= j < CAPACITY && s.ring[j].Some?
      ensures id <= s.ring[j].value.frameId
    {
      var m := EveryCell(s.nextPop, j);
      assert LinkedAt(s, j) && s.info[Cell(m)].occupied;
    }
  }

  lemma DropLinked(s: Jitter)
    requires Linked(s) && s.count > 0 && Oldest(s, CAPACITY).Some?
    ensures Linked(Drop(s, Oldest(s, CAPACITY).value))
  {
    var id := Oldest(s, CAPACITY).value;
    OldestIsMinimal(s);
    forall j | 0 <= j < CAPACITY
      ensures LinkedAt(Drop(s, id), j)
    {
      assert LinkedAt(s, j);
    }
  }

  lemma {:induction false} ShrinkLinked(s: Jitter)
    requires Linked(s)
    ensures Linked(Shrink(s))
    decreases s.count
  {
    if s.count > HIGH_WATER && Oldest(s, CAPACITY).Some? {
      DropLinked(s);
      ShrinkLinked(Drop(s, Oldest(s, CAPACITY).value));
    }
  }

  /** Reset empties every slot and clears the counter, even one that had drifted. */
  lemma ResetExact(s: Jitter, id: nat)
    requires Sized(s)
    ensures Exact(Reset(s, id)) && Reset(s, id).count == 0 && Reset(s, id).nextPop == id
    ensures forall j :: 0 <= j < CAPACITY ==> Reset(s, id).ring[j].None?
  {
    NoneOccupied(Reset(s, id).info, CAPACITY);
  }

  lemma {:induction false} NoneOccupied(info: seq<EntryInfo>, n: nat)
    requires n <= |info| && forall j :: 0 <= j < n ==> !info[j].occupied
    ensures Occupied(info, n) == 0
  {
    if n > 0 {
      NoneOccupied(info, n - 1);
    }
  }

  // ---------------------------------------------------------------- the counter

  lemma {:induction false} OccupiedAfterUpdate(info: seq<EntryInfo>, n: nat, j: nat, e: EntryInfo)
    requires n <= |info| && j < |info|
    ensures Occupied(info[j := e], n) == Occupied(info, n)
      + if j < n then (if e.occupied then 1 else 0) - (if info[j].occupied then 1 else 0) else 0
  {
    if n > 0 {
      OccupiedAfterUpdate(info, n - 1, j, e);
    }
  }

  /** The counter is the number of occupied slots. */
  ghost predicate Exact(s: Jitter) {
    Tracked(s) && s.count == Occupied(s.info, CAPACITY)
  }

  lemma {:induction false} ShrinkDrift(s: Jitter)
    requires Linked(s) && Occupied(s.info, CAPACITY) <= s.count
    ensures Linked(Shrink(s)) && Shrink(s).initialized == s.initialized
    ensures Shrink(s).count - Occupied(Shrink(s).info, CAPACITY) == s.count - Occupied(s.info, CAPACITY)
    decreases s.count
  {
    if s.count > HIGH_WATER && Oldest(s, CAPACITY).Some? {
      var id := Oldest(s, CAPACITY).value;
      OldestIsMinimal(s);
      DropLinked(s);
      assert LinkedAt(s, Cell(id));
      OccupiedAfterUpdate(s.info, CAPACITY, Cell(id), s.info[Cell(id)].(occupied := false));
      ShrinkDrift(Drop(s, id));
    }
  }

  /** A push lands on a slot that another frame occupies. */
  predicate Collides(s: Jitter, f: Frame)
    requires Sized(s)
  {
    !Refused(s, f) && s.ring[Cell(f.frameId)].Some?
  }

  lemma StartedTracked(s: Jitter, f: Frame)
    requires Tracked(s)
    ensures Tracked(Started(s, f)) && Started(s, f).info == s.info && Started(s, f).count == s.count
  {
    forall j | 0 <= j < CAPACITY
      ensures LinkedAt(Started(s, f), j)
    {
      assert LinkedAt(s, j);
    }
  }

  /** A push with any frame keeps the buffer tracked; the counter gains one too many exactly when the frame
      overwrites another one. */
  lemma PushDrift(s: Jitter, f: Frame)
    requires Tracked(s)
    ensures Tracked(Push(s, f))
    ensures Push(s, f).count - Occupied(Push(s, f).info, CAPACITY)
         == s.count - Occupied(s.info, CAPACITY) + if Collides(s, f) then 1 else 0
  {
    var t := Started(s, f);
    StartedTracked(s, f);
    if !Refused(s, f) {
      forall j | 0 <= j < CAPACITY
        ensures LinkedAt(Insert(t, f), j)
      {
        assert LinkedAt(t, j);
      }
      assert LinkedAt(t, Cell(f.frameId));
      OccupiedAfterUpdate(t.info, CAPACITY, Cell(f.frameId), EntryInfo(f.frameId, true));
      ShrinkDrift(Insert(t, f));
    }
  }

  /** The counter stays exact exactly when the push does not collide. */
  lemma PushExactIff(s: Jitter, f: Frame)
    requires Exact(s)
    ensures Exact(Push(s, f)) <==> !Collides(s, f)
  {
    PushDrift(s, f);
  }

  /** Two frames 32 ids apart in an empty buffer: one slot is filled, two frames are counted. */
  lemma CollisionExample(a: Frame, b: Frame)
    requires a.frameId == 0 && b.frameId == 32
    ensures var s := Push(Push(Empty(), a), b);
      s.count == 2 && Occupied(s.info, CAPACITY) == 1
  {
    var s := Empty();
    NoneOccupied(s.info, CAPACITY);
    assert Tracked(s);
    PushDrift(s, a);
    PushDrift(Push(s, a), b);
    assert Push(s, a) == Insert(Started(s, a), a);
    assert Push(Push(s, a), b) == Insert(Push(s, a), b);
  }

  /** Ids that stay less than 32 ahead of the read pointer never collide. */
  lemma NoCollisionInWindow(s: Jitter, f: Frame)
    requires Linked(s) && s.initialized && f.frameId < s.nextPop + CAPACITY
    requires forall j :: 0 <= j < CAPACITY && s.ring[j].Some? ==> s.ring[j].value.frameId < s.nextPop + CAPACITY
    ensures !Collides(s, f)
  {
    assert LinkedAt(s, Cell(f.frameId));
  }

  /** A pop never changes how far the counter is off. */
  lemma PopDrift(s: Jitter, sync: nat, early: bool, maxFrames: nat)
    requires Tracked(s)
    ensures var t := Pop(s, sync, early, maxFrames).0;
      Tracked(t) && t.count - Occupied(t.info, CAPACITY) == s.count - Occupied(s.info, CAPACITY)
  {
    var t := Pop(s, sync, early, maxFrames).0;
    OccupiedAfterUpdate(s.info, CAPACITY, Cell(s.nextPop), s.info[Cell(s.nextPop)].(occupied := false));
    forall j | 0 <= j < CAPACITY
      ensures LinkedAt(t, j)
    {
      assert LinkedAt(s, j);
    }
  }

  // ---------------------------------------------------------------- no frame is lost or duplicated

  /** How often frame `x` stands in a list. */
  function Copies(l: seq<Frame>, x: Frame): nat {
    if l == [] then 0 else (if l[0] == x then 1 else 0) + Copies(l[1..], x)
  }

  lemma {:induction false} CopiesAppend(a: seq<Frame>, b: seq<Frame>, x: Frame)
    ensures Copies(a + b, x) == Copies(a, x) + Copies(b, x)
  {
    if a == [] {
      assert a + b == b;
    } else {
      assert (a + b)[1..] == a[1..] + b;
      CopiesAppend(a[1..], b, x);
    }
  }

  /** How often frame `x` stands in the first `n` slots. */
  function Stored(ring: seq<Option<Frame>>, n: nat, x: Frame): nat
    requires n <= |ring|
  {
    if n == 0 then 0 else Stored(ring, n - 1, x) + if ring[n - 1] == Some(x) then 1 else 0
  }

  lemma {:induction false} StoredAfterUpdate(ring: seq<Option<Frame>>, n: nat, j: nat, e: Option<Frame>, x: Frame)
    requires n <= |ring| && j < |ring|
    ensures Stored(ring[j := e], n, x) == Stored(ring, n, x)
      + if j < n then (if e == Some(x) then 1 else 0) - (if ring[j] == Some(x) then 1 else 0) else 0
  {
    if n > 0 {
      StoredAfterUpdate(ring, n - 1, j, e, x);
    }
  }

  lemma {:induction false} ShrinkConserves(s: Jitter, x: Frame)
    requires Sized(s)
    ensures Stored(s.ring, CAPACITY, x) == Stored(Shrink(s).ring, CAPACITY, x) + Copies(Shed(s), x)
    decreases s.count
  {
    if s.count > HIGH_WATER && Oldest(s, CAPACITY).Some? {
      var id := Oldest(s, CAPACITY).value;
      StoredAfterUpdate(s.ring, |s.ring|, Cell(id), None, x);
      ShrinkConserves(Drop(s, id), x);
      CopiesAppend(Released(s.ring[Cell(id)]), Shed(Drop(s, id)), x);
    }
  }

  /** Every frame that was in the buffer or is pushed is afterwards in the buffer or given back, as often. */
  lemma PushConserves(s: Jitter, f: Frame, x: Frame)
    requires Sized(s)
    ensures Stored(s.ring, |s.ring|, x) + (if f == x then 1 else 0)
         == Stored(Push(s, f).ring, |Push(s, f).ring|, x) + Copies(PushReleases(s, f), x)
  {
    if !Refused(s, f) {
      var t := Insert(Started(s, f), f);
      StoredAfterUpdate(s.ring, |s.ring|, Cell(f.frameId), Some(f), x);
      ShrinkConserves(t, x);
      CopiesAppend(Released(s.ring[Cell(f.frameId)]), Shed(t), x);
    }
  }

  /** A pop takes out the frame it returns and no other. */
  lemma PopConserves(s: Jitter, sync: nat, early: bool, maxFrames: nat, x: Frame)
    requires Tracked(s)
    ensures var (t, frame) := Pop(s, sync, early, maxFrames);
      Sized(t) && Stored(s.ring, |s.ring|, x) == Stored(t.ring, |t.ring|, x) + if frame == Some(x) then 1 else 0
  {
    StoredAfterUpdate(s.ring, |s.ring|, Cell(s.nextPop), None, x);
  }
}
