/** Whole runs of the jitter buffer: while pushed ids stay less than 32 ahead of the read pointer, slots and entries
    agree, no push collides and the counter is exact, from the empty buffer on. */
module JitterRuns {
  import opened Reassembly
  import opened JitterModel

  datatype Call =
    | PushCall(frame: Frame)
    | PopCall(sync: nat, early: bool, maxFrames: nat)
    | ResetCall(id: nat)

  /** The first push sets the read pointer; a later one is less than 32 ahead of it. Late frames are allowed. */
  predicate Allowed(s: Jitter, c: Call) {
    c.PushCall? && s.initialized ==> c.frame.frameId < s.nextPop + CAPACITY
  }

  function Called(s: Jitter, c: Call): Jitter
    requires Tracked(s)
  {
    match c
    case PushCall(f) => Push(s, f)
    case PopCall(sync, early, maxFrames) => Pop(s, sync, early, maxFrames).0
    case ResetCall(id) => Reset(s, id)
  }

  ghost predicate Follows(s: Jitter, c: Call, t: Jitter) {
    Tracked(s) && Allowed(s, c) && t == Called(s, c)
  }

  ghost predicate Run(states: seq<Jitter>, calls: seq<Call>) {
    && |states| == |calls| + 1 && states[0] == Empty()
    && forall i :: 0 <= i < |calls| ==> Follows(states[i], calls[i], states[i + 1])
  }

  /** The representation is exact and everything held is less than 32 ahead of the read pointer. */
  ghost predicate Near(s: Jitter) {
    Exact(s) && forall j :: 0 <= j < CAPACITY && s.ring[j].Some? ==> s.ring[j].value.frameId < s.nextPop + CAPACITY
  }

  /** The overflow loop only removes frames and never moves the read pointer back. */
  lemma {:induction false} ShrinkRemoves(s: Jitter)
    requires Sized(s)
    ensures s.nextPop <= Shrink(s).nextPop
    ensures forall j :: 0 <= j < CAPACITY && Shrink(s).ring[j].Some? ==> Shrink(s).ring[j] == s.ring[j]
    decreases s.count
  {
    if s.count > HIGH_WATER && Oldest(s, CAPACITY).Some? {
      ShrinkRemoves(Drop(s, Oldest(s, CAPACITY).value));
    }
  }

  lemma PushNear(s: Jitter, f: Frame)
    requires Near(s) && Allowed(s, PushCall(f))
    ensures Near(Push(s, f)) && !Collides(s, f)
  {
    if s.initialized {
      NoCollisionInWindow(s, f);
    }
    PushExactIff(s, f);
    if !Refused(s, f) {
      ShrinkRemoves(Insert(Started(s, f), f));
    }
  }

  lemma PopNear(s: Jitter, sync: nat, early: bool, maxFrames: nat)
    requires Near(s)
    ensures Near(Pop(s, sync, early, maxFrames).0)
  {
    PopDrift(s, sync, early, maxFrames);
  }

  lemma CallNear(s: Jitter, c: Call)
    requires Near(s) && Allowed(s, c)
    ensures Near(Called(s, c))
  {
    match c
    case PushCall(f) => PushNear(s, f);
    case PopCall(sync, early, maxFrames) => PopNear(s, sync, early, maxFrames);
    case ResetCall(id) => ResetExact(s, id);
  }

  /** Over every run whose pushes stay less than 32 ahead: a slot is filled exactly when its entry is occupied under the
      same id, the counter is the number of occupied slots, and nothing held is 32 or more ahead. */
  lemma {:induction false} RunNear(states: seq<Jitter>, calls: seq<Call>, i: nat)
    requires Run(states, calls) && i < |states|
    ensures Near(states[i])
  {
    if i == 0 {
      NoneOccupied(Empty().info, CAPACITY);
    } else {
      RunNear(states, calls, i - 1);
      assert Follows(states[i - 1], calls[i - 1], states[i]);
      CallNear(states[i - 1], calls[i - 1]);
    }
  }

  /** In such a run no push overwrites another frame. */
  lemma RunNeverCollides(states: seq<Jitter>, calls: seq<Call>, i: nat)
    requires Run(states, calls) && i < |calls| && calls[i].PushCall?
    ensures Sized(states[i]) && !Collides(states[i], calls[i].frame)
  {
    RunNear(states, calls, i);
    assert Follows(states[i], calls[i], states[i + 1]);
    PushNear(states[i], calls[i].frame);
  }

  lemma {:induction false} OccupiedSome(info: seq<EntryInfo>, n: nat)
    requires n <= |info| && Occupied(info, n) > 0
    ensures exists j :: 0 <= j < n && info[j].occupied
  {
    if !info[n - 1].occupied {
      OccupiedSome(info, n - 1);
    }
  }

  /** With an exact counter the overflow loop always finds something to drop, so it ends below the high-water mark. */
  lemma {:induction false} ShrinkBounded(s: Jitter)
    requires Linked(s) && s.count == Occupied(s.info, CAPACITY)
    ensures Shrink(s).count <= HIGH_WATER
    decreases s.count
  {
    if s.count > HIGH_WATER {
      OccupiedSome(s.info, CAPACITY);
      var j :| 0 <= j < CAPACITY && s.info[j].occupied;
      var k := EveryCell(s.nextPop, j);
      assert s.info[Cell(k)].occupied;
      OldestFacts(s, CAPACITY, Oldest(s, CAPACITY));
      var id := Oldest(s, CAPACITY).value;
      OldestIsMinimal(s);
      assert LinkedAt(s, Cell(id));
      DropLinked(s);
      OccupiedAfterUpdate(s.info, CAPACITY, Cell(id), s.info[Cell(id)].(occupied := false));
      ShrinkBounded(Drop(s, id));
    }
  }

  lemma PushBounded(s: Jitter, f: Frame)
    requires Near(s) && Allowed(s, PushCall(f)) && s.count <= HIGH_WATER
    ensures Push(s, f).count <= HIGH_WATER
  {
    if !Refused(s, f) {
      var t := Started(s, f);
      PushNear(s, f);
      StartedTracked(s, f);
      InsertLinked(t, f);
      ShrinkBounded(Insert(t, f));
    }
  }

  lemma InsertLinked(t: Jitter, f: Frame)
    requires Exact(t) && t.nextPop <= f.frameId && t.ring[Cell(f.frameId)].None?
    ensures Linked(Insert(t, f)) && Insert(t, f).count == Occupied(Insert(t, f).info, CAPACITY)
  {
    forall j | 0 <= j < CAPACITY
      ensures LinkedAt(Insert(t, f), j)
    {
      assert LinkedAt(t, j);
    }
    assert LinkedAt(t, Cell(f.frameId));
    OccupiedAfterUpdate(t.info, CAPACITY, Cell(f.frameId), EntryInfo(f.frameId, true));
  }

  /** Over every such run at most 28 frames are held, so the overflow loop never gives up. */
  lemma {:induction false} RunBounded(states: seq<Jitter>, calls: seq<Call>, i: nat)
    requires Run(states, calls) && i < |states|
    ensures Near(states[i]) && states[i].count == Occupied(states[i].info, CAPACITY) <= HIGH_WATER
  {
    RunNear(states, calls, i);
    if i > 0 {
      RunBounded(states, calls, i - 1);
      assert Follows(states[i - 1], calls[i - 1], states[i]);
      if calls[i - 1].PushCall? {
        PushBounded(states[i - 1], calls[i - 1].frame);
      }
    }
  }
}
