/** The jitter buffer as the mutable object of the client thread. Frame pointers move: a slot owns the frame object it
    holds, and `released` lists the objects whose pointer a call destroys, which return to the receiver's pool. */
module ClientJitterBuffer {
  import opened Wrappers
  import opened Bytes
  import opened Protocol
  import opened Reassembly
  import opened FrameObjects
  import opened JitterModel

  /** The frame objects in some slots. */
  ghost function Objects(slots: seq<FrameData?>): set<FrameData> {
    set j | 0 <= j < |slots| && slots[j] != null :: slots[j]
  }

  ghost function Buffers(frames: set<FrameData>): set<array<byte>> {
    set f <- frames :: f.buffer
  }

  /** Every frame object has a buffer of full size, so it is none of the rings here. */
  ghost predicate FullSize(frames: set<FrameData>) {
    forall f :: f in frames ==> f.buffer.Length == FRAME_CAPACITY
  }

  /** Each object is in one slot. */
  ghost predicate Apart(slots: seq<FrameData?>) {
    forall i, j :: 0 <= i < j < |slots| && slots[i] != null ==> slots[i] != slots[j]
  }

  /** The object in a slot, if any. */
  function Single(slot: FrameData?): seq<FrameData> {
    if slot == null then [] else [slot]
  }

  /** The objects have these contents. */
  ghost predicate Hold(frames: seq<FrameData>, values: seq<Frame>)
    reads set f <- frames :: f
    reads set f <- frames :: f.buffer
  {
    |frames| == |values| && forall i :: 0 <= i < |frames| ==> frames[i].Value() == values[i]
  }

  lemma HoldBoth(a: seq<FrameData>, b: seq<FrameData>, x: seq<Frame>, y: seq<Frame>)
    requires Hold(a, x) && Hold(b, y)
    ensures Hold(a + b, x + y)
  {
  }

  /** What was in `before` is now in `after` or given up, and nothing twice. */
  ghost predicate Splits(before: set<FrameData>, after: set<FrameData>, gone: seq<FrameData>) {
    && before == after + (set f <- gone)
    && (forall f :: f in gone ==> f !in after)
    && (forall i, j :: 0 <= i < j < |gone| ==> gone[i] != gone[j])
  }

  lemma SplitsTwice(a: set<FrameData>, b: set<FrameData>, c: set<FrameData>, x: seq<FrameData>, y: seq<FrameData>)
    requires Splits(a, b, x) && Splits(b, c, y)
    ensures Splits(a, c, x + y)
  {
    forall i, j | 0 <= i < j < |x + y|
      ensures (x + y)[i] != (x + y)[j]
    {
      if i < |x| <= j {
        assert x[i] in x && y[j - |x|] in y;
      }
    }
  }

  /** A slot is emptied. */
  lemma SlotEmptied(slots: seq<FrameData?>, j: nat)
    requires Apart(slots) && j < |slots|
    ensures Apart(slots[j := null]) && Splits(Objects(slots), Objects(slots[j := null]), Single(slots[j]))
  {
    var now := slots[j := null];
    forall f | f in Objects(slots) && f != slots[j]
      ensures f in Objects(now)
    {
      var i :| 0 <= i < |slots| && slots[i] == f;
      assert now[i] == f;
    }
  }

  /** A frame that is in no slot enters one. */
  lemma SlotFilled(slots: seq<FrameData?>, j: nat, frame: FrameData)
    requires Apart(slots) && j < |slots| && frame !in Objects(slots)
    ensures Apart(slots[j := frame])
    ensures Splits(Objects(slots) + {frame}, Objects(slots[j := frame]), Single(slots[j]))
  {
    var now := slots[j := frame];
    assert now[j] == frame;
    assert forall i :: 0 <= i < |slots| && slots[i] != null ==> slots[i] in Objects(slots);
    forall f | f in Objects(slots) && f != slots[j]
      ensures f in Objects(now)
    {
      var i :| 0 <= i < |slots| && slots[i] == f;
      assert now[i] == f;
    }
  }

  lemma NoObjects(slots: seq<FrameData?>)
    requires forall j :: 0 <= j < |slots| ==> slots[j] == null
    ensures Apart(slots) && Objects(slots) == {}
  {
  }

  class JitterBuffer {
    const ring: array<FrameData?>
    const info: array<EntryInfo>
    var nextPopFrameId: nat
    var initialized: bool
    var count: nat
    const maxFrames: nat

    ghost var held: seq<Option<Frame>>   // what the slots hold, as values

    ghost function View(): Jitter
      reads this, info
    {
      Jitter(held, info[..], nextPopFrameId, initialized, count)
    }

    /** The frames that the buffer owns. */
    ghost function Frames(): set<FrameData>
      reads ring
    {
      Objects(ring[..])
    }

    /** Every slot has its own object, with the content that is recorded. */
    ghost predicate Linked()
      reads this, ring, Frames(), Buffers(Frames())
    {
      && ring.Length == info.Length == |held| == CAPACITY && Apart(ring[..]) && FullSize(Frames())
      && forall j :: 0 <= j < CAPACITY ==> held[j] == if ring[j] == null then None else Some(ring[j].Value())
    }

    ghost predicate Valid()
      reads this, ring, info, Frames(), Buffers(Frames())
    {
      Linked() && Tracked(View())
    }

    constructor (maxFrames: nat := 3)
      ensures Valid() && fresh(ring) && fresh(info) && Frames() == {}
      ensures View() == Empty() && this.maxFrames == maxFrames
    {
      this.maxFrames := maxFrames;
      ring := new FrameData?[CAPACITY](_ => null);
      info := new EntryInfo[CAPACITY](_ => EntryInfo(0, false));
      nextPopFrameId, initialized, count := 0, false, 0;
      held := Empty().ring;
      new;
      NoneOccupied(info[..], CAPACITY);
      NoObjects(ring[..]);
      assert info[..] == Empty().info;
    }

    /** The scan of the overflow loop. */
    method FindOldest() returns (oldest: Option<nat>)
      requires info.Length == |held| == CAPACITY
      ensures oldest == Oldest(View(), CAPACITY)
    {
      oldest := None;
      for i := 0 to CAPACITY
        invariant oldest == Oldest(View(), i)
      {
        var inf := info[(nextPopFrameId + i) % CAPACITY];
        if inf.occupied && (oldest.None? || inf.frameId < oldest.value) {
          oldest := Some(inf.frameId);
        }
      }
    }

    /** The object in a slot leaves it. */
    method TakeOut(j: nat) returns (released: seq<FrameData>)
      requires Linked() && j < CAPACITY
      modifies this`held, ring
      ensures Linked() && Splits(old(Frames()), Frames(), released)
      ensures held == old(held)[j := None] && Hold(released, Released(old(held)[j]))
      ensures released == Single(old(ring[j]))
    {
      ghost var slots := ring[..];
      SlotEmptied(slots, j);
      released := Single(ring[j]);
      ring[j] := null;
      held := held[j := None];
      assert ring[..] == slots[j := null];
    }

    /** A frame enters a slot; what was there leaves it. */
    method PutIn(j: nat, frame: FrameData) returns (released: seq<FrameData>)
      requires Linked() && j < CAPACITY && frame !in Frames() && FullSize({frame})
      modifies this`held, ring
      ensures Linked() && Splits(old(Frames()) + {frame}, Frames(), released)
      ensures held == old(held)[j := Some(frame.Value())] && Hold(released, Released(old(held)[j]))
    {
      ghost var slots := ring[..];
      SlotFilled(slots, j, frame);
      released := Single(ring[j]);
      ring[j] := frame;
      held := held[j := Some(frame.Value())];
      assert ring[..] == slots[j := frame];
    }

    /** The entry of a slot is cleared. */
    method Vacate(j: nat)
      requires info.Length == CAPACITY && j < CAPACITY && count > 0
      modifies this`count, info
      ensures info[..] == JitterModel.Vacate(old(info[..]), j) && count == old(count) - 1
    {
      info[j] := info[j].(occupied := false);
      count := count - 1;
    }

    /** The entry of a slot is written. */
    method Occupy(j: nat, id: nat)
      requires info.Length == CAPACITY && j < CAPACITY
      modifies this`count, info
      ensures info[..] == old(info[..])[j := EntryInfo(id, true)] && count == old(count) + 1
    {
      info[j] := EntryInfo(id, true);
      count := count + 1;
    }

    /** A slot and its entry are cleared and counted down. */
    method Remove(j: nat) returns (released: seq<FrameData>)
      requires Linked() && j < CAPACITY && count > 0
      modifies this`held, this`count, ring, info
      ensures Linked() && Splits(old(Frames()), Frames(), released)
      ensures held == old(held)[j := None] && info[..] == JitterModel.Vacate(old(info[..]), j)
      ensures count == old(count) - 1 && Hold(released, Released(old(held)[j])) && released == Single(old(ring[j]))
    {
      released := TakeOut(j);
      Vacate(j);
    }

    /** One frame leaves by overflow. */
    method DropEntry(oldestId: nat) returns (released: seq<FrameData>)
      requires Linked() && count > 0
      modifies this`held, this`nextPopFrameId, this`count, ring, info
      ensures Linked() && Splits(old(Frames()), Frames(), released)
      ensures View() == Drop(old(View()), oldestId)
      ensures Hold(released, Released(old(held)[Cell(oldestId)]))
    {
      released := Remove(oldestId % CAPACITY);
      if oldestId == nextPopFrameId {
        nextPopFrameId := nextPopFrameId + 1;
      }
    }

    /** One turn of the overflow loop. `all` is what the buffer owned when `released` was empty. */
    method DropAnother(oldestId: nat, gone: seq<FrameData>, ghost values: seq<Frame>, ghost all: set<FrameData>)
      returns (released: seq<FrameData>)
      requires Linked() && count > 0 && FullSize(all)
      requires Splits(all, Frames(), gone) && Hold(gone, values)
      modifies this`held, this`nextPopFrameId, this`count, ring, info
      ensures Linked() && View() == Drop(old(View()), oldestId)
      ensures Splits(all, Frames(), released)
      ensures Hold(released, values + Released(old(held)[Cell(oldestId)]))
    {
      ghost var kept, more := Frames(), Released(held[Cell(oldestId)]);
      var dropped := DropEntry(oldestId);
      HoldBoth(gone, dropped, values, more);
      SplitsTwice(all, kept, Frames(), gone, dropped);
      released := gone + dropped;
    }

    /** The overflow loop: drop the oldest frame while more than 28 are counted. */
    method DropOverflow(gone: seq<FrameData>, ghost first: seq<Frame>, ghost all: set<FrameData>)
      returns (released: seq<FrameData>)
      requires Linked() && FullSize(all) && Splits(all, Frames(), gone) && Hold(gone, first)
      modifies this`held, this`nextPopFrameId, this`count, ring, info
      ensures Linked() && Splits(all, Frames(), released)
      ensures View() == Shrink(old(View())) && Hold(released, first + Shed(old(View())))
    {
      released := gone;
      ghost var s, t, values := View(), View(), first;
      while count > CAPACITY - 4
        invariant Linked() && Splits(all, Frames(), released)
        invariant t == View() && Sized(t) && Hold(released, values)
        invariant Shrink(t) == Shrink(s) && values + Shed(t) == first + Shed(s)
        decreases count
      {
        var oldest := FindOldest();
        ShrinkStep(t, oldest);
        if oldest.None? {
          break;
        }
        released := DropAnother(oldest.value, released, values, all);
        values, t := values + Released(t.ring[Cell(oldest.value)]), View();
      }
    }

    /** Refuses, inserts or overwrites, then drops what is too much. */
    method PushFrame(frame: FrameData?) returns (released: seq<FrameData>)
      requires Valid() && (frame != null ==> frame !in Frames() && FullSize({frame}))
      modifies this, ring, info
      ensures Valid()
      ensures frame == null ==> View() == old(View()) && Frames() == old(Frames()) && released == []
      ensures frame != null ==>
        && View() == Push(old(View()), frame.Value()) && Hold(released, PushReleases(old(View()), frame.Value()))
        && Splits(old(Frames()) + {frame}, Frames(), released)
    {
      if frame == null {
        return [];
      }
      ghost var s, f := View(), frame.Value();
      PushDrift(s, f);
      if !initialized {
        nextPopFrameId := frame.frameId;
        initialized := true;
      }
      if frame.frameId < nextPopFrameId {
        return [frame];
      }
      var j := frame.frameId % CAPACITY;
      if ring[j] != null && ring[j].frameId == frame.frameId {
        return [frame];
      }
      released := Store(j, frame);
    }

    /** The frame is written to its slot and counted. */
    method Write(j: nat, frame: FrameData) returns (overwritten: seq<FrameData>)
      requires Linked() && frame !in Frames() && FullSize({frame}) && j == Cell(frame.frameId)
      modifies this`held, this`count, ring, info
      ensures Linked() && Splits(old(Frames()) + {frame}, Frames(), overwritten)
      ensures View() == Insert(old(View()), frame.Value()) && Hold(overwritten, Released(old(held)[j]))
    {
      ghost var s, f := View(), frame.Value();
      overwritten := PutIn(j, frame);
      Occupy(j, frame.frameId);
    }

    method Store(j: nat, frame: FrameData) returns (released: seq<FrameData>)
      requires Linked() && frame !in Frames() && FullSize({frame}) && j == Cell(frame.frameId)
      modifies this`held, this`nextPopFrameId, this`count, ring, info
      ensures Linked() && Splits(old(Frames()) + {frame}, Frames(), released)
      ensures View() == Shrink(Insert(old(View()), frame.Value()))
      ensures Hold(released, Released(old(held)[j]) + Shed(Insert(old(View()), frame.Value())))
    {
      ghost var all, first := Frames() + {frame}, Released(held[j]);
      var overwritten := Write(j, frame);
      released := DropOverflow(overwritten, first, all);
    }

    /** `early` is the outcome of comparing the waiting time with the jitter delay. */
    method PopFrame(currentSyncTimeUs: nat, early: bool) returns (frame: FrameData?)
      requires Valid()
      modifies this`held, this`nextPopFrameId, this`count, ring, info
      ensures Valid() && View() == Pop(old(View()), currentSyncTimeUs, early, maxFrames).0
      ensures frame == null <==> Pop(old(View()), currentSyncTimeUs, early, maxFrames).1.None?
      ensures frame == null ==> Frames() == old(Frames())
      ensures frame != null ==>
        && Pop(old(View()), currentSyncTimeUs, early, maxFrames).1 == Some(frame.Value())
        && Splits(old(Frames()), Frames(), [frame])
    {
      var j := nextPopFrameId % CAPACITY;
      ghost var s := View();
      PopDrift(s, currentSyncTimeUs, early, maxFrames);
      assert LinkedAt(s, j);
      if info[j].occupied && info[j].frameId == nextPopFrameId {
        if currentSyncTimeUs > 0 {
          if ring[j].stamps.capture > currentSyncTimeUs + 5000 {
            return null;
          }
        } else {
          if early && count < maxFrames {
            return null;
          }
        }
        OccupiedPositive(info[..], CAPACITY, j);
        frame := PopHead(j);
        return;
      }
      return null;
    }

    /** The head leaves. */
    method PopHead(j: nat) returns (frame: FrameData)
      requires Linked() && j < CAPACITY && ring[j] != null && count > 0
      modifies this`held, this`nextPopFrameId, this`count, ring, info
      ensures Linked() && Splits(old(Frames()), Frames(), [frame]) && old(held)[j] == Some(frame.Value())
      ensures View() == old(View()).(ring := old(held)[j := None], info := JitterModel.Vacate(old(info[..]), j),
                                     count := old(count) - 1, nextPop := old(nextPopFrameId) + 1)
    {
      frame := ring[j];
      var released := Remove(j);
      nextPopFrameId := nextPopFrameId + 1;
    }

    /** A slot of the resetting loop. */
    method ClearSlot(j: nat, gone: seq<FrameData>, ghost all: set<FrameData>) returns (released: seq<FrameData>)
      requires Linked() && j < CAPACITY && Splits(all, Frames(), gone)
      modifies this`held, ring, info
      ensures Linked() && Splits(all, Frames(), released)
      ensures held == old(held)[j := None]
      ensures info[..] == old(info[..])[j := old(info[j]).(occupied := false)]
    {
      ghost var kept := Frames();
      released := gone;
      if ring[j] != null {
        var dropped := TakeOut(j);
        SplitsTwice(all, kept, Frames(), gone, dropped);
        released := gone + dropped;
      }
      info[j] := info[j].(occupied := false);
    }

    method Reset(nextExpectedId: nat) returns (released: seq<FrameData>)
      requires Valid()
      modifies this, ring, info
      ensures Valid() && View() == JitterModel.Reset(old(View()), nextExpectedId)
      ensures Splits(old(Frames()), {}, released) && Frames() == {}
    {
      ghost var s := View();
      released := [];
      for i := 0 to CAPACITY
        invariant Linked() && Splits(old(Frames()), Frames(), released) && nextPopFrameId == s.nextPop
        invariant forall k :: nextPopFrameId <= k < nextPopFrameId + i ==>
          held[Cell(k)].None? && info[Cell(k)] == s.info[Cell(k)].(occupied := false)
        invariant forall j :: 0 <= j < CAPACITY ==> info[j] == s.info[j] || info[j] == s.info[j].(occupied := false)
      {
        released := ClearSlot((nextPopFrameId + i) % CAPACITY, released, old(Frames()));
      }
      forall j | 0 <= j < CAPACITY
        ensures held[j].None? && info[j] == s.info[j].(occupied := false)
      {
        var k := EveryCell(nextPopFrameId, j);
      }
      nextPopFrameId := nextExpectedId;
      count := 0;
      initialized := true;
      ResetExact(s, nextExpectedId);
      assert View() == JitterModel.Reset(s, nextExpectedId);
      NoObjects(ring[..]);
    }
  }
}
