/** The client receiver: frames move between a pool, a 64-slot ring and the consumer, and are written
    in place. Every public method is proved against the value-level model. */
module ClientReceiver {
  import opened Wrappers
  import opened Bytes
  import opened Protocol
  import opened Packetizer
  import opened PacketPools
  import opened FrameObjects
  import R = Reassembly
  import I = ReceiverInvariants

  const FEC_PACKET_CAPACITY: nat := 1500

  /** One slot of the parity ring. */
  datatype FECGroup = FECGroup(fecHeader: FECHeader, fecReceived: bool, fecPacket: Option<Packet>, frameId: nat)

  /** A slot is either untouched or holds a packet with at least the announced payload. */
  predicate GroupOk(g: FECGroup) {
    && (g.fecReceived <==> g.fecPacket.Some?)
    && (g.fecPacket.Some? ==>
          |g.fecPacket.value.data| == FEC_PACKET_CAPACITY && g.fecPacket.value.size == g.fecHeader.dataSize
          && g.fecHeader.dataSize <= MAX_UDP_PAYLOAD && g.frameId == g.fecHeader.frameId)
  }

  function Parity(g: FECGroup): Option<FECPacket>
    requires GroupOk(g)
  {
    if g.fecReceived then Some(FECPacket(g.fecHeader, g.fecPacket.value.data[..g.fecHeader.dataSize])) else None
  }

  /** How many slots of the parity ring hold a packet. */
  function Holding(groups: seq<FECGroup>): nat {
    if groups == [] then 0
    else Holding(groups[..|groups| - 1]) + if groups[|groups| - 1].fecPacket.Some? then 1 else 0
  }

  lemma {:induction false} HoldingAfterUpdate(groups: seq<FECGroup>, j: nat, g: FECGroup)
    requires j < |groups|
    ensures Holding(groups[j := g]) ==
      Holding(groups) - (if groups[j].fecPacket.Some? then 1 else 0) + if g.fecPacket.Some? then 1 else 0
  {
    var n := |groups| - 1;
    if j == n {
      assert groups[j := g][..n] == groups[..n];
    } else {
      HoldingAfterUpdate(groups[..n], j, g);
      assert groups[j := g][..n] == groups[..n][j := g];
    }
  }

  lemma {:induction false} HoldingNone(groups: seq<FECGroup>)
    requires forall j :: 0 <= j < |groups| ==> groups[j].fecPacket.None?
    ensures Holding(groups) == 0
  {
    if groups != [] {
      HoldingNone(groups[..|groups| - 1]);
    }
  }

  lemma {:induction false} HoldingIsSlots(groups: seq<FECGroup>, slots: set<nat>)
    requires slots == set j | 0 <= j < |groups| && groups[j].fecPacket.Some?
    ensures Holding(groups) == |slots|
  {
    if groups != [] {
      var last := |groups| - 1;
      var before := slots - {last};
      assert before == set j | 0 <= j < last && groups[..last][j].fecPacket.Some?;
      HoldingIsSlots(groups[..last], before);
    }
  }

  /** Ownership: each stored frame is in exactly one place, which is the pool, one ring slot or the
      consumer; no two frames share a buffer; the receiver may write only what it owns. */
  ghost predicate Partition(slots: seq<FrameData?>, pool: seq<FrameData>, storage: seq<FrameData>,
                            out: set<FrameData>, repr: set<object>)
  {
    && |slots| == R.FRAME_RING
    && (forall f :: f in pool ==> f in storage && f in repr && f.buffer in repr && f !in slots)
    && (forall j :: 0 <= j < |slots| && slots[j] != null ==>
          slots[j] in storage && slots[j] in repr && slots[j].buffer in repr)
    && (forall f :: f in out ==> f in storage && f !in repr && f.buffer !in repr)
    && (forall f :: f in storage ==> f in out || f in pool || f in slots)
    && (forall i, j :: 0 <= i < j < |pool| ==> pool[i] != pool[j])
    && (forall i, j :: 0 <= i < j < |slots| && slots[i] != null ==> slots[i] != slots[j])
    && (forall f :: f in storage ==> f.buffer.Length == FRAME_CAPACITY)
    && (forall f, g :: f in storage && g in storage && f != g ==> f.buffer != g.buffer)
  }

  lemma SameAppend<T>(a: seq<T>, x: T, b: seq<T>, y: T)
    requires a + [x] == b + [y]
    ensures a == b && x == y
  {
    assert a == (a + [x])[..|a|] && b == (b + [y])[..|b|];
    assert (a + [x])[|a|] == x && (b + [y])[|b|] == y;
  }

  /** The frames of two slots are different objects with different buffers. */
  lemma OthersApart(slots: seq<FrameData?>, pool: seq<FrameData>, storage: seq<FrameData>,
                    out: set<FrameData>, repr: set<object>, j: nat)
    requires Partition(slots, pool, storage, out, repr) && j < |slots| && slots[j] != null
    ensures forall i :: 0 <= i < |slots| && i != j && slots[i] != null ==>
      slots[i] != slots[j] && slots[i].buffer != slots[j].buffer
  {
  }

  lemma NothingOwned(slots: seq<FrameData?>, repr: set<object>)
    requires |slots| == R.FRAME_RING && forall j :: 0 <= j < |slots| ==> slots[j] == null
    ensures Partition(slots, [], [], {}, repr)
  {
  }

  /** A newly allocated frame may enter the pool. */
  lemma PoolGrows(slots: seq<FrameData?>, pool: seq<FrameData>, storage: seq<FrameData>,
                  out: set<FrameData>, repr: set<object>, frame: FrameData)
    requires Partition(slots, pool, storage, out, repr)
    requires frame !in storage && frame.buffer.Length == FRAME_CAPACITY
    requires frame !in out && frame !in slots && forall f :: f in storage ==> f.buffer != frame.buffer
    requires forall f :: f in out ==> f.buffer != frame.buffer
    ensures Partition(slots, pool + [frame], storage + [frame], out, repr + {frame, frame.buffer})
  {
  }

  /** A newly allocated frame may enter an empty slot. */
  lemma FromNew(slots: seq<FrameData?>, storage: seq<FrameData>,
                out: set<FrameData>, repr: set<object>, j: nat, frame: FrameData)
    requires Partition(slots, [], storage, out, repr) && j < R.FRAME_RING && slots[j] == null
    requires frame !in storage && frame.buffer.Length == FRAME_CAPACITY
    requires forall f :: f in storage ==> f.buffer != frame.buffer
    ensures Partition(slots[j := frame], [], storage + [frame], out, repr + {frame, frame.buffer})
  {
    var now := slots[j := frame];
    assert now[j] == frame;
    forall f | f in storage && f !in out
      ensures f in now
    {
      var i :| 0 <= i < |slots| && slots[i] == f;
      assert now[i] == f;
    }
  }

  /** A frame may leave its slot for the consumer, taking its buffer out of the receiver's footprint. */
  lemma HandOver(slots: seq<FrameData?>, pool: seq<FrameData>, storage: seq<FrameData>,
                 out: set<FrameData>, repr: set<object>, j: nat)
    requires Partition(slots, pool, storage, out, repr) && j < R.FRAME_RING && slots[j] != null
    ensures var f := slots[j];
      Partition(slots[j := null], pool, storage, out + {f}, repr - {f, f.buffer})
  {
    var f, now := slots[j], slots[j := null];
    forall g | g in storage && g != f && g in slots
      ensures g in now
    {
      var i :| 0 <= i < |slots| && slots[i] == g;
      assert now[i] == g;
    }
  }

  /** A frame may leave its slot for the pool. */
  lemma ToPool(slots: seq<FrameData?>, pool: seq<FrameData>, storage: seq<FrameData>,
               out: set<FrameData>, repr: set<object>, j: nat)
    requires Partition(slots, pool, storage, out, repr) && j < R.FRAME_RING && slots[j] != null
    ensures slots[j] !in pool && Partition(slots[j := null], pool + [slots[j]], storage, out, repr)
  {
    var f, now := slots[j], slots[j := null];
    forall g | g in storage && g != f && g in slots
      ensures g in now
    {
      var i :| 0 <= i < |slots| && slots[i] == g;
      assert now[i] == g;
    }
  }

  /** The consumer's frame may enter the pool, its buffer becoming writable again. */
  lemma FromConsumer(slots: seq<FrameData?>, pool: seq<FrameData>, storage: seq<FrameData>,
                     out: set<FrameData>, repr: set<object>, frame: FrameData)
    requires Partition(slots, pool, storage, out, repr) && frame in out
    ensures frame !in pool && Partition(slots, pool + [frame], storage, out - {frame}, repr + {frame, frame.buffer})
  {
  }

  /** A pooled frame may move to an empty slot. */
  lemma FromPool(slots: seq<FrameData?>, pool: seq<FrameData>, storage: seq<FrameData>,
                 out: set<FrameData>, repr: set<object>, j: nat, frame: FrameData, rest: seq<FrameData>)
    requires Partition(slots, pool, storage, out, repr) && j < R.FRAME_RING && slots[j] == null
    requires pool == rest + [frame]
    ensures Partition(slots[j := frame], rest, storage, out, repr)
  {
    assert frame == pool[|rest|] && frame in pool;
    forall i | 0 <= i < |rest|
      ensures rest[i] == pool[i] && rest[i] != frame
    {
    }
    var now := slots[j := frame];
    assert now[j] == frame;
    forall f | f in storage
      ensures f in out || f in rest || f in now
    {
      if f in slots {
        var i :| 0 <= i < |slots| && slots[i] == f;
        assert now[i] == f;
      }
    }
  }

  /** The parity ring agrees with the model, and every packet of the pool is accounted for. */
  ghost predicate GroupsAgree(groups: seq<FECGroup>, packets: seq<Packet>, fec: seq<Option<FECPacket>>) {
    && |groups| == |fec| == R.FEC_RING
    && (forall j :: 0 <= j < R.FEC_RING ==> GroupOk(groups[j]) && fec[j] == Parity(groups[j]))
    && (forall i :: 0 <= i < |packets| ==> |packets[i].data| == FEC_PACKET_CAPACITY)
    && |packets| + Holding(groups) == R.FEC_POOL_SIZE
  }

  /** The packet pool is exhausted exactly when 512 slots of the parity ring hold a packet. */
  lemma PoolEmptyIff(groups: seq<FECGroup>, packets: seq<Packet>, fec: seq<Option<FECPacket>>)
    requires GroupsAgree(groups, packets, fec)
    ensures packets == [] <==> |R.ParitySlots(fec)| == R.FEC_POOL_SIZE
  {
    assert R.ParitySlots(fec) == set j | 0 <= j < |groups| && groups[j].fecPacket.Some?;
    HoldingIsSlots(groups, R.ParitySlots(fec));
  }

  lemma NothingHeld(groups: seq<FECGroup>, packets: seq<Packet>, fec: seq<Option<FECPacket>>)
    requires |groups| == |fec| == R.FEC_RING && |packets| == R.FEC_POOL_SIZE
    requires forall j :: 0 <= j < |groups| ==> !groups[j].fecReceived && groups[j].fecPacket.None? && fec[j].None?
    requires forall i :: 0 <= i < |packets| ==> |packets[i].data| == FEC_PACKET_CAPACITY
    ensures GroupsAgree(groups, packets, fec)
  {
    HoldingNone(groups);
  }

  /** Release then acquire: the slot gets a full-size packet and the account still balances. */
  lemma GroupReplaced(groups: seq<FECGroup>, packets: seq<Packet>, fec: seq<Option<FECPacket>>,
                      j: nat, g: FECPacket, rest: seq<Packet>, packet: Packet)
    requires GroupsAgree(groups, packets, fec) && j < R.FEC_RING
    requires |g.payload| == g.header.dataSize <= MAX_UDP_PAYLOAD
    requires packets + (if groups[j].fecPacket.Some? then [groups[j].fecPacket.value] else []) == rest + [packet]
    ensures |packet.data| == FEC_PACKET_CAPACITY
    ensures var data := g.payload + packet.data[g.header.dataSize..];
      GroupsAgree(
        groups[j := FECGroup(g.header, true, Some(Packet(data, g.header.dataSize)), g.header.frameId)],
        rest, fec[j := Some(g)])
  {
    var all := packets + if groups[j].fecPacket.Some? then [groups[j].fecPacket.value] else [];
    assert forall i :: 0 <= i < |all| ==> |all[i].data| == FEC_PACKET_CAPACITY;
    assert all[|rest|] == packet && forall i :: 0 <= i < |rest| ==> all[i] == rest[i];
    var data := g.payload + packet.data[g.header.dataSize..];
    assert data[..g.header.dataSize] == g.payload;
    HoldingAfterUpdate(groups, j, FECGroup(g.header, true, Some(Packet(data, g.header.dataSize)), g.header.frameId));
  }

  class Receiver {
    const ring: array<FrameData?>
    var pool: seq<FrameData>
    var storage: seq<FrameData>
    const fecRing: array<FECGroup>
    const fecPool: PacketPool
    var nextFrameIdToRead: nat
    var firstFrameReceived: bool

    ghost var out: set<FrameData>    // frames handed to the consumer and not yet returned
    ghost var view: R.State          // the value-level state
    ghost var Repr: set<object>      // everything the receiver may write: never a handed-out frame

    ghost predicate Structure()
      reads this, Repr
    {
      && {this, ring, fecRing, fecPool} <= Repr
      && fecRing.Length == R.FEC_RING
      && Partition(ring[..], pool, storage, out, Repr)
      && GroupsAgree(fecRing[..], fecPool.pool, view.fec)
      && FramesAgree()
      && R.StateShaped(view) && view.nextId == nextFrameIdToRead && view.started == firstFrameReceived
    }

    /** The ring's frames have the contents that the model records. */
    ghost predicate FramesAgree()
      requires ring.Length == R.FRAME_RING
      requires forall j :: 0 <= j < R.FRAME_RING && ring[j] != null ==> ring[j] in Repr && ring[j].buffer in Repr
      reads this, ring, Repr
    {
      && |view.ring| == R.FRAME_RING
      && forall j :: 0 <= j < R.FRAME_RING ==>
           view.ring[j] == if ring[j] == null then None else Some(ring[j].Value())
    }

    ghost predicate Valid()
      reads this, Repr
      ensures Valid() ==> this in Repr && Readable()
    {
      Structure() && I.StateOk(view)
    }

    /** The part of the structure that reading the ring needs. */
    ghost predicate Readable()
      reads this, Repr
    {
      && {this, ring} <= Repr && ring.Length == R.FRAME_RING
      && (forall j :: 0 <= j < R.FRAME_RING && ring[j] != null ==> ring[j] in Repr && ring[j].buffer in Repr)
      && FramesAgree()
      && R.StateShaped(view) && view.nextId == nextFrameIdToRead
    }

    constructor (poolSize: nat := 30)
      ensures Valid() && fresh(Repr)
      ensures view == R.Initial() && out == {} && |pool| == |storage| == poolSize
    {
      ring := new FrameData?[R.FRAME_RING](_ => null);
      fecRing := new FECGroup[R.FEC_RING](_ => FECGroup(FECHeader(0, 0, 0, 0), false, None, 0));
      fecPool := new PacketPool(R.FEC_POOL_SIZE, FEC_PACKET_CAPACITY);
      pool, storage := [], [];
      nextFrameIdToRead, firstFrameReceived := 0, false;
      out := {};
      view := R.Initial();
      new;
      Repr := {this, ring, fecRing, fecPool};
      I.InitialOk();
      NothingOwned(ring[..], Repr);
      NothingHeld(fecRing[..], fecPool.pool, view.fec);
      PreallocateAll(poolSize);
    }

    method PreallocateAll(poolSize: nat)
      requires Valid() && |pool| == |storage| == 0
      modifies this`pool, this`storage, this`Repr
      ensures Valid() && fresh(Repr - old(Repr))
      ensures |pool| == |storage| == poolSize
    {
      for i := 0 to poolSize
        invariant Valid() && fresh(Repr - old(Repr))
        invariant |pool| == |storage| == i
      {
        Preallocate();
      }
    }

    method Preallocate()
      requires Valid()
      modifies this`pool, this`storage, this`Repr
      ensures Valid() && fresh(Repr - old(Repr))
      ensures |pool| == old(|pool|) + 1 && |storage| == old(|storage|) + 1
    {
      var frame := new FrameData();
      PoolGrows(ring[..], pool, storage, out, Repr, frame);
      pool := pool + [frame];
      storage := storage + [frame];
      Repr := Repr + {frame, frame.buffer};
    }

    // -------------------------------------------------------------- pool

    /** Pops a frame from the pool, or allocates one when the pool is empty. */
    method GetFromPoolInternalRaw() returns (frame: FrameData)
      modifies this`pool, this`storage
      ensures old(pool) == [] ==> pool == [] && fresh(frame) && fresh(frame.buffer) && storage == old(storage) + [frame]
      ensures old(pool) == [] ==> frame.buffer.Length == FRAME_CAPACITY
      ensures old(pool) != [] ==> old(pool) == pool + [frame] && storage == old(storage)
    {
      if pool == [] {
        frame := new FrameData();
        storage := storage + [frame];
        return;
      }
      frame := pool[|pool| - 1];
      pool := pool[..|pool| - 1];
    }

    /** Puts a frame back unless it is already there. */
    method ReturnToPoolInternalRaw(frame: FrameData)
      modifies this`pool
      ensures pool == if frame in old(pool) then old(pool) else old(pool) + [frame]
    {
      var i := 0;
      while i < |pool|
        invariant 0 <= i <= |pool| && pool == old(pool)
        invariant frame !in pool[..i]
      {
        if pool[i] == frame {
          return;
        }
        i := i + 1;
      }
      assert pool[..i] == pool;
      pool := pool + [frame];
    }

    /** The consumer's deleter gives a frame back. */
    method ReturnToPoolRaw(frame: FrameData)
      requires Valid() && frame in out
      modifies this`pool, this`out, this`Repr
      ensures Valid() && view == old(view)
      ensures out == old(out) - {frame} && Repr == old(Repr) + {frame, frame.buffer}
      ensures pool == old(pool) + [frame]
    {
      FromConsumer(ring[..], pool, storage, out, Repr, frame);
      ReturnToPoolInternalRaw(frame);
      out := out - {frame};
      Repr := Repr + {frame, frame.buffer};
    }

    // -------------------------------------------------------------- reassembly

    /** The frame in slot `j` has just been written in place: the model follows. */
    ghost method Refresh(j: nat)
      requires j < R.FRAME_RING && {this, ring, fecRing, fecPool} <= Repr && fecRing.Length == R.FEC_RING
      requires Partition(ring[..], pool, storage, out, Repr) && GroupsAgree(fecRing[..], fecPool.pool, view.fec)
      requires R.StateShaped(view) && view.nextId == nextFrameIdToRead && view.started == firstFrameReceived
      requires forall i :: 0 <= i < R.FRAME_RING && i != j ==>
        view.ring[i] == if ring[i] == null then None else Some(ring[i].Value())
      requires ring[j] != null && R.Shaped(ring[j].Value()) && R.Slot(ring[j].frameId) == j
      modifies this`view
      ensures Structure() && view == R.WithFrame(old(view), ring[j].Value())
    {
      view := R.WithFrame(view, ring[j].Value());
    }

    /** Slot `j` has just been emptied and the read pointer set: the model follows. */
    ghost method Forget(j: nat)
      requires j < R.FRAME_RING && {this, ring, fecRing, fecPool} <= Repr && fecRing.Length == R.FEC_RING
      requires Partition(ring[..], pool, storage, out, Repr) && GroupsAgree(fecRing[..], fecPool.pool, view.fec)
      requires R.StateShaped(view) && view.started == firstFrameReceived
      requires forall i :: 0 <= i < R.FRAME_RING && i != j ==>
        view.ring[i] == if ring[i] == null then None else Some(ring[i].Value())
      requires ring[j] == null
      modifies this`view
      ensures Structure()
      ensures view == old(view).(ring := old(view).ring[j := None], nextId := nextFrameIdToRead)
    {
      view := view.(ring := view.ring[j := None], nextId := nextFrameIdToRead);
    }

    method TryRecover(frameId: nat, groupStart: nat)
      requires Structure()
      modifies this`view, Repr - {this, ring, fecRing, fecPool}
      ensures Structure()
      ensures view == (match R.Lookup(old(view), frameId)
        case None => old(view)
        case Some(f) => R.WithFrame(old(view),
          R.TryRecoverFrame(f, old(view).fec[R.FECSlot(frameId, groupStart)], groupStart)))
    {
      var j := frameId % R.FRAME_RING;
      if ring[j] == null || ring[j].frameId != frameId {
        return;
      }
      var frame := ring[j];
      assert view.ring[j] == Some(frame.Value());
      if frame.isComplete {
        return;
      }
      var group := fecRing[(frameId * 13 + groupStart / 5) % R.FEC_RING];
      if !group.fecReceived || group.frameId != frameId || group.fecHeader.fragmentStart != groupStart {
        return;
      }
      var g := FECPacket(group.fecHeader, group.fecPacket.value.data[..group.fecHeader.dataSize]);
      assert view.fec[R.FECSlot(frameId, groupStart)] == Some(g);
      RebuildSlot(j, g);
    }

    /** Parity is applied to the incomplete frame in slot `j`. */
    method RebuildSlot(j: nat, g: FECPacket)
      requires Structure() && j < R.FRAME_RING && view.ring[j].Some? && !view.ring[j].value.isComplete
      requires R.ParityShaped(Some(g)) && R.HeldFor(Some(g), view.ring[j].value.frameId, g.header.fragmentStart)
      modifies this`view, Repr - {this, ring, fecRing, fecPool}
      ensures Structure()
      ensures view == R.WithFrame(old(view),
        R.TryRecoverFrame(old(view).ring[j].value, Some(g), g.header.fragmentStart))
    {
      var frame := ring[j];
      ghost var was := view.ring[j].value;
      assert was == frame.Value();
      frame.Rebuild(g);
      R.TryRecoverShaped(was, Some(g), g.header.fragmentStart);
      OthersApart(ring[..], pool, storage, out, Repr, j);
      Refresh(j);
    }

    /** The frame that will sit in slot `j`: whatever sat there goes back to the pool first. */
    method AcquireFor(j: nat) returns (frame: FrameData)
      requires Structure() && j < R.FRAME_RING
      modifies this`pool, this`storage, this`Repr
      ensures Partition(ring[..][j := frame], pool, storage, out, Repr)
      ensures old(Repr) <= Repr && fresh(Repr - old(Repr)) && frame in Repr && frame.buffer in Repr
    {
      ghost var slots, was := ring[..], pool;
      if ring[j] != null {
        ReturnToPoolInternalRaw(ring[j]);
        assert pool == was + [slots[j]];
      }
      frame := GetFromPoolInternalRaw();
      Repr := Repr + {frame, frame.buffer};
      if slots[j] != null {
        SameAppend(was, slots[j], pool, frame);
        assert slots[j := frame] == slots;
      } else if was != [] {
        FromPool(slots, was, storage, out, Repr, j, frame, pool);
      } else {
        FromNew(slots, old(storage), out, old(Repr), j, frame);
      }
    }

    /** A frame for a new id enters its slot; its buffer still holds the bytes of an earlier frame. */
    method InstallFrame(h: VideoHeader) returns (ghost stale: seq<byte>)
      requires Structure() && h.totalFragments <= MAX_FRAGMENTS
      modifies this`pool, this`storage, this`Repr, this`view, Repr - {this}
      ensures Structure() && old(Repr) <= Repr && fresh(Repr - old(Repr))
      ensures |stale| == FRAME_CAPACITY && view == R.WithFrame(old(view), R.NewFrame(h, stale))
    {
      var j := h.frameId % R.FRAME_RING;
      ghost var before := ring[..];
      var frame := AcquireFor(j);
      stale := frame.buffer[..];
      frame.Begin(h);
      OthersApart(before[j := frame], pool, storage, out, Repr, j);
      ring[j] := frame;
      assert ring[..] == before[j := frame];
      Refresh(j);
    }

    /** Stores a fragment that was missing. */
    method StoreAt(h: VideoHeader, payload: seq<byte>)
      requires Structure() && R.Lookup(view, h.frameId).Some? && |payload| == h.dataSize <= MAX_UDP_PAYLOAD
      requires h.fragmentIndex < R.Lookup(view, h.frameId).value.totalFragments
      modifies this`view, Repr - {this, ring, fecRing, fecPool}
      ensures Structure()
      ensures view == R.WithFrame(old(view), R.Store(R.Lookup(old(view), h.frameId).value, h, payload))
    {
      var j := h.frameId % R.FRAME_RING;
      var frame := ring[j];
      assert view.ring[j] == Some(frame.Value());
      R.StoreShaped(frame.Value(), h, payload);
      frame.StoreFragment(h, payload);
      OthersApart(ring[..], pool, storage, out, Repr, j);
      Refresh(j);
    }

    /** Stores a fragment that was missing and tries the parity of its group. */
    method StoreAndRecover(h: VideoHeader, payload: seq<byte>, ghost f: R.Frame)
      requires Structure() && R.Lookup(view, h.frameId) == Some(f) && |payload| == h.dataSize <= MAX_UDP_PAYLOAD
      requires h.fragmentIndex < f.totalFragments
      modifies this`view, Repr - {this, ring, fecRing, fecPool}
      ensures Structure() && R.Shaped(R.Store(f, h, payload))
      ensures view == R.WithFrame(old(view), R.TryRecoverFrame(R.Store(f, h, payload),
        old(view).fec[R.FECSlot(h.frameId, R.GroupStart(h.fragmentIndex))], R.GroupStart(h.fragmentIndex)))
    {
      ghost var s, g, start := view, R.Store(f, h, payload), R.GroupStart(h.fragmentIndex);
      R.StoreShaped(f, h, payload);
      StoreAt(h, payload);
      R.WithFrameTwice(s, g, R.TryRecoverFrame(g, s.fec[R.FECSlot(h.frameId, start)], start));
      TryRecover(h.frameId, h.fragmentIndex / FEC_GROUP_SIZE * FEC_GROUP_SIZE);
    }

    /** Raises the completion flag when every fragment has been counted. */
    method MarkComplete(frameId: nat)
      requires Structure() && R.Lookup(view, frameId).Some?
      modifies this`view, Repr - {this, ring, fecRing, fecPool}
      ensures Structure()
      ensures view == R.WithFrame(old(view), R.Marked(R.Lookup(old(view), frameId).value))
    {
      var j := frameId % R.FRAME_RING;
      var frame := ring[j];
      assert view.ring[j] == Some(frame.Value());
      if frame.fragmentsReceived == frame.totalFragments {
        frame.isComplete := true;
        OthersApart(ring[..], pool, storage, out, Repr, j);
        Refresh(j);
      }
    }

    /** The tail of ProcessPacket: store the fragment unless it is there, try parity, mark completion. */
    method AssembleFragment(h: VideoHeader, payload: seq<byte>, ghost f: R.Frame)
      requires Structure() && R.Lookup(view, h.frameId) == Some(f) && |payload| == h.dataSize <= MAX_UDP_PAYLOAD
      modifies this`view, Repr - {this, ring, fecRing, fecPool}
      ensures Structure()
      ensures view == R.WithFrame(old(view), R.Assemble(f, h, payload,
        old(view).fec[R.FECSlot(h.frameId, R.GroupStart(h.fragmentIndex))]))
    {
      var frame := ring[h.frameId % R.FRAME_RING];
      assert f == frame.Value();
      if h.fragmentIndex < frame.totalFragments && !frame.fragmentMap[h.fragmentIndex] {
        ghost var s, start := view, R.GroupStart(h.fragmentIndex);
        ghost var g := s.fec[R.FECSlot(h.frameId, start)];
        StoreAndRecover(h, payload, f);
        ghost var t := R.TryRecoverFrame(R.Store(f, h, payload), g, start);
        R.TryRecoverShaped(R.Store(f, h, payload), g, start);
        R.WithFrameTwice(s, t, R.Marked(t));
      }
      MarkComplete(h.frameId);
    }

    // -------------------------------------------------------------- public operations

    /** One video packet. `stale` is the buffer content of a recycled frame, if one was taken. */
    method ProcessPacket(h: VideoHeader, payload: seq<byte>) returns (ghost stale: seq<byte>)
      requires Valid() && |payload| == h.dataSize
      modifies Repr
      ensures Valid() && fresh(Repr - old(Repr)) && out == old(out)
      ensures |stale| == FRAME_CAPACITY && view == R.ProcessPacket(old(view), h, payload, stale)
      ensures forall f :: f in old(out) ==> unchanged(f) && unchanged(f.buffer)
    {
      ghost var s := view;
      stale := seq(FRAME_CAPACITY, _ => 0);
      if !firstFrameReceived {
        if !KeyframeFlag(h.flags) {
          return;
        }
        nextFrameIdToRead := h.frameId;
        firstFrameReceived := true;
        view := R.Gate(view, h);
      }
      if h.frameId < nextFrameIdToRead || h.totalFragments > MAX_FRAGMENTS || h.dataSize > MAX_UDP_PAYLOAD {
        I.ProcessPacketOk(s, h, payload, stale);
        return;
      }
      stale := ProcessAccepted(h, payload);
      I.ProcessPacketOk(s, h, payload, stale);
    }

    /** The frame for a packet past the guards: the one in its slot, or a recycled one that starts over. */
    method FindOrInstall(h: VideoHeader) returns (ghost stale: seq<byte>, ghost f: R.Frame)
      requires Structure() && h.totalFragments <= MAX_FRAGMENTS
      modifies this`pool, this`storage, this`Repr, this`view, Repr - {this}
      ensures Structure() && old(Repr) <= Repr && fresh(Repr - old(Repr))
      ensures R.Lookup(view, h.frameId) == Some(f) && view == R.WithFrame(old(view), f)
      ensures |stale| == FRAME_CAPACITY
      ensures f == if R.Lookup(old(view), h.frameId).Some? then R.Lookup(old(view), h.frameId).value
                   else R.NewFrame(h, stale)
    {
      var j := h.frameId % R.FRAME_RING;
      stale := seq(FRAME_CAPACITY, _ => 0);
      if ring[j] == null || ring[j].frameId != h.frameId {
        assert R.Lookup(view, h.frameId).None?;
        stale := InstallFrame(h);
        f := R.NewFrame(h, stale);
      } else {
        f := ring[j].Value();
        assert view.ring[j] == Some(f);
      }
    }

    /** A packet past the guards: find or install its frame, then assemble. */
    method ProcessAccepted(h: VideoHeader, payload: seq<byte>) returns (ghost stale: seq<byte>)
      requires Structure() && view.started && view.nextId <= h.frameId
      requires h.totalFragments <= MAX_FRAGMENTS && |payload| == h.dataSize <= MAX_UDP_PAYLOAD
      modifies this`pool, this`storage, this`Repr, this`view, Repr - {this}
      ensures Structure() && old(Repr) <= Repr && fresh(Repr - old(Repr))
      ensures |stale| == FRAME_CAPACITY && view == R.ProcessPacket(old(view), h, payload, stale)
    {
      ghost var s := view;
      ghost var f;
      stale, f := FindOrInstall(h);
      AssembleFragment(h, payload, f);
      ghost var g := s.fec[R.FECSlot(h.frameId, R.GroupStart(h.fragmentIndex))];
      R.AssembleSameFrame(f, h, payload, g);
      R.WithFrameTwice(s, f, R.Assemble(f, h, payload, g));
    }

    /** Release, then acquire. */
    method SwapPacket(group: FECGroup) returns (packet: Packet)
      requires fecPool.pool != [] || group.fecPacket.Some?
      modifies fecPool
      ensures old(fecPool.pool) + (if group.fecPacket.Some? then [group.fecPacket.value] else [])
           == fecPool.pool + [packet]
    {
      fecPool.Release(group.fecPacket);
      var acquired := fecPool.Acquire();
      packet := acquired.value;
    }

    /** Swaps the parity packet of one slot: the old one goes back to the pool, a pooled one takes the payload. */
    method ReplaceGroup(h: FECHeader, payload: seq<byte>)
      requires Structure() && |payload| == h.dataSize <= MAX_UDP_PAYLOAD
      requires fecPool.pool != [] || fecRing[R.FECSlot(h.frameId, h.fragmentStart)].fecPacket.Some?
      modifies this`view, fecRing, fecPool
      ensures Structure()
      ensures view == R.WithParity(old(view), FECPacket(h, payload))
    {
      var j := (h.frameId * 13 + h.fragmentStart / 5) % R.FEC_RING;
      ghost var groups, packets := fecRing[..], fecPool.pool;
      var packet := SwapPacket(fecRing[j]);
      GroupReplaced(groups, packets, view.fec, j, FECPacket(h, payload), fecPool.pool, packet);
      var data := payload + packet.data[h.dataSize..];
      fecRing[j] := FECGroup(h, true, Some(Packet(data, h.dataSize)), h.frameId);
      assert fecRing[..] == groups[j := fecRing[j]];
      NoteParity(FECPacket(h, payload));
    }

    /** A parity slot has just been replaced: the model follows. */
    ghost method NoteParity(g: FECPacket)
      requires {this, ring, fecRing, fecPool} <= Repr && fecRing.Length == R.FEC_RING
      requires Partition(ring[..], pool, storage, out, Repr) && FramesAgree()
      requires R.StateShaped(view) && view.nextId == nextFrameIdToRead && view.started == firstFrameReceived
      requires R.ParityShaped(Some(g)) && |view.fec| == R.FEC_RING
      requires GroupsAgree(fecRing[..], fecPool.pool, R.WithParity(view, g).fec)
      modifies this`view
      ensures Structure() && view == R.WithParity(old(view), g)
    {
      view := R.WithParity(view, g);
    }

    /** One parity packet. `served` is false where the code would use the null packet of the exhausted pool. */
    method ProcessFEC(h: FECHeader, payload: seq<byte>) returns (served: bool)
      requires Valid() && |payload| == h.dataSize <= MAX_UDP_PAYLOAD
      modifies this`view, Repr - {this, ring}
      ensures Valid() && served == !R.Starved(old(view), FECPacket(h, payload))
      ensures view == if served then R.ProcessFEC(old(view), FECPacket(h, payload)) else old(view)
      ensures forall f :: f in old(out) ==> unchanged(f) && unchanged(f.buffer)
    {
      ghost var s := view;
      I.ProcessFECOk(s, FECPacket(h, payload));
      if h.frameId < nextFrameIdToRead {
        return true;
      }
      var group := fecRing[(h.frameId * 13 + h.fragmentStart / 5) % R.FEC_RING];
      assert s.fec[R.FECSlot(h.frameId, h.fragmentStart)] == Parity(group);
      PoolEmptyIff(fecRing[..], fecPool.pool, s.fec);
      if !group.fecReceived || group.frameId != h.frameId || group.fecHeader.fragmentStart != h.fragmentStart {
        if group.fecPacket.None? && fecPool.pool == [] {
          return false;
        }
        ReplaceGroup(h, payload);
        TryRecover(h.frameId, h.fragmentStart);
      }
      return true;
    }

    /** The frame in slot `j` leaves for the consumer. */
    method Detach(j: nat)
      requires Structure() && j < R.FRAME_RING && ring[j] != null && ring[j].frameId == nextFrameIdToRead
      modifies this`view, this`out, this`Repr, this`nextFrameIdToRead, ring
      ensures Structure()
      ensures view == old(view).(ring := old(view).ring[j := None], nextId := old(view).nextId + 1)
      ensures out == old(out) + {old(ring[j])} && Repr == old(Repr) - {old(ring[j]), old(ring[j]).buffer}
    {
      var frame := ring[j];
      ghost var slots := ring[..];
      OthersApart(slots, pool, storage, out, Repr, j);
      HandOver(slots, pool, storage, out, Repr, j);
      ring[j] := null;
      nextFrameIdToRead := nextFrameIdToRead + 1;
      assert ring[..] == slots[j := null];
      out := out + {frame};
      Repr := Repr - {frame, frame.buffer};
      Forget(j);
    }

    /** Hands out the next frame in order, if it is complete. */
    method GetNextFrame() returns (frame: FrameData?)
      requires Valid()
      modifies this`view, this`out, this`Repr, this`nextFrameIdToRead, ring
      ensures Valid() && view == R.AfterTake(old(view))
      ensures frame == null <==> R.Ready(old(view)).None?
      ensures frame == null ==> out == old(out) && Repr == old(Repr)
      ensures frame != null ==> R.Ready(old(view)) == Some(frame.Value()) && frame !in old(out)
      ensures frame != null ==> out == old(out) + {frame} && Repr == old(Repr) - {frame, frame.buffer}
      ensures forall f :: f in old(out) ==> unchanged(f) && unchanged(f.buffer)
    {
      var j := nextFrameIdToRead % R.FRAME_RING;
      I.TakeOk(view);
      assert view.ring[j] == if ring[j] == null then None else Some(ring[j].Value());
      if ring[j] != null && ring[j].frameId == nextFrameIdToRead && ring[j].isComplete {
        frame := ring[j];
        Detach(j);
        return;
      }
      return null;
    }

    /** The frame with this id, if the ring holds it. */
    method FrameAt(fid: nat) returns (frame: FrameData?)
      requires Readable()
      ensures frame == null <==> R.Lookup(view, fid).None?
      ensures frame != null ==> R.Lookup(view, fid) == Some(frame.Value())
    {
      frame := ring[fid % R.FRAME_RING];
      assert view.ring[R.Slot(fid)] == if frame == null then None else Some(frame.Value());
      if frame != null && frame.frameId != fid {
        frame := null;
      }
    }

    method HasKeyframe(fid: nat) returns (ready: bool)
      requires Readable()
      ensures ready == R.KeyframeReady(view, fid)
    {
      var frame := FrameAt(fid);
      ready := frame != null && frame.isComplete && frame.isKeyframe;
    }

    /** The loop over the next ids. */
    method FindKeyframe(window: nat) returns (latestKeyframeId: nat)
      requires Readable()
      ensures latestKeyframeId == R.LatestKeyframe(view, window)
    {
      latestKeyframeId := 0;
      var found := false;
      for i := 0 to window
        invariant found || latestKeyframeId == 0
        invariant latestKeyframeId == R.LatestKeyframe(view, i)
      {
        var fid := nextFrameIdToRead + i;
        var ready := HasKeyframe(fid);
        if ready {
          latestKeyframeId := fid;
          found := true;
        }
      }
      return if found then latestKeyframeId else 0;
    }

    /** The newest complete keyframe among the next 64 ids, or zero if there is none. */
    method FindLatestAvailableKeyframe() returns (latestKeyframeId: nat)
      requires Valid()
      ensures latestKeyframeId == R.LatestKeyframe(view, R.FRAME_RING)
    {
      latestKeyframeId := FindKeyframe(R.FRAME_RING);
    }

    /** Returns the frame with this id to the pool, if the ring holds it. */
    method DropFrame(fid: nat)
      requires Structure()
      modifies this`pool, this`view, ring
      ensures Structure()
      ensures view == old(view).(ring := R.Dropped(old(view).ring, fid, fid + 1))
    {
      var j := fid % R.FRAME_RING;
      ghost var slots, s := ring[..], view;
      assert s.ring[j] == if ring[j] == null then None else Some(ring[j].Value());
      R.DropOne(s, fid);
      if ring[j] != null && ring[j].frameId == fid {
        ToPool(slots, pool, storage, out, Repr, j);
        ReturnToPoolInternalRaw(ring[j]);
        ring[j] := null;
        assert ring[..] == slots[j := null];
        Forget(j);
      }
    }

    /** The loop of ForceAdvanceTo. */
    method DropBelow(frameId: nat)
      requires Structure() && nextFrameIdToRead < frameId
      modifies this`pool, this`view, ring
      ensures Structure()
      ensures view == old(view).(ring := R.Dropped(old(view).ring, old(view).nextId, frameId))
    {
      ghost var s := view;
      var fid := nextFrameIdToRead;
      assert R.Dropped(s.ring, fid, fid) == s.ring;
      while fid < frameId
        invariant nextFrameIdToRead <= fid <= frameId && Structure()
        invariant view == s.(ring := R.Dropped(s.ring, s.nextId, fid))
      {
        DropFrame(fid);
        R.DropMore(s.ring, s.nextId, fid);
        fid := fid + 1;
      }
    }

    /** Skips ahead: every held frame below the target goes back to the pool. */
    method ForceAdvanceTo(frameId: nat)
      requires Valid()
      modifies this`pool, this`view, this`nextFrameIdToRead, ring
      ensures Valid() && view == R.ForceAdvance(old(view), frameId)
      ensures forall f :: f in old(out) ==> unchanged(f) && unchanged(f.buffer)
    {
      if frameId <= nextFrameIdToRead {
        return;
      }
      I.ForceAdvanceOk(view, frameId);
      DropBelow(frameId);
      nextFrameIdToRead := frameId;
      view := view.(nextId := frameId);
    }

    // -------------------------------------------------------------- retransmission requests

    /** The inner loop: missing fragments of one frame are appended until ten requests are listed. */
    static method ScanFragments(fid: nat, bits: seq<bool>, total: nat, nacks: seq<R.NACK>)
      returns (more: seq<R.NACK>, full: bool)
      requires total <= |bits| && |nacks| <= 10
      ensures var all := nacks + R.NacksOf(fid, R.Missing(bits, 0, total));
        more == R.FirstTen(all) && (full <==> |all| > 10)
    {
      more, full := nacks, false;
      var j := 0;
      while j < total
        invariant j <= total && |more| <= 10
        invariant more == nacks + R.NacksOf(fid, R.Missing(bits, 0, j))
      {
        if !bits[j] {
          if |more| >= 10 {
            R.ScanFull(fid, bits, nacks, j, total);
            return more, true;
          }
          R.NacksExtend(fid, R.Missing(bits, 0, j), j);
          more := more + [R.NACK(fid, j)];
        }
        j := j + 1;
      }
    }

    /** One turn of the outer loop: one frame contributes its missing fragments. */
    method ScanFrame(fid: nat, nacks: seq<R.NACK>) returns (more: seq<R.NACK>, full: bool)
      requires Readable() && |nacks| <= 10
      ensures var all := nacks + R.FrameNacks(view, fid);
        more == R.FirstTen(all) && (full <==> |all| > 10)
    {
      var frame := FrameAt(fid);
      more, full := nacks, false;
      if frame != null && !frame.isComplete {
        more, full := ScanFragments(fid, frame.fragmentMap, frame.totalFragments, nacks);
      }
    }

    /** The frame `i` ids ahead contributes `lists[i]`. */
    method ScanListed(i: nat, nacks: seq<R.NACK>, ghost lists: seq<seq<R.NACK>>)
      returns (more: seq<R.NACK>, full: bool)
      requires Readable() && |nacks| <= 10 && lists == R.NackLists(view, |lists|) && i < |lists|
      ensures more == R.FirstTen(nacks + lists[i]) && (full <==> |nacks + lists[i]| > 10)
    {
      R.NackListAt(view, |lists|, i);
      more, full := ScanFrame(nextFrameIdToRead + i, nacks);
    }

    /** The outer loop over the next ids. */
    method ScanWindow(window: nat, ghost lists: seq<seq<R.NACK>>) returns (nacks: seq<R.NACK>)
      requires Readable() && lists == R.NackLists(view, window)
      ensures nacks == R.FirstTen(R.Flatten(lists))
    {
      nacks := [];
      var i := 0;
      while i < window
        invariant i <= window && |nacks| <= 10 && nacks == R.Flatten(lists[..i])
      {
        var full;
        nacks, full := ScanListed(i, nacks, lists);
        R.ScanStep(lists, i, nacks);
        if full {
          return;
        }
        i := i + 1;
      }
      assert lists[..i] == lists;
      R.FirstTenAll(nacks);
    }

    /** At most ten missing fragments, in scan order over the next 32 ids. */
    method GetPendingNACKs() returns (nacks: seq<R.NACK>)
      requires Valid()
      ensures nacks == R.PendingNACKs(view)
    {
      nacks := ScanWindow(R.NACK_WINDOW, R.NackLists(view, R.NACK_WINDOW));
    }
  }
}
