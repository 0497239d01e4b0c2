/** Frame objects between receiver, jitter buffer and decoder: the receiver hands them out, the jitter buffer keeps
    them, and what the client gives up goes back to the receiver's pool. */
module FrameOwnership {
  import opened Wrappers
  import opened Bytes
  import opened Protocol
  import opened Packetizer
  import opened FrameObjects
  import opened ClientReceiver
  import opened ClientJitterBuffer
  import R = Reassembly
  import J = JitterModel
  import opened TurnModel

  /** The receiver may not write the rings of the jitter buffer. */
  ghost predicate Separate(receiver: Receiver, jitter: JitterBuffer)
    reads receiver
  {
    && {jitter, jitter.ring, jitter.info} !! receiver.Repr
    && jitter.ring.Length == jitter.info.Length == J.CAPACITY
  }

  /** Every frame that the receiver handed out is in one slot of the jitter buffer or once in `outside`. */
  ghost predicate Owns(receiver: Receiver, jitter: JitterBuffer, outside: seq<FrameData>)
    reads receiver, receiver.Repr, jitter, jitter.ring, jitter.info, jitter.Frames(), Buffers(jitter.Frames())
  {
    && receiver.Valid() && jitter.Valid() && Separate(receiver, jitter)
    && Splits(receiver.out, jitter.Frames(), outside)
  }

  /** The deleter of each frame pointer runs. */
  method GiveBack(receiver: Receiver, jitter: JitterBuffer, frames: seq<FrameData>, ghost kept: set<FrameData>)
    requires receiver.Valid() && Separate(receiver, jitter) && Splits(receiver.out, kept, frames)
    modifies receiver`pool, receiver`out, receiver`Repr
    ensures receiver.Valid() && Separate(receiver, jitter)
    ensures receiver.out == kept && receiver.view == old(receiver.view)
    ensures receiver.pool == old(receiver.pool) + frames
  {
    for i := 0 to |frames|
      invariant receiver.Valid() && Separate(receiver, jitter) && Splits(receiver.out, kept, frames[i..])
      invariant receiver.view == old(receiver.view) && receiver.pool == old(receiver.pool) + frames[..i]
    {
      assert frames[i] in receiver.out && frames[i].buffer.Length == FRAME_CAPACITY;
      receiver.ReturnToPoolRaw(frames[i]);
    }
  }

  /** The next frame leaves the receiver, if it is ready. */
  method TakeFrom(receiver: Receiver, jitter: JitterBuffer) returns (frame: FrameData?)
    requires Owns(receiver, jitter, [])
    modifies receiver, receiver.ring
    ensures Owns(receiver, jitter, Single(frame)) && jitter.View() == old(jitter.View())
    ensures receiver.view == R.AfterTake(old(receiver.view))
    ensures R.Ready(old(receiver.view)) == if frame == null then None else Some(frame.Value())
  {
    frame := receiver.GetNextFrame();
  }

  /** A frame enters the jitter buffer; what the buffer gives up goes back. */
  method PushInto(receiver: Receiver, jitter: JitterBuffer, frame: FrameData)
    requires Owns(receiver, jitter, [frame])
    modifies receiver`pool, receiver`out, receiver`Repr, jitter, jitter.ring, jitter.info
    ensures Owns(receiver, jitter, []) && receiver.view == old(receiver.view)
    ensures jitter.View() == J.Push(old(jitter.View()), old(frame.Value()))
  {
    var released := jitter.PushFrame(frame);
    assert receiver.Valid() && Separate(receiver, jitter);
    GiveBack(receiver, jitter, released, jitter.Frames());
    assert jitter.Valid();
  }

  /** A frame leaves the jitter buffer for the decoder. */
  method PopFrom(receiver: Receiver, jitter: JitterBuffer, sync: nat, early: bool) returns (frame: FrameData?)
    requires Owns(receiver, jitter, [])
    modifies jitter, jitter.ring, jitter.info
    ensures Owns(receiver, jitter, Single(frame))
    ensures J.Pop(old(jitter.View()), sync, early, jitter.maxFrames)
         == (jitter.View(), if frame == null then None else Some(frame.Value()))
  {
    frame := jitter.PopFrame(sync, early);
  }

  /** The jitter buffer starts over at a keyframe; all its frames go back. */
  method RestartAt(receiver: Receiver, jitter: JitterBuffer, id: nat)
    requires Owns(receiver, jitter, [])
    modifies receiver`pool, receiver`out, receiver`Repr, jitter, jitter.ring, jitter.info
    ensures Owns(receiver, jitter, []) && receiver.view == old(receiver.view) && receiver.out == {}
    ensures jitter.View() == J.Reset(old(jitter.View()), id)
  {
    var released := jitter.Reset(id);
    GiveBack(receiver, jitter, released, {});
  }

  /** The receiver skips ahead. */
  method AdvanceTo(receiver: Receiver, jitter: JitterBuffer, id: nat)
    requires Owns(receiver, jitter, [])
    modifies receiver`pool, receiver`view, receiver`nextFrameIdToRead, receiver.ring
    ensures Owns(receiver, jitter, []) && receiver.view == R.ForceAdvance(old(receiver.view), id)
    ensures jitter.View() == old(jitter.View())
  {
    receiver.ForceAdvanceTo(id);
  }

  /** The decoder is done with its frame. */
  method FinishWith(receiver: Receiver, jitter: JitterBuffer, frame: FrameData)
    requires Owns(receiver, jitter, [frame])
    modifies receiver`pool, receiver`out, receiver`Repr
    ensures Owns(receiver, jitter, []) && receiver.view == old(receiver.view) && jitter.View() == old(jitter.View())
    ensures receiver.pool == old(receiver.pool) + [frame]
  {
    GiveBack(receiver, jitter, [frame], jitter.Frames());
  }

  /** A video packet arrives: no frame outside the receiver is written. */
  method Deliver(receiver: Receiver, jitter: JitterBuffer, ghost outside: seq<FrameData>, h: VideoHeader,
                 payload: seq<byte>) returns (ghost stale: seq<byte>)
    requires Owns(receiver, jitter, outside) && |payload| == h.dataSize
    modifies receiver.Repr
    ensures Owns(receiver, jitter, outside) && jitter.View() == old(jitter.View())
    ensures |stale| == FRAME_CAPACITY && receiver.view == R.ProcessPacket(old(receiver.view), h, payload, stale)
    ensures forall f :: f in outside ==> unchanged(f) && unchanged(f.buffer)
  {
    stale := receiver.ProcessPacket(h, payload);
  }

  /** And a parity packet. */
  method DeliverParity(receiver: Receiver, jitter: JitterBuffer, ghost outside: seq<FrameData>, h: FECHeader,
                       payload: seq<byte>) returns (served: bool)
    requires Owns(receiver, jitter, outside) && |payload| == h.dataSize <= MAX_UDP_PAYLOAD
    modifies receiver.Repr
    ensures Owns(receiver, jitter, outside) && jitter.View() == old(jitter.View())
    ensures served == !R.Starved(old(receiver.view), FECPacket(h, payload))
    ensures receiver.view ==
      if served then R.ProcessFEC(old(receiver.view), FECPacket(h, payload)) else old(receiver.view)
    ensures forall f :: f in outside ==> unchanged(f) && unchanged(f.buffer)
  {
    served := receiver.ProcessFEC(h, payload);
  }

  // ---------------------------------------------------------------- where each object is

  /** Every frame object that was ever made is in exactly one place: the pool, a slot of the receiver, a slot of the
      jitter buffer, or outside; and the receiver may write it only in the first two. */
  lemma OneOwner(receiver: Receiver, jitter: JitterBuffer, outside: seq<FrameData>, f: FrameData)
    requires Owns(receiver, jitter, outside) && f in receiver.storage
    ensures var pooled, held := f in receiver.pool, f in receiver.ring[..];
      var buffered, out := f in jitter.Frames(), f in outside;
      && (pooled || held || buffered || out)
      && !(pooled && held) && !(buffered && out) && !((pooled || held) && (buffered || out))
      && (pooled || held <==> f in receiver.Repr) && (pooled || held <==> f.buffer in receiver.Repr)
  {
    assert f in receiver.out <==> f in jitter.Frames() || f in outside;
  }

  // ---------------------------------------------------------------- one turn of the client's loop

  /** The recovery at the head of the loop. */
  method Recover(receiver: Receiver, jitter: JitterBuffer)
    requires Owns(receiver, jitter, [])
    modifies receiver, receiver.ring, jitter, jitter.ring, jitter.info
    ensures Owns(receiver, jitter, [])
    ensures (receiver.view, jitter.View()) == Recovered(old(receiver.view), old(jitter.View()))
  {
    var latestKeyframe := receiver.FindLatestAvailableKeyframe();
    if latestKeyframe > 0 && latestKeyframe > receiver.nextFrameIdToRead {
      AdvanceTo(receiver, jitter, latestKeyframe);
      RestartAt(receiver, jitter, latestKeyframe);
    }
  }

  /** The pumping loop. */
  method PumpAll(receiver: Receiver, jitter: JitterBuffer)
    requires Owns(receiver, jitter, [])
    modifies receiver, receiver.ring, jitter, jitter.ring, jitter.info
    ensures Owns(receiver, jitter, []) && R.Ready(receiver.view).None?
    ensures (receiver.view, jitter.View()) == Pumped(old(receiver.view), old(jitter.View()))
  {
    var frame := TakeFrom(receiver, jitter);
    ghost var s := old(receiver.view);
    while frame != null
      invariant R.StateShaped(s) && receiver.view == R.AfterTake(s)
      invariant Owns(receiver, jitter, Single(frame))
      invariant R.Ready(s) == if frame == null then None else Some(frame.Value())
      invariant Pumped(s, jitter.View()) == Pumped(old(receiver.view), old(jitter.View()))
      decreases |FullSlots(s.ring)|
    {
      TakeEmptiesSlot(s);
      PushInto(receiver, jitter, frame);
      s := receiver.view;
      frame := TakeFrom(receiver, jitter);
    }
  }

  /** One turn of the client's loop: recover, pump, pop, decode and give back. When it ends, all frames that the
      receiver handed out are in the jitter buffer. */
  method Turn(receiver: Receiver, jitter: JitterBuffer, sync: nat, early: bool)
    requires Owns(receiver, jitter, [])
    modifies receiver, receiver.ring, jitter, jitter.ring, jitter.info
    ensures Owns(receiver, jitter, [])
    ensures var (s, b) := Recovered(old(receiver.view), old(jitter.View()));
      R.StateShaped(s) && J.Sized(b) && receiver.view == Pumped(s, b).0
    ensures var (s, b) := Recovered(old(receiver.view), old(jitter.View()));
      J.Tracked(Pumped(s, b).1) && jitter.View() == J.Pop(Pumped(s, b).1, sync, early, jitter.maxFrames).0
  {
    Recover(receiver, jitter);
    PumpAll(receiver, jitter);
    var frame := PopFrom(receiver, jitter, sync, early);
    if frame != null {
      FinishWith(receiver, jitter, frame);
    }
  }
}
