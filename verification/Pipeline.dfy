/** The client: a network thread feeding the receiver and a client thread that recovers, pumps frames into
    the jitter buffer and pops them for the decoder. Steps are lock sections, interleaved arbitrarily. */
module Pipeline {
  import opened Wrappers
  import opened Bytes
  import opened Protocol
  import opened Packetizer
  import opened Reassembly
  import opened Fidelity
  import J = JitterModel

  /** Where the client thread is in its loop. */
  datatype Pc =
    | Scan                      // about to look for a keyframe ahead
    | Compare(kf: nat)          // about to compare it with the read pointer
    | Force(kf: nat)            // about to advance the receiver
    | Restart(kf: nat)          // about to reset the jitter buffer
    | Pump                      // about to take the next frame
    | Insert(frame: Frame)      // about to push the frame just taken
    | Drain                     // about to pop a frame for the decoder

  /** A frame given to the decoder; `afterLoss` says that the buffer overflowed since the previous one. */
  datatype Popped = Popped(frame: Frame, afterLoss: bool)

  datatype System = System(
    recv: State, jitter: J.Jitter, pc: Pc, delivered: seq<Frame>, popped: seq<Popped>, lossy: bool)

  datatype Event =
    | Video(header: VideoHeader, payload: seq<byte>, stale: seq<byte>)
    | FEC(packet: FECPacket)
    | Client(sync: nat, early: bool, maxFrames: nat)

  function Start(): System {
    System(Initial(), J.Empty(), Scan, [], [], false)
  }

  ghost predicate WellFormed(s: System) {
    StateShaped(s.recv) && J.Tracked(s.jitter)
  }

  function Taken(s: System): System
    requires WellFormed(s) && Ready(s.recv).Some?
  {
    var f := Ready(s.recv).value;
    s.(recv := AfterTake(s.recv), delivered := s.delivered + [f], pc := Insert(f))
  }

  function Pushed(s: System, f: Frame): System
    requires WellFormed(s)
  {
    s.(jitter := J.Push(s.jitter, f), pc := Pump, lossy := s.lossy || |J.PushReleases(s.jitter, f)| > 0)
  }

  function Drained(s: System, jitter: J.Jitter, frame: Frame): System {
    s.(jitter := jitter, pc := Scan, popped := s.popped + [Popped(frame, s.lossy)], lossy := false)
  }

  /** One lock section of the client thread. */
  function ClientStep(s: System, sync: nat, early: bool, maxFrames: nat): System
    requires WellFormed(s)
  {
    match s.pc
    case Scan => s.(pc := Compare(LatestKeyframe(s.recv, FRAME_RING)))
    case Compare(kf) => s.(pc := if kf > 0 && kf > s.recv.nextId then Force(kf) else Pump)
    case Force(kf) => s.(recv := ForceAdvance(s.recv, kf), pc := Restart(kf))
    case Restart(kf) => s.(jitter := J.Reset(s.jitter, kf), pc := Pump)
    case Pump => if Ready(s.recv).Some? then Taken(s) else s.(pc := Drain)
    case Insert(f) => Pushed(s, f)
    case Drain =>
      var (jitter, frame) := J.Pop(s.jitter, sync, early, maxFrames);
      if frame.Some? then Drained(s, jitter, frame.value) else s.(pc := Scan)
  }

  /** One step of either thread; the network delivers genuine packets in any order, any number of times. */
  ghost predicate Next(sender: Sender, s: System, e: Event, t: System) {
    && WellFormed(s)
    && match e
       case Video(h, payload, stale) =>
         && GenuineVideo(sender, h, payload) && |stale| == FRAME_CAPACITY
         && t == s.(recv := ProcessPacket(s.recv, h, payload, stale))
       case FEC(g) => GenuineFEC(sender, g.header, g.payload) && t == s.(recv := ProcessFEC(s.recv, g))
       case Client(sync, early, maxFrames) => t == ClientStep(s, sync, early, maxFrames)
  }

  ghost predicate Execution(sender: Sender, states: seq<System>, events: seq<Event>) {
    && |states| == |events| + 1 && states[0] == Start()
    && forall i :: 0 <= i < |events| ==> Next(sender, states[i], events[i], states[i + 1])
  }

  // ---------------------------------------------------------------- decodable delivery

  ghost predicate Key(sender: Sender, id: nat) {
    id in sender && sender[id].isKeyframe
  }

  /** Frames come out faithful, with increasing ids, starting at a keyframe, and skipping only to keyframes. */
  ghost predicate Decodable(sender: Sender, frames: seq<Frame>) {
    && (forall i :: 0 <= i < |frames| ==>
          frames[i].frameId in sender && Faithful(frames[i], sender[frames[i].frameId]))
    && (forall i :: 0 < i < |frames| ==> frames[i - 1].frameId < frames[i].frameId)
    && (forall i :: 0 <= i < |frames| ==> JoinsOn(sender, frames, i))
  }

  ghost predicate JoinsOn(sender: Sender, frames: seq<Frame>, i: nat)
    requires i < |frames|
  {
    (i > 0 && frames[i].frameId == frames[i - 1].frameId + 1) || Key(sender, frames[i].frameId)
  }

  /** What may come next: the id after the last delivered one, or a keyframe. */
  ghost predicate ReadPointer(sender: Sender, s: System) {
    && (!s.recv.started ==> s.delivered == [])
    && (s.recv.started && s.delivered == [] ==> Key(sender, s.recv.nextId))
    && (s.delivered != [] ==>
          var last := s.delivered[|s.delivered| - 1].frameId;
          last < s.recv.nextId && (s.recv.nextId == last + 1 || Key(sender, s.recv.nextId)))
  }

  // ---------------------------------------------------------------- contiguity

  /** The jitter buffer holds exactly the ids from its read pointer up to `hi`, at most 28 of them. */
  ghost predicate Contiguous(b: J.Jitter, hi: nat) {
    && J.Exact(b) && b.initialized
    && b.nextPop <= hi && b.count == hi - b.nextPop <= J.HIGH_WATER
    && (forall id :: b.nextPop <= id < hi ==>
          b.ring[J.Cell(id)].Some? && b.ring[J.Cell(id)].value.frameId == id)
    && (forall j :: 0 <= j < J.CAPACITY && b.ring[j].Some? ==> b.ring[j].value.frameId < hi)
  }

  /** The first id that has not been pushed yet. */
  function PushedUpTo(s: System): nat {
    if s.pc.Insert? then s.pc.frame.frameId else s.recv.nextId
  }

  ghost predicate BufferHoldsTheGap(s: System) {
    && (!s.jitter.initialized ==>
          s.jitter == J.Empty() && s.popped == [] && !s.lossy
          && (s.delivered == [] || (s.pc.Insert? && s.delivered == [s.pc.frame])))
    && (s.jitter.initialized ==> s.recv.started)
    && (s.jitter.initialized && !s.pc.Restart? ==> Contiguous(s.jitter, PushedUpTo(s)))
  }

  ghost predicate ClientKnows(sender: Sender, s: System) {
    match s.pc
    case Compare(kf) => kf != 0 ==> s.recv.started && Key(sender, kf)
    case Force(kf) => s.recv.started && Key(sender, kf) && s.recv.nextId < kf
    case Restart(kf) => s.recv.started && Key(sender, kf) && s.recv.nextId == kf
    case Insert(f) => s.recv.started && s.recv.nextId == f.frameId + 1
                      && s.delivered != [] && s.delivered[|s.delivered| - 1] == f
    case _ => true
  }

  // ---------------------------------------------------------------- the decoder's side

  ghost predicate Held(sender: Sender, f: Frame) {
    f.frameId in sender && Faithful(f, sender[f.frameId])
  }

  /** Popped ids increase; a popped frame continues the previous one, is a keyframe, or follows an overflow. */
  ghost predicate DecoderSide(sender: Sender, s: System) {
    && |s.jitter.ring| == J.CAPACITY
    && (forall j :: 0 <= j < J.CAPACITY && s.jitter.ring[j].Some? ==> Held(sender, s.jitter.ring[j].value))
    && (forall i :: 0 <= i < |s.popped| ==> Held(sender, s.popped[i].frame))
    && (forall i :: 0 < i < |s.popped| ==> s.popped[i - 1].frame.frameId < s.popped[i].frame.frameId)
    && (forall i :: 0 <= i < |s.popped| ==> Continues(sender, s.popped, i))
    && (s.popped != [] ==> LastPopped(s) < s.recv.nextId)
    && (s.jitter.initialized && !s.pc.Restart? ==>
          && (s.popped != [] ==> LastPopped(s) < s.jitter.nextPop)
          && (s.lossy || Key(sender, s.jitter.nextPop) || (s.popped != [] && s.jitter.nextPop == LastPopped(s) + 1)))
  }

  ghost predicate Continues(sender: Sender, popped: seq<Popped>, i: nat)
    requires i < |popped|
  {
    || popped[i].afterLoss || Key(sender, popped[i].frame.frameId)
    || (i > 0 && popped[i].frame.frameId == popped[i - 1].frame.frameId + 1)
  }

  function LastPopped(s: System): nat
    requires s.popped != []
  {
    s.popped[|s.popped| - 1].frame.frameId
  }

  ghost predicate Inv(sender: Sender, s: System) {
    && Good(s.recv, sender) && J.Tracked(s.jitter)
    && Decodable(sender, s.delivered) && ReadPointer(sender, s)
    && BufferHoldsTheGap(s) && ClientKnows(sender, s) && DecoderSide(sender, s)
  }

  lemma StartInv(sender: Sender)
    ensures Inv(sender, Start())
  {
    J.NoneOccupied(J.Empty().info, J.CAPACITY);
  }

  // ---------------------------------------------------------------- network steps

  /** Only the first keyframe fragment moves the read pointer. */
  lemma VideoPointer(s: State, sender: Sender, h: VideoHeader, payload: seq<byte>, stale: seq<byte>)
    requires StateShaped(s) && GenuineVideo(sender, h, payload) && |stale| == FRAME_CAPACITY
    ensures var t := ProcessPacket(s, h, payload, stale);
      && (s.started ==> t.started && t.nextId == s.nextId)
      && (!s.started && t.started ==> Key(sender, t.nextId))
  {
  }

  /** A network step keeps the invariant if it keeps the receiver good and moves the read pointer only to start. */
  lemma ReceiverStepInv(sender: Sender, s: System, r: State)
    requires Inv(sender, s) && Good(r, sender)
    requires s.recv.started ==> r.started && r.nextId == s.recv.nextId
    requires !s.recv.started && r.started ==> Key(sender, r.nextId)
    ensures Inv(sender, s.(recv := r))
  {
    var t := s.(recv := r);
    assert s.jitter.initialized ==> s.recv.started;
    assert BufferHoldsTheGap(t);
    assert DecoderSide(sender, t);
  }

  lemma VideoInv(sender: Sender, s: System, h: VideoHeader, payload: seq<byte>, stale: seq<byte>)
    requires Inv(sender, s) && Sendable(sender) && GenuineVideo(sender, h, payload) && |stale| == FRAME_CAPACITY
    ensures Inv(sender, s.(recv := ProcessPacket(s.recv, h, payload, stale)))
  {
    ProcessPacketGood(s.recv, sender, h, payload, stale);
    VideoPointer(s.recv, sender, h, payload, stale);
    ReceiverStepInv(sender, s, ProcessPacket(s.recv, h, payload, stale));
  }

  lemma FECPointer(s: State, g: FECPacket)
    requires StateShaped(s) && ParityShaped(Some(g))
    ensures ProcessFEC(s, g).nextId == s.nextId && ProcessFEC(s, g).started == s.started
  {
  }

  lemma FECInv(sender: Sender, s: System, g: FECPacket)
    requires Inv(sender, s) && Sendable(sender) && GenuineFEC(sender, g.header, g.payload)
    ensures Inv(sender, s.(recv := ProcessFEC(s.recv, g)))
  {
    ProcessFECGood(s.recv, sender, g);
    FECPointer(s.recv, g);
    ReceiverStepInv(sender, s, ProcessFEC(s.recv, g));
  }

  // ---------------------------------------------------------------- client steps

  /** The decoder's side does not look at the receiver beyond its read pointer. */
  lemma DecoderSideFrame(sender: Sender, s: System, t: System)
    requires DecoderSide(sender, s) && t.jitter == s.jitter && t.popped == s.popped && t.lossy == s.lossy
    requires s.recv.nextId <= t.recv.nextId && (s.pc.Restart? ==> t.pc.Restart?)
    ensures DecoderSide(sender, t)
  {
  }

  /** A step that only moves the client thread keeps the invariant if the thread may know what it then knows. */
  lemma PcInv(sender: Sender, s: System, pc: Pc)
    requires Inv(sender, s) && !s.pc.Insert? && !s.pc.Restart? && !pc.Insert? && !pc.Restart?
    requires ClientKnows(sender, s.(pc := pc))
    ensures Inv(sender, s.(pc := pc))
  {
    var t := s.(pc := pc);
    assert PushedUpTo(t) == PushedUpTo(s);
    assert BufferHoldsTheGap(t) && ReadPointer(sender, t);
    DecoderSideFrame(sender, s, t);
  }

  lemma ScanKnows(sender: Sender, s: System, n: nat)
    requires Good(s.recv, sender) && LatestKeyframe(s.recv, n) != 0
    ensures s.recv.started && Key(sender, LatestKeyframe(s.recv, n))
  {
    var kf := LatestKeyframe(s.recv, n);
    assert KeyframeReady(s.recv, kf);
    assert FrameGood(s.recv.ring[Slot(kf)].value, sender, s.recv.fec);
  }

  lemma ScanInv(sender: Sender, s: System, n: nat)
    requires Inv(sender, s) && s.pc.Scan?
    ensures Inv(sender, s.(pc := Compare(LatestKeyframe(s.recv, n))))
  {
    if LatestKeyframe(s.recv, n) != 0 {
      ScanKnows(sender, s, n);
    }
    PcInv(sender, s, Compare(LatestKeyframe(s.recv, n)));
  }

  lemma CompareInv(sender: Sender, s: System)
    requires Inv(sender, s) && s.pc.Compare?
    ensures Inv(sender, s.(pc := if s.pc.kf > 0 && s.pc.kf > s.recv.nextId then Force(s.pc.kf) else Pump))
  {
    PcInv(sender, s, if s.pc.kf > 0 && s.pc.kf > s.recv.nextId then Force(s.pc.kf) else Pump);
  }

  lemma ForceInv(sender: Sender, s: System)
    requires Inv(sender, s) && s.pc.Force?
    ensures Inv(sender, s.(recv := ForceAdvance(s.recv, s.pc.kf), pc := Restart(s.pc.kf)))
  {
    ForceAdvanceGood(s.recv, sender, s.pc.kf);
  }

  lemma RestartInv(sender: Sender, s: System)
    requires Inv(sender, s) && s.pc.Restart?
    ensures Inv(sender, s.(jitter := J.Reset(s.jitter, s.pc.kf), pc := Pump))
  {
    J.ResetExact(s.jitter, s.pc.kf);
    assert Contiguous(J.Reset(s.jitter, s.pc.kf), s.pc.kf);
  }

  /** The frame at the read pointer extends the delivered sequence properly. */
  lemma TakeDecodable(sender: Sender, s: System, f: Frame)
    requires Decodable(sender, s.delivered) && ReadPointer(sender, s)
    requires s.recv.started && f.frameId == s.recv.nextId && Held(sender, f)
    ensures Decodable(sender, s.delivered + [f])
  {
    var all := s.delivered + [f];
    forall i | 0 <= i < |all|
      ensures JoinsOn(sender, all, i)
    {
      if i < |s.delivered| {
        assert JoinsOn(sender, s.delivered, i);
      }
    }
  }

  lemma ReadyIsHeld(sender: Sender, r: State)
    requires Good(r, sender) && Sendable(sender) && Ready(r).Some?
    ensures r.started && Ready(r).value.frameId == r.nextId && Held(sender, Ready(r).value)
  {
    var f := Ready(r).value;
    assert FrameGood(f, sender, r.fec);
    CompleteIsFaithful(f, sender[f.frameId]);
  }

  lemma TakeInv(sender: Sender, s: System)
    requires Inv(sender, s) && Sendable(sender) && s.pc.Pump? && Ready(s.recv).Some?
    ensures Inv(sender, Taken(s))
  {
    var f, t := Ready(s.recv).value, Taken(s);
    TakeGood(s.recv, sender);
    ReadyIsHeld(sender, s.recv);
    TakeDecodable(sender, s, f);
    assert t.delivered[|t.delivered| - 1] == f && t.recv.nextId == f.frameId + 1 && t.recv.started;
    DecoderSideFrame(sender, s, t);
    assert BufferHoldsTheGap(t);
  }

  // ---------------------------------------------------------------- the buffer under pushes and pops

  lemma FirstPush(f: Frame)
    ensures var b := J.Push(J.Empty(), f);
      && Contiguous(b, f.frameId + 1) && b.nextPop == f.frameId
      && forall j :: 0 <= j < J.CAPACITY && b.ring[j].Some? ==> b.ring[j].value == f
  {
    J.NoneOccupied(J.Empty().info, J.CAPACITY);
    J.PushExactIff(J.Empty(), f);
    assert J.Push(J.Empty(), f) == J.Insert(J.Started(J.Empty(), f), f);
  }

  lemma HeadIsOldest(b: J.Jitter, f: Frame)
    requires Contiguous(b, f.frameId) && b.count > 0 && b.ring[J.Cell(f.frameId)].None?
    ensures J.Oldest(J.Insert(b, f), J.CAPACITY) == Some(b.nextPop)
  {
    var t := J.Insert(b, f);
    forall j | 0 <= j < J.CAPACITY
      ensures J.LinkedAt(t, j)
    {
      assert J.LinkedAt(b, j);
    }
    assert J.LinkedAt(t, J.Cell(b.nextPop)) && t.info[J.Cell(b.nextPop)].occupied;
    J.OldestFacts(t, J.CAPACITY, J.Oldest(t, J.CAPACITY));
    J.OldestIsMinimal(t);
  }

  lemma NextSlotFree(b: J.Jitter, f: Frame)
    requires Contiguous(b, f.frameId)
    ensures !J.Refused(b, f) && !J.Collides(b, f) && b.ring[J.Cell(f.frameId)].None?
    ensures J.Push(b, f) == J.Shrink(J.Insert(b, f))
  {
    assert J.LinkedAt(b, J.Cell(f.frameId));
  }

  lemma PushStays(b: J.Jitter, f: Frame)
    requires Contiguous(b, f.frameId) && b.count < J.HIGH_WATER
    ensures Contiguous(J.Push(b, f), f.frameId + 1) && J.Push(b, f) == J.Insert(b, f) && J.PushReleases(b, f) == []
  {
    NextSlotFree(b, f);
    J.PushExactIff(b, f);
  }

  lemma PushDrops(b: J.Jitter, f: Frame)
    requires Contiguous(b, f.frameId) && b.count == J.HIGH_WATER
    ensures J.Push(b, f) == J.Drop(J.Insert(b, f), b.nextPop)
    ensures J.PushReleases(b, f) == [b.ring[J.Cell(b.nextPop)].value]
  {
    NextSlotFree(b, f);
    HeadIsOldest(b, f);
    var t := J.Drop(J.Insert(b, f), b.nextPop);
    assert J.Shrink(t) == t && J.Shed(t) == [];
  }

  lemma PushSheds(b: J.Jitter, f: Frame)
    requires Contiguous(b, f.frameId) && b.count == J.HIGH_WATER
    ensures J.Push(b, f) == J.Drop(J.Insert(b, f), b.nextPop)
    ensures J.PushReleases(b, f) == [b.ring[J.Cell(b.nextPop)].value]
    ensures Contiguous(J.Push(b, f), f.frameId + 1)
  {
    PushDrops(b, f);
    NextSlotFree(b, f);
    J.PushExactIff(b, f);
    ShedContiguous(b, f, J.Push(b, f));
  }

  lemma ShedContiguous(b: J.Jitter, f: Frame, t: J.Jitter)
    requires Contiguous(b, f.frameId) && b.count == J.HIGH_WATER
    requires t == J.Drop(J.Insert(b, f), b.nextPop) && J.Exact(t)
    ensures Contiguous(t, f.frameId + 1)
  {
    assert t.nextPop == b.nextPop + 1;
    forall id | t.nextPop <= id < f.frameId
      ensures t.ring[J.Cell(id)] == b.ring[J.Cell(id)]
    {
    }
  }

  /** A consecutive push: room is made, only when 28 frames are held, by dropping the one at the head. */
  lemma PushContiguous(b: J.Jitter, f: Frame)
    requires Contiguous(b, f.frameId)
    ensures var t := J.Push(b, f);
      && Contiguous(t, f.frameId + 1)
      && t.nextPop == b.nextPop + (if b.count == J.HIGH_WATER then 1 else 0)
      && J.PushReleases(b, f) == (if b.count == J.HIGH_WATER then [b.ring[J.Cell(b.nextPop)].value] else [])
      && forall j :: 0 <= j < J.CAPACITY && t.ring[j].Some? ==> t.ring[j] == b.ring[j] || t.ring[j].value == f
  {
    if b.count == J.HIGH_WATER {
      PushSheds(b, f);
    } else {
      PushStays(b, f);
    }
  }

  lemma PopContiguous(b: J.Jitter, hi: nat, sync: nat, early: bool, maxFrames: nat)
    requires Contiguous(b, hi)
    ensures var (t, frame) := J.Pop(b, sync, early, maxFrames);
      && Contiguous(t, hi)
      && (frame.None? ==> t == b)
      && (frame.Some? ==> b.nextPop < hi && t.nextPop == b.nextPop + 1 && frame == b.ring[J.Cell(b.nextPop)])
      && forall j :: 0 <= j < J.CAPACITY && t.ring[j].Some? ==> t.ring[j] == b.ring[j]
  {
    J.PopDrift(b, sync, early, maxFrames);
    assert J.LinkedAt(b, J.Cell(b.nextPop));
  }

  /** What a push does to the buffer, as the pipeline needs it. */
  lemma PushedJitter(s: System)
    requires WellFormed(s) && s.pc.Insert? && BufferHoldsTheGap(s)
    ensures var b, t := s.jitter, J.Push(s.jitter, s.pc.frame);
      && J.Tracked(t) && Contiguous(t, s.pc.frame.frameId + 1)
      && (forall j :: 0 <= j < J.CAPACITY && t.ring[j].Some? ==>
            t.ring[j].value == s.pc.frame || (b.initialized && t.ring[j] == b.ring[j]))
      && (b.initialized ==> t.nextPop == b.nextPop + (if b.count == J.HIGH_WATER then 1 else 0))
      && (b.initialized && b.count == J.HIGH_WATER ==> |J.PushReleases(b, s.pc.frame)| > 0)
      && (!b.initialized ==> t.nextPop == s.pc.frame.frameId)
  {
    J.PushDrift(s.jitter, s.pc.frame);
    if s.jitter.initialized {
      PushContiguous(s.jitter, s.pc.frame);
    } else {
      FirstPush(s.pc.frame);
    }
  }

  lemma InsertGap(sender: Sender, s: System)
    requires WellFormed(s) && s.pc.Insert? && BufferHoldsTheGap(s) && ClientKnows(sender, s)
    ensures BufferHoldsTheGap(Pushed(s, s.pc.frame))
  {
    PushedJitter(s);
  }

  lemma InsertDecoder(sender: Sender, s: System)
    requires WellFormed(s) && s.pc.Insert? && BufferHoldsTheGap(s) && ClientKnows(sender, s) && DecoderSide(sender, s)
    requires Held(sender, s.pc.frame)
    requires !s.jitter.initialized ==> Key(sender, s.pc.frame.frameId)
    ensures DecoderSide(sender, Pushed(s, s.pc.frame))
  {
    PushedJitter(s);
  }

  /** Before the first push everything delivered is the frame in hand, which is a keyframe. */
  lemma FirstIsKey(sender: Sender, s: System)
    requires Decodable(sender, s.delivered) && BufferHoldsTheGap(s) && ClientKnows(sender, s) && s.pc.Insert?
    ensures Held(sender, s.pc.frame) && (!s.jitter.initialized ==> Key(sender, s.pc.frame.frameId))
  {
    var last := |s.delivered| - 1;
    assert JoinsOn(sender, s.delivered, last) && s.delivered[last].frameId in sender;
  }

  lemma InsertInv(sender: Sender, s: System)
    requires Inv(sender, s) && s.pc.Insert?
    ensures Inv(sender, Pushed(s, s.pc.frame))
  {
    FirstIsKey(sender, s);
    J.PushDrift(s.jitter, s.pc.frame);
    InsertGap(sender, s);
    InsertDecoder(sender, s);
  }

  lemma DrainInv(sender: Sender, s: System, sync: nat, early: bool, maxFrames: nat)
    requires Inv(sender, s) && s.pc.Drain? && J.Pop(s.jitter, sync, early, maxFrames).1.Some?
    ensures var (jitter, frame) := J.Pop(s.jitter, sync, early, maxFrames);
      Inv(sender, Drained(s, jitter, frame.value))
  {
    var (jitter, frame) := J.Pop(s.jitter, sync, early, maxFrames);
    var t := Drained(s, jitter, frame.value);
    J.PopDrift(s.jitter, sync, early, maxFrames);
    PopContiguous(s.jitter, s.recv.nextId, sync, early, maxFrames);
    assert BufferHoldsTheGap(t) && ClientKnows(sender, t);
    DrainDecoder(sender, s, t, frame.value);
  }

  /** The popped frame continues the decoder's stream. */
  lemma DrainDecoder(sender: Sender, s: System, t: System, f: Frame)
    requires DecoderSide(sender, s) && s.jitter.initialized && !s.pc.Restart? && J.Sized(t.jitter)
    requires f.frameId == s.jitter.nextPop < s.recv.nextId && Held(sender, f)
    requires t == Drained(s, t.jitter, f) && t.jitter.nextPop == f.frameId + 1
    requires forall j :: 0 <= j < J.CAPACITY && t.jitter.ring[j].Some? ==> t.jitter.ring[j] == s.jitter.ring[j]
    ensures DecoderSide(sender, t)
  {
    forall i | 0 <= i < |t.popped|
      ensures Continues(sender, t.popped, i)
    {
      assert i < |s.popped| ==> Continues(sender, s.popped, i);
    }
  }

  lemma ClientInv(sender: Sender, s: System, sync: nat, early: bool, maxFrames: nat)
    requires Inv(sender, s) && Sendable(sender)
    ensures Inv(sender, ClientStep(s, sync, early, maxFrames))
  {
    match s.pc
    case Scan => ScanInv(sender, s, FRAME_RING);
    case Compare(_) => CompareInv(sender, s);
    case Force(_) => ForceInv(sender, s);
    case Restart(_) => RestartInv(sender, s);
    case Pump =>
      if Ready(s.recv).Some? {
        TakeInv(sender, s);
      } else {
        PcInv(sender, s, Drain);
      }
    case Insert(_) => InsertInv(sender, s);
    case Drain =>
      if J.Pop(s.jitter, sync, early, maxFrames).1.Some? {
        DrainInv(sender, s, sync, early, maxFrames);
      } else {
        PcInv(sender, s, Scan);
      }
  }

  /** Every step of either thread keeps the invariant. */
  lemma NextInv(sender: Sender, s: System, e: Event, t: System)
    requires Inv(sender, s) && Sendable(sender) && Next(sender, s, e, t)
    ensures Inv(sender, t)
  {
    match e
    case Video(h, payload, stale) => VideoInv(sender, s, h, payload, stale);
    case FEC(g) => FECInv(sender, s, g);
    case Client(sync, early, maxFrames) => ClientInv(sender, s, sync, early, maxFrames);
  }

  /** The invariant holds in every state of every execution. */
  lemma {:induction false} ExecutionInv(sender: Sender, states: seq<System>, events: seq<Event>, i: nat)
    requires Sendable(sender) && Execution(sender, states, events) && i < |states|
    ensures Inv(sender, states[i])
  {
    if i == 0 {
      StartInv(sender);
    } else {
      ExecutionInv(sender, states, events, i - 1);
      NextInv(sender, states[i - 1], events[i - 1], states[i]);
    }
  }

  // ---------------------------------------------------------------- main results

  /** In every execution: what the receiver delivers is the sender's frames, in increasing order, starting
      with a keyframe and skipping only to keyframes. */
  lemma DeliveryIsDecodable(sender: Sender, states: seq<System>, events: seq<Event>, i: nat)
    requires Sendable(sender) && Execution(sender, states, events) && i < |states|
    ensures Decodable(sender, states[i].delivered)
  {
    ExecutionInv(sender, states, events, i);
  }

  /** In every execution, unless the client is between advancing and resetting: once initialised, the jitter
      buffer holds exactly the consecutive ids from its read pointer to the receiver's (or to the frame in
      hand), so it has no hole at its head, and never more than 28 frames. */
  lemma BufferIsContiguous(sender: Sender, states: seq<System>, events: seq<Event>, i: nat)
    requires Sendable(sender) && Execution(sender, states, events) && i < |states|
    requires states[i].jitter.initialized && !states[i].pc.Restart?
    ensures Contiguous(states[i].jitter, PushedUpTo(states[i])) && states[i].jitter.count <= 28
    ensures states[i].pc.Insert? ==>
      !J.Refused(states[i].jitter, states[i].pc.frame) && !J.Collides(states[i].jitter, states[i].pc.frame)
  {
    ExecutionInv(sender, states, events, i);
    if states[i].pc.Insert? {
      NextSlotFree(states[i].jitter, states[i].pc.frame);
    }
  }

  /** In every execution: the decoder gets the sender's frames in increasing order, and each continues the
      previous one or is a keyframe, unless the jitter buffer overflowed in between. */
  lemma DecoderStream(sender: Sender, states: seq<System>, events: seq<Event>, i: nat, k: nat)
    requires Sendable(sender) && Execution(sender, states, events) && i < |states| && k < |states[i].popped|
    ensures Held(sender, states[i].popped[k].frame) && Continues(sender, states[i].popped, k)
    ensures k > 0 ==> states[i].popped[k - 1].frame.frameId < states[i].popped[k].frame.frameId
  {
    ExecutionInv(sender, states, events, i);
  }

  /** The head of the buffer, when there is one: the next id, with the capture time that the sender gave it. */
  lemma HeadIsNext(sender: Sender, s: System)
    requires Inv(sender, s) && s.pc.Drain? && s.jitter.count > 0
    ensures var b := s.jitter;
      && b.ring[J.Cell(b.nextPop)].Some? && b.ring[J.Cell(b.nextPop)].value.frameId == b.nextPop && b.nextPop in sender
      && b.ring[J.Cell(b.nextPop)].value.stamps == sender[b.nextPop].stamps
  {
    assert s.jitter.initialized && Contiguous(s.jitter, s.recv.nextId);
  }

  /** When a pop waits: with a sync time, while the sender captured the next frame more than 5000 microseconds after it;
      without one, while it is early and fewer than `maxFrames` frames are held. */
  ghost predicate Waits(sender: Sender, b: J.Jitter, sync: nat, early: bool, maxFrames: nat)
    requires b.nextPop in sender
  {
    if sync > 0 then sender[b.nextPop].stamps.capture > sync + 5000 else early && b.count < maxFrames
  }

  /** In every execution: what a pop does. It gives the decoder the next frame if and only if one is held and the pop
      does not wait. */
  lemma PopsExactly(sender: Sender, states: seq<System>, events: seq<Event>, i: nat)
    requires Sendable(sender) && Execution(sender, states, events) && i < |events|
    requires events[i].Client? && states[i].pc.Drain?
    ensures var b, e := states[i].jitter, events[i];
      && (b.count > 0 ==> b.nextPop in sender)
      && if b.count > 0 && !Waits(sender, b, e.sync, e.early, e.maxFrames) then
           && |states[i + 1].popped| == |states[i].popped| + 1
           && states[i + 1].popped[..|states[i].popped|] == states[i].popped
           && states[i + 1].popped[|states[i].popped|].frame.frameId == b.nextPop
           && states[i + 1].jitter.nextPop == b.nextPop + 1
         else
           states[i + 1].popped == states[i].popped && states[i + 1].jitter == b
  {
    ExecutionInv(sender, states, events, i);
    var s := states[i];
    if s.jitter.count > 0 {
      HeadIsNext(sender, s);
    }
    assert J.LinkedAt(s.jitter, J.Cell(s.jitter.nextPop));
    if s.jitter.count == 0 {
      assert s.jitter.initialized ==> Contiguous(s.jitter, s.recv.nextId);
    }
    assert Next(sender, s, events[i], states[i + 1]);
  }

  /** In every execution no recoverable loss is left pending, and the receiver's bookkeeping is right. */
  lemma ReceiverIsGood(sender: Sender, states: seq<System>, events: seq<Event>, i: nat)
    requires Sendable(sender) && Execution(sender, states, events) && i < |states|
    ensures Good(states[i].recv, sender)
  {
    ExecutionInv(sender, states, events, i);
  }

  /** The flag in DecoderStream is needed: when a push overflows the buffer, the decoder's next frame skips
      the dropped one, and is not a keyframe unless the following frame happens to be one. */
  lemma OverflowSkips(sender: Sender, s: System)
    requires Inv(sender, s) && s.pc.Insert? && s.jitter.initialized && s.jitter.count == J.HIGH_WATER
    requires s.popped != [] && s.jitter.nextPop == LastPopped(s) + 1
    ensures var t := Pushed(s, s.pc.frame);
      && t.lossy && t.popped == s.popped && t.jitter.nextPop == LastPopped(s) + 2
      && t.jitter.ring[J.Cell(t.jitter.nextPop)].Some?
      && t.jitter.ring[J.Cell(t.jitter.nextPop)].value.frameId == LastPopped(s) + 2
  {
    PushContiguous(s.jitter, s.pc.frame);
  }
}
