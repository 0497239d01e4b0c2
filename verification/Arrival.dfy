/** What an arriving packet achieves: its fragment is held from then on, its parity repairs at once, and a frame all of
    whose fragments have arrived, in any order, is ready when its turn comes. */
module Arrival {
  import opened Wrappers
  import opened Bytes
  import opened Protocol
  import opened Packetizer
  import opened Reassembly
  import opened ReceiverInvariants
  import opened Fidelity
  import opened ReceiverWindow
  import opened Retransmission

  // ---------------------------------------------------------------- one packet

  /** Any first packet with the keyframe flag sets the read pointer, even one that is then dropped; before it nothing
      happens. */
  lemma FirstKeyframeStarts(s: State, h: VideoHeader, payload: seq<byte>, stale: seq<byte>)
    requires StateOk(s) && |payload| == h.dataSize && |stale| == FRAME_CAPACITY && !s.started
    ensures var t := ProcessPacket(s, h, payload, stale);
      if KeyframeFlag(h.flags) then t.started && t.nextId == h.frameId else t == s
  {
  }

  /** The frame with this id is held and has fragment `i`. */
  ghost predicate Has(s: State, id: nat, i: nat)
    requires StateShaped(s)
  {
    Lookup(s, id).Some? && i < MAX_FRAGMENTS && Lookup(s, id).value.fragmentMap[i]
  }

  /** A packet is in time: the read pointer is not past its frame, or the receiver waits for a keyframe and it is
      one. */
  ghost predicate InTime(s: State, sender: Sender, id: nat) {
    id in sender && if s.started then s.nextId <= id else sender[id].isKeyframe
  }

  lemma RecoveryKeepsBit(f: Frame, g: Option<FECPacket>, start: nat, i: nat)
    requires Shaped(f) && ParityShaped(g) && i < MAX_FRAGMENTS && f.fragmentMap[i]
    ensures |TryRecoverFrame(f, g, start).fragmentMap| == MAX_FRAGMENTS && TryRecoverFrame(f, g, start).fragmentMap[i]
  {
    TryRecoverKeeps(f, g, start);
  }

  lemma AssembleStores(sender: Sender, f: Frame, h: VideoHeader, payload: seq<byte>, g: Option<FECPacket>, t: Frame)
    requires Sendable(sender) && GenuineVideo(sender, h, payload) && ParityShaped(g)
    requires f.frameId == h.frameId && FrameTrue(f, sender[h.frameId]) && t == Assemble(f, h, payload, g)
    ensures |t.fragmentMap| == MAX_FRAGMENTS && t.fragmentMap[h.fragmentIndex] && t.frameId == h.frameId
  {
    if !f.fragmentMap[h.fragmentIndex] {
      StoreTrue(sender, f, h, payload);
      RecoveryKeepsBit(Store(f, h, payload), g, GroupStart(h.fragmentIndex), h.fragmentIndex);
    }
  }

  lemma AcceptedStores(s: State, sender: Sender, h: VideoHeader, payload: seq<byte>, stale: seq<byte>, t: State)
    requires Good(s, sender) && Good(t, sender) && Sendable(sender) && GenuineVideo(sender, h, payload)
    requires |stale| == FRAME_CAPACITY && s.started && s.nextId <= h.frameId
    requires t == ProcessPacket(s, h, payload, stale)
    ensures t.started && t.nextId == s.nextId && Has(t, h.frameId, h.fragmentIndex)
  {
    var f := if Lookup(s, h.frameId).Some? then Lookup(s, h.frameId).value else NewFrame(h, stale);
    if Lookup(s, h.frameId).None? {
      NewFrameTrue(sender, h, payload, stale);
    } else {
      assert FrameGood(f, sender, s.fec);
    }
    var g := s.fec[FECSlot(h.frameId, GroupStart(h.fragmentIndex))];
    AssembleStores(sender, f, h, payload, g, Assemble(f, h, payload, g));
  }

  /** After a genuine packet that is in time its frame is held and has its fragment, whatever the ring held before; */
  lemma FragmentArrives(s: State, sender: Sender, h: VideoHeader, payload: seq<byte>, stale: seq<byte>)
    requires Good(s, sender) && Sendable(sender) && GenuineVideo(sender, h, payload) && |stale| == FRAME_CAPACITY
    requires InTime(s, sender, h.frameId)
    ensures var t := ProcessPacket(s, h, payload, stale);
      && Good(t, sender) && t.started && t.nextId == (if s.started then s.nextId else h.frameId)
      && Has(t, h.frameId, h.fragmentIndex)
  {
    ProcessPacketGood(s, sender, h, payload, stale);
    var g := Gate(s, h);
    assert Good(g, sender) && ProcessPacket(s, h, payload, stale) == ProcessPacket(g, h, payload, stale);
    AcceptedStores(g, sender, h, payload, stale, ProcessPacket(g, h, payload, stale));
  }

  /** and after one that is not in time nothing has changed. */
  lemma LateIsDropped(s: State, sender: Sender, h: VideoHeader, payload: seq<byte>, stale: seq<byte>)
    requires StateShaped(s) && Sendable(sender) && GenuineVideo(sender, h, payload) && |stale| == FRAME_CAPACITY
    requires !InTime(s, sender, h.frameId)
    ensures ProcessPacket(s, h, payload, stale) == s
  {
  }

  /** A genuine parity packet is determined by its frame and its group. */
  lemma SameParity(sender: Sender, a: FECPacket, b: FECPacket)
    requires GenuineFEC(sender, a.header, a.payload) && GenuineFEC(sender, b.header, b.payload)
    requires a.header.frameId == b.header.frameId && a.header.fragmentStart == b.header.fragmentStart
    ensures a == b
  {
    assert a.header == b.header;
    forall k | 0 <= k < MAX_UDP_PAYLOAD
      ensures a.payload[k] == b.payload[k]
    {
      var o := sender[a.header.frameId];
      assert a.payload[k] == XorAll(Column(o.bytes, a.header.fragmentStart, a.header.fragmentCount, k));
    }
  }

  /** After a genuine parity packet that is not stale its slot holds it, whatever was there before; all other slots
      stay, and a stale one changes nothing. */
  lemma ParityIsHeld(s: State, sender: Sender, g: FECPacket)
    requires Good(s, sender) && Sendable(sender) && GenuineFEC(sender, g.header, g.payload)
    ensures var t := ProcessFEC(s, g);
      && Good(t, sender)
      && (g.header.frameId < s.nextId ==> t == s)
      && (s.nextId <= g.header.frameId ==>
            t.fec == s.fec[FECSlot(g.header.frameId, g.header.fragmentStart) := Some(g)])
  {
    ProcessFECGood(s, sender, g);
    var j := FECSlot(g.header.frameId, g.header.fragmentStart);
    if HeldFor(s.fec[j], g.header.frameId, g.header.fragmentStart) {
      SameParity(sender, s.fec[j].value, g);
    }
  }

  /** The fragments of a genuine parity packet's group. */
  ghost predicate InGroup(g: FECPacket, i: nat) {
    g.header.fragmentStart <= i < g.header.fragmentStart + g.header.fragmentCount
  }

  /** The frame with this id is held and has every fragment of the group. */
  ghost predicate HasGroup(s: State, g: FECPacket)
    requires StateShaped(s)
  {
    forall i: nat :: InGroup(g, i) ==> Has(s, g.header.frameId, i)
  }

  lemma GroupShort(sender: Sender, f: Frame, g: FECPacket, hole: nat)
    requires GenuineFEC(sender, g.header, g.payload) && FrameTrue(f, sender[g.header.frameId])
    requires InGroup(g, hole) && forall i: nat :: InGroup(g, i) && i != hole ==> i < MAX_FRAGMENTS && f.fragmentMap[i]
    ensures GroupMissing(f, g.header) == if f.fragmentMap[hole] then [] else [hole]
  {
    var lo, n := g.header.fragmentStart, Covered(f, g.header);
    assert n == g.header.fragmentCount;
    OnlyMissing(f.fragmentMap, lo, n, hole);
  }

  lemma {:induction false} OnlyMissing(bits: seq<bool>, lo: nat, n: nat, hole: nat)
    requires lo + n <= |bits| && forall i :: lo <= i < lo + n && i != hole ==> bits[i]
    ensures Missing(bits, lo, n) == if lo <= hole < lo + n && !bits[hole] then [hole] else []
  {
    if n > 0 {
      OnlyMissing(bits, lo, n - 1, hole);
    }
  }

  /** Where parity is held and all fragments of its group but one are, that one is held too unless it is 806. */
  lemma OneHoleIsFilled(s: State, sender: Sender, g: FECPacket, hole: nat)
    requires Good(s, sender) && Sendable(sender) && GenuineFEC(sender, g.header, g.payload)
    requires s.fec[FECSlot(g.header.frameId, g.header.fragmentStart)] == Some(g)
    requires InGroup(g, hole) && hole != 806
    requires forall i: nat :: InGroup(g, i) && i != hole ==> Has(s, g.header.frameId, i)
    ensures HasGroup(s, g)
  {
    var other := if hole == g.header.fragmentStart then hole + 1 else g.header.fragmentStart;
    assert InGroup(g, other) && Has(s, g.header.frameId, other);
    var j, slot := Slot(g.header.frameId), FECSlot(g.header.frameId, g.header.fragmentStart);
    var f := s.ring[j].value;
    assert FrameGood(f, sender, s.fec);
    GroupShort(sender, f, g, hole);
    EagerRecovery(s, sender, j, slot);
  }

  /** So a parity packet repairs at once: if it is not stale and all fragments of its group but one are held, after it
      all are, unless the missing one is 806. */
  lemma ParityRepairs(s: State, sender: Sender, g: FECPacket, hole: nat)
    requires Good(s, sender) && Sendable(sender) && GenuineFEC(sender, g.header, g.payload)
    requires s.nextId <= g.header.frameId && InGroup(g, hole) && hole != 806
    requires forall i: nat :: InGroup(g, i) && i != hole ==> Has(s, g.header.frameId, i)
    ensures HasGroup(ProcessFEC(s, g), g)
  {
    ParityIsHeld(s, sender, g);
    var t := ProcessFEC(s, g);
    forall i: nat | InGroup(g, i) && i != hole
      ensures Has(t, g.header.frameId, i)
    {
      ParityKeepsBit(s, g, g.header.frameId, i);
    }
    OneHoleIsFilled(t, sender, g, hole);
  }

  /** A parity packet takes nothing away. */
  lemma ParityKeepsBit(s: State, g: FECPacket, id: nat, i: nat)
    requires StateOk(s) && ParityShaped(Some(g)) && Has(s, id, i)
    ensures StateOk(ProcessFEC(s, g)) && Has(ProcessFEC(s, g), id, i)
  {
    ProcessFECOk(s, g);
    if id == g.header.frameId {
      RecoveryKeepsBit(Lookup(s, id).value, Some(g), g.header.fragmentStart, i);
    }
  }

  // ---------------------------------------------------------------- over runs

  /** A run inside the window all of whose packets are genuine. */
  ghost predicate GenuineRun(sender: Sender, states: seq<State>, calls: seq<Call>) {
    && Sendable(sender) && Run(states, calls)
    && forall k :: 0 <= k < |calls| ==> GenuineCall(sender, calls[k])
  }

  ghost predicate GenuineCall(sender: Sender, c: Call) {
    match c
    case Video(h, payload, _) => GenuineVideo(sender, h, payload)
    case Parity(g) => GenuineFEC(sender, g.header, g.payload)
    case Take => true
    case Advance(_) => true
  }

  lemma CallGood(sender: Sender, s: State, c: Call, t: State)
    requires Good(s, sender) && Sendable(sender) && GenuineCall(sender, c) && Follows(s, c, t)
    ensures Good(t, sender)
  {
    match c
    case Video(h, payload, stale) => ProcessPacketGood(s, sender, h, payload, stale);
    case Parity(g) => ProcessFECGood(s, sender, g);
    case Take => TakeGood(s, sender);
    case Advance(id) => ForceAdvanceGood(s, sender, id);
  }

  lemma InitialGood(sender: Sender)
    ensures Good(Initial(), sender)
  {
    InitialOk();
  }

  lemma {:induction false} RunGood(sender: Sender, states: seq<State>, calls: seq<Call>, n: nat)
    requires GenuineRun(sender, states, calls) && n < |states|
    ensures Good(states[n], sender)
  {
    if n == 0 {
      InitialGood(sender);
    } else {
      RunGood(sender, states, calls, n - 1);
      CallGood(sender, states[n - 1], calls[n - 1], states[n]);
    }
  }

  /** Call `k` brings fragment `i` of frame `id` in time. */
  ghost predicate Brings(sender: Sender, states: seq<State>, calls: seq<Call>, k: nat, id: nat, i: nat)
    requires k < |calls| < |states|
  {
    && calls[k].Video? && calls[k].header.frameId == id && calls[k].header.fragmentIndex == i
    && InTime(states[k], sender, id)
  }

  /** One of the first `n` calls did. */
  ghost predicate Arrived(sender: Sender, states: seq<State>, calls: seq<Call>, n: nat, id: nat, i: nat)
    requires n <= |calls| < |states|
  {
    exists k: nat :: k < n && Brings(sender, states, calls, k, id, i)
  }

  /** A fragment that has arrived in time is held until the read pointer passes its frame. */
  lemma ArrivedIsHeld(sender: Sender, states: seq<State>, calls: seq<Call>, n: nat, id: nat, i: nat)
    requires GenuineRun(sender, states, calls) && n <= |calls|
    requires Arrived(sender, states, calls, n, id, i) && states[n].nextId <= id
    ensures Good(states[n], sender) && Has(states[n], id, i)
  {
    var k: nat :| k < n && Brings(sender, states, calls, k, id, i);
    var next := k + 1;
    RunGood(sender, states, calls, n);
    RunGood(sender, states, calls, k);
    assert GenuineCall(sender, calls[k]) && Follows(states[k], calls[k], states[next]);
    FragmentArrives(states[k], sender, calls[k].header, calls[k].payload, calls[k].stale);
    StoredStays(states, calls, next, n, id);
  }

  lemma FullIsRestored(s: State, sender: Sender, id: nat)
    requires Good(s, sender) && Sendable(sender) && id in sender
    requires forall i: nat :: i < FragmentCount(|sender[id].bytes|) ==> Has(s, id, i)
    ensures Restored(s, sender, id)
  {
    assert Has(s, id, 0);
    var f := Lookup(s, id).value;
    assert FrameGood(f, sender, s.fec);
    forall i | 0 <= i < f.totalFragments
      ensures f.fragmentMap[i]
    {
      assert Has(s, id, i);
    }
    FullCount(f.fragmentMap, f.totalFragments);
    CompleteIsFaithful(f, sender[id]);
  }

  /** The parity held for the group of fragment `i` can replace it: all others of the group have arrived. */
  ghost predicate StandsIn(sender: Sender, states: seq<State>, calls: seq<Call>, n: nat, id: nat, i: nat, g: FECPacket)
    requires n <= |calls| < |states|
  {
    && i != 806 && GenuineFEC(sender, g.header, g.payload) && g.header.frameId == id && InGroup(g, i)
    && |states[n].fec| == FEC_RING && states[n].fec[FECSlot(id, g.header.fragmentStart)] == Some(g)
    && forall j: nat :: InGroup(g, j) && j != i ==> Arrived(sender, states, calls, n, id, j)
  }

  /** Fragment `i` has arrived, or parity stands in for it. */
  ghost predicate Secured(sender: Sender, states: seq<State>, calls: seq<Call>, n: nat, id: nat, i: nat)
    requires n <= |calls| < |states|
  {
    Arrived(sender, states, calls, n, id, i) || exists g :: StandsIn(sender, states, calls, n, id, i, g)
  }

  lemma SecuredIsHeld(sender: Sender, states: seq<State>, calls: seq<Call>, n: nat, id: nat, i: nat)
    requires GenuineRun(sender, states, calls) && n <= |calls| && states[n].nextId <= id
    requires Secured(sender, states, calls, n, id, i)
    ensures Good(states[n], sender) && Has(states[n], id, i)
  {
    RunGood(sender, states, calls, n);
    if Arrived(sender, states, calls, n, id, i) {
      ArrivedIsHeld(sender, states, calls, n, id, i);
    } else {
      var g :| StandsIn(sender, states, calls, n, id, i, g);
      forall j: nat | InGroup(g, j) && j != i
        ensures Has(states[n], id, j)
      {
        ArrivedIsHeld(sender, states, calls, n, id, j);
      }
      OneHoleIsFilled(states[n], sender, g, i);
    }
  }

  /** Over every run of genuine packets, deliveries and skips inside the window: once every fragment of a frame has
      arrived, in any order and with any repetition, or held parity stands in for it, the frame is held, complete and
      the sender's until the read pointer passes it, and when the pointer is at it, the next delivery hands it out. */
  lemma CompletedByArrivals(sender: Sender, states: seq<State>, calls: seq<Call>, n: nat, id: nat)
    requires GenuineRun(sender, states, calls) && n <= |calls| && id in sender && states[n].nextId <= id
    requires forall i: nat :: i < FragmentCount(|sender[id].bytes|) ==> Secured(sender, states, calls, n, id, i)
    ensures Good(states[n], sender) && Restored(states[n], sender, id)
    ensures states[n].nextId == id ==> Ready(states[n]) == Lookup(states[n], id)
  {
    RunGood(sender, states, calls, n);
    forall i: nat | i < FragmentCount(|sender[id].bytes|)
      ensures Has(states[n], id, i)
    {
      SecuredIsHeld(sender, states, calls, n, id, i);
    }
    FullIsRestored(states[n], sender, id);
  }

  /** Over every run: a parity packet that was not stale keeps its slot until a packet of another group names it. */
  lemma {:induction false} ParityStays(sender: Sender, states: seq<State>, calls: seq<Call>, k: nat, n: nat,
                                       g: FECPacket)
    requires GenuineRun(sender, states, calls) && k < n <= |calls|
    requires calls[k] == Parity(g) && states[k].nextId <= g.header.frameId
    requires forall m :: k < m < n ==> !Displaces(calls[m], g)
    ensures |states[n].fec| == FEC_RING
    ensures states[n].fec[FECSlot(g.header.frameId, g.header.fragmentStart)] == Some(g)
  {
    var p := n - 1;
    RunGood(sender, states, calls, p);
    assert GenuineCall(sender, calls[p]) && GenuineCall(sender, calls[k]) && Follows(states[p], calls[p], states[n]);
    if p == k {
      ParityIsHeld(states[p], sender, g);
    } else {
      ParityStays(sender, states, calls, k, p, g);
      SlotStays(sender, states[p], calls[p], states[n], g);
    }
  }

  /** A parity packet of another group with the same slot. */
  ghost predicate Displaces(c: Call, g: FECPacket) {
    && c.Parity? && FECSlot(c.packet.header.frameId, c.packet.header.fragmentStart)
                    == FECSlot(g.header.frameId, g.header.fragmentStart)
    && !(c.packet.header.frameId == g.header.frameId && c.packet.header.fragmentStart == g.header.fragmentStart)
  }

  lemma SlotStays(sender: Sender, s: State, c: Call, t: State, g: FECPacket)
    requires Good(s, sender) && Sendable(sender) && GenuineCall(sender, c) && Follows(s, c, t) && !Displaces(c, g)
    requires GenuineFEC(sender, g.header, g.payload)
    requires s.fec[FECSlot(g.header.frameId, g.header.fragmentStart)] == Some(g)
    ensures |t.fec| == FEC_RING && t.fec[FECSlot(g.header.frameId, g.header.fragmentStart)] == Some(g)
  {
    if c.Parity? {
      ParityIsHeld(s, sender, c.packet);
      if c.packet.header.frameId == g.header.frameId && c.packet.header.fragmentStart == g.header.fragmentStart {
        SameParity(sender, c.packet, g);
      }
    }
  }
}
