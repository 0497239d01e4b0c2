/** What stays in the receiver's ring: exactly which packets evict a frame, and that over any run whose ids stay within
    64 of the read pointer nothing that was stored is lost before its frame is delivered or skipped. */
module ReceiverWindow {
  import opened Wrappers
  import opened Bytes
  import opened Protocol
  import opened Packetizer
  import opened Reassembly
  import opened ReceiverInvariants

  // ---------------------------------------------------------------- one frame keeps what it has

  /** Every fragment of `f` is also in `t`, with the same bytes. */
  ghost predicate KeepsFragments(f: Frame, t: Frame) {
    && Shaped(f) && Shaped(t)
    && t.frameId == f.frameId && t.totalFragments == f.totalFragments
    && (f.isComplete ==> t.isComplete)
    && forall i :: 0 <= i < MAX_FRAGMENTS && f.fragmentMap[i] ==>
         t.fragmentMap[i] && t.fragmentSizes[i] == f.fragmentSizes[i]
         && forall k :: 0 <= k < MAX_UDP_PAYLOAD ==> HeldByte(t, i, k) == HeldByte(f, i, k)
  }

  lemma KeepsSelf(f: Frame)
    requires Shaped(f)
    ensures KeepsFragments(f, f)
  {
  }

  lemma KeepsTransitive(f: Frame, t: Frame, u: Frame)
    requires KeepsFragments(f, t) && KeepsFragments(t, u)
    ensures KeepsFragments(f, u)
  {
  }

  /** A change confined to the region and the entries of a fragment that was missing keeps all others. */
  lemma RegionKeeps(f: Frame, t: Frame, i: nat)
    requires Shaped(f) && Shaped(t) && i < MAX_FRAGMENTS && !f.fragmentMap[i]
    requires t.frameId == f.frameId && t.totalFragments == f.totalFragments && !f.isComplete
    requires forall j :: 0 <= j < MAX_FRAGMENTS && j != i ==>
      t.fragmentMap[j] == f.fragmentMap[j] && t.fragmentSizes[j] == f.fragmentSizes[j]
    requires forall b :: 0 <= b < FRAME_CAPACITY && !(i * MAX_UDP_PAYLOAD <= b < (i + 1) * MAX_UDP_PAYLOAD) ==>
      t.buffer[b] == f.buffer[b]
    ensures KeepsFragments(f, t)
  {
  }

  lemma StoreKeeps(f: Frame, h: VideoHeader, payload: seq<byte>)
    requires Counted(f) && |payload| == h.dataSize <= MAX_UDP_PAYLOAD
    requires h.fragmentIndex < f.totalFragments && !f.fragmentMap[h.fragmentIndex]
    ensures Shaped(Store(f, h, payload)) && KeepsFragments(f, Store(f, h, payload))
  {
    FullCount(f.fragmentMap, f.totalFragments);
    StoreShaped(f, h, payload);
    RegionKeeps(f, Store(f, h, payload), h.fragmentIndex);
  }

  lemma TryRecoverKeeps(f: Frame, g: Option<FECPacket>, start: nat)
    requires Shaped(f) && ParityShaped(g)
    ensures KeepsFragments(f, TryRecoverFrame(f, g, start))
  {
    if !f.isComplete && HeldFor(g, f.frameId, start) && Recoverable(f, g.value) {
      RecoverShaped(f, g.value);
      var hole := GroupMissing(f, g.value.header)[0];
      GroupMissingElements(f, g.value.header, [hole]);
      RegionKeeps(f, Recover(f, g.value), hole);
    }
  }

  lemma AssembleKeeps(f: Frame, h: VideoHeader, payload: seq<byte>, g: Option<FECPacket>)
    requires Counted(f) && ParityShaped(g) && |payload| == h.dataSize <= MAX_UDP_PAYLOAD
    ensures KeepsFragments(f, Assemble(f, h, payload, g))
  {
    if h.fragmentIndex < f.totalFragments && !f.fragmentMap[h.fragmentIndex] {
      StoreKeeps(f, h, payload);
      var st := Store(f, h, payload);
      TryRecoverKeeps(st, g, GroupStart(h.fragmentIndex));
      KeepsTransitive(f, st, TryRecoverFrame(st, g, GroupStart(h.fragmentIndex)));
    }
  }

  // ---------------------------------------------------------------- eviction

  /** A packet past the guards installs its assembled frame in its slot. */
  lemma AcceptedInstalls(s: State, h: VideoHeader, payload: seq<byte>, stale: seq<byte>) returns (f: Frame, t: Frame)
    requires StateOk(s) && s.started && !Ignored(s, h) && |payload| == h.dataSize && |stale| == FRAME_CAPACITY
    ensures Counted(f) && FrameOk(t) && t.frameId == h.frameId && KeepsFragments(f, t)
    ensures Lookup(s, h.frameId).Some? ==> f == Lookup(s, h.frameId).value
    ensures ProcessPacket(s, h, payload, stale) == WithFrame(s, t)
  {
    f := if Lookup(s, h.frameId).Some? then Lookup(s, h.frameId).value else NewFrame(h, stale);
    if Lookup(s, h.frameId).None? {
      NewFrameCounted(h, stale);
    }
    var g := s.fec[FECSlot(h.frameId, GroupStart(h.fragmentIndex))];
    AssembleOk(f, h, payload, g);
    AssembleKeeps(f, h, payload, g);
    t := Assemble(f, h, payload, g);
  }

  /** A packet takes the slot of frame `id` for another frame. */
  predicate Evicts(s: State, h: VideoHeader, id: nat) {
    !Ignored(s, h) && h.frameId != id && Slot(h.frameId) == Slot(id)
  }

  /** A frame is evicted if and only if an accepted packet of another frame has its slot; otherwise it stays, with
      everything it has. */
  lemma EvictedExactly(s: State, h: VideoHeader, payload: seq<byte>, stale: seq<byte>, id: nat)
    requires StateOk(s) && |payload| == h.dataSize && |stale| == FRAME_CAPACITY && Lookup(s, id).Some?
    ensures StateOk(ProcessPacket(s, h, payload, stale))
    ensures Lookup(ProcessPacket(s, h, payload, stale), id).None? <==> Evicts(s, h, id)
    ensures !Evicts(s, h, id) ==>
      KeepsFragments(Lookup(s, id).value, Lookup(ProcessPacket(s, h, payload, stale), id).value)
  {
    ProcessPacketOk(s, h, payload, stale);
    KeepsSelf(Lookup(s, id).value);
    if !Ignored(s, h) {
      var f, t := AcceptedInstalls(s, h, payload, stale);
    }
  }

  lemma SameSlot(id: nat, k: nat)
    ensures Slot(id) == Slot(id + k) <==> k % FRAME_RING == 0
  {
  }

  /** Ids of one window have different slots. */
  lemma WindowSlots(id: nat, k: nat, base: nat)
    requires base <= id < base + FRAME_RING && base <= k < base + FRAME_RING
    ensures Slot(id) == Slot(k) <==> id == k
  {
    if id < k {
      SameSlot(id, k - id);
    } else {
      SameSlot(k, id - k);
    }
  }

  /** While the packet and the frame are both within 64 of the read pointer, no packet (genuine or not) evicts the
      frame or forgets a fragment of it. */
  lemma NoLossInWindow(s: State, h: VideoHeader, payload: seq<byte>, stale: seq<byte>, id: nat)
    requires StateOk(s) && |payload| == h.dataSize && |stale| == FRAME_CAPACITY && Lookup(s, id).Some?
    requires id < s.nextId + 64 && h.frameId < s.nextId + 64
    ensures StateOk(ProcessPacket(s, h, payload, stale)) && Lookup(ProcessPacket(s, h, payload, stale), id).Some?
    ensures KeepsFragments(Lookup(s, id).value, Lookup(ProcessPacket(s, h, payload, stale), id).value)
  {
    if !Ignored(s, h) {
      WindowSlots(h.frameId, id, s.nextId);
    }
    EvictedExactly(s, h, payload, stale, id);
  }

  /** Beyond that the ring does evict: an accepted packet any multiple of 64 ids further takes the slot. */
  lemma LossOutsideWindow(s: State, h: VideoHeader, payload: seq<byte>, stale: seq<byte>, id: nat, k: nat)
    requires StateOk(s) && |payload| == h.dataSize && |stale| == FRAME_CAPACITY && Lookup(s, id).Some?
    requires !Ignored(s, h) && k > 0 && h.frameId == id + k
    ensures StateOk(ProcessPacket(s, h, payload, stale))
    ensures Lookup(ProcessPacket(s, h, payload, stale), id).None? <==> k % 64 == 0
  {
    EvictedExactly(s, h, payload, stale, id);
    SameSlot(id, k);
  }

  /** There are such packets: the first fragment of a keyframe, then one of the frame 64 ids later. */
  lemma EvictionHappens(id: nat, h: VideoHeader, payload: seq<byte>, stale: seq<byte>)
      returns (s: State, later: VideoHeader)
    requires h.frameId == id && KeyframeFlag(h.flags) && h.totalFragments <= MAX_FRAGMENTS
    requires |payload| == h.dataSize <= MAX_UDP_PAYLOAD && |stale| == FRAME_CAPACITY
    ensures StateOk(s) && s == ProcessPacket(Initial(), h, payload, stale)
    ensures Lookup(s, id).Some? && later == h.(frameId := id + FRAME_RING)
    ensures StateOk(ProcessPacket(s, later, payload, stale))
    ensures Lookup(ProcessPacket(s, later, payload, stale), id).None?
  {
    s, later := ProcessPacket(Initial(), h, payload, stale), h.(frameId := id + FRAME_RING);
    InitialOk();
    ProcessPacketOk(Initial(), h, payload, stale);
    assert StateOk(Gate(Initial(), h));
    var f, t := AcceptedInstalls(Gate(Initial(), h), h, payload, stale);
    LossOutsideWindow(s, later, payload, stale, id, FRAME_RING);
  }

  // ---------------------------------------------------------------- runs

  /** The operations that change the rings or the read pointer. */
  datatype Call =
    | Video(header: VideoHeader, payload: seq<byte>, stale: seq<byte>)
    | Parity(packet: FECPacket)
    | Take
    | Advance(id: nat)

  /** Packets are arbitrary. The first one accepted sets the read pointer; a later one is less than 64 ahead of it. */
  ghost predicate Allowed(s: State, c: Call) {
    match c
    case Video(h, payload, stale) =>
      && |payload| == h.dataSize && |stale| == FRAME_CAPACITY
      && (s.started ==> h.frameId < s.nextId + FRAME_RING)
    case Parity(g) => ParityShaped(Some(g))
    case Take => true
    case Advance(_) => true
  }

  function Called(s: State, c: Call): State
    requires StateShaped(s) && Allowed(s, c)
  {
    match c
    case Video(h, payload, stale) => ProcessPacket(s, h, payload, stale)
    case Parity(g) => ProcessFEC(s, g)
    case Take => AfterTake(s)
    case Advance(id) => ForceAdvance(s, id)
  }

  ghost predicate Run(states: seq<State>, calls: seq<Call>) {
    && |states| == |calls| + 1 && states[0] == Initial()
    && forall i :: 0 <= i < |calls| ==> Follows(states[i], calls[i], states[i + 1])
  }

  ghost predicate Follows(s: State, c: Call, t: State) {
    StateShaped(s) && Allowed(s, c) && t == Called(s, c)
  }

  /** Every frame in the ring is less than a ring's length ahead of the read pointer. */
  ghost predicate InWindow(s: State) {
    && StateOk(s)
    && forall j :: 0 <= j < FRAME_RING && s.ring[j].Some? ==> s.ring[j].value.frameId < s.nextId + FRAME_RING
  }

  /** What a call does to the frames that are not behind the read pointer afterwards. */
  ghost predicate Retains(s: State, t: State, id: nat) {
    && StateShaped(s) && StateShaped(t)
    && (s.started ==> t.started && s.nextId <= t.nextId)
    && (Lookup(s, id).Some? && t.nextId <= id ==>
          Lookup(t, id).Some? && KeepsFragments(Lookup(s, id).value, Lookup(t, id).value))
  }

  lemma RetainsTransitive(s: State, t: State, u: State, id: nat)
    requires StateOk(s) && Retains(s, t, id) && Retains(t, u, id)
    ensures Retains(s, u, id)
  {
    if Lookup(s, id).Some? && u.nextId <= id {
      KeepsTransitive(Lookup(s, id).value, Lookup(t, id).value, Lookup(u, id).value);
    }
  }

  lemma VideoRetains(s: State, h: VideoHeader, payload: seq<byte>, stale: seq<byte>, id: nat)
    requires InWindow(s) && Allowed(s, Video(h, payload, stale))
    ensures InWindow(ProcessPacket(s, h, payload, stale)) && Retains(s, ProcessPacket(s, h, payload, stale), id)
  {
    ProcessPacketOk(s, h, payload, stale);
    if Lookup(s, id).Some? {
      NoLossInWindow(s, h, payload, stale, id);
    }
    if !Ignored(s, h) {
      var g := Gate(s, h);
      assert InWindow(g);
      var f, t := AcceptedInstalls(g, h, payload, stale);
      assert ProcessPacket(s, h, payload, stale) == WithFrame(g, t);
    }
  }

  lemma ParityRetains(s: State, g: FECPacket, id: nat)
    requires InWindow(s) && ParityShaped(Some(g))
    ensures InWindow(ProcessFEC(s, g)) && Retains(s, ProcessFEC(s, g), id)
  {
    ProcessFECOk(s, g);
    var f := Lookup(s, g.header.frameId);
    if f.Some? {
      TryRecoverShaped(f.value, Some(g), g.header.fragmentStart);
      TryRecoverKeeps(f.value, Some(g), g.header.fragmentStart);
    }
    if Lookup(s, id).Some? {
      KeepsSelf(Lookup(s, id).value);
    }
  }

  lemma PointerRetains(s: State, id: nat, target: nat)
    requires InWindow(s)
    ensures InWindow(AfterTake(s)) && Retains(s, AfterTake(s), id)
    ensures InWindow(ForceAdvance(s, target)) && Retains(s, ForceAdvance(s, target), id)
  {
    TakeOk(s);
    ForceAdvanceOk(s, target);
    if Lookup(s, id).Some? {
      KeepsSelf(Lookup(s, id).value);
    }
  }

  lemma CallRetains(s: State, c: Call, t: State, id: nat)
    requires InWindow(s) && Follows(s, c, t)
    ensures InWindow(t) && Retains(s, t, id)
  {
    match c
    case Video(h, payload, stale) => VideoRetains(s, h, payload, stale, id);
    case Parity(g) => ParityRetains(s, g, id);
    case Take => PointerRetains(s, id, 0);
    case Advance(target) => PointerRetains(s, id, target);
  }

  /** Every run with ids inside the window stays inside it. */
  lemma {:induction false} RunInWindow(states: seq<State>, calls: seq<Call>, i: nat)
    requires Run(states, calls) && i < |states|
    ensures InWindow(states[i])
  {
    if i > 0 {
      RunInWindow(states, calls, i - 1);
      CallRetains(states[i - 1], calls[i - 1], states[i], 0);
    }
  }

  /** Over every run of the four operations from the initial state, with arbitrary packets whose ids stay within 64 of
      the read pointer: a frame that is held stays held until the read pointer passes it, with every fragment it had,
      byte for byte. */
  lemma {:induction false} StoredStays(states: seq<State>, calls: seq<Call>, i: nat, j: nat, id: nat)
    requires Run(states, calls) && i <= j < |states|
    ensures InWindow(states[i]) && InWindow(states[j]) && Retains(states[i], states[j], id)
    ensures Lookup(states[i], id).Some? && states[j].nextId <= id ==>
      Lookup(states[j], id).Some? && KeepsFragments(Lookup(states[i], id).value, Lookup(states[j], id).value)
  {
    RunInWindow(states, calls, i);
    RunInWindow(states, calls, j);
    if i == j {
      if Lookup(states[i], id).Some? {
        KeepsSelf(Lookup(states[i], id).value);
      }
    } else {
      StoredStays(states, calls, i, j - 1, id);
      CallRetains(states[j - 1], calls[j - 1], states[j], id);
      RetainsTransitive(states[i], states[j - 1], states[j], id);
    }
  }
}
