/** What the client receiver does, as functions on values: one frame under assembly, and the
    receiver's rings and read pointer. The class in Receiver.dfy is proved against these. */
module Reassembly {
  import opened Wrappers
  import opened Bytes
  import opened Protocol
  import opened Packetizer

  const FRAME_RING: nat := 64
  const FEC_RING: nat := 1024
  const FEC_POOL_SIZE: nat := 512

  // ---------------------------------------------------------------- one frame

  /** The contents of a FrameData object. `byParity` records which fragments parity filled in;
      it is bookkeeping of the model only. */
  datatype Frame = Frame(
    frameId: nat, buffer: seq<byte>, totalSize: nat,
    fragmentsReceived: nat, totalFragments: nat, stamps: Stamps,
    isComplete: bool, isKeyframe: bool, isHEVC: bool,
    fragmentMap: seq<bool>, fragmentSizes: seq<nat>, byParity: set<nat>)

  /** Sizes of the containers, and every recorded fragment lies inside the buffer. */
  ghost predicate Shaped(f: Frame) {
    && |f.buffer| == FRAME_CAPACITY
    && |f.fragmentMap| == |f.fragmentSizes| == MAX_FRAGMENTS
    && f.totalFragments <= MAX_FRAGMENTS
    && forall i :: 0 <= i < MAX_FRAGMENTS ==>
         f.fragmentSizes[i] <= MAX_UDP_PAYLOAD
         && (0 < f.fragmentSizes[i] ==> i * MAX_UDP_PAYLOAD + f.fragmentSizes[i] <= FRAME_CAPACITY)
  }

  ghost predicate ParityShaped(g: Option<FECPacket>) {
    g.Some? ==> |g.value.payload| == g.value.header.dataSize <= MAX_UDP_PAYLOAD
  }

  /** How many of the first `n` bits are set. */
  function SetBits(bits: seq<bool>, n: nat): (c: nat)
    requires n <= |bits|
    ensures c <= n
  {
    if n == 0 then 0 else SetBits(bits, n - 1) + if bits[n - 1] then 1 else 0
  }

  /** The clear positions among `lo .. lo + n`, in increasing order. */
  function Missing(bits: seq<bool>, lo: nat, n: nat): (m: seq<nat>)
    requires lo + n <= |bits|
  {
    if n == 0 then []
    else Missing(bits, lo, n - 1) + if bits[lo + n - 1] then [] else [lo + n - 1]
  }

  /** The list names clear positions of the range, */
  lemma {:induction false} MissingElements(bits: seq<bool>, lo: nat, n: nat, m: seq<nat>)
    requires lo + n <= |bits| && m == Missing(bits, lo, n)
    ensures forall k :: 0 <= k < |m| ==> lo <= m[k] < lo + n && !bits[m[k]]
  {
    if n > 0 {
      MissingElements(bits, lo, n - 1, Missing(bits, lo, n - 1));
    }
  }

  /** in increasing order. */
  lemma {:induction false} MissingSorted(bits: seq<bool>, lo: nat, n: nat, m: seq<nat>)
    requires lo + n <= |bits| && m == Missing(bits, lo, n)
    ensures forall i, j :: 0 <= i < j < |m| ==> m[i] < m[j]
  {
    if n > 0 {
      MissingSorted(bits, lo, n - 1, Missing(bits, lo, n - 1));
      MissingElements(bits, lo, n - 1, Missing(bits, lo, n - 1));
    }
  }

  /** A recycled or new frame after Reset and the header copy; its buffer keeps stale bytes. */
  function NewFrame(h: VideoHeader, stale: seq<byte>): Frame {
    Frame(h.frameId, stale, 0, 0, h.totalFragments, h.stamps,
          false, KeyframeFlag(h.flags), HEVCFlag(h.flags),
          seq(MAX_FRAGMENTS, _ => false), seq(MAX_FRAGMENTS, _ => 0), {})
  }

  /** Replaces `|patch|` bytes at `offset`. */
  function Patch(buffer: seq<byte>, offset: nat, patch: seq<byte>): (r: seq<byte>)
    requires offset + |patch| <= |buffer|
    ensures |r| == |buffer|
    ensures forall k :: 0 <= k < |buffer| ==>
      r[k] == if offset <= k < offset + |patch| then patch[k - offset] else buffer[k]
  {
    buffer[..offset] + patch + buffer[offset + |patch|..]
  }

  /** A fragment that arrived directly. */
  function Store(f: Frame, h: VideoHeader, payload: seq<byte>): Frame
    requires Shaped(f) && |payload| == h.dataSize && h.fragmentIndex < f.totalFragments
  {
    var offset := h.fragmentIndex * MAX_UDP_PAYLOAD;
    if offset + h.dataSize <= FRAME_CAPACITY then
      f.(buffer := Patch(f.buffer, offset, payload),
         fragmentMap := f.fragmentMap[h.fragmentIndex := true],
         fragmentSizes := f.fragmentSizes[h.fragmentIndex := h.dataSize],
         fragmentsReceived := f.fragmentsReceived + 1,
         totalSize := if h.fragmentIndex == h.totalFragments - 1 then offset + h.dataSize else f.totalSize)
    else f
  }

  /** Byte `k` of fragment `i` as the receiver has it, zero beyond the recorded size. */
  function HeldByte(f: Frame, i: nat, k: nat): byte
    requires Shaped(f) && i < MAX_FRAGMENTS
  {
    if k < f.fragmentSizes[i] then f.buffer[i * MAX_UDP_PAYLOAD + k] else 0
  }

  /** What fragment number `i` of a group contributes to byte `k`; 16-bit index arithmetic. */
  function OtherByte(f: Frame, h: FECHeader, hole: nat, i: nat, k: nat): byte
    requires Shaped(f)
  {
    var idx := (h.fragmentStart + i) % 0x10000;
    if idx == hole || idx >= f.totalFragments then 0 else HeldByte(f, idx, k)
  }

  function OtherColumn(f: Frame, h: FECHeader, hole: nat, n: nat, k: nat): (c: seq<byte>)
    requires Shaped(f)
    ensures |c| == n
    ensures forall i :: 0 <= i < n ==> c[i] == OtherByte(f, h, hole, i, k)
  {
    if n == 0 then [] else OtherColumn(f, h, hole, n - 1, k) + [OtherByte(f, h, hole, n - 1, k)]
  }

  /** The first loop of TryRecover stops at the frame's end. */
  function Covered(f: Frame, h: FECHeader): (n: nat)
    ensures n > 0 ==> h.fragmentStart + n <= f.totalFragments
  {
    if h.fragmentStart >= f.totalFragments then 0
    else Min(h.fragmentCount, f.totalFragments - h.fragmentStart)
  }

  /** The fragments of a group that have not arrived. */
  function GroupMissing(f: Frame, h: FECHeader): seq<nat>
    requires Shaped(f)
  {
    if Covered(f, h) == 0 then [] else Missing(f.fragmentMap, h.fragmentStart, Covered(f, h))
  }

  lemma GroupMissingElements(f: Frame, h: FECHeader, m: seq<nat>)
    requires Shaped(f) && m == GroupMissing(f, h)
    ensures forall k :: 0 <= k < |m| ==>
      h.fragmentStart <= m[k] < h.fragmentStart + Covered(f, h) && !f.fragmentMap[m[k]]
  {
    if Covered(f, h) > 0 {
      MissingElements(f.fragmentMap, h.fragmentStart, Covered(f, h), m);
    }
  }

  /** Parity `g` is held for this frame and this group start. */
  predicate HeldFor(g: Option<FECPacket>, frameId: nat, start: nat) {
    g.Some? && g.value.header.frameId == frameId && g.value.header.fragmentStart == start
  }

  /** Exactly one fragment of the group is missing and the parity payload fits at its place. */
  predicate Recoverable(f: Frame, g: FECPacket)
    requires Shaped(f)
  {
    var m := GroupMissing(f, g.header);
    |m| == 1 && m[0] * MAX_UDP_PAYLOAD + g.header.dataSize <= FRAME_CAPACITY
  }

  function RecoveredPayload(f: Frame, g: FECPacket, hole: nat): (p: seq<byte>)
    requires Shaped(f)
    ensures |p| == |g.payload|
    ensures forall k :: 0 <= k < |p| ==>
      p[k] == Xor(g.payload[k], XorAll(OtherColumn(f, g.header, hole, g.header.fragmentCount, k)))
  {
    seq(|g.payload|, k requires 0 <= k < |g.payload| =>
      Xor(g.payload[k], XorAll(OtherColumn(f, g.header, hole, g.header.fragmentCount, k))))
  }

  /** The single missing fragment filled in from parity. */
  function Recover(f: Frame, g: FECPacket): Frame
    requires Shaped(f) && ParityShaped(Some(g)) && Recoverable(f, g)
  {
    var hole := GroupMissing(f, g.header)[0];
    var offset := hole * MAX_UDP_PAYLOAD;
    f.(buffer := Patch(f.buffer, offset, RecoveredPayload(f, g, hole)),
       fragmentMap := f.fragmentMap[hole := true],
       fragmentSizes := f.fragmentSizes[hole := g.header.dataSize],
       fragmentsReceived := f.fragmentsReceived + 1,
       totalSize := if hole == f.totalFragments - 1 then offset + g.header.dataSize else f.totalSize,
       isComplete := f.fragmentsReceived + 1 == f.totalFragments,
       byParity := f.byParity + {hole})
  }

  lemma RecoverShaped(f: Frame, g: FECPacket)
    requires Shaped(f) && ParityShaped(Some(g)) && Recoverable(f, g)
    ensures Shaped(Recover(f, g))
  {
  }

  function TryRecoverFrame(f: Frame, g: Option<FECPacket>, start: nat): Frame
    requires Shaped(f) && ParityShaped(g)
  {
    if f.isComplete || !HeldFor(g, f.frameId, start) || !Recoverable(f, g.value) then f
    else Recover(f, g.value)
  }

  lemma TryRecoverShaped(f: Frame, g: Option<FECPacket>, start: nat)
    requires Shaped(f) && ParityShaped(g)
    ensures Shaped(TryRecoverFrame(f, g, start)) && TryRecoverFrame(f, g, start).frameId == f.frameId
  {
    if !f.isComplete && HeldFor(g, f.frameId, start) && Recoverable(f, g.value) {
      RecoverShaped(f, g.value);
    }
  }

  // ---------------------------------------------------------------- the receiver

  /** Rings and read pointer of the receiver. */
  datatype State = State(
    ring: seq<Option<Frame>>, fec: seq<Option<FECPacket>>, nextId: nat, started: bool)

  function Slot(id: nat): (j: nat)
    ensures j < FRAME_RING
  {
    id % FRAME_RING
  }

  /** The 32-bit product and sum of the code agree with this index because 1024 divides 2^32. */
  function FECSlot(id: nat, start: nat): (j: nat)
    ensures j < FEC_RING
  {
    (id * 13 + start / 5) % FEC_RING
  }

  function GroupStart(index: nat): nat {
    index / FEC_GROUP_SIZE * FEC_GROUP_SIZE
  }

  ghost predicate StateShaped(s: State) {
    && |s.ring| == FRAME_RING && |s.fec| == FEC_RING
    && (forall j :: 0 <= j < FRAME_RING && s.ring[j].Some? ==>
          Shaped(s.ring[j].value) && Slot(s.ring[j].value.frameId) == j)
    && (forall j :: 0 <= j < FEC_RING ==> ParityShaped(s.fec[j]))
  }

  function Initial(): State {
    State(seq(FRAME_RING, _ => None), seq(FEC_RING, _ => None), 0, false)
  }

  /** The frame with this id, if the ring holds it. */
  function Lookup(s: State, id: nat): Option<Frame>
    requires StateShaped(s)
  {
    var e := s.ring[Slot(id)];
    if e.Some? && e.value.frameId == id then e else None
  }

  function WithFrame(s: State, f: Frame): State
    requires StateShaped(s)
  {
    s.(ring := s.ring[Slot(f.frameId) := Some(f)])
  }

  /** Writing the same frame's slot twice keeps the last value. */
  lemma WithFrameTwice(s: State, f: Frame, g: Frame)
    requires StateShaped(s) && Shaped(f) && g.frameId == f.frameId
    ensures StateShaped(WithFrame(s, f)) && Lookup(WithFrame(s, f), f.frameId) == Some(f)
    ensures WithFrame(WithFrame(s, f), g) == WithFrame(s, g)
  {
  }

  /** Reassembly starts at the first keyframe fragment. */
  function Gate(s: State, h: VideoHeader): State {
    if s.started then s else s.(nextId := h.frameId, started := true)
  }

  /** A packet the receiver drops without touching the ring. */
  predicate Ignored(s: State, h: VideoHeader) {
    || (!s.started && !KeyframeFlag(h.flags))
    || h.frameId < Gate(s, h).nextId
    || h.totalFragments > MAX_FRAGMENTS || h.dataSize > MAX_UDP_PAYLOAD
  }

  /** The frame under assembly after one fragment: stored unless already there, parity tried, completion marked. */
  function Assemble(f: Frame, h: VideoHeader, payload: seq<byte>, g: Option<FECPacket>): Frame
    requires Shaped(f) && ParityShaped(g) && |payload| == h.dataSize <= MAX_UDP_PAYLOAD
  {
    if h.fragmentIndex < f.totalFragments && !f.fragmentMap[h.fragmentIndex] then
      StoreShaped(f, h, payload);
      Marked(TryRecoverFrame(Store(f, h, payload), g, GroupStart(h.fragmentIndex)))
    else Marked(f)
  }

  lemma AssembleSameFrame(f: Frame, h: VideoHeader, payload: seq<byte>, g: Option<FECPacket>)
    requires Shaped(f) && ParityShaped(g) && |payload| == h.dataSize <= MAX_UDP_PAYLOAD
    ensures Assemble(f, h, payload, g).frameId == f.frameId
  {
  }

  function Marked(f: Frame): Frame {
    if f.fragmentsReceived == f.totalFragments then f.(isComplete := true) else f
  }

  lemma StoreShaped(f: Frame, h: VideoHeader, payload: seq<byte>)
    requires Shaped(f) && |payload| == h.dataSize <= MAX_UDP_PAYLOAD && h.fragmentIndex < f.totalFragments
    ensures Shaped(Store(f, h, payload))
  {
  }

  /** ProcessPacket. `stale` is the buffer of the pooled frame it takes when the slot holds another id. */
  function ProcessPacket(s: State, h: VideoHeader, payload: seq<byte>, stale: seq<byte>): State
    requires StateShaped(s) && |payload| == h.dataSize && |stale| == FRAME_CAPACITY
  {
    if !s.started && !KeyframeFlag(h.flags) then s
    else if Ignored(s, h) then Gate(s, h)
    else
      var g := Gate(s, h);
      var f := if Lookup(g, h.frameId).Some? then Lookup(g, h.frameId).value else NewFrame(h, stale);
      WithFrame(g, Assemble(f, h, payload, s.fec[FECSlot(h.frameId, GroupStart(h.fragmentIndex))]))
  }

  function WithParity(s: State, g: FECPacket): State
    requires |s.fec| == FEC_RING
  {
    s.(fec := s.fec[FECSlot(g.header.frameId, g.header.fragmentStart) := Some(g)])
  }

  /** ProcessFEC. */
  function ProcessFEC(s: State, g: FECPacket): State
    requires StateShaped(s) && ParityShaped(Some(g))
  {
    var j := FECSlot(g.header.frameId, g.header.fragmentStart);
    if g.header.frameId < s.nextId || HeldFor(s.fec[j], g.header.frameId, g.header.fragmentStart) then s
    else
      var t := WithParity(s, g);
      var f := Lookup(s, g.header.frameId);
      if f.None? then t else WithFrame(t, TryRecoverFrame(f.value, Some(g), g.header.fragmentStart))
  }

  /** The slots of the parity ring that hold a packet. */
  function ParitySlots(fec: seq<Option<FECPacket>>): set<nat> {
    set j | 0 <= j < |fec| && fec[j].Some?
  }

  /** The packet is not stale and its slot is empty. */
  predicate NeedsPacket(s: State, g: FECPacket)
    requires |s.fec| == FEC_RING
  {
    s.nextId <= g.header.frameId && s.fec[FECSlot(g.header.frameId, g.header.fragmentStart)].None?
  }

  /** ProcessFEC would use the null packet that it gets from the exhausted pool. */
  predicate Starved(s: State, g: FECPacket)
    requires |s.fec| == FEC_RING
  {
    NeedsPacket(s, g) && |ParitySlots(s.fec)| == FEC_POOL_SIZE
  }

  /** GetNextFrame would hand out this frame. */
  function Ready(s: State): Option<Frame>
    requires StateShaped(s)
  {
    var f := Lookup(s, s.nextId);
    if f.Some? && f.value.isComplete then f else None
  }

  function AfterTake(s: State): State
    requires StateShaped(s)
  {
    if Ready(s).Some? then s.(ring := s.ring[Slot(s.nextId) := None], nextId := s.nextId + 1) else s
  }

  /** The ring without the frames whose ids lie in `lo .. hi`. */
  function Dropped(ring: seq<Option<Frame>>, lo: nat, hi: nat): (r: seq<Option<Frame>>)
    ensures |r| == |ring|
    ensures forall j :: 0 <= j < |ring| ==>
      r[j] == if ring[j].Some? && lo <= ring[j].value.frameId < hi then None else ring[j]
  {
    seq(|ring|, j requires 0 <= j < |ring| =>
      if ring[j].Some? && lo <= ring[j].value.frameId < hi then None else ring[j])
  }

  lemma DropOne(s: State, id: nat)
    requires StateShaped(s)
    ensures Dropped(s.ring, id, id + 1) == if Lookup(s, id).Some? then s.ring[Slot(id) := None] else s.ring
  {
  }

  /** ForceAdvanceTo drops every frame below the new read pointer. */
  function ForceAdvance(s: State, id: nat): State {
    if id <= s.nextId then s else s.(nextId := id, ring := Dropped(s.ring, s.nextId, id))
  }

  /** A complete keyframe with this id is in the ring. */
  predicate KeyframeReady(s: State, id: nat)
    requires StateShaped(s)
  {
    var f := Lookup(s, id);
    f.Some? && f.value.isComplete && f.value.isKeyframe
  }

  /** The newest complete keyframe among the next `n` ids, or zero. */
  function LatestKeyframe(s: State, n: nat): (id: nat)
    requires StateShaped(s)
    ensures id != 0 ==> s.nextId <= id < s.nextId + n && KeyframeReady(s, id)
  {
    if n == 0 then 0
    else if KeyframeReady(s, s.nextId + n - 1) then s.nextId + n - 1
    else LatestKeyframe(s, n - 1)
  }

  /** No complete keyframe of the scanned ids is newer, and zero means that there is none but frame zero. */
  lemma {:induction false} LatestIsNewest(s: State, n: nat, k: nat)
    requires StateShaped(s) && s.nextId <= k < s.nextId + n && KeyframeReady(s, k)
    ensures k <= LatestKeyframe(s, n)
  {
    if !KeyframeReady(s, s.nextId + n - 1) {
      LatestIsNewest(s, n - 1, k);
    }
  }

  // ---------------------------------------------------------------- retransmission requests

  const NACK_WINDOW: nat := 32

  datatype NACK = NACK(frameId: nat, fragmentIndex: nat)

  function NacksOf(frameId: nat, m: seq<nat>): (r: seq<NACK>)
    ensures |r| == |m|
    ensures forall i :: 0 <= i < |m| ==> r[i] == NACK(frameId, m[i])
  {
    seq(|m|, i requires 0 <= i < |m| => NACK(frameId, m[i]))
  }

  /** The missing fragments of one incomplete frame below fragment `n`. */
  function FrameNacks(s: State, id: nat): seq<NACK>
    requires StateShaped(s)
  {
    var f := Lookup(s, id);
    if f.None? || f.value.isComplete then []
    else NacksOf(id, Missing(f.value.fragmentMap, 0, f.value.totalFragments))
  }

  function Flatten<T>(lists: seq<seq<T>>): seq<T> {
    if lists == [] then [] else Flatten(lists[..|lists| - 1]) + lists[|lists| - 1]
  }

  function NackLists(s: State, n: nat): (lists: seq<seq<NACK>>)
    requires StateShaped(s)
    ensures |lists| == n
  {
    if n == 0 then [] else NackLists(s, n - 1) + [FrameNacks(s, s.nextId + n - 1)]
  }

  lemma {:induction false} NackListAt(s: State, n: nat, i: nat)
    requires StateShaped(s) && i < n
    ensures NackLists(s, n)[i] == FrameNacks(s, s.nextId + i)
  {
    if i < n - 1 {
      NackListAt(s, n - 1, i);
    }
  }

  /** All missing fragments of incomplete frames among the next `n` ids, in scan order. */
  function AllMissing(s: State, n: nat): seq<NACK>
    requires StateShaped(s)
  {
    Flatten(NackLists(s, n))
  }

  /** At most ten requests per call. */
  function PendingNACKs(s: State): seq<NACK>
    requires StateShaped(s)
  {
    FirstTen(AllMissing(s, NACK_WINDOW))
  }

  lemma {:induction false} MissingPrefix(bits: seq<bool>, m: nat, n: nat)
    requires m <= n <= |bits|
    ensures Missing(bits, 0, m) <= Missing(bits, 0, n)
  {
    if m < n {
      MissingPrefix(bits, m, n - 1);
    }
  }

  /** The first ten of a list. */
  function FirstTen<T>(all: seq<T>): seq<T> {
    all[..Min(10, |all|)]
  }

  lemma FirstTenAll<T>(a: seq<T>)
    requires |a| <= 10
    ensures FirstTen(a) == a
  {
  }

  lemma FlattenStep<T>(lists: seq<seq<T>>, i: nat)
    requires i < |lists|
    ensures Flatten(lists[..i + 1]) == Flatten(lists[..i]) + lists[i]
  {
    assert lists[..i + 1][..i] == lists[..i];
  }

  /** Later lists only append. */
  lemma {:induction false} FlattenPrefix<T>(lists: seq<seq<T>>, m: nat, n: nat) returns (rest: seq<T>)
    requires m <= n <= |lists|
    ensures Flatten(lists[..n]) == Flatten(lists[..m]) + rest
    decreases n
  {
    if m == n {
      rest := [];
    } else {
      var r := FlattenPrefix(lists, m, n - 1);
      FlattenStep(lists, n - 1);
      rest := r + lists[n - 1];
    }
  }

  /** One list further in the scan: either everything so far fits in ten, or the answer is known. */
  lemma ScanStep<T>(lists: seq<seq<T>>, i: nat, more: seq<T>)
    requires i < |lists|
    requires more == FirstTen(Flatten(lists[..i]) + lists[i])
    ensures |Flatten(lists[..i]) + lists[i]| <= 10 ==> more == Flatten(lists[..i + 1])
    ensures |Flatten(lists[..i]) + lists[i]| > 10 ==> more == FirstTen(Flatten(lists))
  {
    FlattenStep(lists, i);
    var rest := FlattenPrefix(lists, i + 1, |lists|);
    assert lists[..|lists|] == lists;
  }

  /** With ten requests listed and one more fragment missing, the answer is known. */
  lemma ScanFull(id: nat, bits: seq<bool>, nacks: seq<NACK>, j: nat, total: nat)
    requires j < total <= |bits| && !bits[j] && |nacks + NacksOf(id, Missing(bits, 0, j))| == 10
    ensures var all := nacks + NacksOf(id, Missing(bits, 0, total));
      |all| > 10 && FirstTen(all) == nacks + NacksOf(id, Missing(bits, 0, j))
  {
    var few, some, many := Missing(bits, 0, j), Missing(bits, 0, j + 1), Missing(bits, 0, total);
    MissingPrefix(bits, j + 1, total);
    assert some == few + [j];
    assert many[..|few|] == few;
    assert NacksOf(id, many)[..|few|] == NacksOf(id, few);
  }

  lemma NacksExtend(id: nat, m: seq<nat>, j: nat)
    ensures NacksOf(id, m + [j]) == NacksOf(id, m) + [NACK(id, j)]
  {
  }

  lemma DropMore(ring: seq<Option<Frame>>, lo: nat, mid: nat)
    requires lo <= mid
    ensures Dropped(Dropped(ring, lo, mid), mid, mid + 1) == Dropped(ring, lo, mid + 1)
  {
  }
}
