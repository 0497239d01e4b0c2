/** With genuine packets: the bytes held are the sender's bytes, and no recoverable loss is left pending. */
module Fidelity {
  import opened Wrappers
  import opened Bytes
  import opened Protocol
  import opened Packetizer
  import opened Reassembly
  import opened ReceiverInvariants

  // ---------------------------------------------------------------- one fragment

  /** Fragment `i` is held with the sender's bytes, zero-padded; its recorded size is the true size
      unless it is the last fragment and parity filled it in. */
  ghost predicate FragmentTrue(f: Frame, o: Original, i: nat)
    requires Shaped(f) && i < FragmentCount(|o.bytes|) == f.totalFragments
  {
    && (f.fragmentSizes[i] == FragmentSize(|o.bytes|, i) || (i in f.byParity && f.fragmentSizes[i] == MAX_UDP_PAYLOAD))
    && forall k :: 0 <= k < MAX_UDP_PAYLOAD ==> HeldByte(f, i, k) == PaddedByte(o.bytes, i, k)
  }

  /** The frame agrees with what the sender cut. */
  ghost predicate FrameTrue(f: Frame, o: Original) {
    && Shaped(f)
    && f.totalFragments == FragmentCount(|o.bytes|)
    && f.isKeyframe == o.isKeyframe && f.isHEVC == o.isHEVC && f.stamps == o.stamps
    && (forall i :: 0 <= i < f.totalFragments && f.fragmentMap[i] ==> FragmentTrue(f, o, i))
    && (0 < f.totalFragments && f.fragmentMap[f.totalFragments - 1] ==>
          f.totalSize == (f.totalFragments - 1) * MAX_UDP_PAYLOAD + f.fragmentSizes[f.totalFragments - 1])
  }

  lemma NewFrameTrue(sender: Sender, h: VideoHeader, payload: seq<byte>, stale: seq<byte>)
    requires Sendable(sender) && GenuineVideo(sender, h, payload) && |stale| == FRAME_CAPACITY
    ensures FrameTrue(NewFrame(h, stale), sender[h.frameId])
  {
  }

  /** A change confined to fragment `i`'s region keeps every other fragment true. */
  lemma OtherFragmentsTrue(f: Frame, t: Frame, o: Original, i: nat)
    requires FrameTrue(f, o) && Shaped(t) && t.totalFragments == f.totalFragments && i < f.totalFragments
    requires t.byParity >= f.byParity
    requires forall j :: 0 <= j < MAX_FRAGMENTS && j != i ==>
      t.fragmentMap[j] == f.fragmentMap[j] && t.fragmentSizes[j] == f.fragmentSizes[j]
    requires forall b :: 0 <= b < FRAME_CAPACITY && !(i * MAX_UDP_PAYLOAD <= b < (i + 1) * MAX_UDP_PAYLOAD) ==>
      t.buffer[b] == f.buffer[b]
    ensures forall j :: 0 <= j < f.totalFragments && j != i && f.fragmentMap[j] ==> FragmentTrue(t, o, j)
  {
    forall j | 0 <= j < f.totalFragments && j != i && f.fragmentMap[j]
      ensures FragmentTrue(t, o, j)
    {
      assert FragmentTrue(f, o, j);
      forall k | 0 <= k < MAX_UDP_PAYLOAD
        ensures HeldByte(t, j, k) == HeldByte(f, j, k)
      {
      }
    }
  }

  lemma StoreTrue(sender: Sender, f: Frame, h: VideoHeader, payload: seq<byte>)
    requires Sendable(sender) && GenuineVideo(sender, h, payload)
    requires FrameTrue(f, sender[h.frameId]) && !f.fragmentMap[h.fragmentIndex]
    ensures Store(f, h, payload).fragmentMap == f.fragmentMap[h.fragmentIndex := true]
    ensures FrameTrue(Store(f, h, payload), sender[h.frameId])
  {
    var o, i, t := sender[h.frameId], h.fragmentIndex, Store(f, h, payload);
    StoreShaped(f, h, payload);
    OtherFragmentsTrue(f, t, o, i);
    assert FragmentTrue(t, o, i);
  }

  // ---------------------------------------------------------------- parity reconstruction

  /** A fragment other than the hole contributes its zero-padded byte. */
  lemma OtherByteTrue(f: Frame, o: Original, h: FECHeader, hole: nat, i: nat, k: nat)
    requires Shaped(f) && h.fragmentStart + i < FragmentCount(|o.bytes|) == f.totalFragments
    requires h.fragmentStart + i != hole && k < MAX_UDP_PAYLOAD && FragmentTrue(f, o, h.fragmentStart + i)
    ensures OtherByte(f, h, hole, i, k) == PaddedByte(o.bytes, h.fragmentStart + i, k)
  {
  }

  lemma HoleContributesNothing(f: Frame, h: FECHeader, hole: nat, k: nat)
    requires Shaped(f) && h.fragmentStart <= hole < 0x10000
    ensures OtherByte(f, h, hole, hole - h.fragmentStart, k) == 0
  {
  }

  lemma HoledColumn(full: seq<byte>, f: Frame, h: FECHeader, hole: nat, k: nat, holed: seq<byte>)
    requires Shaped(f) && h.fragmentStart <= hole < h.fragmentStart + h.fragmentCount && hole < 0x10000
    requires |full| == h.fragmentCount && holed == OtherColumn(f, h, hole, h.fragmentCount, k)
    requires forall i :: 0 <= i < |full| && i != hole - h.fragmentStart ==> OtherByte(f, h, hole, i, k) == full[i]
    ensures |holed| == |full| && holed[hole - h.fragmentStart] == 0
    ensures forall i :: 0 <= i < |full| && i != hole - h.fragmentStart ==> full[i] == holed[i]
  {
    HoleContributesNothing(f, h, hole, k);
  }

  lemma ParityByte(sender: Sender, g: FECPacket, k: nat, full: seq<byte>)
    requires GenuineFEC(sender, g.header, g.payload) && k < MAX_UDP_PAYLOAD
    requires full == Column(sender[g.header.frameId].bytes, g.header.fragmentStart, g.header.fragmentCount, k)
    ensures g.payload[k] == XorAll(full)
  {
  }

  lemma OtherBytesTrue(f: Frame, o: Original, h: FECHeader, hole: nat, k: nat, full: seq<byte>)
    requires Shaped(f) && h.fragmentStart + h.fragmentCount <= FragmentCount(|o.bytes|) == f.totalFragments
    requires k < MAX_UDP_PAYLOAD && full == Column(o.bytes, h.fragmentStart, h.fragmentCount, k)
    requires forall j :: h.fragmentStart <= j < h.fragmentStart + h.fragmentCount && j != hole ==> FragmentTrue(f, o, j)
    ensures forall i :: 0 <= i < |full| && i != hole - h.fragmentStart ==> OtherByte(f, h, hole, i, k) == full[i]
  {
    forall i | 0 <= i < |full| && i != hole - h.fragmentStart
      ensures OtherByte(f, h, hole, i, k) == full[i]
    {
      assert FragmentTrue(f, o, h.fragmentStart + i);
      OtherByteTrue(f, o, h, hole, i, k);
    }
  }

  lemma PayloadByte(f: Frame, g: FECPacket, hole: nat, k: nat, holed: seq<byte>, acc: byte)
    requires Shaped(f) && k < |g.payload| && acc == XorAll(holed)
    requires holed == OtherColumn(f, g.header, hole, g.header.fragmentCount, k)
    ensures RecoveredPayload(f, g, hole)[k] == Xor(g.payload[k], acc)
  {
  }

  /** The XOR of the sender's column with the receiver's, which has a zero at the hole, is the hole's byte. */
  lemma CancelTo(full: seq<byte>, holed: seq<byte>, i: nat, sum: byte, acc: byte)
    requires |full| == |holed| && i < |full| && holed[i] == 0
    requires forall j :: 0 <= j < |full| && j != i ==> full[j] == holed[j]
    requires sum == XorAll(full) && acc == XorAll(holed)
    ensures Xor(sum, acc) == full[i]
  {
    XorCancel(full, holed, i);
  }

  lemma InColumn(bytes: seq<byte>, start: nat, count: nat, k: nat, i: nat)
    requires start <= i < start + count <= FragmentCount(|bytes|)
    ensures Column(bytes, start, count, k)[i - start] == PaddedByte(bytes, i, k)
  {
    assert start + (i - start) == i;
  }

  /** If the other fragments of a group contribute the sender's bytes, parity gives the hole's byte. */
  lemma RecoveredByteTrue(sender: Sender, f: Frame, g: FECPacket, hole: nat, k: nat, full: seq<byte>)
    requires GenuineFEC(sender, g.header, g.payload) && Shaped(f) && k < MAX_UDP_PAYLOAD && hole < 0x10000
    requires g.header.fragmentStart <= hole < g.header.fragmentStart + g.header.fragmentCount
    requires full == Column(sender[g.header.frameId].bytes, g.header.fragmentStart, g.header.fragmentCount, k)
    requires forall i :: 0 <= i < |full| && i != hole - g.header.fragmentStart ==>
      OtherByte(f, g.header, hole, i, k) == full[i]
    ensures RecoveredPayload(f, g, hole)[k] == PaddedByte(sender[g.header.frameId].bytes, hole, k)
  {
    var holed := OtherColumn(f, g.header, hole, g.header.fragmentCount, k);
    ParityByte(sender, g, k, full);
    HoledColumn(full, f, g.header, hole, k, holed);
    CancelTo(full, holed, hole - g.header.fragmentStart, g.payload[k], XorAll(holed));
    PayloadByte(f, g, hole, k, holed, XorAll(holed));
    InColumn(sender[g.header.frameId].bytes, g.header.fragmentStart, g.header.fragmentCount, k, hole);
  }

  lemma RecoveredPayloadTrue(sender: Sender, f: Frame, g: FECPacket, hole: nat)
    requires Sendable(sender) && GenuineFEC(sender, g.header, g.payload)
    requires FrameTrue(f, sender[g.header.frameId])
    requires g.header.fragmentStart <= hole < g.header.fragmentStart + g.header.fragmentCount
    requires forall j :: g.header.fragmentStart <= j < g.header.fragmentStart + g.header.fragmentCount && j != hole ==>
      f.fragmentMap[j]
    ensures forall k :: 0 <= k < MAX_UDP_PAYLOAD ==>
      RecoveredPayload(f, g, hole)[k] == PaddedByte(sender[g.header.frameId].bytes, hole, k)
  {
    var o := sender[g.header.frameId];
    forall k | 0 <= k < MAX_UDP_PAYLOAD
      ensures RecoveredPayload(f, g, hole)[k] == PaddedByte(o.bytes, hole, k)
    {
      var full := Column(o.bytes, g.header.fragmentStart, g.header.fragmentCount, k);
      OtherBytesTrue(f, o, g.header, hole, k, full);
      RecoveredByteTrue(sender, f, g, hole, k, full);
    }
  }

  /** The one missing fragment of a recoverable group. */
  lemma TheHole(f: Frame, h: FECHeader, hole: nat)
    requires Shaped(f) && GroupMissing(f, h) == [hole]
    ensures h.fragmentStart <= hole < h.fragmentStart + Covered(f, h) && !f.fragmentMap[hole]
    ensures forall j :: h.fragmentStart <= j < h.fragmentStart + Covered(f, h) && j != hole ==> f.fragmentMap[j]
  {
    GroupMissingElements(f, h, [hole]);
    assert [hole][0] == hole;
    forall j | h.fragmentStart <= j < h.fragmentStart + Covered(f, h) && j != hole
      ensures f.fragmentMap[j]
    {
      MissingComplete(f.fragmentMap, h.fragmentStart, Covered(f, h), j);
    }
  }

  /** Parity reconstruction: the hole gets the sender's bytes then zeros, every other byte stays. */
  lemma RecoverExact(sender: Sender, f: Frame, g: FECPacket)
    requires Sendable(sender) && GenuineFEC(sender, g.header, g.payload)
    requires FrameTrue(f, sender[g.header.frameId]) && Recoverable(f, g)
    ensures
      var t, hole := Recover(f, g), GroupMissing(f, g.header)[0];
      && hole < f.totalFragments && t.fragmentMap == f.fragmentMap[hole := true]
      && (forall k :: 0 <= k < MAX_UDP_PAYLOAD ==>
            t.buffer[hole * MAX_UDP_PAYLOAD + k] == PaddedByte(sender[g.header.frameId].bytes, hole, k))
      && (forall b :: 0 <= b < hole * MAX_UDP_PAYLOAD || (hole + 1) * MAX_UDP_PAYLOAD <= b < FRAME_CAPACITY ==>
            t.buffer[b] == f.buffer[b])
  {
    var t, hole := Recover(f, g), GroupMissing(f, g.header)[0];
    TheHole(f, g.header, hole);
    RecoveredPayloadTrue(sender, f, g, hole);
    PatchReads(f.buffer, hole * MAX_UDP_PAYLOAD, RecoveredPayload(f, g, hole), t.buffer);
  }

  lemma PatchReads(buffer: seq<byte>, offset: nat, patch: seq<byte>, after: seq<byte>)
    requires offset + |patch| <= |buffer| && after == Patch(buffer, offset, patch)
    ensures forall k :: 0 <= k < |patch| ==> after[offset + k] == patch[k]
    ensures forall b :: 0 <= b < offset || offset + |patch| <= b < |buffer| ==> after[b] == buffer[b]
  {
    forall k | 0 <= k < |patch|
      ensures after[offset + k] == patch[k]
    {
      assert after[offset + k] == patch[offset + k - offset];
    }
  }

  lemma RecoverTrue(sender: Sender, f: Frame, g: FECPacket)
    requires Sendable(sender) && GenuineFEC(sender, g.header, g.payload)
    requires FrameTrue(f, sender[g.header.frameId]) && Recoverable(f, g)
    ensures FrameTrue(Recover(f, g), sender[g.header.frameId])
  {
    var o, t, hole := sender[g.header.frameId], Recover(f, g), GroupMissing(f, g.header)[0];
    RecoverExact(sender, f, g);
    OtherFragmentsTrue(f, t, o, hole);
    assert FragmentTrue(t, o, hole);
  }

  // ---------------------------------------------------------------- eager recovery

  /** No parity packet that is held could complete its group in this frame. */
  ghost predicate NothingPending(f: Frame, fec: seq<Option<FECPacket>>)
    requires Shaped(f)
  {
    forall j :: 0 <= j < |fec| && fec[j].Some? && fec[j].value.header.frameId == f.frameId ==>
      !Recoverable(f, fec[j].value)
  }

  /** Bit changes inside one group leave the missing list of every other group alone. */
  lemma GroupsIndependent(f: Frame, t: Frame, h: FECHeader, i: nat)
    requires Shaped(f) && Shaped(t) && t.totalFragments == f.totalFragments && i < MAX_FRAGMENTS
    requires t.fragmentMap == f.fragmentMap[i := true]
    requires h.fragmentStart % FEC_GROUP_SIZE == 0 && h.fragmentCount <= FEC_GROUP_SIZE
    requires h.fragmentStart != GroupStart(i)
    ensures GroupMissing(t, h) == GroupMissing(f, h)
  {
    if Covered(f, h) > 0 {
      assert i < h.fragmentStart || h.fragmentStart + FEC_GROUP_SIZE <= i;
      MissingAfterSet(f.fragmentMap, h.fragmentStart, Covered(f, h), i);
    }
  }

  /** A frame without fragments misses at least two in every genuine group. */
  lemma NewFramePending(sender: Sender, h: VideoHeader, payload: seq<byte>, stale: seq<byte>, g: FECPacket)
    requires Sendable(sender) && GenuineVideo(sender, h, payload) && |stale| == FRAME_CAPACITY
    requires GenuineFEC(sender, g.header, g.payload) && g.header.frameId == h.frameId
    ensures !Recoverable(NewFrame(h, stale), g)
  {
    var f := NewFrame(h, stale);
    AllClearMissing(f.fragmentMap, g.header.fragmentStart, Covered(f, g.header));
  }

  lemma CompleteNotPending(f: Frame, g: FECPacket)
    requires FrameOk(f) && f.isComplete
    ensures !Recoverable(f, g)
  {
    FullCount(f.fragmentMap, f.totalFragments);
    if |GroupMissing(f, g.header)| == 1 {
      TheHole(f, g.header, GroupMissing(f, g.header)[0]);
    }
  }

  /** After a successful recovery the group has nothing left to recover. */
  lemma RecoverEmptiesGroup(f: Frame, g: FECPacket)
    requires Shaped(f) && ParityShaped(Some(g)) && Recoverable(f, g)
    ensures GroupMissing(Recover(f, g), g.header) == []
  {
    var hole := GroupMissing(f, g.header)[0];
    var lo, n := g.header.fragmentStart, Covered(f, g.header);
    assert Missing(f.fragmentMap, lo, n) == [hole];
    MissingAfterSet(f.fragmentMap, lo, n, hole);
    assert Covered(Recover(f, g), g.header) == n && Recover(f, g).fragmentMap == f.fragmentMap[hole := true];
  }

  ghost predicate FECGood(sender: Sender, fec: seq<Option<FECPacket>>) {
    && |fec| == FEC_RING
    && forall j :: 0 <= j < FEC_RING && fec[j].Some? ==>
         GenuineFEC(sender, fec[j].value.header, fec[j].value.payload)
         && FECSlot(fec[j].value.header.frameId, fec[j].value.header.fragmentStart) == j
  }

  lemma HoleInGroup(start: nat, hole: nat)
    requires start % FEC_GROUP_SIZE == 0 && start <= hole < start + FEC_GROUP_SIZE
    ensures GroupStart(hole) == start
  {
  }

  /** Filling the hole of group `p` does not make another group `g` of the frame recoverable. */
  lemma RecoverOthers(sender: Sender, f: Frame, p: FECPacket, g: FECPacket)
    requires GenuineFEC(sender, p.header, p.payload) && GenuineFEC(sender, g.header, g.payload)
    requires Shaped(f) && Recoverable(f, p) && !Recoverable(f, g)
    requires p.header.fragmentStart != g.header.fragmentStart
    ensures Shaped(Recover(f, p)) && !Recoverable(Recover(f, p), g)
  {
    var hole := GroupMissing(f, p.header)[0];
    RecoverShaped(f, p);
    TheHole(f, p.header, hole);
    HoleInGroup(p.header.fragmentStart, hole);
    GroupsIndependent(f, Recover(f, p), g.header, hole);
  }

  /** Trying one group leaves neither that group nor any other group of the frame recoverable. */
  lemma TryRecoverPending(sender: Sender, f: Frame, p: Option<FECPacket>, start: nat, g: FECPacket)
    requires Sendable(sender) && Counted(f) && f.frameId in sender && FrameTrue(f, sender[f.frameId])
    requires ParityShaped(p) && (p.Some? ==> GenuineFEC(sender, p.value.header, p.value.payload))
    requires GenuineFEC(sender, g.header, g.payload) && g.header.frameId == f.frameId
    requires HeldFor(Some(g), f.frameId, start) ==> p == Some(g)
    requires !HeldFor(Some(g), f.frameId, start) ==> !Recoverable(f, g)
    ensures FrameTrue(TryRecoverFrame(f, p, start), sender[f.frameId])
    ensures !Recoverable(TryRecoverFrame(f, p, start), g)
  {
    if f.isComplete {
      CompleteNotPending(f, g);
    } else if HeldFor(p, f.frameId, start) && Recoverable(f, p.value) {
      RecoverTrue(sender, f, p.value);
      if p == Some(g) {
        RecoverEmptiesGroup(f, g);
      } else {
        RecoverOthers(sender, f, p.value, g);
      }
    }
  }

  lemma StorePending(sender: Sender, f: Frame, h: VideoHeader, payload: seq<byte>, g: FECPacket)
    requires Sendable(sender) && GenuineVideo(sender, h, payload) && f.frameId == h.frameId
    requires FrameTrue(f, sender[h.frameId]) && !f.fragmentMap[h.fragmentIndex]
    requires GenuineFEC(sender, g.header, g.payload) && g.header.fragmentStart != GroupStart(h.fragmentIndex)
    requires !Recoverable(f, g)
    ensures Shaped(Store(f, h, payload)) && !Recoverable(Store(f, h, payload), g)
  {
    StoreTrue(sender, f, h, payload);
    GroupsIndependent(f, Store(f, h, payload), g.header, h.fragmentIndex);
  }

  lemma MarkTrue(f: Frame, o: Original)
    requires FrameTrue(f, o)
    ensures FrameTrue(f.(isComplete := true), o)
  {
    forall i | 0 <= i < f.totalFragments && f.fragmentMap[i]
      ensures FragmentTrue(f.(isComplete := true), o, i)
    {
      assert FragmentTrue(f, o, i);
      forall k | 0 <= k < MAX_UDP_PAYLOAD
        ensures HeldByte(f.(isComplete := true), i, k) == HeldByte(f, i, k)
      {
      }
    }
  }

  lemma MarkedTrue(f: Frame, o: Original)
    requires FrameTrue(f, o)
    ensures FrameTrue(Marked(f), o)
  {
    MarkTrue(f, o);
  }

  lemma MarkedSame(f: Frame, g: FECPacket)
    requires Shaped(f)
    ensures Shaped(Marked(f)) && Recoverable(Marked(f), g) == Recoverable(f, g)
  {
    assert GroupMissing(Marked(f), g.header) == GroupMissing(f, g.header);
  }

  lemma TryRecoverTrue(sender: Sender, f: Frame, p: Option<FECPacket>, start: nat)
    requires Sendable(sender) && f.frameId in sender && FrameTrue(f, sender[f.frameId])
    requires ParityShaped(p) && (p.Some? ==> GenuineFEC(sender, p.value.header, p.value.payload))
    ensures FrameTrue(TryRecoverFrame(f, p, start), sender[f.frameId])
  {
    if !f.isComplete && HeldFor(p, f.frameId, start) && Recoverable(f, p.value) {
      RecoverTrue(sender, f, p.value);
    }
  }

  /** One genuine fragment: the frame stays true, */
  lemma AssembleTrue(sender: Sender, f: Frame, h: VideoHeader, payload: seq<byte>, p: Option<FECPacket>)
    requires Sendable(sender) && GenuineVideo(sender, h, payload)
    requires ParityShaped(p) && (p.Some? ==> GenuineFEC(sender, p.value.header, p.value.payload))
    requires f.frameId == h.frameId && FrameTrue(f, sender[h.frameId])
    ensures FrameTrue(Assemble(f, h, payload, p), sender[h.frameId])
  {
    if !f.fragmentMap[h.fragmentIndex] {
      var st := Store(f, h, payload);
      StoreTrue(sender, f, h, payload);
      TryRecoverTrue(sender, st, p, GroupStart(h.fragmentIndex));
      MarkedTrue(TryRecoverFrame(st, p, GroupStart(h.fragmentIndex)), sender[h.frameId]);
    } else {
      MarkedTrue(f, sender[h.frameId]);
    }
  }

  /** and no group of it is left recoverable. */
  lemma AssemblePending(sender: Sender, f: Frame, h: VideoHeader, payload: seq<byte>,
                        p: Option<FECPacket>, g: FECPacket)
    requires Sendable(sender) && GenuineVideo(sender, h, payload)
    requires ParityShaped(p) && (p.Some? ==> GenuineFEC(sender, p.value.header, p.value.payload))
    requires Counted(f) && f.frameId == h.frameId && FrameTrue(f, sender[h.frameId])
    requires GenuineFEC(sender, g.header, g.payload) && g.header.frameId == f.frameId && !Recoverable(f, g)
    requires g.header.fragmentStart == GroupStart(h.fragmentIndex) ==> p == Some(g)
    ensures Shaped(Assemble(f, h, payload, p)) && !Recoverable(Assemble(f, h, payload, p), g)
  {
    if !f.fragmentMap[h.fragmentIndex] {
      var start, st := GroupStart(h.fragmentIndex), Store(f, h, payload);
      StoreTrue(sender, f, h, payload);
      StoreCounted(f, h, payload);
      if g.header.fragmentStart != start {
        StorePending(sender, f, h, payload, g);
      }
      TryRecoverPending(sender, st, p, start, g);
      MarkedSame(TryRecoverFrame(st, p, start), g);
    } else {
      MarkedSame(f, g);
    }
  }

  lemma AssembleGood(sender: Sender, f: Frame, h: VideoHeader, payload: seq<byte>, fec: seq<Option<FECPacket>>)
    requires Sendable(sender) && GenuineVideo(sender, h, payload) && FECGood(sender, fec)
    requires Counted(f) && f.frameId == h.frameId && FrameTrue(f, sender[h.frameId]) && NothingPending(f, fec)
    ensures
      var t := Assemble(f, h, payload, fec[FECSlot(h.frameId, GroupStart(h.fragmentIndex))]);
      FrameTrue(t, sender[h.frameId]) && NothingPending(t, fec)
  {
    var p := fec[FECSlot(h.frameId, GroupStart(h.fragmentIndex))];
    AssembleTrue(sender, f, h, payload, p);
    AssembleOk(f, h, payload, p);
    forall j | 0 <= j < |fec| && fec[j].Some? && fec[j].value.header.frameId == f.frameId
      ensures !Recoverable(Assemble(f, h, payload, p), fec[j].value)
    {
      AssemblePending(sender, f, h, payload, p, fec[j].value);
    }
  }

  // ---------------------------------------------------------------- the whole receiver

  /** Invariant of the receiver when every packet is genuine. */
  ghost predicate Good(s: State, sender: Sender) {
    && StateOk(s) && FECGood(sender, s.fec)
    && forall j :: 0 <= j < FRAME_RING && s.ring[j].Some? ==> FrameGood(s.ring[j].value, sender, s.fec)
  }

  ghost predicate FrameGood(f: Frame, sender: Sender, fec: seq<Option<FECPacket>>)
    requires Shaped(f)
  {
    f.frameId in sender && FrameTrue(f, sender[f.frameId]) && NothingPending(f, fec)
  }

  lemma NewFrameGood(sender: Sender, h: VideoHeader, payload: seq<byte>, stale: seq<byte>, fec: seq<Option<FECPacket>>)
    requires Sendable(sender) && GenuineVideo(sender, h, payload) && |stale| == FRAME_CAPACITY && FECGood(sender, fec)
    ensures Counted(NewFrame(h, stale)) && FrameGood(NewFrame(h, stale), sender, fec)
  {
    NewFrameCounted(h, stale);
    NewFrameTrue(sender, h, payload, stale);
    forall j | 0 <= j < |fec| && fec[j].Some? && fec[j].value.header.frameId == h.frameId
      ensures !Recoverable(NewFrame(h, stale), fec[j].value)
    {
      NewFramePending(sender, h, payload, stale, fec[j].value);
    }
  }

  lemma WithFrameGood(s: State, sender: Sender, f: Frame)
    requires Good(s, sender) && s.started && FrameOk(f) && s.nextId <= f.frameId && FrameGood(f, sender, s.fec)
    ensures Good(WithFrame(s, f), sender)
  {
    WithFrameOk(s, f);
  }

  /** Every genuine video packet keeps the invariant, whatever the recycled buffer holds. */
  lemma ProcessPacketGood(s: State, sender: Sender, h: VideoHeader, payload: seq<byte>, stale: seq<byte>)
    requires Good(s, sender) && Sendable(sender) && GenuineVideo(sender, h, payload) && |stale| == FRAME_CAPACITY
    ensures Good(ProcessPacket(s, h, payload, stale), sender)
  {
    if !Ignored(s, h) {
      var g := Gate(s, h);
      assert Good(g, sender);
      var f := if Lookup(g, h.frameId).Some? then Lookup(g, h.frameId).value else NewFrame(h, stale);
      if Lookup(g, h.frameId).None? {
        NewFrameGood(sender, h, payload, stale, s.fec);
      }
      AssembleGood(sender, f, h, payload, s.fec);
      var p := s.fec[FECSlot(h.frameId, GroupStart(h.fragmentIndex))];
      AssembleOk(f, h, payload, p);
      WithFrameGood(g, sender, Assemble(f, h, payload, p));
    }
  }

  /** Every genuine parity packet keeps the invariant. */
  lemma ProcessFECGood(s: State, sender: Sender, g: FECPacket)
    requires Good(s, sender) && Sendable(sender) && GenuineFEC(sender, g.header, g.payload)
    ensures Good(ProcessFEC(s, g), sender)
  {
    var start := g.header.fragmentStart;
    var j := FECSlot(g.header.frameId, start);
    if g.header.frameId >= s.nextId && !HeldFor(s.fec[j], g.header.frameId, start) {
      var t, u := s.(fec := s.fec[j := Some(g)]), ProcessFEC(s, g);
      ProcessFECOk(s, g);
      forall i | 0 <= i < FRAME_RING && u.ring[i].Some?
        ensures FrameGood(u.ring[i].value, sender, u.fec)
      {
        assert s.ring[i].Some?;
        ParityArrives(s.ring[i].value, sender, s.fec, g);
      }
    }
  }

  /** A new parity packet against one frame of the ring. */
  lemma ParityArrives(f: Frame, sender: Sender, fec: seq<Option<FECPacket>>, g: FECPacket)
    requires Sendable(sender) && GenuineFEC(sender, g.header, g.payload)
    requires FrameOk(f) && FECGood(sender, fec) && FrameGood(f, sender, fec)
    ensures
      var j := FECSlot(g.header.frameId, g.header.fragmentStart);
      var t := if f.frameId == g.header.frameId then TryRecoverFrame(f, Some(g), g.header.fragmentStart) else f;
      FrameOk(t) && FrameGood(t, sender, fec[j := Some(g)])
  {
    if f.frameId == g.header.frameId {
      var start, t := g.header.fragmentStart, TryRecoverFrame(f, Some(g), g.header.fragmentStart);
      var now := fec[FECSlot(g.header.frameId, start) := Some(g)];
      TryRecoverCounted(f, Some(g), start);
      TryRecoverPending(sender, f, Some(g), start, g);
      forall i | 0 <= i < |now| && now[i].Some? && now[i].value.header.frameId == f.frameId
        ensures !Recoverable(t, now[i].value)
      {
        TryRecoverPending(sender, f, Some(g), start, now[i].value);
      }
    }
  }

  lemma TakeGood(s: State, sender: Sender)
    requires Good(s, sender)
    ensures Good(AfterTake(s), sender)
  {
    TakeOk(s);
  }

  lemma ForceAdvanceGood(s: State, sender: Sender, id: nat)
    requires Good(s, sender)
    ensures Good(ForceAdvance(s, id), sender)
  {
    ForceAdvanceOk(s, id);
  }

  // ---------------------------------------------------------------- what is handed out

  /** The bytes handed out: the sender's frame, then zeros, and no zeros at all unless parity supplied
      the last fragment. */
  ghost predicate Faithful(f: Frame, o: Original) {
    && |o.bytes| <= f.totalSize <= |f.buffer|
    && f.buffer[..|o.bytes|] == o.bytes
    && (forall b :: |o.bytes| <= b < f.totalSize ==> f.buffer[b] == 0)
    && (|o.bytes| < f.totalSize ==>
          FragmentCount(|o.bytes|) - 1 in f.byParity && f.totalSize == FragmentCount(|o.bytes|) * MAX_UDP_PAYLOAD)
    && f.isKeyframe == o.isKeyframe && f.isHEVC == o.isHEVC && f.stamps == o.stamps
  }

  lemma ByteTrue(f: Frame, o: Original, b: nat)
    requires FrameOk(f) && FrameTrue(f, o) && f.isComplete && b < |o.bytes| <= FRAME_CAPACITY
    ensures f.buffer[b] == o.bytes[b]
  {
    FullCount(f.fragmentMap, f.totalFragments);
    var i, k := b / MAX_UDP_PAYLOAD, b % MAX_UDP_PAYLOAD;
    assert FragmentTrue(f, o, i);
    assert HeldByte(f, i, k) == PaddedByte(o.bytes, i, k);
  }

  /** Every complete frame of a good receiver is the sender's frame. */
  lemma CompleteIsFaithful(f: Frame, o: Original)
    requires FrameOk(f) && FrameTrue(f, o) && f.isComplete && 1 <= |o.bytes| <= FRAME_CAPACITY
    ensures Faithful(f, o)
  {
    FullCount(f.fragmentMap, f.totalFragments);
    var last := f.totalFragments - 1;
    assert FragmentTrue(f, o, last);
    forall b | 0 <= b < |o.bytes| ensures f.buffer[b] == o.bytes[b] {
      ByteTrue(f, o, b);
    }
    forall b | |o.bytes| <= b < f.totalSize ensures f.buffer[b] == 0 {
      assert HeldByte(f, last, b - last * MAX_UDP_PAYLOAD) == PaddedByte(o.bytes, last, b - last * MAX_UDP_PAYLOAD);
    }
  }

  /** No recoverable loss is left pending in frames of at most 806 fragments: in no held group is the
      number of missing fragments exactly one. */
  lemma EagerRecovery(s: State, sender: Sender, j: nat, i: nat)
    requires Good(s, sender) && Sendable(sender) && j < FRAME_RING && i < FEC_RING
    requires s.ring[j].Some? && s.fec[i].Some? && s.fec[i].value.header.frameId == s.ring[j].value.frameId
    ensures |GroupMissing(s.ring[j].value, s.fec[i].value.header)| == 1 ==>
      GroupMissing(s.ring[j].value, s.fec[i].value.header) == [806]
    ensures s.ring[j].value.totalFragments <= 806 ==> |GroupMissing(s.ring[j].value, s.fec[i].value.header)| != 1
  {
    var f, g := s.ring[j].value, s.fec[i].value;
    assert FrameGood(f, sender, s.fec) && !Recoverable(f, g);
    if |GroupMissing(f, g.header)| == 1 {
      TheHole(f, g.header, GroupMissing(f, g.header)[0]);
    }
  }

  /** Exactly when one missing fragment of a genuine group can be rebuilt: parity is a full payload, and
      only fragment 806 starts too close to the end of the one-mebibyte buffer to take it. */
  lemma RecoverableIff(sender: Sender, f: Frame, g: FECPacket, hole: nat)
    requires Sendable(sender) && GenuineFEC(sender, g.header, g.payload)
    requires FrameTrue(f, sender[g.header.frameId]) && GroupMissing(f, g.header) == [hole]
    ensures Recoverable(f, g) <==> hole != 806
  {
    TheHole(f, g.header, hole);
  }

  /** There are such losses: of a frame of 807 fragments, 805 arrives and its group has parity, and 806 stays
      missing. */
  lemma LastFragmentLost(sender: Sender, h: VideoHeader, payload: seq<byte>, stale: seq<byte>, g: FECPacket)
    requires Sendable(sender) && GenuineVideo(sender, h, payload) && GenuineFEC(sender, g.header, g.payload)
    requires h.totalFragments == 807 && h.fragmentIndex == g.header.fragmentStart == 805
    requires g.header.frameId == h.frameId && |stale| == FRAME_CAPACITY
    ensures var f := Store(NewFrame(h, stale), h, payload);
      FrameTrue(f, sender[h.frameId]) && GroupMissing(f, g.header) == [806] && !Recoverable(f, g)
  {
    var f := Store(NewFrame(h, stale), h, payload);
    NewFrameTrue(sender, h, payload, stale);
    StoreTrue(sender, NewFrame(h, stale), h, payload);
    OnlySecondMissing(f, g.header, 805);
    RecoverableIff(sender, f, g, 806);
  }

  lemma OnlySecondMissing(f: Frame, h: FECHeader, start: nat)
    requires Shaped(f) && h.fragmentStart == start && Covered(f, h) == 2
    requires f.fragmentMap[start] && !f.fragmentMap[start + 1]
    ensures GroupMissing(f, h) == [start + 1]
  {
    assert Missing(f.fragmentMap, start, 1) == [];
  }

  /** Every frame of more than 806 full payloads has such packets. */
  lemma LargestFramePackets(sender: Sender, id: nat) returns (h: VideoHeader, payload: seq<byte>, g: FECPacket)
    requires Sendable(sender) && id in sender && |sender[id].bytes| > 806 * MAX_UDP_PAYLOAD
    ensures GenuineVideo(sender, h, payload) && GenuineFEC(sender, g.header, g.payload)
    ensures h.totalFragments == 807 && h.fragmentIndex == g.header.fragmentStart == 805
    ensures g.header.frameId == h.frameId == id
  {
    var o := sender[id];
    payload := Fragment(o.bytes, 805);
    h := VideoHeader(id, 805, 807, o.stamps, Flags(o.isKeyframe, o.isHEVC), |payload|);
    var parity := seq(MAX_UDP_PAYLOAD, k requires 0 <= k => XorAll(Column(o.bytes, 805, 2, k)));
    g := FECPacket(FECHeader(id, 805, 2, MAX_UDP_PAYLOAD), parity);
  }
}
