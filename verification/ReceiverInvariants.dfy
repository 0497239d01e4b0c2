/** What every operation of the receiver keeps, for arbitrary packets and for genuine ones. */
module ReceiverInvariants {
  import opened Wrappers
  import opened Bytes
  import opened Protocol
  import opened Packetizer
  import opened Reassembly

  // ---------------------------------------------------------------- counting bits

  lemma {:induction false} SetBitsAfterSet(bits: seq<bool>, n: nat, i: nat)
    requires n <= |bits| && i < |bits| && !bits[i]
    ensures SetBits(bits[i := true], n) == SetBits(bits, n) + if i < n then 1 else 0
  {
    if n > 0 {
      SetBitsAfterSet(bits, n - 1, i);
    }
  }

  lemma {:induction false} MissingCount(bits: seq<bool>, n: nat)
    requires n <= |bits|
    ensures SetBits(bits, n) + |Missing(bits, 0, n)| == n
  {
    if n > 0 {
      MissingCount(bits, n - 1);
    }
  }

  /** Missing lists exactly the clear positions. */
  lemma {:induction false} MissingComplete(bits: seq<bool>, lo: nat, n: nat, i: nat)
    requires lo + n <= |bits| && lo <= i < lo + n
    ensures i in Missing(bits, lo, n) <==> !bits[i]
  {
    if i < lo + n - 1 {
      MissingComplete(bits, lo, n - 1, i);
    } else {
      MissingElements(bits, lo, n - 1, Missing(bits, lo, n - 1));
    }
  }

  /** Setting a bit outside the range changes nothing; setting the only clear one leaves none. */
  lemma {:induction false} MissingAfterSet(bits: seq<bool>, lo: nat, n: nat, i: nat)
    requires lo + n <= |bits| && i < |bits|
    ensures i < lo || lo + n <= i ==> Missing(bits[i := true], lo, n) == Missing(bits, lo, n)
    ensures Missing(bits, lo, n) == [i] ==> Missing(bits[i := true], lo, n) == []
  {
    if n > 0 {
      MissingAfterSet(bits, lo, n - 1, i);
      if Missing(bits, lo, n) == [i] {
        if i == lo + n - 1 {
          assert Missing(bits, lo, n - 1) == [];
          MissingAfterSetNone(bits, lo, n - 1, i);
        } else {
          assert Missing(bits, lo, n)[|Missing(bits, lo, n)| - 1] == i;
        }
      }
    }
  }

  lemma {:induction false} MissingAfterSetNone(bits: seq<bool>, lo: nat, n: nat, i: nat)
    requires lo + n <= |bits| && i < |bits| && Missing(bits, lo, n) == []
    ensures Missing(bits[i := true], lo, n) == []
  {
    if n > 0 {
      MissingAfterSetNone(bits, lo, n - 1, i);
    }
  }

  lemma {:induction false} AllClearMissing(bits: seq<bool>, lo: nat, n: nat)
    requires lo + n <= |bits| && forall i :: lo <= i < lo + n ==> !bits[i]
    ensures |Missing(bits, lo, n)| == n
  {
    if n > 0 {
      AllClearMissing(bits, lo, n - 1);
    }
  }

  lemma {:induction false} AllClearBits(bits: seq<bool>, n: nat)
    requires n <= |bits| && forall i :: 0 <= i < n ==> !bits[i]
    ensures SetBits(bits, n) == 0
  {
    AllClearMissing(bits, 0, n);
    MissingCount(bits, n);
  }

  /** When all bits are counted, every bit is set. */
  lemma FullCount(bits: seq<bool>, n: nat)
    requires n <= |bits|
    ensures SetBits(bits, n) == n <==> forall i :: 0 <= i < n ==> bits[i]
  {
    MissingCount(bits, n);
    if SetBits(bits, n) == n {
      forall i | 0 <= i < n ensures bits[i] {
        MissingComplete(bits, 0, n, i);
      }
    } else {
      var m := Missing(bits, 0, n);
      MissingElements(bits, 0, n, m);
      assert !bits[m[0]];
    }
  }

  // ---------------------------------------------------------------- bookkeeping, for arbitrary packets

  /** Counter against bit map; the completion flag may still have to be raised. */
  ghost predicate Counted(f: Frame) {
    && Shaped(f)
    && f.fragmentsReceived == SetBits(f.fragmentMap, f.totalFragments)
    && (f.isComplete ==> f.fragmentsReceived == f.totalFragments)
  }

  /** The counter is the number of set bits below the fragment count, and the flag says that it is full. */
  ghost predicate FrameOk(f: Frame) {
    && Counted(f)
    && (f.isComplete <==> f.fragmentsReceived == f.totalFragments)
  }

  ghost predicate StateOk(s: State) {
    && StateShaped(s)
    && (forall j :: 0 <= j < FRAME_RING && s.ring[j].Some? ==>
          FrameOk(s.ring[j].value) && s.nextId <= s.ring[j].value.frameId)
    && (!s.started ==> forall j :: 0 <= j < FRAME_RING ==> s.ring[j].None?)
    && (forall j :: 0 <= j < FEC_RING && s.fec[j].Some? ==>
          FECSlot(s.fec[j].value.header.frameId, s.fec[j].value.header.fragmentStart) == j)
  }

  lemma InitialOk()
    ensures StateOk(Initial())
  {
  }

  lemma NewFrameCounted(h: VideoHeader, stale: seq<byte>)
    requires h.totalFragments <= MAX_FRAGMENTS && |stale| == FRAME_CAPACITY
    ensures Counted(NewFrame(h, stale))
  {
    AllClearBits(seq(MAX_FRAGMENTS, _ => false), h.totalFragments);
  }

  lemma StoreCounted(f: Frame, h: VideoHeader, payload: seq<byte>)
    requires Counted(f) && |payload| == h.dataSize <= MAX_UDP_PAYLOAD
    requires h.fragmentIndex < f.totalFragments && !f.fragmentMap[h.fragmentIndex]
    ensures Counted(Store(f, h, payload))
  {
    SetBitsAfterSet(f.fragmentMap, f.totalFragments, h.fragmentIndex);
    FullCount(f.fragmentMap, f.totalFragments);
  }

  lemma TryRecoverCounted(f: Frame, g: Option<FECPacket>, start: nat)
    requires Counted(f) && ParityShaped(g)
    ensures Counted(TryRecoverFrame(f, g, start))
    ensures FrameOk(f) ==> FrameOk(TryRecoverFrame(f, g, start))
  {
    if !f.isComplete && HeldFor(g, f.frameId, start) && Recoverable(f, g.value) {
      var hole := GroupMissing(f, g.value.header)[0];
      GroupMissingElements(f, g.value.header, [hole]);
      SetBitsAfterSet(f.fragmentMap, f.totalFragments, hole);
    }
  }

  lemma AssembleOk(f: Frame, h: VideoHeader, payload: seq<byte>, g: Option<FECPacket>)
    requires Counted(f) && ParityShaped(g) && |payload| == h.dataSize <= MAX_UDP_PAYLOAD
    ensures FrameOk(Assemble(f, h, payload, g))
    ensures Assemble(f, h, payload, g).frameId == f.frameId
  {
    if h.fragmentIndex < f.totalFragments && !f.fragmentMap[h.fragmentIndex] {
      StoreCounted(f, h, payload);
      TryRecoverCounted(Store(f, h, payload), g, GroupStart(h.fragmentIndex));
    }
  }

  lemma WithFrameOk(s: State, f: Frame)
    requires StateOk(s) && s.started && FrameOk(f) && s.nextId <= f.frameId
    ensures StateOk(WithFrame(s, f))
  {
  }

  /** Bookkeeping survives every video packet, genuine or not. */
  lemma ProcessPacketOk(s: State, h: VideoHeader, payload: seq<byte>, stale: seq<byte>)
    requires StateOk(s) && |payload| == h.dataSize && |stale| == FRAME_CAPACITY
    ensures StateOk(ProcessPacket(s, h, payload, stale))
  {
    if !Ignored(s, h) {
      var g := Gate(s, h);
      var f := if Lookup(g, h.frameId).Some? then Lookup(g, h.frameId).value else NewFrame(h, stale);
      if Lookup(g, h.frameId).None? {
        NewFrameCounted(h, stale);
      }
      var p := s.fec[FECSlot(h.frameId, GroupStart(h.fragmentIndex))];
      AssembleOk(f, h, payload, p);
      WithFrameOk(g, Assemble(f, h, payload, p));
    }
  }

  /** Bookkeeping survives every parity packet, genuine or not. */
  lemma ProcessFECOk(s: State, g: FECPacket)
    requires StateOk(s) && ParityShaped(Some(g))
    ensures StateOk(ProcessFEC(s, g))
  {
    var j := FECSlot(g.header.frameId, g.header.fragmentStart);
    var f := Lookup(s, g.header.frameId);
    if g.header.frameId >= s.nextId && !HeldFor(s.fec[j], g.header.frameId, g.header.fragmentStart) {
      var t := s.(fec := s.fec[j := Some(g)]);
      assert StateOk(t);
      if f.Some? {
        TryRecoverCounted(f.value, Some(g), g.header.fragmentStart);
        WithFrameOk(t, TryRecoverFrame(f.value, Some(g), g.header.fragmentStart));
      }
    }
  }

  lemma TakeOk(s: State)
    requires StateOk(s)
    ensures StateOk(AfterTake(s))
  {
  }

  /** Every frame below the new read pointer is gone, every other frame is kept. */
  lemma ForceAdvanceOk(s: State, id: nat)
    requires StateOk(s)
    ensures StateOk(ForceAdvance(s, id))
    ensures forall k :: id <= k && s.nextId <= k ==> Lookup(ForceAdvance(s, id), k) == Lookup(s, k)
  {
  }
}
