/** The mutable frame object: its buffer is one array, written in place by memcpy and by the XOR loop. */
module FrameObjects {
  import opened Wrappers
  import opened Bytes
  import opened Protocol
  import opened Packetizer
  import opened Reassembly

  /** The vectors of the frame are sized once and never shrink or grow. */
  type FragmentMap = bits: seq<bool> | |bits| == MAX_FRAGMENTS witness seq(MAX_FRAGMENTS, _ => false)
  type FragmentSizes = sizes: seq<nat> | |sizes| == MAX_FRAGMENTS witness seq(MAX_FRAGMENTS, _ => 0)

  class FrameData {
    const buffer: array<byte>
    var frameId: nat
    var totalSize: nat
    var fragmentsReceived: nat
    var totalFragments: nat
    var stamps: Stamps
    var isComplete: bool
    var isKeyframe: bool
    var isHEVC: bool
    var fragmentMap: FragmentMap
    var fragmentSizes: FragmentSizes
    ghost var byParity: set<nat>

    constructor ()
      ensures fresh(buffer) && buffer.Length == FRAME_CAPACITY
    {
      buffer := new byte[FRAME_CAPACITY](_ => 0);
      frameId, totalSize, fragmentsReceived, totalFragments := 0, 0, 0, 0;
      stamps := Stamps(0, 0, 0);
      isComplete, isKeyframe, isHEVC := false, false, false;
      fragmentMap := seq(MAX_FRAGMENTS, _ => false);
      fragmentSizes := seq(MAX_FRAGMENTS, _ => 0);
      byParity := {};
    }

    ghost function Value(): Frame
      reads this, buffer
    {
      Frame(frameId, buffer[..], totalSize, fragmentsReceived, totalFragments, stamps,
            isComplete, isKeyframe, isHEVC, fragmentMap, fragmentSizes, byParity)
    }

    /** Clears everything except the buffer, which keeps the bytes of the previous frame. */
    method Reset()
      modifies this
      ensures fragmentMap == seq(MAX_FRAGMENTS, _ => false) && fragmentSizes == seq(MAX_FRAGMENTS, _ => 0)
      ensures frameId == totalSize == fragmentsReceived == totalFragments == 0 && stamps == Stamps(0, 0, 0)
      ensures !isComplete && !isKeyframe && !isHEVC && byParity == {}
    {
      frameId, totalSize, fragmentsReceived, totalFragments := 0, 0, 0, 0;
      stamps := Stamps(0, 0, 0);
      isComplete, isKeyframe, isHEVC := false, false, false;
      fragmentMap := seq(MAX_FRAGMENTS, _ => false);
      fragmentSizes := seq(MAX_FRAGMENTS, _ => 0);
      byParity := {};
    }

    /** The frame starts over for the id of a new header. */
    method Begin(h: VideoHeader)
      modifies this
      ensures Value() == NewFrame(h, old(buffer[..]))
    {
      Reset();
      frameId := h.frameId;
      totalFragments := h.totalFragments;
      stamps := h.stamps;
      isKeyframe := KeyframeFlag(h.flags);
      isHEVC := HEVCFlag(h.flags);
    }

    /** memcpy into the buffer. */
    method CopyIn(offset: nat, data: seq<byte>)
      requires offset + |data| <= buffer.Length
      modifies buffer
      ensures buffer[..] == Patch(old(buffer[..]), offset, data)
    {
      forall k | 0 <= k < |data| {
        buffer[offset + k] := data[k];
      }
    }

    /** A fragment that arrived directly. */
    method StoreFragment(h: VideoHeader, payload: seq<byte>)
      requires Shaped(Value()) && |payload| == h.dataSize <= MAX_UDP_PAYLOAD && h.fragmentIndex < totalFragments
      modifies this, buffer
      ensures Value() == Store(old(Value()), h, payload)
    {
      var offset := h.fragmentIndex * MAX_UDP_PAYLOAD;
      if offset + h.dataSize <= buffer.Length {
        CopyIn(offset, payload);
        fragmentMap := fragmentMap[h.fragmentIndex := true];
        fragmentSizes := fragmentSizes[h.fragmentIndex := h.dataSize];
        fragmentsReceived := fragmentsReceived + 1;
        if h.fragmentIndex == h.totalFragments - 1 {
          totalSize := offset + h.dataSize;
        }
      }
    }

    /** The index of a group member, in 16-bit arithmetic. */
    static method GroupIndex(start: uint16, i: uint16) returns (idx: uint16)
      ensures idx == if start + i < 0x10000 then start + i else start + i - 0x10000
    {
      idx := (start + i) % 0x10000;
    }

    /** The counting loop of TryRecover: it stops at the frame's end, after as many fragments as there are steps in
        `found`, and remembers the last clear position. */
    static method CountClear(bits: seq<bool>, total: nat, start: uint16, count: uint16, ghost found: seq<seq<nat>>)
      returns (missingCount: nat, missingIndex: nat)
      requires total <= |bits| == MAX_FRAGMENTS && 0 < |found| <= count + 1
      requires |found| > 1 ==> start + |found| - 1 <= total
      requires |found| <= count ==> total <= start + |found| - 1
      requires found[0] == [] && forall i :: 0 < i < |found| ==> ClearStep(bits, start, found, i)
      ensures var last := found[|found| - 1];
        missingCount == |last| && (missingCount > 0 ==> missingIndex == last[missingCount - 1])
    {
      missingIndex, missingCount := 0, 0;
      var i := 0;
      while i < count
        invariant i < |found|
        invariant missingCount == |found[i]| && (missingCount > 0 ==> missingIndex == found[i][missingCount - 1])
      {
        var idx := GroupIndex(start, i);
        if idx >= total || idx >= |bits| {
          break;
        }
        assert ClearStep(bits, start, found, i + 1);
        if !bits[idx] {
          missingCount := missingCount + 1;
          missingIndex := idx;
        }
        i := i + 1;
      }
    }

    /** XORs one held fragment into the region being rebuilt, in place. */
    method XorHeld(offset: nat, size: nat, idx: nat)
      requires Shaped(Value()) && idx < MAX_FRAGMENTS && size <= MAX_UDP_PAYLOAD && offset + size <= buffer.Length
      requires offset + size <= idx * MAX_UDP_PAYLOAD || idx * MAX_UDP_PAYLOAD + MAX_UDP_PAYLOAD <= offset
      modifies buffer
      ensures forall b :: 0 <= b < buffer.Length && !(offset <= b < offset + size) ==> buffer[b] == old(buffer[b])
      ensures forall b :: offset <= b < offset + size ==>
        buffer[b] == Xor(old(buffer[b]), HeldByte(old(Value()), idx, b - offset))
    {
      var otherOffset := idx * MAX_UDP_PAYLOAD;
      var xorSize := Min(size, fragmentSizes[idx]);
      for k := 0 to xorSize
        invariant forall b :: 0 <= b < buffer.Length && !(offset <= b < offset + k) ==> buffer[b] == old(buffer[b])
        invariant forall b :: offset <= b < offset + k ==>
          buffer[b] == Xor(old(buffer[b]), old(buffer[otherOffset + b - offset]))
      {
        buffer[offset + k] := Xor(buffer[offset + k], buffer[otherOffset + k]);
      }
      forall b | offset <= b < offset + size
        ensures buffer[b] == Xor(old(buffer[b]), HeldByte(old(Value()), idx, b - offset))
      {
        XorLaws(old(buffer[b]), 0, 0);
      }
    }

    /** One turn of the outer XOR loop. */
    method XorGroupMember(ghost before: Frame, g: FECPacket, hole: nat, i: uint16)
      requires Shaped(before) && Shaped(Value()) && Value().(buffer := before.buffer) == before
      requires |g.payload| == g.header.dataSize <= MAX_UDP_PAYLOAD
      requires PartlyRebuilt(before, g, hole, i, buffer[..])
      modifies buffer
      ensures PartlyRebuilt(before, g, hole, i + 1, buffer[..])
    {
      var idx := (g.header.fragmentStart + i) % 0x10000;
      var offset := hole * MAX_UDP_PAYLOAD;
      ghost var was := Value();
      if !(idx == hole || idx >= totalFragments) {
        XorHeld(offset, g.header.dataSize, idx);
        HeldXored(before, was, g, hole, i, idx, buffer[..]);
      } else {
        NothingXored(before, g, hole, i, was.buffer);
      }
      RebuiltGrows(before, g, hole, i, was.buffer, buffer[..]);
    }

    /** memset and memcpy: the hole's region starts as the parity payload. */
    method LoadParity(g: FECPacket, hole: nat)
      requires Shaped(Value()) && |g.payload| == g.header.dataSize
      requires hole * MAX_UDP_PAYLOAD + g.header.dataSize <= FRAME_CAPACITY
      modifies buffer
      ensures PartlyRebuilt(old(Value()), g, hole, 0, buffer[..])
    {
      var offset := hole * MAX_UDP_PAYLOAD;
      CopyIn(offset, seq(g.header.dataSize, _ => 0));
      CopyIn(offset, g.payload);
      RebuildStarts(old(Value()), g, hole, buffer[..]);
    }

    /** The double XOR loop: parity first, then every held fragment of the group but the hole. */
    method RebuildRegion(g: FECPacket, hole: nat)
      requires Shaped(Value()) && |g.payload| == g.header.dataSize <= MAX_UDP_PAYLOAD
      requires hole * MAX_UDP_PAYLOAD + g.header.dataSize <= FRAME_CAPACITY
      modifies buffer
      ensures buffer[..] == Patch(old(buffer[..]), hole * MAX_UDP_PAYLOAD, RecoveredPayload(old(Value()), g, hole))
    {
      ghost var before := Value();
      LoadParity(g, hole);
      SameShape(before, Value());
      var i: uint16 := 0;
      while i < g.header.fragmentCount
        invariant i <= g.header.fragmentCount
        invariant Shaped(Value()) && Value().(buffer := before.buffer) == before
        invariant PartlyRebuilt(before, g, hole, i, buffer[..])
      {
        XorGroupMember(before, g, hole, i);
        SameShape(before, Value());
        i := i + 1;
      }
      RebuildEnds(before, g, hole, buffer[..]);
    }

    /** The first loop of TryRecover. */
    method CountMissing(h: FECHeader) returns (missingCount: nat, missingIndex: nat)
      requires Shaped(Value())
      ensures missingCount == |GroupMissing(Value(), h)|
      ensures missingCount > 0 ==> missingIndex == GroupMissing(Value(), h)[missingCount - 1]
    {
      ghost var found := ClearSteps(fragmentMap, h.fragmentStart, Covered(Value(), h));
      missingCount, missingIndex := CountClear(fragmentMap, totalFragments, h.fragmentStart, h.fragmentCount, found);
    }

    /** The part of TryRecover after the guards. */
    method Rebuild(g: FECPacket)
      requires Shaped(Value()) && ParityShaped(Some(g)) && !isComplete
      modifies this, buffer
      ensures Value() == if Recoverable(old(Value()), g) then Recover(old(Value()), g) else old(Value())
    {
      var missingCount, missingIndex := CountMissing(g.header);
      if missingCount == 1 {
        var offset := missingIndex * MAX_UDP_PAYLOAD;
        if offset + g.header.dataSize > buffer.Length {
          return;
        }
        RebuildRegion(g, missingIndex);
        CountRecovered(g.header.dataSize, missingIndex);
      }
    }

    /** The entries of a fragment that has just been rebuilt. */
    method CountRecovered(dataSize: nat, missingIndex: nat)
      requires missingIndex < MAX_FRAGMENTS && !isComplete
      modifies this
      ensures var f := old(Value()); Value() == f.(
        fragmentMap := f.fragmentMap[missingIndex := true],
        fragmentSizes := f.fragmentSizes[missingIndex := dataSize],
        fragmentsReceived := f.fragmentsReceived + 1,
        totalSize := if missingIndex == f.totalFragments - 1 then missingIndex * MAX_UDP_PAYLOAD + dataSize
                     else f.totalSize,
        isComplete := f.fragmentsReceived + 1 == f.totalFragments,
        byParity := f.byParity + {missingIndex})
    {
      fragmentMap := fragmentMap[missingIndex := true];
      fragmentSizes := fragmentSizes[missingIndex := dataSize];
      byParity := byParity + {missingIndex};
      fragmentsReceived := fragmentsReceived + 1;
      if missingIndex == totalFragments - 1 {
        totalSize := missingIndex * MAX_UDP_PAYLOAD + dataSize;
      }
      if fragmentsReceived == totalFragments {
        isComplete := true;
      }
    }
  }

  /** Looking at one more fragment adds it to the list exactly when its bit is clear. */
  ghost predicate ClearStep(bits: seq<bool>, start: nat, found: seq<seq<nat>>, i: nat)
    requires 0 < i < |found| && start + i <= |bits|
  {
    found[i] == found[i - 1] + if bits[start + i - 1] then [] else [start + i - 1]
  }

  /** The clear positions among the first `i` fragments of a group. */
  ghost function MissingFirst(bits: seq<bool>, start: nat, i: nat): seq<nat>
    requires i > 0 ==> start + i <= |bits|
  {
    if i == 0 then [] else Missing(bits, start, i)
  }

  lemma {:induction false} MissingLists(bits: seq<bool>, start: nat, n: nat) returns (found: seq<seq<nat>>)
    requires n > 0 ==> start + n <= |bits|
    ensures |found| == n + 1 && forall i :: 0 <= i <= n ==> found[i] == MissingFirst(bits, start, i)
  {
    if n == 0 {
      found := [[]];
    } else {
      found := MissingLists(bits, start, n - 1);
      found := found + [Missing(bits, start, n)];
    }
  }

  /** What the loop has found after each of `n` fragments, ending with the group's missing list. */
  lemma ClearSteps(bits: seq<bool>, start: nat, n: nat) returns (found: seq<seq<nat>>)
    requires n > 0 ==> start + n <= |bits|
    ensures |found| == n + 1 && found[0] == [] && found[n] == MissingFirst(bits, start, n)
    ensures forall i :: 0 < i < |found| ==> ClearStep(bits, start, found, i)
  {
    found := MissingLists(bits, start, n);
    forall i | 0 < i < |found|
      ensures ClearStep(bits, start, found, i)
    {
      assert found[i] == MissingFirst(bits, start, i) && found[i - 1] == MissingFirst(bits, start, i - 1);
      if i == 1 {
        assert Missing(bits, start, 0) == [];
      }
    }
  }

  /** The buffer while the first `n` fragments of the group have been XORed into the hole's region. */
  ghost predicate PartlyRebuilt(before: Frame, g: FECPacket, hole: nat, n: nat, now: seq<byte>)
    requires Shaped(before)
  {
    && |now| == FRAME_CAPACITY && hole * MAX_UDP_PAYLOAD + |g.payload| <= FRAME_CAPACITY
    && Outside(before.buffer, now, hole * MAX_UDP_PAYLOAD, |g.payload|)
    && Inside(before, g, hole, n, now)
  }

  ghost predicate Outside(before: seq<byte>, now: seq<byte>, offset: nat, size: nat) {
    |before| == |now| && forall b :: 0 <= b < |now| && !(offset <= b < offset + size) ==> now[b] == before[b]
  }

  ghost predicate Inside(before: Frame, g: FECPacket, hole: nat, n: nat, now: seq<byte>)
    requires Shaped(before) && hole * MAX_UDP_PAYLOAD + |g.payload| <= |now|
  {
    var offset := hole * MAX_UDP_PAYLOAD;
    forall b :: offset <= b < offset + |g.payload| ==>
      now[b] == Xor(g.payload[b - offset], XorAll(OtherColumn(before, g.header, hole, n, b - offset)))
  }

  /** One turn of the loop: fragment `i` of the group is XORed into the hole's region. */
  ghost predicate Xored(before: Frame, g: FECPacket, hole: nat, i: nat, was: seq<byte>, now: seq<byte>)
    requires Shaped(before)
  {
    && |was| == |now| == FRAME_CAPACITY
    && forall b :: 0 <= b < FRAME_CAPACITY ==>
         now[b] == if hole * MAX_UDP_PAYLOAD <= b < hole * MAX_UDP_PAYLOAD + |g.payload|
                   then Xor(was[b], OtherByte(before, g.header, hole, i, b - hole * MAX_UDP_PAYLOAD)) else was[b]
  }

  lemma NothingXored(before: Frame, g: FECPacket, hole: nat, i: nat, was: seq<byte>)
    requires Shaped(before) && |was| == FRAME_CAPACITY
    requires forall k :: OtherByte(before, g.header, hole, i, k) == 0
    ensures Xored(before, g, hole, i, was, was)
  {
    forall b | 0 <= b < FRAME_CAPACITY
      ensures Xor(was[b], 0) == was[b]
    {
      XorLaws(was[b], 0, 0);
    }
  }

  lemma InsideGrows(before: Frame, g: FECPacket, hole: nat, i: nat, was: seq<byte>, now: seq<byte>)
    requires Shaped(before) && Xored(before, g, hole, i, was, now)
    requires hole * MAX_UDP_PAYLOAD + |g.payload| <= FRAME_CAPACITY && Inside(before, g, hole, i, was)
    ensures Inside(before, g, hole, i + 1, now)
  {
    var offset := hole * MAX_UDP_PAYLOAD;
    forall b | offset <= b < offset + |g.payload|
      ensures now[b] == Xor(g.payload[b - offset], XorAll(OtherColumn(before, g.header, hole, i + 1, b - offset)))
    {
      var k := b - offset;
      assert was[b] == Xor(g.payload[k], XorAll(OtherColumn(before, g.header, hole, i, k)));
      assert now[b] == Xor(was[b], OtherByte(before, g.header, hole, i, k));
      ColumnGrows(before, g.header, hole, i, k, g.payload[k]);
    }
  }

  lemma RebuiltGrows(before: Frame, g: FECPacket, hole: nat, i: nat, was: seq<byte>, now: seq<byte>)
    requires Shaped(before) && PartlyRebuilt(before, g, hole, i, was) && Xored(before, g, hole, i, was, now)
    ensures PartlyRebuilt(before, g, hole, i + 1, now)
  {
    InsideGrows(before, g, hole, i, was, now);
  }

  lemma HeldXored(before: Frame, was: Frame, g: FECPacket, hole: nat, i: nat, idx: nat, now: seq<byte>)
    requires Shaped(before) && Shaped(was) && was.(buffer := before.buffer) == before && |now| == FRAME_CAPACITY
    requires |g.payload| <= MAX_UDP_PAYLOAD && Outside(before.buffer, was.buffer, hole * MAX_UDP_PAYLOAD, |g.payload|)
    requires idx == (g.header.fragmentStart + i) % 0x10000 && idx != hole && idx < before.totalFragments
    requires Outside(was.buffer, now, hole * MAX_UDP_PAYLOAD, |g.payload|)
    requires forall b :: hole * MAX_UDP_PAYLOAD <= b < hole * MAX_UDP_PAYLOAD + |g.payload| && b < FRAME_CAPACITY ==>
      now[b] == Xor(was.buffer[b], HeldByte(was, idx, b - hole * MAX_UDP_PAYLOAD))
    ensures Xored(before, g, hole, i, was.buffer, now)
  {
    HeldElsewhere(before, was, hole, |g.payload|, idx);
    forall k | 0 <= k < |g.payload|
      ensures HeldByte(was, idx, k) == OtherByte(before, g.header, hole, i, k)
    {
    }
  }

  lemma RebuildStarts(before: Frame, g: FECPacket, hole: nat, now: seq<byte>)
    requires Shaped(before) && hole * MAX_UDP_PAYLOAD + |g.payload| <= FRAME_CAPACITY == |now|
    requires forall b :: 0 <= b < FRAME_CAPACITY ==>
      now[b] == if hole * MAX_UDP_PAYLOAD <= b < hole * MAX_UDP_PAYLOAD + |g.payload|
                then g.payload[b - hole * MAX_UDP_PAYLOAD] else before.buffer[b]
    ensures PartlyRebuilt(before, g, hole, 0, now)
  {
    var offset := hole * MAX_UDP_PAYLOAD;
    forall b | offset <= b < offset + |g.payload|
      ensures now[b] == Xor(g.payload[b - offset], XorAll(OtherColumn(before, g.header, hole, 0, b - offset)))
    {
      XorLaws(now[b], 0, 0);
    }
  }

  lemma SameShape(before: Frame, now: Frame)
    requires Shaped(before) && now.(buffer := before.buffer) == before && |now.buffer| == FRAME_CAPACITY
    ensures Shaped(now)
  {
  }

  lemma RebuildEnds(before: Frame, g: FECPacket, hole: nat, now: seq<byte>)
    requires Shaped(before) && PartlyRebuilt(before, g, hole, g.header.fragmentCount, now)
    ensures now == Patch(before.buffer, hole * MAX_UDP_PAYLOAD, RecoveredPayload(before, g, hole))
  {
  }

  /** The bytes of a fragment outside the region being rebuilt are still the original ones. */
  lemma HeldElsewhere(before: Frame, now: Frame, hole: nat, size: nat, idx: nat)
    requires Shaped(before) && Shaped(now) && now.(buffer := before.buffer) == before
    requires idx != hole && idx < MAX_FRAGMENTS && size <= MAX_UDP_PAYLOAD
    requires forall b :: 0 <= b < FRAME_CAPACITY && !(hole * MAX_UDP_PAYLOAD <= b < hole * MAX_UDP_PAYLOAD + size) ==>
      now.buffer[b] == before.buffer[b]
    ensures forall k :: 0 <= k < MAX_UDP_PAYLOAD ==> HeldByte(now, idx, k) == HeldByte(before, idx, k)
  {
  }

  lemma ColumnGrows(f: Frame, h: FECHeader, hole: nat, i: nat, k: nat, p: byte)
    requires Shaped(f)
    ensures Xor(p, XorAll(OtherColumn(f, h, hole, i + 1, k)))
         == Xor(Xor(p, XorAll(OtherColumn(f, h, hole, i, k))), OtherByte(f, h, hole, i, k))
    ensures OtherByte(f, h, hole, i, k) == 0 ==>
      Xor(p, XorAll(OtherColumn(f, h, hole, i + 1, k))) == Xor(p, XorAll(OtherColumn(f, h, hole, i, k)))
  {
    var a, b := XorAll(OtherColumn(f, h, hole, i, k)), OtherByte(f, h, hole, i, k);
    XorAllExtend(OtherColumn(f, h, hole, i, k), b);
    XorLaws(p, a, b);
    XorLaws(a, 0, 0);
  }
}
