/** The sending side: cutting an encoded frame into fragments and building parity for a group. */
module Packetizer {
  import opened Bytes
  import opened Protocol

  /** One encoded frame as the encoder produced it. */
  datatype Original = Original(bytes: seq<byte>, isKeyframe: bool, isHEVC: bool, stamps: Stamps)

  /** Everything the sender ever transmitted, by frame id. */
  type Sender = map<nat, Original>

  datatype VideoPacket = VideoPacket(header: VideoHeader, payload: seq<byte>)
  datatype FECPacket = FECPacket(header: FECHeader, payload: seq<byte>)

  function Min(a: nat, b: nat): nat {
    if a <= b then a else b
  }

  function FragmentCount(size: nat): nat {
    (size + MAX_UDP_PAYLOAD - 1) / MAX_UDP_PAYLOAD
  }

  function FragmentSize(size: nat, i: nat): (n: nat)
    requires i < FragmentCount(size)
    ensures 0 < n <= MAX_UDP_PAYLOAD && i * MAX_UDP_PAYLOAD + n <= size
    ensures i + 1 < FragmentCount(size) ==> n == MAX_UDP_PAYLOAD
    ensures i + 1 == FragmentCount(size) ==> i * MAX_UDP_PAYLOAD + n == size
  {
    Min(MAX_UDP_PAYLOAD, size - i * MAX_UDP_PAYLOAD)
  }

  function Fragment(bytes: seq<byte>, i: nat): (f: seq<byte>)
    requires i < FragmentCount(|bytes|)
  {
    bytes[i * MAX_UDP_PAYLOAD..i * MAX_UDP_PAYLOAD + FragmentSize(|bytes|, i)]
  }

  function Flags(isKeyframe: bool, isHEVC: bool): (flags: byte)
    ensures KeyframeFlag(flags) <==> isKeyframe
    ensures HEVCFlag(flags) <==> isHEVC
  {
    (if isKeyframe then 1 else 0) | (if isHEVC then 2 else 0)
  }

  /** A video packet that the sender really produced for frame `id`. */
  ghost predicate GenuineVideo(sender: Sender, header: VideoHeader, payload: seq<byte>) {
    && header.frameId in sender
    && var o := sender[header.frameId];
    && header.fragmentIndex < FragmentCount(|o.bytes|) == header.totalFragments
    && payload == Fragment(o.bytes, header.fragmentIndex)
    && header.dataSize == |payload|
    && header.flags == Flags(o.isKeyframe, o.isHEVC)
    && header.stamps == o.stamps
  }

  /** Every frame fits the receiver's buffers: 1 to 1048576 bytes. */
  ghost predicate Sendable(sender: Sender) {
    forall id :: id in sender ==> 1 <= |sender[id].bytes| <= FRAME_CAPACITY
  }

  function Concat(packets: seq<VideoPacket>): seq<byte> {
    if packets == [] then [] else Concat(packets[..|packets| - 1]) + packets[|packets| - 1].payload
  }

  lemma ConcatExtend(packets: seq<VideoPacket>, bytes: seq<byte>, i: nat, packet: VideoPacket)
    requires i < FragmentCount(|bytes|)
    requires Concat(packets) == bytes[..i * MAX_UDP_PAYLOAD]
    requires packet.payload == Fragment(bytes, i)
    ensures Concat(packets + [packet]) == bytes[..i * MAX_UDP_PAYLOAD + FragmentSize(|bytes|, i)]
  {
    assert (packets + [packet])[..|packets|] == packets;
  }

  /** The packets are the first fragments of frame `id`, each genuine. */
  ghost predicate FirstFragments(sender: Sender, id: nat, packets: seq<VideoPacket>) {
    forall i :: 0 <= i < |packets| ==>
      packets[i].header.fragmentIndex == i && packets[i].header.frameId == id
      && GenuineVideo(sender, packets[i].header, packets[i].payload)
  }

  lemma OneMoreFragment(sender: Sender, id: nat, packets: seq<VideoPacket>, packet: VideoPacket)
    requires FirstFragments(sender, id, packets) && GenuineVideo(sender, packet.header, packet.payload)
    requires packet.header.frameId == id && packet.header.fragmentIndex == |packets|
    ensures FirstFragments(sender, id, packets + [packet])
    ensures |packets| < FragmentCount(|sender[id].bytes|) && packet.payload == Fragment(sender[id].bytes, |packets|)
  {
  }

  /** Cuts a frame: consecutive fragments, each genuine, whose payloads concatenate to the frame.
      The 16-bit cast of the fragment count is exact for the sizes the receiver can hold. */
  method Packetize(sender: Sender, id: nat) returns (packets: seq<VideoPacket>)
    requires id in sender && |sender[id].bytes| <= FRAME_CAPACITY
    ensures |packets| == FragmentCount(|sender[id].bytes|) <= 807
    ensures FirstFragments(sender, id, packets)
    ensures Concat(packets) == sender[id].bytes
  {
    var o := sender[id];
    var totalFrags: uint16 := ((|o.bytes| + MAX_UDP_PAYLOAD - 1) / MAX_UDP_PAYLOAD) % 0x10000;
    packets := [];
    var i: uint16 := 0;
    while i < totalFrags
      invariant i <= totalFrags && |packets| == i
      invariant FirstFragments(sender, id, packets)
      invariant Concat(packets) == o.bytes[..Min(|o.bytes|, i * MAX_UDP_PAYLOAD)]
    {
      var packet := CutFragment(sender, id, totalFrags, i);
      OneMoreFragment(sender, id, packets, packet);
      ConcatExtend(packets, o.bytes, i, packet);
      packets := packets + [packet];
      i := i + 1;
    }
    assert o.bytes[..|o.bytes|] == o.bytes;
  }

  /** The body of the cutting loop: one header and one copied payload. */
  method CutFragment(sender: Sender, id: nat, totalFrags: uint16, i: uint16) returns (packet: VideoPacket)
    requires id in sender && |sender[id].bytes| <= FRAME_CAPACITY
    requires i < totalFrags == FragmentCount(|sender[id].bytes|)
    ensures packet.header.fragmentIndex == i && packet.header.frameId == id
    ensures GenuineVideo(sender, packet.header, packet.payload)
  {
    var o := sender[id];
    var dataSize: uint16 := Min(MAX_UDP_PAYLOAD, |o.bytes| - i * MAX_UDP_PAYLOAD);
    var payload := o.bytes[i * MAX_UDP_PAYLOAD..i * MAX_UDP_PAYLOAD + dataSize];
    packet := VideoPacket(VideoHeader(id, i, totalFrags, o.stamps, Flags(o.isKeyframe, o.isHEVC), dataSize), payload);
  }

  // ---------------------------------------------------------------- parity groups

  /** Byte `k` of fragment `i` once every fragment is zero-padded to the same length. */
  function PaddedByte(bytes: seq<byte>, i: nat, k: nat): byte
    requires i < FragmentCount(|bytes|)
  {
    if k < FragmentSize(|bytes|, i) then bytes[i * MAX_UDP_PAYLOAD + k] else 0
  }

  /** Byte `k` of each fragment of a group. */
  function Column(bytes: seq<byte>, start: nat, count: nat, k: nat): (c: seq<byte>)
    requires start + count <= FragmentCount(|bytes|)
    ensures |c| == count
    ensures forall i :: 0 <= i < count ==> c[i] == PaddedByte(bytes, start + i, k)
  {
    if count == 0 then [] else Column(bytes, start, count - 1, k) + [PaddedByte(bytes, start + count - 1, k)]
  }

  /** A parity packet that the sender really produced: an aligned group of at least two fragments,
      carrying the XOR of the zero-padded fragments. */
  ghost predicate GenuineFEC(sender: Sender, header: FECHeader, payload: seq<byte>) {
    && header.frameId in sender
    && var o := sender[header.frameId];
    && GroupOf(o.bytes, header.fragmentStart, header.fragmentCount)
    && header.dataSize == |payload| == MAX_UDP_PAYLOAD
    && forall k :: 0 <= k < |payload| ==>
         payload[k] == XorAll(Column(o.bytes, header.fragmentStart, header.fragmentCount, k))
  }

  /** The groups the sender forms: starts at multiples of five, up to five fragments, never a single one. */
  predicate GroupOf(bytes: seq<byte>, start: nat, count: nat) {
    && start % FEC_GROUP_SIZE == 0
    && start < FragmentCount(|bytes|)
    && count == Min(FEC_GROUP_SIZE, FragmentCount(|bytes|) - start)
    && 2 <= count
  }

  /** XORs a fragment into the front of the parity buffer, in place. */
  method XorInto(parity: array<byte>, data: seq<byte>)
    requires |data| <= parity.Length
    modifies parity
    ensures forall k :: 0 <= k < parity.Length ==>
      parity[k] == if k < |data| then Xor(old(parity[k]), data[k]) else old(parity[k])
  {
    for k := 0 to |data|
      invariant forall m :: k <= m < parity.Length ==> parity[m] == old(parity[m])
      invariant forall m :: 0 <= m < k ==> parity[m] == Xor(old(parity[m]), data[m])
    {
      parity[k] := Xor(parity[k], data[k]);
    }
  }

  /** The largest fragment of a group, which the parity header announces: always a full payload,
      because a group of two or more holds a fragment that is not the last one of its frame. */
  method GroupPayloadSize(bytes: seq<byte>, start: nat, count: nat) returns (size: nat)
    requires GroupOf(bytes, start, count)
    ensures size == MAX_UDP_PAYLOAD
  {
    size := 0;
    for j := 0 to count
      invariant size == if j == 0 then 0 else MAX_UDP_PAYLOAD
    {
      var dataSize := FragmentSize(|bytes|, start + j);
      size := if size < dataSize then dataSize else size;
    }
  }

  /** Adds one fragment of a group to the running parity. */
  method AddFragment(parity: array<byte>, bytes: seq<byte>, start: nat, j: nat)
    requires start + j < FragmentCount(|bytes|) && parity.Length == MAX_UDP_PAYLOAD
    requires forall k :: 0 <= k < parity.Length ==> parity[k] == XorAll(Column(bytes, start, j, k))
    modifies parity
    ensures forall k :: 0 <= k < parity.Length ==> parity[k] == XorAll(Column(bytes, start, j + 1, k))
  {
    var data := Fragment(bytes, start + j);
    XorInto(parity, data);
    forall k | 0 <= k < parity.Length
      ensures parity[k] == XorAll(Column(bytes, start, j + 1, k))
    {
      ColumnStep(bytes, start, j, k, old(parity[k]));
    }
  }

  /** The XOR of the zero-padded fragments of a group, accumulated fragment by fragment. */
  method ParityPayload(bytes: seq<byte>, start: nat, count: nat, size: nat) returns (payload: seq<byte>)
    requires start + count <= FragmentCount(|bytes|) && size == MAX_UDP_PAYLOAD
    ensures |payload| == size
    ensures forall k :: 0 <= k < |payload| ==> payload[k] == XorAll(Column(bytes, start, count, k))
  {
    var parity := new byte[size](_ => 0);
    var j := 0;
    while j < count
      invariant j <= count
      invariant forall k :: 0 <= k < parity.Length ==> parity[k] == XorAll(Column(bytes, start, j, k))
    {
      AddFragment(parity, bytes, start, j);
      j := j + 1;
    }
    payload := parity[..];
  }

  /** The parity packet of a group, built as the sender builds it. */
  method BuildParity(sender: Sender, id: nat, start: uint16, count: uint16) returns (packet: FECPacket)
    requires id in sender && |sender[id].bytes| <= FRAME_CAPACITY
    requires GroupOf(sender[id].bytes, start, count)
    ensures packet.header.frameId == id && packet.header.fragmentStart == start && packet.header.fragmentCount == count
    ensures GenuineFEC(sender, packet.header, packet.payload)
  {
    var bytes := sender[id].bytes;
    var size := GroupPayloadSize(bytes, start, count);
    var payload := ParityPayload(bytes, start, count, size);
    packet := FECPacket(FECHeader(id, start, count, size), payload);
  }

  lemma ColumnStep(bytes: seq<byte>, start: nat, j: nat, k: nat, acc: byte)
    requires start + j < FragmentCount(|bytes|)
    requires acc == XorAll(Column(bytes, start, j, k))
    ensures Xor(acc, PaddedByte(bytes, start + j, k)) == XorAll(Column(bytes, start, j + 1, k))
    ensures PaddedByte(bytes, start + j, k) == 0 ==> acc == XorAll(Column(bytes, start, j + 1, k))
  {
    XorAllExtend(Column(bytes, start, j, k), PaddedByte(bytes, start + j, k));
    XorLaws(acc, 0, 0);
  }
}
