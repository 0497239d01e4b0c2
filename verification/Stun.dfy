/** The two attribute walkers over a STUN Binding Response (sections 6, 15, 15.1 and 15.2 of RFC 5389). */
module Stun {
  import opened Words
  import opened Wrappers

  type octet = n: nat | n < 256

  const HEADER_SIZE: nat := 20
  const BINDING_SUCCESS: nat := 0x0101
  const MAPPED_ADDRESS: nat := 0x0001
  const XOR_MAPPED_ADDRESS: nat := 0x0020
  const MAGIC_COOKIE: seq<octet> := [0x21, 0x12, 0xA4, 0x42]
  const MAGIC_HIGH: nat := 0x2112

  /** An IPv4 address in network order and a port. */
  datatype Endpoint = Endpoint(address: seq<octet>, port: nat)

  // ---------------------------------------------------------------- what the bytes mean

  /** Two bytes in network order. */
  function Word(b: seq<octet>, at: nat): nat
    requires at + 2 <= |b|
  {
    var high: nat := b[at];
    high * 256 + b[at + 1]
  }

  function XorOctet(a: octet, b: octet): octet {
    XorBounded(a, b, 8);
    Xor(a, b)
  }

  /** A 32-bit address XOR-ed with the magic cookie in network order, byte by byte. */
  function Unmask(bytes: seq<octet>): (r: seq<octet>)
    requires |bytes| == 4
    ensures |r| == 4 && forall i :: 0 <= i < 4 ==> r[i] == XorOctet(bytes[i], MAGIC_COOKIE[i])
  {
    [XorOctet(bytes[0], MAGIC_COOKIE[0]), XorOctet(bytes[1], MAGIC_COOKIE[1]),
     XorOctet(bytes[2], MAGIC_COOKIE[2]), XorOctet(bytes[3], MAGIC_COOKIE[3])]
  }

  function Padding(length: nat): nat {
    if length % 4 != 0 then 4 - length % 4 else 0
  }

  predicate IsAddress(kind: nat, length: nat) {
    (kind == MAPPED_ADDRESS || kind == XOR_MAPPED_ADDRESS) && length >= 8
  }

  /** The endpoint an address attribute stands for: two bytes are skipped, then port and address. */
  function Decode(kind: nat, value: seq<octet>): Endpoint
    requires IsAddress(kind, |value|)
  {
    if kind == MAPPED_ADDRESS then
      Endpoint(value[4..8], Word(value, 2))
    else
      Endpoint(Unmask(value[4..8]), Xor(Word(value, 2), MAGIC_HIGH))
  }

  /** The endpoint found from an offset on: that of the first address attribute that lies inside the bytes. */
  function Walk(b: seq<octet>, offset: nat): Option<Endpoint>
    decreases |b| - offset
  {
    if offset + 4 > |b| then None
    else
      var kind, length := Word(b, offset), Word(b, offset + 2);
      if offset + 4 + length > |b| then None
      else if IsAddress(kind, length) then Some(Decode(kind, b[offset + 4..offset + 4 + length]))
      else Walk(b, offset + 4 + length + Padding(length))
  }

  /** What a received datagram tells about the public endpoint. */
  function Response(b: seq<octet>): Option<Endpoint> {
    if |b| >= HEADER_SIZE && Word(b, 0) == BINDING_SUCCESS then Walk(b, HEADER_SIZE) else None
  }

  // ---------------------------------------------------------------- the two walkers

  /** The loop of GetPublicEndpoint. */
  method GetPublicEndpoint(buf: seq<octet>, oldIp: seq<octet>, oldPort: nat)
      returns (ok: bool, publicIp: seq<octet>, publicPort: nat)
    ensures ok <==> Response(buf).Some?
    ensures ok ==> Response(buf) == Some(Endpoint(publicIp, publicPort))
    ensures !ok ==> publicIp == oldIp && publicPort == oldPort
  {
    publicIp, publicPort := oldIp, oldPort;
    var len := |buf|;
    if len >= HEADER_SIZE {
      if Word(buf, 0) == BINDING_SUCCESS {
        var offset := HEADER_SIZE;
        while offset + 4 <= len && offset + 4 + Word(buf, offset + 2) <= len
          invariant Response(buf) == Walk(buf, offset)
          decreases len - offset
        {
          var attrType, attrLen := Word(buf, offset), Word(buf, offset + 2);
          if attrType == MAPPED_ADDRESS && attrLen >= 8 {
            publicPort := Word(buf, offset + 6);
            publicIp := buf[offset + 8..offset + 12];
            MappedInPlace(buf, offset, attrLen);
            return true, publicIp, publicPort;
          } else if attrType == XOR_MAPPED_ADDRESS && attrLen >= 8 {
            publicPort := Xor(Word(buf, offset + 6), MAGIC_HIGH);
            publicIp := Unmask(buf[offset + 8..offset + 12]);
            XorMappedInPlace(buf, offset, attrLen);
            return true, publicIp, publicPort;
          }
          offset := offset + 4 + attrLen;
          if attrLen % 4 != 0 {
            offset := offset + (4 - attrLen % 4);
          }
        }
      }
    }
    ok := false;
  }

  /** The loop of GetPublicEndpointParallel, for one datagram. */
  method GetPublicEndpointParallel(buf: seq<octet>, oldIp: seq<octet>, oldPort: nat)
      returns (ok: bool, publicIp: seq<octet>, publicPort: nat)
    ensures ok <==> Response(buf).Some?
    ensures ok ==> Response(buf) == Some(Endpoint(publicIp, publicPort))
    ensures !ok ==> publicIp == oldIp && publicPort == oldPort
  {
    publicIp, publicPort := oldIp, oldPort;
    var len := |buf|;
    if len >= 20 {
      var kind := Word(buf, 0);
      if kind == BINDING_SUCCESS {
        var offset := 20;
        while offset + 4 <= len
          invariant Response(buf) == Walk(buf, offset)
          decreases len - offset
        {
          var attrType, attrLen := Word(buf, offset), Word(buf, offset + 2);
          if offset + 4 + attrLen > len {
            break;
          }
          if attrType == MAPPED_ADDRESS && attrLen >= 8 {
            publicPort := Word(buf, offset + 6);
            publicIp := buf[offset + 8..offset + 12];
            MappedInPlace(buf, offset, attrLen);
            return true, publicIp, publicPort;
          } else if attrType == XOR_MAPPED_ADDRESS && attrLen >= 8 {
            publicPort := Xor(Word(buf, offset + 6), MAGIC_HIGH);
            publicIp := Unmask(buf[offset + 8..offset + 12]);
            XorMappedInPlace(buf, offset, attrLen);
            return true, publicIp, publicPort;
          }
          offset := offset + 4 + attrLen;
          if attrLen % 4 != 0 {
            offset := offset + (4 - attrLen % 4);
          }
        }
      }
    }
    ok := false;
  }

  lemma SliceOfSlice<T>(b: seq<T>, low: nat, high: nat, i: nat, j: nat)
    requires low <= high <= |b| && i <= j <= high - low
    ensures b[low..high][i..j] == b[low + i..low + j]
  {
    var inner, outer := b[low..high][i..j], b[low + i..low + j];
    forall k | 0 <= k < j - i
      ensures inner[k] == outer[k]
    {
      assert inner[k] == b[low..high][i + k] == b[low + (i + k)];
    }
  }

  lemma MappedInPlace(b: seq<octet>, offset: nat, length: nat)
    requires 8 <= length && offset + 4 + length <= |b|
    ensures Decode(MAPPED_ADDRESS, b[offset + 4..offset + 4 + length])
         == Endpoint(b[offset + 8..offset + 12], Word(b, offset + 6))
  {
    SliceOfSlice(b, offset + 4, offset + 4 + length, 4, 8);
  }

  lemma XorMappedInPlace(b: seq<octet>, offset: nat, length: nat)
    requires 8 <= length && offset + 4 + length <= |b|
    ensures Decode(XOR_MAPPED_ADDRESS, b[offset + 4..offset + 4 + length])
         == Endpoint(Unmask(b[offset + 8..offset + 12]), Xor(Word(b, offset + 6), MAGIC_HIGH))
  {
    SliceOfSlice(b, offset + 4, offset + 4 + length, 4, 8);
  }

  /** A server's message, as the walkers read it. Both of them give the same answer on every byte buffer. */
  method AskBoth(buf: seq<octet>, oldIp: seq<octet>, oldPort: nat) returns (same: bool)
    ensures same
  {
    var ok, ip, port := GetPublicEndpoint(buf, oldIp, oldPort);
    var ok', ip', port' := GetPublicEndpointParallel(buf, oldIp, oldPort);
    same := ok == ok' && ip == ip' && port == port';
  }

  // ---------------------------------------------------------------- the sending side, per RFC 5389

  /** An attribute of section 15: its value is padded to a multiple of four with any bytes. */
  datatype Attribute = Attribute(kind: nat, value: seq<octet>, padding: seq<octet>)

  predicate WellFormed(a: Attribute) {
    a.kind < 0x10000 && |a.value| < 0x10000 && |a.padding| == Padding(|a.value|)
  }

  function Two(n: nat): seq<octet>
    requires n < 0x10000
  {
    [n / 256, n % 256]
  }

  function Encode(a: Attribute): seq<octet>
    requires WellFormed(a)
  {
    Two(a.kind) + Two(|a.value|) + a.value + a.padding
  }

  function Serialize(attributes: seq<Attribute>): seq<octet>
    requires forall a :: a in attributes ==> WellFormed(a)
  {
    if attributes == [] then [] else Encode(attributes[0]) + Serialize(attributes[1..])
  }

  /** The endpoint of the first address attribute of a list. */
  function FirstAddress(attributes: seq<Attribute>): Option<Endpoint> {
    if attributes == [] then None
    else if IsAddress(attributes[0].kind, |attributes[0].value|) then
      Some(Decode(attributes[0].kind, attributes[0].value))
    else FirstAddress(attributes[1..])
  }

  /** An encoded attribute is read back, wherever it stands. */
  lemma AttributeAt(before: seq<octet>, a: Attribute, after: seq<octet>)
    requires WellFormed(a)
    ensures var b, at := before + (Encode(a) + after), |before|;
      && at + 4 + |a.value| <= |b|
      && Word(b, at) == a.kind && Word(b, at + 2) == |a.value|
      && b[at + 4..at + 4 + |a.value|] == a.value
  {
    var b, at := before + (Encode(a) + after), |before|;
    assert b[at] == Two(a.kind)[0] && b[at + 1] == Two(a.kind)[1];
    assert b[at + 2] == Two(|a.value|)[0] && b[at + 3] == Two(|a.value|)[1];
  }

  /** An attribute stands at this offset. */
  predicate Stands(b: seq<octet>, offset: nat, a: Attribute) {
    && offset + 4 + |a.value| <= |b|
    && Word(b, offset) == a.kind && Word(b, offset + 2) == |a.value|
    && b[offset + 4..offset + 4 + |a.value|] == a.value
  }

  /** These attributes stand one after the other from this offset on. */
  predicate Reads(b: seq<octet>, offset: nat, attributes: seq<Attribute>)
    decreases |attributes|
  {
    attributes == [] || (
      && Stands(b, offset, attributes[0])
      && Reads(b, offset + 4 + |attributes[0].value| + Padding(|attributes[0].value|), attributes[1..]))
  }

  lemma Regroup<T>(a: seq<T>, b: seq<T>, c: seq<T>, d: seq<T>)
    ensures a + (b + c) + d == a + (b + (c + d)) == a + b + c + d
  {
  }

  /** A serialized list reads back, whatever stands before and after it. */
  lemma {:induction false} SerializedReads(before: seq<octet>, attributes: seq<Attribute>, tail: seq<octet>,
                                           b: seq<octet>)
    requires forall a :: a in attributes ==> WellFormed(a)
    requires b == before + Serialize(attributes) + tail
    ensures Reads(b, |before|, attributes)
    decreases |attributes|
  {
    if attributes != [] {
      var a, rest := attributes[0], Serialize(attributes[1..]);
      FirstStands(before, a, rest, tail, b);
      SerializedReads(before + Encode(a), attributes[1..], tail, b);
    }
  }

  lemma FirstStands(before: seq<octet>, a: Attribute, rest: seq<octet>, tail: seq<octet>, b: seq<octet>)
    requires WellFormed(a) && b == before + (Encode(a) + rest) + tail
    ensures b == before + Encode(a) + rest + tail && Stands(b, |before|, a)
  {
    Regroup(before, Encode(a), rest, tail);
    AttributeAt(before, a, rest + tail);
  }

  /** Walking over attributes finds the first address among them, or goes on after them. */
  lemma {:induction false} WalkReads(b: seq<octet>, offset: nat, attributes: seq<Attribute>)
    requires Reads(b, offset, attributes) && forall a :: a in attributes ==> WellFormed(a)
    ensures Walk(b, offset)
         == if FirstAddress(attributes).Some? then FirstAddress(attributes)
            else Walk(b, offset + |Serialize(attributes)|)
    decreases |attributes|
  {
    if attributes != [] {
      var a := attributes[0];
      assert |Serialize(attributes)| == |Encode(a)| + |Serialize(attributes[1..])|;
      if !IsAddress(a.kind, |a.value|) {
        WalkReads(b, offset + |Encode(a)|, attributes[1..]);
      }
    }
  }

  lemma NothingAfter<T>(b: seq<T>)
    ensures b + [] == b
  {
  }

  lemma WalkSerialized(before: seq<octet>, attributes: seq<Attribute>, b: seq<octet>)
    requires forall a :: a in attributes ==> WellFormed(a)
    requires b == before + Serialize(attributes)
    ensures Walk(b, |before|) == FirstAddress(attributes)
  {
    NothingAfter(b);
    SerializedReads(before, attributes, [], b);
    WalkReads(b, |before|, attributes);
  }

  /** Every message a server can build is understood: the answer is the first address attribute of the list. */
  lemma RoundTrip(header: seq<octet>, attributes: seq<Attribute>)
    requires |header| == HEADER_SIZE && Word(header, 0) == BINDING_SUCCESS
    requires forall a :: a in attributes ==> WellFormed(a)
    ensures Response(header + Serialize(attributes)) == FirstAddress(attributes)
  {
    WalkSerialized(header, attributes, header + Serialize(attributes));
  }

  function MappedValue(e: Endpoint, prefix: seq<octet>): seq<octet>
    requires e.port < 0x10000
  {
    prefix + Two(e.port) + e.address
  }

  function XorMappedValue(e: Endpoint, prefix: seq<octet>): seq<octet>
    requires e.port < 0x10000 && |e.address| == 4
  {
    Pow2Of16();
    XorBounded(e.port, MAGIC_HIGH, 16);
    prefix + Two(Xor(e.port, MAGIC_HIGH)) + Unmask(e.address)
  }

  lemma UnmaskTwice(bytes: seq<octet>)
    requires |bytes| == 4
    ensures Unmask(Unmask(bytes)) == bytes
  {
    forall i | 0 <= i < 4
      ensures Unmask(Unmask(bytes))[i] == bytes[i]
    {
      XorTwice(bytes[i], MAGIC_COOKIE[i]);
    }
  }

  /** The client learns exactly the endpoint the server saw, in either form, with any prefix and any trailing bytes. */
  lemma EndpointLearned(e: Endpoint, prefix: seq<octet>, extra: seq<octet>)
    requires e.port < 0x10000 && |e.address| == 4 && |prefix| == 2
    ensures Decode(MAPPED_ADDRESS, MappedValue(e, prefix) + extra) == e
    ensures Decode(XOR_MAPPED_ADDRESS, XorMappedValue(e, prefix) + extra) == e
  {
    var plain, masked := MappedValue(e, prefix) + extra, XorMappedValue(e, prefix) + extra;
    assert plain[4..8] == e.address;
    assert masked[4..8] == Unmask(e.address);
    XorTwice(e.port, MAGIC_HIGH);
    UnmaskTwice(e.address);
  }

  /** The numbers of sections 6, 15.1, 15.2 and 18.2: which messages and attributes are read, and how. */
  lemma WireNumbers(b: seq<octet>, kind: nat, value: seq<octet>)
    ensures Response(b).Some? ==> |b| >= 20 && b[0] == 1 && b[1] == 1
    ensures Padding(|value|) < 4 && (|value| + Padding(|value|)) % 4 == 0
    ensures IsAddress(kind, |value|) <==> (kind == 0x0001 || kind == 0x0020) && |value| >= 8
    ensures kind == 0x0001 && |value| >= 8 ==>
      Decode(kind, value) == Endpoint([value[4], value[5], value[6], value[7]], Word(value, 2))
    ensures kind == 0x0020 && |value| >= 8 ==>
      Decode(kind, value) == Endpoint([XorOctet(value[4], 0x21), XorOctet(value[5], 0x12), XorOctet(value[6], 0xA4),
                                       XorOctet(value[7], 0x42)], Xor(Word(value, 2), 0x2112))
  {
  }

  // ---------------------------------------------------------------- cut and over-long datagrams

  lemma CutSame(b: seq<octet>, cut: seq<octet>, at: nat, length: nat)
    requires cut <= b && at + 4 + length <= |cut|
    ensures Word(cut, at) == Word(b, at) && Word(cut, at + 2) == Word(b, at + 2)
    ensures cut[at + 4..at + 4 + length] == b[at + 4..at + 4 + length]
  {
  }

  /** Cutting a datagram short can lose the answer but never change it. */
  lemma {:induction false} CutKeepsAnswer(b: seq<octet>, cut: seq<octet>, offset: nat)
    requires cut <= b && Walk(cut, offset).Some?
    ensures Walk(b, offset) == Walk(cut, offset)
    decreases |b| - offset
  {
    var length := Word(cut, offset + 2);
    CutSame(b, cut, offset, length);
    if !IsAddress(Word(cut, offset), length) {
      CutKeepsAnswer(b, cut, offset + 4 + length + Padding(length));
    }
  }

  /** The part of a datagram that the length field of its header (section 6) announces. */
  function Announced(b: seq<octet>): seq<octet>
    requires |b| >= HEADER_SIZE
  {
    var n := HEADER_SIZE + Word(b, 2);
    if n <= |b| then b[..n] else b
  }

  /** The walkers never look at that field. An answer inside the announced part is what they give; */
  lemma AnnouncedAnswerKept(b: seq<octet>)
    requires |b| >= HEADER_SIZE && Response(Announced(b)).Some?
    ensures Response(b) == Response(Announced(b))
  {
    if Announced(b) != b {
      CutKeepsAnswer(b, Announced(b), HEADER_SIZE);
    }
  }

  lemma AnnouncedPart(header: seq<octet>, body: seq<octet>, tail: seq<octet>)
    requires |header| == HEADER_SIZE && Word(header, 2) == |body|
    ensures Announced(header + body + tail) == header + body
  {
    var b := header + body + tail;
    assert b[2] == header[2] && b[3] == header[3];
  }

  /** but bytes after the announced part are read as attributes too. Exactly when that changes the answer, for any
      announced attributes and any bytes after them: unless the announced part has an address itself, the answer is
      right if and only if the bytes after it give none. */
  lemma TrailingBytesHarmlessIff(header: seq<octet>, attributes: seq<Attribute>, tail: seq<octet>)
    requires |header| == HEADER_SIZE && Word(header, 0) == BINDING_SUCCESS
    requires forall a :: a in attributes ==> WellFormed(a)
    requires Word(header, 2) == |Serialize(attributes)|
    ensures var b := header + Serialize(attributes) + tail;
      && Announced(b) == header + Serialize(attributes)
      && (Response(b) == Response(Announced(b)) <==>
            FirstAddress(attributes).Some? || Walk(b, HEADER_SIZE + |Serialize(attributes)|).None?)
  {
    var b := header + Serialize(attributes) + tail;
    AnnouncedPart(header, Serialize(attributes), tail);
    RoundTrip(header, attributes);
    SerializedReads(header, attributes, tail, b);
    WalkReads(b, HEADER_SIZE, attributes);
    assert Word(b, 0) == Word(header, 0);
  }

  /** In particular, when well-formed attributes follow: the answer is right if and only if the announced part has an
      address or the attributes after it have none. */
  lemma TrailingAttributesHarmlessIff(header: seq<octet>, attributes: seq<Attribute>, extra: seq<Attribute>)
    requires |header| == HEADER_SIZE && Word(header, 0) == BINDING_SUCCESS
    requires forall a :: a in attributes ==> WellFormed(a)
    requires forall a :: a in extra ==> WellFormed(a)
    requires Word(header, 2) == |Serialize(attributes)|
    ensures var b := header + Serialize(attributes) + Serialize(extra);
      Response(b) == Response(Announced(b)) <==> FirstAddress(attributes).Some? || FirstAddress(extra).None?
  {
    TrailingBytesHarmlessIff(header, attributes, Serialize(extra));
    var before := header + Serialize(attributes);
    WalkSerialized(before, extra, before + Serialize(extra));
  }

  /** A datagram whose announced part holds no address and that yields one all the same. */
  lemma TrailingBytesAreRead() returns (b: seq<octet>)
    ensures |b| >= HEADER_SIZE && Response(Announced(b)).None? && Response(b).Some?
  {
    var header: seq<octet> := [1, 1, 0, 0, 0, 0, 0, 0, 0, 0, 0, 0, 0, 0, 0, 0, 0, 0, 0, 0];
    var e := Endpoint([127, 0, 0, 1], 80);
    var a := Attribute(MAPPED_ADDRESS, MappedValue(e, [0, 1]), []);
    b := header + Serialize([a]);
    assert Word(header, 0) == BINDING_SUCCESS && Word(header, 2) == 0;
    RoundTrip(header, [a]);
    assert Announced(b) == header;
  }
}
