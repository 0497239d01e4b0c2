/** Pre-allocated packets. A packet is owned by one place at a time, so it is a value that moves. */
module PacketPools {
  import opened Wrappers
  import opened Bytes

  datatype Packet = Packet(data: seq<byte>, size: nat)

  class PacketPool {
    var pool: seq<Packet>

    constructor (poolSize: nat, packetCapacity: nat)
      ensures |pool| == poolSize
      ensures forall i :: 0 <= i < poolSize ==> |pool[i].data| == packetCapacity
    {
      var packets: seq<Packet> := [];
      for i := 0 to poolSize
        invariant |packets| == i
        invariant forall j :: 0 <= j < i ==> |packets[j].data| == packetCapacity
      {
        packets := packets + [Packet(seq(packetCapacity, _ => 0), 0)];
      }
      pool := packets;
    }

    /** The last packet, or nothing when the pool is exhausted. */
    method Acquire() returns (packet: Option<Packet>)
      modifies this
      ensures old(pool) == [] ==> packet.None? && pool == []
      ensures old(pool) != [] ==> packet.Some? && old(pool) == pool + [packet.value]
    {
      if pool == [] {
        return None;
      }
      packet := Some(pool[|pool| - 1]);
      pool := pool[..|pool| - 1];
    }

    method Release(packet: Option<Packet>)
      modifies this
      ensures pool == old(pool) + if packet.Some? then [packet.value] else []
    {
      if packet.None? {
        return;
      }
      pool := pool + [packet.value];
    }
  }
}
