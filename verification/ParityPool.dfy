/** How long the pool of 512 parity packets lasts: a slot of the parity ring that has been filled is never emptied. */
module ParityPool {
  import opened Wrappers
  import opened Protocol
  import opened Packetizer
  import opened Reassembly
  import opened ReceiverInvariants
  import opened ReceiverWindow

  /** A call with an arbitrary packet, whatever its id. */
  ghost predicate Makes(s: State, c: Call, t: State) {
    && StateShaped(s)
    && match c
       case Video(h, payload, stale) =>
         |payload| == h.dataSize && |stale| == FRAME_CAPACITY && t == ProcessPacket(s, h, payload, stale)
       case Parity(g) => ParityShaped(Some(g)) && t == ProcessFEC(s, g)
       case Take => t == AfterTake(s)
       case Advance(id) => t == ForceAdvance(s, id)
  }

  ghost predicate Trace(states: seq<State>, calls: seq<Call>) {
    && |states| == |calls| + 1 && states[0] == Initial()
    && forall i :: 0 <= i < |calls| ==> Makes(states[i], calls[i], states[i + 1])
  }

  /** The slot that a parity packet names, unless it arrives behind the read pointer. */
  function NamedBy(s: State, c: Call): set<nat> {
    if c.Parity? && s.nextId <= c.packet.header.frameId then
      {FECSlot(c.packet.header.frameId, c.packet.header.fragmentStart)}
    else
      {}
  }

  /** All slots named by the first `n` calls. */
  function Named(states: seq<State>, calls: seq<Call>, n: nat): set<nat>
    requires n <= |calls| < |states|
  {
    if n == 0 then {} else Named(states, calls, n - 1) + NamedBy(states[n - 1], calls[n - 1])
  }

  /** The call asks the exhausted pool for a packet. */
  ghost predicate Starves(s: State, c: Call) {
    c.Parity? && |s.fec| == FEC_RING && Starved(s, c.packet)
  }

  /** Exactly the named slot is filled, and none is ever emptied. */
  lemma SlotsAfter(s: State, c: Call, t: State)
    requires Makes(s, c, t)
    ensures ParitySlots(t.fec) == ParitySlots(s.fec) + NamedBy(s, c)
  {
  }

  lemma {:induction false} SlotsAreNamed(states: seq<State>, calls: seq<Call>, n: nat)
    requires Trace(states, calls) && n <= |calls|
    ensures |states[n].fec| == FEC_RING && ParitySlots(states[n].fec) == Named(states, calls, n)
  {
    if n > 0 {
      var p := n - 1;
      SlotsAreNamed(states, calls, p);
      SlotsAfter(states[p], calls[p], states[n]);
    }
  }

  /** A call starves exactly when it names a slot beyond the 512 named before. */
  lemma StarvesExactly(states: seq<State>, calls: seq<Call>, p: nat, n: nat)
    requires Trace(states, calls) && n == p + 1 <= |calls|
    ensures Starves(states[p], calls[p]) <==>
      |Named(states, calls, p)| == FEC_POOL_SIZE < |Named(states, calls, n)|
    ensures |Named(states, calls, p)| <= |Named(states, calls, n)| <= |Named(states, calls, p)| + 1
  {
    SlotsAreNamed(states, calls, p);
    var before, more := Named(states, calls, p), NamedBy(states[p], calls[p]);
    assert Named(states, calls, n) == before + more;
    if more <= before {
      assert before + more == before;
    } else {
      assert |before + more| == |before| + 1;
    }
  }

  /** Over every run of the four operations with arbitrary packets: the pool never fails a parity packet if and only if
      the parity packets that were not behind the read pointer name at most 512 different slots. */
  lemma {:induction false} ServedIff(states: seq<State>, calls: seq<Call>, n: nat)
    requires Trace(states, calls) && n <= |calls|
    ensures (forall i :: 0 <= i < n ==> !Starves(states[i], calls[i])) <==>
      |Named(states, calls, n)| <= 512
  {
    if n > 0 {
      var p := n - 1;
      ServedIff(states, calls, p);
      StarvesExactly(states, calls, p, n);
    }
  }

  /** Group numbers 13 apart in neighbouring frames share a slot, so the first parity of a frame pushes out the
      fourteenth of the frame before it. */
  lemma NeighboursCollide(id: nat, start: nat)
    ensures FECSlot(id, start + 65) == FECSlot(id + 1, start)
  {
    assert (start + 65) / 5 == start / 5 + 13;
  }

  // ---------------------------------------------------------------- one group in each of 513 frames

  /** Neighbouring frames keep their first groups in different slots: 13 is invertible modulo 1024. */
  lemma FirstGroupsDiffer(a: nat, b: nat)
    requires a < b < a + FEC_RING
    ensures FECSlot(a, 0) != FECSlot(b, 0)
  {
    Invertible(b - a);
    SameRemainder(a * 13, (b - a) * 13);
    assert b * 13 == a * 13 + (b - a) * 13;
  }

  lemma Invertible(d: nat)
    requires 0 < d < FEC_RING
    ensures d * 13 % FEC_RING != 0
  {
    var q := d * 13 / FEC_RING;
    assert d * 13 == q * FEC_RING ==> d == (q * 709 - d * 9) * FEC_RING;
  }

  lemma SameRemainder(x: nat, y: nat)
    ensures (x + y) % FEC_RING == x % FEC_RING <==> y % FEC_RING == 0
  {
  }

  /** The slots of the first groups of `n` frames. */
  function FirstGroups(k: nat, n: nat): set<nat> {
    if n == 0 then {} else FirstGroups(k, n - 1) + {FECSlot(k + n - 1, 0)}
  }

  lemma {:induction false} FirstGroupsApart(k: nat, n: nat)
    requires n <= FEC_RING
    ensures |FirstGroups(k, n)| == n
    ensures forall j :: j in FirstGroups(k, n) ==> exists id :: k <= id < k + n && FECSlot(id, 0) == j
  {
    if n > 0 {
      var last := k + n - 1;
      FirstGroupsApart(k, n - 1);
      forall id | k <= id < last
        ensures FECSlot(id, 0) != FECSlot(last, 0)
      {
        FirstGroupsDiffer(id, last);
      }
    }
  }

  /** One of the first `n` calls brought the parity of the first group of frame `id`, and not too late. */
  ghost predicate Brought(states: seq<State>, calls: seq<Call>, n: nat, id: nat)
    requires n <= |calls| < |states|
  {
    exists i: nat :: i < n && Brings(states[i], calls[i], id)
  }

  predicate Brings(s: State, c: Call, id: nat) {
    && c.Parity? && c.packet.header.frameId == id && c.packet.header.fragmentStart == 0 && s.nextId <= id
  }

  lemma {:induction false} BroughtIsNamed(states: seq<State>, calls: seq<Call>, n: nat, id: nat)
    requires n <= |calls| < |states| && Brought(states, calls, n, id)
    ensures FECSlot(id, 0) in Named(states, calls, n)
  {
    var p := n - 1;
    if !Brings(states[p], calls[p], id) {
      BroughtIsNamed(states, calls, p, id);
    }
  }

  /** So every run that brings the parity of the first group of 513 consecutive frames ends in a null dereference,
      whatever else happens in it. */
  lemma LongStreamStarves(states: seq<State>, calls: seq<Call>, n: nat, k: nat, m: nat)
    requires Trace(states, calls) && n <= |calls| && FEC_POOL_SIZE < m <= FEC_RING
    requires forall id :: k <= id < k + m ==> Brought(states, calls, n, id)
    ensures exists i :: 0 <= i < n && Starves(states[i], calls[i])
  {
    FirstGroupsApart(k, m);
    forall j | j in FirstGroups(k, m)
      ensures j in Named(states, calls, n)
    {
      var id :| k <= id < k + m && FECSlot(id, 0) == j;
      BroughtIsNamed(states, calls, n, id);
    }
    Within(FirstGroups(k, m), Named(states, calls, n));
    ServedIff(states, calls, n);
  }

  /** The run that consists of these parity packets. */
  lemma {:induction false} ParityTrace(packets: seq<FECPacket>, n: nat) returns (states: seq<State>, calls: seq<Call>)
    requires n <= |packets| && forall i :: 0 <= i < |packets| ==> ParityShaped(Some(packets[i]))
    ensures Trace(states, calls) && |calls| == n && StateOk(states[n])
    ensures forall i :: 0 <= i < n ==> calls[i] == Parity(packets[i])
    ensures forall i :: 0 <= i <= n ==> states[i].nextId == 0
  {
    if n == 0 {
      InitialOk();
      states, calls := [Initial()], [];
    } else {
      var g := packets[n - 1];
      states, calls := ParityTrace(packets, n - 1);
      var s := states[n - 1];
      ProcessFECOk(s, g);
      states, calls := states + [ProcessFEC(s, g)], calls + [Parity(g)];
      assert Makes(s, Parity(g), states[n]);
    }
  }

  /** There are such runs: 513 frames in a row whose first groups have parity, and nothing else arrives. */
  lemma StreamStarves(packets: seq<FECPacket>, k: nat, n: nat) returns (states: seq<State>, calls: seq<Call>)
    requires |packets| == n == FEC_POOL_SIZE + 1
    requires forall i :: 0 <= i < n ==> ParityShaped(Some(packets[i]))
    requires forall i :: 0 <= i < n ==> packets[i].header.frameId == k + i && packets[i].header.fragmentStart == 0
    ensures Trace(states, calls) && |calls| == n && forall i :: 0 <= i < n ==> calls[i] == Parity(packets[i])
    ensures exists i :: 0 <= i < n && Starves(states[i], calls[i])
  {
    states, calls := ParityTrace(packets, n);
    forall id | k <= id < k + n
      ensures Brought(states, calls, n, id)
    {
      var i := id - k;
      assert Brings(states[i], calls[i], id);
    }
    LongStreamStarves(states, calls, n, k, n);
  }

  lemma Within<T>(a: set<T>, b: set<T>)
    requires a <= b
    ensures |a| <= |b|
  {
    assert b == a + (b - a);
  }
}
