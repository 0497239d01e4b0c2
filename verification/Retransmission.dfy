/** Which fragments are asked for again, and that answering the requests ends with the frames complete. */
module Retransmission {
  import opened Wrappers
  import opened Bytes
  import opened Protocol
  import opened Packetizer
  import opened Reassembly
  import opened ReceiverInvariants
  import opened Fidelity
  import opened ReceiverWindow

  // ---------------------------------------------------------------- what is requested

  /** Fragment `i` of frame `id` is missing from an incomplete frame in the ring. */
  ghost predicate Lacks(s: State, id: nat, i: nat)
    requires StateShaped(s)
  {
    var f := Lookup(s, id);
    f.Some? && !f.value.isComplete && i < f.value.totalFragments && !f.value.fragmentMap[i]
  }

  predicate Before(a: NACK, b: NACK) {
    a.frameId < b.frameId || (a.frameId == b.frameId && a.fragmentIndex < b.fragmentIndex)
  }

  lemma FrameNacksExact(s: State, id: nat, n: NACK)
    requires StateShaped(s)
    ensures n in FrameNacks(s, id) <==> n.frameId == id && Lacks(s, id, n.fragmentIndex)
  {
    var f := Lookup(s, id);
    if f.Some? && !f.value.isComplete {
      var m := Missing(f.value.fragmentMap, 0, f.value.totalFragments);
      MissingElements(f.value.fragmentMap, 0, f.value.totalFragments, m);
      if n.frameId == id && n.fragmentIndex < f.value.totalFragments {
        MissingComplete(f.value.fragmentMap, 0, f.value.totalFragments, n.fragmentIndex);
        if n.fragmentIndex in m {
          var k :| 0 <= k < |m| && m[k] == n.fragmentIndex;
          assert FrameNacks(s, id)[k] == n;
        }
      }
    }
  }

  lemma {:induction false} FlattenMember(lists: seq<seq<NACK>>, r: NACK)
    ensures r in Flatten(lists) <==> exists i :: 0 <= i < |lists| && r in lists[i]
  {
    if lists != [] {
      var n := |lists| - 1;
      FlattenMember(lists[..n], r);
      InAppend(Flatten(lists[..n]), lists[n], r);
      if i :| 0 <= i < |lists| && r in lists[i] {
        assert i < n ==> r in lists[..n][i];
      }
    }
  }

  lemma InAppend<T>(a: seq<T>, b: seq<T>, x: T)
    ensures x in a + b <==> x in a || x in b
  {
  }

  /** The scan lists exactly the missing fragments of the next `n` ids. */
  lemma AllMissingExact(s: State, n: nat, r: NACK)
    requires StateShaped(s)
    ensures r in AllMissing(s, n) <==> s.nextId <= r.frameId < s.nextId + n && Lacks(s, r.frameId, r.fragmentIndex)
  {
    var lists := NackLists(s, n);
    FlattenMember(lists, r);
    forall i | 0 <= i < n
      ensures r in lists[i] <==> r.frameId == s.nextId + i && Lacks(s, r.frameId, r.fragmentIndex)
    {
      NackListAt(s, n, i);
      FrameNacksExact(s, s.nextId + i, r);
    }
    if s.nextId <= r.frameId < s.nextId + n {
      assert r in lists[r.frameId - s.nextId] <==> Lacks(s, r.frameId, r.fragmentIndex);
    }
  }

  ghost predicate Increasing(l: seq<NACK>) {
    forall a, b :: 0 <= a < b < |l| ==> Before(l[a], l[b])
  }

  lemma IncreasingAppend(a: seq<NACK>, b: seq<NACK>)
    requires Increasing(a) && Increasing(b)
    requires forall x, y :: x in a && y in b ==> Before(x, y)
    ensures Increasing(a + b)
  {
  }

  lemma {:induction false} FlattenIncreasing(lists: seq<seq<NACK>>, first: nat)
    requires forall i :: 0 <= i < |lists| ==> Increasing(lists[i])
    requires forall i, x :: 0 <= i < |lists| && x in lists[i] ==> x.frameId == first + i
    ensures Increasing(Flatten(lists))
  {
    if lists != [] {
      var n := |lists| - 1;
      FlattenIncreasing(lists[..n], first);
      forall x, y | x in Flatten(lists[..n]) && y in lists[n]
        ensures Before(x, y)
      {
        FlattenMember(lists[..n], x);
      }
      IncreasingAppend(Flatten(lists[..n]), lists[n]);
    }
  }

  lemma FrameNacksIncreasing(s: State, id: nat)
    requires StateShaped(s)
    ensures Increasing(FrameNacks(s, id))
  {
    var f := Lookup(s, id);
    if f.Some? && !f.value.isComplete {
      var m := Missing(f.value.fragmentMap, 0, f.value.totalFragments);
      MissingSorted(f.value.fragmentMap, 0, f.value.totalFragments, m);
    }
  }

  /** The scan is in increasing order, so it has no duplicates. */
  lemma AllMissingIncreasing(s: State, n: nat)
    requires StateShaped(s)
    ensures Increasing(AllMissing(s, n))
  {
    var lists := NackLists(s, n);
    forall i | 0 <= i < n
      ensures Increasing(lists[i])
    {
      NackListAt(s, n, i);
      FrameNacksIncreasing(s, s.nextId + i);
    }
    forall i, x: NACK | 0 <= i < n && x in lists[i]
      ensures x.frameId == s.nextId + i
    {
      NackListAt(s, n, i);
      FrameNacksExact(s, s.nextId + i, x);
    }
    FlattenIncreasing(lists, s.nextId);
  }

  /** What FirstTen leaves out comes after everything it keeps. */
  lemma FirstTenExact(all: seq<NACK>)
    requires Increasing(all)
    ensures var p := FirstTen(all);
      && |p| <= 10 && Increasing(p)
      && (forall r :: r in p ==> r in all)
      && (forall r :: r in all && r !in p ==> |p| == 10 && Before(p[9], r))
  {
    var p := FirstTen(all);
    assert forall k :: 0 <= k < |p| ==> all[k] == p[k] && all[k] in p;
    forall r | r in all && r !in p
      ensures |p| == 10 && Before(p[9], r)
    {
      var k :| 0 <= k < |all| && all[k] == r;
    }
  }

  /** A call asks for the first ten missing fragments of the next 32 ids, or for all if there are fewer:
      whatever is left out comes after everything asked for. */
  lemma PendingNACKsExact(s: State)
    requires StateShaped(s)
    ensures var p := PendingNACKs(s);
      && |p| <= 10 && Increasing(p)
      && (forall r :: r in p ==> s.nextId <= r.frameId < s.nextId + 32 && Lacks(s, r.frameId, r.fragmentIndex))
      && (forall id, i :: s.nextId <= id < s.nextId + 32 && Lacks(s, id, i) && NACK(id, i) !in p ==>
            |p| == 10 && Before(p[9], NACK(id, i)))
  {
    var all := AllMissing(s, NACK_WINDOW);
    AllMissingIncreasing(s, NACK_WINDOW);
    FirstTenExact(all);
    forall r
      ensures r in all <==> s.nextId <= r.frameId < s.nextId + NACK_WINDOW && Lacks(s, r.frameId, r.fragmentIndex)
    {
      AllMissingExact(s, NACK_WINDOW, r);
    }
  }

  lemma IncompleteLacks(s: State, id: nat) returns (i: nat)
    requires StateOk(s) && Lookup(s, id).Some? && !Lookup(s, id).value.isComplete
    ensures Lacks(s, id, i)
  {
    var f := Lookup(s, id).value;
    FullCount(f.fragmentMap, f.totalFragments);
    i :| 0 <= i < f.totalFragments && !f.fragmentMap[i];
  }

  /** Nothing is asked for exactly when every frame held among the next 32 ids is complete. */
  lemma NoNacksIffComplete(s: State)
    requires StateOk(s)
    ensures PendingNACKs(s) == [] <==>
      forall id :: s.nextId <= id < s.nextId + NACK_WINDOW && Lookup(s, id).Some? ==> Lookup(s, id).value.isComplete
  {
    PendingNACKsExact(s);
    if id :| s.nextId <= id < s.nextId + NACK_WINDOW && Lookup(s, id).Some? && !Lookup(s, id).value.isComplete {
      var i := IncompleteLacks(s, id);
      assert NACK(id, i) !in PendingNACKs(s) ==> |PendingNACKs(s)| == 10;
    } else if PendingNACKs(s) != [] {
      assert PendingNACKs(s)[0] in PendingNACKs(s);
    }
  }

  // ---------------------------------------------------------------- answering the requests terminates

  function Owed(e: Option<Frame>): nat {
    if e.Some? && e.value.fragmentsReceived <= e.value.totalFragments
    then e.value.totalFragments - e.value.fragmentsReceived else 0
  }

  /** Missing fragments in the first `n` slots. */
  function TotalMissing(ring: seq<Option<Frame>>, n: nat): nat
    requires n <= |ring|
  {
    if n == 0 then 0 else TotalMissing(ring, n - 1) + Owed(ring[n - 1])
  }

  lemma {:induction false} TotalAfterUpdate(ring: seq<Option<Frame>>, n: nat, j: nat, e: Option<Frame>)
    requires n <= |ring| && j < |ring|
    ensures TotalMissing(ring[j := e], n) == TotalMissing(ring, n) + if j < n then Owed(e) - Owed(ring[j]) else 0
  {
    if n > 0 {
      TotalAfterUpdate(ring, n - 1, j, e);
    }
  }

  lemma AssembleCounts(sender: Sender, f: Frame, h: VideoHeader, payload: seq<byte>, g: Option<FECPacket>)
    requires Sendable(sender) && GenuineVideo(sender, h, payload) && Counted(f) && FrameTrue(f, sender[h.frameId])
    requires ParityShaped(g) && !f.fragmentMap[h.fragmentIndex]
    ensures Owed(Some(Assemble(f, h, payload, g))) < Owed(Some(f))
  {
    AssembleOk(f, h, payload, g);
    StoreTrue(sender, f, h, payload);
    FullCount(f.fragmentMap, f.totalFragments);
  }

  /** A genuine packet that answers a pending request strictly lowers the number of missing fragments. */
  lemma AnswerProgress(s: State, sender: Sender, h: VideoHeader, payload: seq<byte>, stale: seq<byte>)
    requires Good(s, sender) && Sendable(sender) && GenuineVideo(sender, h, payload) && |stale| == FRAME_CAPACITY
    requires NACK(h.frameId, h.fragmentIndex) in PendingNACKs(s)
    ensures TotalMissing(ProcessPacket(s, h, payload, stale).ring, FRAME_RING) < TotalMissing(s.ring, FRAME_RING)
    ensures Good(ProcessPacket(s, h, payload, stale), sender)
  {
    PendingNACKsExact(s);
    ProcessPacketGood(s, sender, h, payload, stale);
    assert Lacks(s, h.frameId, h.fragmentIndex);
    var f := Lookup(s, h.frameId).value;
    assert FrameGood(f, sender, s.fec);
    var g := s.fec[FECSlot(h.frameId, GroupStart(h.fragmentIndex))];
    AssembleOk(f, h, payload, g);
    AssembleCounts(sender, f, h, payload, g);
    TotalAfterUpdate(s.ring, FRAME_RING, Slot(h.frameId), Some(Assemble(f, h, payload, g)));
  }

  /** A packet that answers a pending request of this state. */
  ghost predicate AnswersOne(s: State, sender: Sender, p: VideoPacket)
    requires StateShaped(s)
  {
    GenuineVideo(sender, p.header, p.payload) && NACK(p.header.frameId, p.header.fragmentIndex) in PendingNACKs(s)
  }

  /** Every pending request has a genuine answer: the sender's fragment of that number. */
  lemma Answerable(s: State, sender: Sender, n: NACK) returns (p: VideoPacket)
    requires Good(s, sender) && Sendable(sender) && n in PendingNACKs(s)
    ensures AnswersOne(s, sender, p) && n == NACK(p.header.frameId, p.header.fragmentIndex)
  {
    PendingNACKsExact(s);
    assert Lacks(s, n.frameId, n.fragmentIndex);
    assert FrameGood(Lookup(s, n.frameId).value, sender, s.fec);
    var o := sender[n.frameId];
    var payload := Fragment(o.bytes, n.fragmentIndex);
    p := VideoPacket(VideoHeader(n.frameId, n.fragmentIndex, FragmentCount(|o.bytes|), o.stamps,
                                 Flags(o.isKeyframe, o.isHEVC), |payload|), payload);
  }

  /** A state some packet can answer has started, and an answer belongs to a frame that the ring holds. */
  lemma AnswerIsHeld(s: State, sender: Sender, p: VideoPacket)
    requires Good(s, sender) && AnswersOne(s, sender, p)
    ensures s.started && s.nextId <= p.header.frameId && Lookup(s, p.header.frameId).Some?
  {
    PendingNACKsExact(s);
    assert Lacks(s, p.header.frameId, p.header.fragmentIndex);
  }

  /** An answer evicts nothing, moves nothing and forgets nothing. */
  lemma AnswerKeeps(s: State, sender: Sender, p: VideoPacket, stale: seq<byte>, id: nat)
    requires Good(s, sender) && Sendable(sender) && |stale| == FRAME_CAPACITY && AnswersOne(s, sender, p)
    ensures var t := ProcessPacket(s, p.header, p.payload, stale);
      Good(t, sender) && t.nextId == s.nextId && Retains(s, t, id)
  {
    ProcessPacketGood(s, sender, p.header, p.payload, stale);
    AnswerIsHeld(s, sender, p);
    if Lookup(s, id).Some? {
      EvictedExactly(s, p.header, p.payload, stale, id);
    }
  }

  /** A round of answers: every packet answers a request that is pending when it arrives. */
  ghost predicate Answers(s: State, sender: Sender, packets: seq<VideoPacket>, stale: seq<byte>)
    requires Good(s, sender) && Sendable(sender) && |stale| == FRAME_CAPACITY
    decreases |packets|
  {
    packets == [] || (
      && AnswersOne(s, sender, packets[0])
      && (ProcessPacketGood(s, sender, packets[0].header, packets[0].payload, stale);
          Answers(ProcessPacket(s, packets[0].header, packets[0].payload, stale), sender, packets[1..], stale)))
  }

  /** The state after a round. */
  ghost function Answered(s: State, sender: Sender, packets: seq<VideoPacket>, stale: seq<byte>): (t: State)
    requires Good(s, sender) && Sendable(sender) && |stale| == FRAME_CAPACITY && Answers(s, sender, packets, stale)
    ensures Good(t, sender)
    decreases |packets|
  {
    if packets == [] then s
    else
      ProcessPacketGood(s, sender, packets[0].header, packets[0].payload, stale);
      Answered(ProcessPacket(s, packets[0].header, packets[0].payload, stale), sender, packets[1..], stale)
  }

  /** Whatever requests are answered and in whatever order, the exchange ends: there are never more answers
      than fragments missing at the start. */
  lemma {:induction false} AnsweringTerminates(s: State, sender: Sender, packets: seq<VideoPacket>, stale: seq<byte>)
    requires Good(s, sender) && Sendable(sender) && |stale| == FRAME_CAPACITY
    requires Answers(s, sender, packets, stale)
    ensures |packets| + TotalMissing(Answered(s, sender, packets, stale).ring, FRAME_RING)
         <= TotalMissing(s.ring, FRAME_RING)
    decreases |packets|
  {
    if packets != [] {
      var p := packets[0];
      AnswerProgress(s, sender, p.header, p.payload, stale);
      AnsweringTerminates(ProcessPacket(s, p.header, p.payload, stale), sender, packets[1..], stale);
    }
  }

  /** Over a whole round the read pointer stays and every held frame stays, with what it had. */
  lemma {:induction false} RoundKeeps(s: State, sender: Sender, packets: seq<VideoPacket>, stale: seq<byte>, id: nat)
    requires Good(s, sender) && Sendable(sender) && |stale| == FRAME_CAPACITY
    requires Answers(s, sender, packets, stale)
    ensures var t := Answered(s, sender, packets, stale); t.nextId == s.nextId && Retains(s, t, id)
    decreases |packets|
  {
    if packets == [] {
      if Lookup(s, id).Some? {
        KeepsSelf(Lookup(s, id).value);
      }
    } else {
      var p, rest := packets[0], packets[1..];
      var n := ProcessPacket(s, p.header, p.payload, stale);
      AnswerKeeps(s, sender, p, stale, id);
      RoundKeeps(n, sender, rest, stale, id);
      RetainsTransitive(s, n, Answered(n, sender, rest, stale), id);
    }
  }

  /** A round can be continued by any packet that answers the state it ends in. */
  lemma {:induction false} Continues(s: State, sender: Sender, packets: seq<VideoPacket>, stale: seq<byte>,
                                     p: VideoPacket)
    requires Good(s, sender) && Sendable(sender) && |stale| == FRAME_CAPACITY
    requires Answers(s, sender, packets, stale) && AnswersOne(Answered(s, sender, packets, stale), sender, p)
    ensures Answers(s, sender, packets + [p], stale)
    decreases |packets|
  {
    if packets == [] {
      ProcessPacketGood(s, sender, p.header, p.payload, stale);
      assert (packets + [p])[0] == p && (packets + [p])[1..] == [];
    } else {
      var q, rest := packets[0], packets[1..];
      ProcessPacketGood(s, sender, q.header, q.payload, stale);
      Continues(ProcessPacket(s, q.header, q.payload, stale), sender, rest, stale, p);
      assert (packets + [p])[0] == q && (packets + [p])[1..] == rest + [p];
    }
  }

  /** The frame with this id is complete and is the sender's. */
  ghost predicate Restored(s: State, sender: Sender, id: nat)
    requires StateShaped(s)
  {
    && Lookup(s, id).Some? && Lookup(s, id).value.isComplete
    && id in sender && Faithful(Lookup(s, id).value, sender[id])
  }

  /** Every frame held at the start among the next 32 ids is still held, complete, and the sender's. */
  ghost predicate AllRestored(s: State, t: State, sender: Sender)
    requires StateShaped(s) && StateShaped(t)
  {
    && t.nextId == s.nextId && PendingNACKs(t) == []
    && forall id :: s.nextId <= id < s.nextId + NACK_WINDOW && Lookup(s, id).Some? ==> Restored(t, sender, id)
  }

  /** When a round ends with nothing more to ask for, the listed frames are complete. */
  lemma QuietIsRestored(s: State, sender: Sender, packets: seq<VideoPacket>, stale: seq<byte>)
    requires Good(s, sender) && Sendable(sender) && |stale| == FRAME_CAPACITY && Answers(s, sender, packets, stale)
    requires PendingNACKs(Answered(s, sender, packets, stale)) == []
    ensures AllRestored(s, Answered(s, sender, packets, stale), sender)
  {
    var t := Answered(s, sender, packets, stale);
    RoundKeeps(s, sender, packets, stale, 0);
    NoNacksIffComplete(t);
    forall id | s.nextId <= id < s.nextId + NACK_WINDOW && Lookup(s, id).Some?
      ensures Restored(t, sender, id)
    {
      RoundKeeps(s, sender, packets, stale, id);
      assert FrameGood(Lookup(t, id).value, sender, t.fec);
      CompleteIsFaithful(Lookup(t, id).value, sender[id]);
    }
  }

  /** However requests are answered: a round that cannot be continued has completed every frame that was held among
      the next 32 ids. */
  lemma MaximalRoundRestores(s: State, sender: Sender, packets: seq<VideoPacket>, stale: seq<byte>)
    requires Good(s, sender) && Sendable(sender) && |stale| == FRAME_CAPACITY && Answers(s, sender, packets, stale)
    requires forall p: VideoPacket :: !Answers(s, sender, packets + [p], stale)
    ensures AllRestored(s, Answered(s, sender, packets, stale), sender)
  {
    var t := Answered(s, sender, packets, stale);
    if PendingNACKs(t) != [] {
      var p := Answerable(t, sender, PendingNACKs(t)[0]);
      Continues(s, sender, packets, stale, p);
    }
    QuietIsRestored(s, sender, packets, stale);
  }

  /** And every round can be continued to such an end, in at most as many answers as fragments were missing. */
  lemma {:induction false} RoundCompletes(s: State, sender: Sender, packets: seq<VideoPacket>, stale: seq<byte>)
      returns (all: seq<VideoPacket>)
    requires Good(s, sender) && Sendable(sender) && |stale| == FRAME_CAPACITY && Answers(s, sender, packets, stale)
    ensures packets <= all && |all| <= TotalMissing(s.ring, FRAME_RING) && Answers(s, sender, all, stale)
    ensures AllRestored(s, Answered(s, sender, all, stale), sender)
    decreases TotalMissing(s.ring, FRAME_RING) - |packets|
  {
    var t := Answered(s, sender, packets, stale);
    AnsweringTerminates(s, sender, packets, stale);
    if PendingNACKs(t) == [] {
      all := packets;
      QuietIsRestored(s, sender, packets, stale);
    } else {
      var p := Answerable(t, sender, PendingNACKs(t)[0]);
      Continues(s, sender, packets, stale, p);
      AnsweringTerminates(s, sender, packets + [p], stale);
      all := RoundCompletes(s, sender, packets + [p], stale);
    }
  }
}
