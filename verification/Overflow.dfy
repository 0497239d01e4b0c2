/** When the decoder's stream breaks: exactly which step makes the next frame depend on a dropped one, and a run of the
    client that reaches it. */
module Overflow {
  import opened Wrappers
  import opened Bytes
  import opened Protocol
  import opened Packetizer
  import opened Reassembly
  import opened Pipeline
  import J = JitterModel

  // ---------------------------------------------------------------- the exact condition

  /** The frame the decoder gets next is no keyframe and does not continue the last one, or there is no last one. */
  ghost predicate HeadBreaks(sender: Sender, s: System) {
    && s.jitter.initialized && !Key(sender, s.jitter.nextPop)
    && (s.popped == [] || s.jitter.nextPop != LastPopped(s) + 1)
  }

  /** The client is about to push into a buffer that holds 28 frames. */
  predicate AboutToShed(s: System, e: Event) {
    e.Client? && s.pc.Insert? && s.jitter.initialized && s.jitter.count == J.HIGH_WATER
  }

  /** And the second frame of that buffer is no keyframe. */
  ghost predicate AboutToBreak(sender: Sender, s: System, e: Event) {
    AboutToShed(s, e) && !Key(sender, s.jitter.nextPop + 1)
  }

  /** A frame is about to be popped. */
  predicate AboutToPop(s: System, e: Event)
    requires J.Sized(s.jitter)
  {
    e.Client? && s.pc.Drain? && J.Due(s.jitter, e.sync, e.early, e.maxFrames)
  }

  /** A step after which the head is fine whatever it was: a pop, a reset to a keyframe, or a push that sheds down to a
      keyframe. */
  ghost predicate Mends(sender: Sender, s: System, e: Event)
    requires J.Sized(s.jitter)
  {
    || AboutToPop(s, e) || (e.Client? && s.pc.Restart?)
    || (AboutToShed(s, e) && Key(sender, s.jitter.nextPop + 1))
  }

  lemma PushMovesHead(b: J.Jitter, f: Frame)
    requires Contiguous(b, f.frameId)
    ensures J.Push(b, f).initialized
    ensures J.Push(b, f).nextPop == b.nextPop + if b.count == J.HIGH_WATER then 1 else 0
  {
    PushContiguous(b, f);
  }

  /** Moving the head on by one leaves it broken exactly when the new head is no keyframe. */
  lemma HeadMoves(sender: Sender, s: System, t: System, shed: bool)
    requires s.jitter.initialized && t.jitter.initialized
    requires t.popped == s.popped && (s.popped != [] ==> LastPopped(s) < s.jitter.nextPop)
    requires t.jitter.nextPop == s.jitter.nextPop + if shed then 1 else 0
    ensures HeadBreaks(sender, t) <==> if shed then !Key(sender, s.jitter.nextPop + 1) else HeadBreaks(sender, s)
  {
  }

  /** The frame in hand comes right after what the buffer holds, and what was popped lies before that. */
  ghost predicate FitsOn(sender: Sender, s: System)
    requires s.pc.Insert?
  {
    if s.jitter.initialized then
      Contiguous(s.jitter, s.pc.frame.frameId) && (s.popped != [] ==> LastPopped(s) < s.jitter.nextPop)
    else
      s.jitter == J.Empty() && Key(sender, s.pc.frame.frameId)
  }

  lemma InsertFacts(sender: Sender, s: System)
    requires DecoderSide(sender, s) && BufferHoldsTheGap(s) && s.pc.Insert?
    requires Decodable(sender, s.delivered) && ClientKnows(sender, s)
    ensures FitsOn(sender, s)
  {
    FirstIsKey(sender, s);
  }

  lemma HeadAfterPush(s: System, f: Frame)
    requires WellFormed(s) && Contiguous(s.jitter, f.frameId)
    ensures var t := Pushed(s, f);
      && t.popped == s.popped && t.jitter.initialized
      && t.jitter.nextPop == s.jitter.nextPop + if s.jitter.count == J.HIGH_WATER then 1 else 0
  {
    PushMovesHead(s.jitter, f);
  }

  lemma FirstPushFine(sender: Sender, s: System, f: Frame)
    requires WellFormed(s) && s.jitter == J.Empty() && Key(sender, f.frameId)
    ensures !HeadBreaks(sender, Pushed(s, f))
  {
    FirstPush(f);
  }

  lemma InsertBreaksIff(sender: Sender, s: System, e: Event)
    requires WellFormed(s) && e.Client? && s.pc.Insert? && FitsOn(sender, s)
    ensures HeadBreaks(sender, Pushed(s, s.pc.frame)) <==>
      AboutToBreak(sender, s, e) || (HeadBreaks(sender, s) && !Mends(sender, s, e))
  {
    if s.jitter.initialized {
      HeadAfterPush(s, s.pc.frame);
      HeadMoves(sender, s, Pushed(s, s.pc.frame), s.jitter.count == J.HIGH_WATER);
    } else {
      FirstPushFine(sender, s, s.pc.frame);
    }
  }

  /** What a pop does: the head goes to the decoder, and the next one continues it. */
  lemma PopStep(s: System, e: Event)
    requires WellFormed(s) && e.Client? && s.pc.Drain?
    ensures var t := ClientStep(s, e.sync, e.early, e.maxFrames);
      && (AboutToPop(s, e) ==>
            && s.jitter.ring[J.Cell(s.jitter.nextPop)].Some?
            && t.popped == s.popped + [Popped(s.jitter.ring[J.Cell(s.jitter.nextPop)].value, s.lossy)]
            && LastPopped(t) == s.jitter.nextPop && t.jitter.nextPop == s.jitter.nextPop + 1)
      && (!AboutToPop(s, e) ==> t.popped == s.popped && t.jitter == s.jitter)
  {
    assert J.LinkedAt(s.jitter, J.Cell(s.jitter.nextPop));
  }

  lemma DrainBreaksIff(sender: Sender, s: System, e: Event)
    requires WellFormed(s) && e.Client? && s.pc.Drain?
    ensures HeadBreaks(sender, ClientStep(s, e.sync, e.early, e.maxFrames)) <==>
      HeadBreaks(sender, s) && !AboutToPop(s, e)
  {
    PopStep(s, e);
  }

  lemma RestartMends(sender: Sender, s: System)
    requires WellFormed(s) && ClientKnows(sender, s) && s.pc.Restart?
    ensures !HeadBreaks(sender, s.(jitter := J.Reset(s.jitter, s.pc.kf), pc := Pump))
  {
  }

  /** No other step touches the buffer or the decoder's stream. */
  lemma OthersBreakNothing(sender: Sender, s: System, e: Event, t: System)
    requires Next(sender, s, e, t)
    requires e.Client? ==> !s.pc.Insert? && !s.pc.Drain? && !s.pc.Restart?
    ensures HeadBreaks(sender, t) == HeadBreaks(sender, s)
    ensures !AboutToBreak(sender, s, e) && !Mends(sender, s, e)
  {
    assert t.jitter == s.jitter && t.popped == s.popped;
  }

  lemma StepBreaksIff(sender: Sender, s: System, e: Event, t: System)
    requires Next(sender, s, e, t) && ClientKnows(sender, s) && (s.pc.Insert? ==> FitsOn(sender, s))
    ensures HeadBreaks(sender, t) <==>
      AboutToBreak(sender, s, e) || (HeadBreaks(sender, s) && !Mends(sender, s, e))
  {
    if e.Client? && s.pc.Insert? {
      InsertBreaksIff(sender, s, e);
    } else if e.Client? && s.pc.Drain? {
      DrainBreaksIff(sender, s, e);
    } else if e.Client? && s.pc.Restart? {
      RestartMends(sender, s);
    } else {
      OthersBreakNothing(sender, s, e, t);
    }
  }

  /** After a step of either thread the head is broken if and only if the step pushed into a buffer of 28 frames whose
      second frame is no keyframe, or the head was broken before and the step did not mend it. */
  lemma BreaksExactly(sender: Sender, s: System, e: Event, t: System)
    requires Inv(sender, s) && Next(sender, s, e, t)
    ensures HeadBreaks(sender, t) <==>
      AboutToBreak(sender, s, e) || (HeadBreaks(sender, s) && !Mends(sender, s, e))
  {
    if s.pc.Insert? {
      InsertFacts(sender, s);
    }
    StepBreaksIff(sender, s, e, t);
  }

  // ---------------------------------------------------------------- over executions

  /** The popped stream is decodable: it starts with a keyframe, and every other frame continues the one before it or is
      a keyframe. */
  ghost predicate Intact(sender: Sender, popped: seq<Popped>) {
    forall i :: 0 <= i < |popped| ==> Joins(sender, popped, i)
  }

  ghost predicate Joins(sender: Sender, popped: seq<Popped>, i: nat)
    requires i < |popped|
  {
    || Key(sender, popped[i].frame.frameId)
    || (i > 0 && popped[i].frame.frameId == popped[i - 1].frame.frameId + 1)
  }

  /** Popping a frame keeps the stream decodable exactly when it was and the frame joins on. */
  lemma IntactMore(sender: Sender, popped: seq<Popped>, p: Popped)
    ensures Intact(sender, popped + [p]) <==> Intact(sender, popped) && Joins(sender, popped + [p], |popped|)
  {
    var more := popped + [p];
    forall i | 0 <= i < |popped|
      ensures Joins(sender, more, i) == Joins(sender, popped, i)
    {
    }
  }

  lemma PopIntactIff(sender: Sender, s: System, e: Event)
    requires WellFormed(s) && e.Client? && s.pc.Drain? && (AboutToPop(s, e) ==> s.jitter.initialized)
    ensures Intact(sender, ClientStep(s, e.sync, e.early, e.maxFrames).popped) <==>
      Intact(sender, s.popped) && !(AboutToPop(s, e) && HeadBreaks(sender, s))
  {
    PopStep(s, e);
    if AboutToPop(s, e) {
      IntactMore(sender, s.popped, Popped(s.jitter.ring[J.Cell(s.jitter.nextPop)].value, s.lossy));
    }
  }

  /** A step leaves the stream decodable if and only if it was and the step does not pop a broken head. */
  lemma StepIntactIff(sender: Sender, s: System, e: Event, t: System)
    requires Inv(sender, s) && Next(sender, s, e, t)
    ensures Intact(sender, t.popped) <==> Intact(sender, s.popped) && !(AboutToPop(s, e) && HeadBreaks(sender, s))
  {
    if e.Client? && s.pc.Drain? {
      assert AboutToPop(s, e) ==> s.jitter.ring[J.Cell(s.jitter.nextPop)].Some?;
      PopIntactIff(sender, s, e);
    } else {
      PopUntouched(sender, s, e, t);
    }
  }

  lemma PopUntouched(sender: Sender, s: System, e: Event, t: System)
    requires Next(sender, s, e, t) && (e.Client? ==> !s.pc.Drain?)
    ensures t.popped == s.popped
  {
  }

  /** Step `j` pushed into 28 frames whose second is no keyframe, and no step from there to `k` mended the head. */
  ghost predicate BrokenBetween(sender: Sender, states: seq<System>, events: seq<Event>, j: nat, k: nat)
    requires j < k <= |events| < |states|
  {
    && AboutToBreak(sender, states[j], events[j])
    && forall m :: j < m < k ==> J.Sized(states[m].jitter) && !Mends(sender, states[m], events[m])
  }

  /** Before step `k`, some breaking push has not been mended. */
  ghost predicate Unmended(sender: Sender, states: seq<System>, events: seq<Event>, k: nat)
    requires k <= |events| < |states|
  {
    exists j: nat :: j < k && BrokenBetween(sender, states, events, j, k)
  }

  /** In every execution, the head is broken exactly between such a push and the next step that mends it. */
  lemma {:induction false} BrokenSince(sender: Sender, states: seq<System>, events: seq<Event>, k: nat)
    requires Sendable(sender) && Execution(sender, states, events) && k < |states|
    ensures HeadBreaks(sender, states[k]) <==> Unmended(sender, states, events, k)
    decreases k
  {
    if k > 0 {
      var p := k - 1;
      BrokenSince(sender, states, events, p);
      ExecutionInv(sender, states, events, p);
      BreaksExactly(sender, states[p], events[p], states[k]);
      UnmendedStep(sender, states, events, p, k);
    }
  }

  lemma UnmendedStep(sender: Sender, states: seq<System>, events: seq<Event>, p: nat, k: nat)
    requires k == p + 1 && k <= |events| < |states| && J.Sized(states[p].jitter)
    ensures Unmended(sender, states, events, k) <==>
      || AboutToBreak(sender, states[p], events[p])
      || (Unmended(sender, states, events, p) && !Mends(sender, states[p], events[p]))
  {
    if Unmended(sender, states, events, k) {
      var j: nat :| j < k && BrokenBetween(sender, states, events, j, k);
      assert j < p ==> BrokenBetween(sender, states, events, j, p);
    }
    if AboutToBreak(sender, states[p], events[p]) {
      assert BrokenBetween(sender, states, events, p, k);
    }
    if Unmended(sender, states, events, p) && !Mends(sender, states[p], events[p]) {
      var j: nat :| j < p && BrokenBetween(sender, states, events, j, p);
      assert BrokenBetween(sender, states, events, j, k);
    }
  }

  /** Step `k` pops a frame after a breaking push that nothing mended. */
  ghost predicate PopsBroken(sender: Sender, states: seq<System>, events: seq<Event>, k: nat)
    requires k < |events| < |states|
  {
    J.Sized(states[k].jitter) && AboutToPop(states[k], events[k]) && Unmended(sender, states, events, k)
  }

  lemma PopsBrokenIff(sender: Sender, states: seq<System>, events: seq<Event>, k: nat, next: nat)
    requires Sendable(sender) && Execution(sender, states, events) && k < |events| && next == k + 1
    ensures Intact(sender, states[next].popped) <==>
      Intact(sender, states[k].popped) && !PopsBroken(sender, states, events, k)
  {
    ExecutionInv(sender, states, events, k);
    BrokenSince(sender, states, events, k);
    StepIntactIff(sender, states[k], events[k], states[next]);
  }

  /** In every execution, the stream the decoder has got is decodable if and only if no pop followed a push into 28
      frames whose second is no keyframe, with no other pop, reset or push down to a keyframe in between. */
  lemma {:induction false} StreamIntactIff(sender: Sender, states: seq<System>, events: seq<Event>, i: nat)
    requires Sendable(sender) && Execution(sender, states, events) && i < |states|
    ensures Intact(sender, states[i].popped) <==>
      forall k: nat :: k < i ==> !PopsBroken(sender, states, events, k)
  {
    if i > 0 {
      var p := i - 1;
      StreamIntactIff(sender, states, events, p);
      PopsBrokenIff(sender, states, events, p, i);
    }
  }

  /** In particular it is decodable in every execution without such a push. */
  lemma IntactUnlessBroken(sender: Sender, states: seq<System>, events: seq<Event>, i: nat)
    requires Sendable(sender) && Execution(sender, states, events) && i < |states|
    requires forall k :: 0 <= k < i ==> !AboutToBreak(sender, states[k], events[k])
    ensures !HeadBreaks(sender, states[i]) && Intact(sender, states[i].popped)
  {
    BrokenSince(sender, states, events, i);
    StreamIntactIff(sender, states, events, i);
  }

  // ---------------------------------------------------------------- what the mark on a popped frame says

  lemma FirstReleasesNothing(f: Frame)
    ensures J.PushReleases(J.Empty(), f) == []
  {
    FirstPush(f);
    assert J.Shed(J.Insert(J.Started(J.Empty(), f), f)) == [];
  }

  lemma InsertMarks(sender: Sender, s: System, e: Event)
    requires WellFormed(s) && e.Client? && s.pc.Insert? && FitsOn(sender, s)
    ensures Pushed(s, s.pc.frame).lossy <==> s.lossy || AboutToShed(s, e)
  {
    if s.jitter.initialized {
      PushContiguous(s.jitter, s.pc.frame);
    } else {
      FirstReleasesNothing(s.pc.frame);
    }
  }

  /** A push into a full buffer sets the mark, a pop clears it, and nothing else touches it. */
  lemma StepMarks(sender: Sender, s: System, e: Event, t: System)
    requires Inv(sender, s) && Next(sender, s, e, t)
    ensures t.lossy <==> AboutToShed(s, e) || (s.lossy && !AboutToPop(s, e))
  {
    if e.Client? && s.pc.Insert? {
      InsertFacts(sender, s);
      InsertMarks(sender, s, e);
    } else if e.Client? && s.pc.Drain? {
      PopStep(s, e);
    }
  }

  /** Step `j` pushed into 28 frames, and no step from there to `k` popped one. */
  ghost predicate ShedBetween(states: seq<System>, events: seq<Event>, j: nat, k: nat)
    requires j < k <= |events| < |states|
  {
    && AboutToShed(states[j], events[j])
    && forall m :: j < m < k ==> J.Sized(states[m].jitter) && !AboutToPop(states[m], events[m])
  }

  ghost predicate ShedSincePop(states: seq<System>, events: seq<Event>, k: nat)
    requires k <= |events| < |states|
  {
    exists j: nat :: j < k && ShedBetween(states, events, j, k)
  }

  lemma ShedStep(states: seq<System>, events: seq<Event>, p: nat, k: nat)
    requires k == p + 1 && k <= |events| < |states| && J.Sized(states[p].jitter)
    ensures ShedSincePop(states, events, k) <==>
      || AboutToShed(states[p], events[p])
      || (ShedSincePop(states, events, p) && !AboutToPop(states[p], events[p]))
  {
    if ShedSincePop(states, events, k) {
      var j: nat :| j < k && ShedBetween(states, events, j, k);
      assert j < p ==> ShedBetween(states, events, j, p);
    }
    if AboutToShed(states[p], events[p]) {
      assert ShedBetween(states, events, p, k);
    }
    if ShedSincePop(states, events, p) && !AboutToPop(states[p], events[p]) {
      var j: nat :| j < p && ShedBetween(states, events, j, p);
      assert ShedBetween(states, events, j, k);
    }
  }

  /** In every execution, the next popped frame is marked if and only if the buffer overflowed since the last pop. */
  lemma {:induction false} MarkedExactly(sender: Sender, states: seq<System>, events: seq<Event>, k: nat)
    requires Sendable(sender) && Execution(sender, states, events) && k < |states|
    ensures states[k].lossy <==> ShedSincePop(states, events, k)
    decreases k
  {
    if k > 0 {
      var p := k - 1;
      MarkedExactly(sender, states, events, p);
      ExecutionInv(sender, states, events, p);
      StepMarks(sender, states[p], events[p], states[k]);
      ShedStep(states, events, p, k);
    }
  }

  // ---------------------------------------------------------------- a run that overflows

  /** Frames `k` to `k + 29` are single fragments, and of these only `k` is a keyframe. */
  ghost predicate BurstySender(sender: Sender, k: nat) {
    && Sendable(sender) && Key(sender, k)
    && (forall id :: k <= id < k + 30 ==> id in sender && FragmentCount(|sender[id].bytes|) == 1)
    && (forall id :: k < id < k + 30 ==> !sender[id].isKeyframe)
  }

  /** `n` one-byte frames from id `k` on, the first of them a keyframe. */
  function OneByteFrames(k: nat, n: nat): (sender: Sender)
    ensures forall id :: id in sender <==> k <= id < k + n
    ensures forall id :: id in sender ==> |sender[id].bytes| == 1 && sender[id].isKeyframe == (id == k)
  {
    if n == 0 then map[] else OneByteFrames(k, n - 1)[k + n - 1 := Original([0], n == 1, false, Stamps(0, 0, 0))]
  }

  lemma SomeBurstySender(k: nat, n: nat)
    requires n == 30
    ensures BurstySender(OneByteFrames(k, n), k)
  {
  }

  /** A started receiver with empty rings. */
  function EmptyAt(id: nat): State {
    Initial().(nextId := id, started := true)
  }

  function HeaderOf(sender: Sender, id: nat): VideoHeader
    requires id in sender && |sender[id].bytes| < 0x10000
  {
    var o := sender[id];
    VideoHeader(id, 0, 1, o.stamps, Flags(o.isKeyframe, o.isHEVC), |o.bytes|)
  }

  function FrameOf(sender: Sender, id: nat, stale: seq<byte>): Frame
    requires id in sender && |sender[id].bytes| < 0x10000 && |stale| == FRAME_CAPACITY
  {
    var o := sender[id];
    NewFrame(HeaderOf(sender, id), stale).(
      buffer := o.bytes + stale[|o.bytes|..], totalSize := |o.bytes|, fragmentsReceived := 1, isComplete := true,
      fragmentMap := seq(MAX_FRAGMENTS, _ => false)[0 := true],
      fragmentSizes := seq(MAX_FRAGMENTS, _ => 0)[0 := |o.bytes|])
  }

  lemma SingleFragment(sender: Sender, id: nat)
    requires id in sender && FragmentCount(|sender[id].bytes|) == 1
    ensures 1 <= |sender[id].bytes| <= MAX_UDP_PAYLOAD
    ensures GenuineVideo(sender, HeaderOf(sender, id), sender[id].bytes)
  {
    assert Fragment(sender[id].bytes, 0) == sender[id].bytes;
  }

  lemma AssembleSingle(sender: Sender, id: nat, stale: seq<byte>)
    requires id in sender && FragmentCount(|sender[id].bytes|) == 1 && |stale| == FRAME_CAPACITY
    ensures |sender[id].bytes| <= MAX_UDP_PAYLOAD && Shaped(NewFrame(HeaderOf(sender, id), stale))
    ensures Assemble(NewFrame(HeaderOf(sender, id), stale), HeaderOf(sender, id), sender[id].bytes, None)
         == FrameOf(sender, id, stale)
  {
    SingleFragment(sender, id);
    var o, h := sender[id], HeaderOf(sender, id);
    var f := NewFrame(h, stale);
    assert Patch(f.buffer, 0, o.bytes) == o.bytes + stale[|o.bytes|..];
  }

  /** The packet of a single-fragment frame puts the complete frame into the ring. */
  lemma ArrivalCompletes(sender: Sender, s: State, id: nat, stale: seq<byte>)
    requires id in sender && FragmentCount(|sender[id].bytes|) == 1 && |stale| == FRAME_CAPACITY
    requires s == EmptyAt(id) || (s == Initial() && sender[id].isKeyframe)
    ensures |sender[id].bytes| < 0x10000 && StateShaped(s) && StateShaped(EmptyAt(id))
    ensures Shaped(FrameOf(sender, id, stale))
    ensures ProcessPacket(s, HeaderOf(sender, id), sender[id].bytes, stale)
         == WithFrame(EmptyAt(id), FrameOf(sender, id, stale))
  {
    SingleFragment(sender, id);
    AssembleSingle(sender, id, stale);
    var h := HeaderOf(sender, id);
    assert Gate(s, h) == EmptyAt(id);
    assert Lookup(EmptyAt(id), id).None?;
  }

  lemma TakeEmpties(id: nat, f: Frame)
    requires Shaped(f) && f.isComplete && f.frameId == id
    ensures StateShaped(EmptyAt(id)) && StateShaped(WithFrame(EmptyAt(id), f))
    ensures Ready(WithFrame(EmptyAt(id), f)) == Some(f) && AfterTake(WithFrame(EmptyAt(id), f)) == EmptyAt(id + 1)
  {
    assert AfterTake(WithFrame(EmptyAt(id), f)).ring == EmptyAt(id + 1).ring;
  }

  lemma NothingReady(id: nat)
    ensures StateShaped(EmptyAt(id)) && Ready(EmptyAt(id)).None? && LatestKeyframe(EmptyAt(id), FRAME_RING) == 0
    ensures StateShaped(Initial()) && LatestKeyframe(Initial(), FRAME_RING) == 0
  {
  }

  /** A run of the client and the state it ends in. */
  ghost predicate Reaches(sender: Sender, states: seq<System>, events: seq<Event>, s: System) {
    Execution(sender, states, events) && states[|states| - 1] == s
  }

  lemma Follow(sender: Sender, states: seq<System>, events: seq<Event>, s: System, e: Event, t: System)
      returns (states': seq<System>, events': seq<Event>)
    requires Reaches(sender, states, events, s) && Next(sender, s, e, t)
    ensures Reaches(sender, states', events', t)
  {
    states', events' := states + [t], events + [e];
  }

  /** One lock section of the client thread. */
  lemma FollowClient(sender: Sender, states: seq<System>, events: seq<Event>, s: System)
      returns (states': seq<System>, events': seq<Event>)
    requires Sendable(sender) && Reaches(sender, states, events, s)
    ensures Inv(sender, s) && Reaches(sender, states', events', ClientStep(s, 0, false, 0))
  {
    ExecutionInv(sender, states, events, |states| - 1);
    states', events' := Follow(sender, states, events, s, Client(0, false, 0), ClientStep(s, 0, false, 0));
  }

  /** The packet of the next single-fragment frame arrives. */
  lemma Arrive(sender: Sender, states: seq<System>, events: seq<Event>, s: System, id: nat, stale: seq<byte>)
      returns (states': seq<System>, events': seq<Event>, f: Frame)
    requires Sendable(sender) && Reaches(sender, states, events, s) && WellFormed(s) && |stale| == FRAME_CAPACITY
    requires id in sender && FragmentCount(|sender[id].bytes|) == 1
    requires s.recv == EmptyAt(id) || (s.recv == Initial() && sender[id].isKeyframe)
    ensures Shaped(f) && f.isComplete && f.frameId == id && StateShaped(EmptyAt(id))
    ensures Reaches(sender, states', events', s.(recv := WithFrame(EmptyAt(id), f)))
  {
    SingleFragment(sender, id);
    ArrivalCompletes(sender, s.recv, id, stale);
    f := FrameOf(sender, id, stale);
    var e := Video(HeaderOf(sender, id), sender[id].bytes, stale);
    states', events' := Follow(sender, states, events, s, e, s.(recv := WithFrame(EmptyAt(id), f)));
  }

  /** A frame arrives while the client pumps, and the client takes it. */
  lemma ArriveAndTake(sender: Sender, states: seq<System>, events: seq<Event>, s: System, id: nat, stale: seq<byte>)
      returns (states': seq<System>, events': seq<Event>, f: Frame)
    requires Sendable(sender) && Reaches(sender, states, events, s) && s.pc.Pump? && |stale| == FRAME_CAPACITY
    requires id in sender && FragmentCount(|sender[id].bytes|) == 1
    requires s.recv == EmptyAt(id) || (s.recv == Initial() && sender[id].isKeyframe)
    ensures f.frameId == id
    ensures Reaches(sender, states', events',
                    s.(recv := EmptyAt(id + 1), delivered := s.delivered + [f], pc := Insert(f)))
  {
    ExecutionInv(sender, states, events, |states| - 1);
    states', events', f := Arrive(sender, states, events, s, id, stale);
    TakeEmpties(id, f);
    states', events' := FollowClient(sender, states', events', s.(recv := WithFrame(EmptyAt(id), f)));
  }

  /** `n` more frames arrive, are taken and pushed before the next pop. */
  lemma {:induction false} Burst(sender: Sender, states: seq<System>, events: seq<Event>, s: System, hi: nat, n: nat,
                                 stale: seq<byte>)
      returns (states': seq<System>, events': seq<Event>, t: System)
    requires Sendable(sender) && Reaches(sender, states, events, s) && |stale| == FRAME_CAPACITY
    requires s.pc.Pump? && s.recv == EmptyAt(hi) && Contiguous(s.jitter, hi) && s.jitter.count + n <= J.HIGH_WATER
    requires forall id :: hi <= id < hi + n ==> id in sender && FragmentCount(|sender[id].bytes|) == 1
    ensures Reaches(sender, states', events', t)
    ensures t.pc.Pump? && t.recv == EmptyAt(hi + n) && Contiguous(t.jitter, hi + n)
    ensures t.jitter.count == s.jitter.count + n && t.jitter.nextPop == s.jitter.nextPop && t.popped == s.popped
    decreases n
  {
    if n == 0 {
      states', events', t := states, events, s;
    } else {
      var f;
      states', events', f := ArriveAndTake(sender, states, events, s, hi, stale);
      var u := s.(recv := EmptyAt(hi + 1), delivered := s.delivered + [f], pc := Insert(f));
      PushStays(s.jitter, f);
      states', events' := FollowClient(sender, states', events', u);
      states', events', t := Burst(sender, states', events', Pushed(u, f), hi + 1, n - 1, stale);
    }
  }

  /** From the beginning: the client looks for a keyframe and starts pumping. */
  lemma Opening(sender: Sender) returns (states: seq<System>, events: seq<Event>)
    requires Sendable(sender)
    ensures Reaches(sender, states, events, Start().(pc := Pump))
  {
    states, events := [Start()], [];
    NothingReady(0);
    states, events := FollowClient(sender, states, events, Start());
    states, events := FollowClient(sender, states, events, Start().(pc := Compare(0)));
  }

  /** The pump finds nothing and the head of the buffer is popped. */
  lemma PumpAndPop(sender: Sender, states: seq<System>, events: seq<Event>, s: System, hi: nat)
      returns (states': seq<System>, events': seq<Event>, t: System)
    requires Sendable(sender) && Reaches(sender, states, events, s) && s.pc.Pump? && s.recv == EmptyAt(hi)
    requires Contiguous(s.jitter, hi) && s.jitter.count > 0
    ensures Reaches(sender, states', events', t)
    ensures t.pc.Scan? && t.recv == s.recv && Contiguous(t.jitter, hi) && t.jitter.nextPop == s.jitter.nextPop + 1
    ensures t.jitter.count == s.jitter.count - 1 && |t.popped| == |s.popped| + 1 && t.popped[..|s.popped|] == s.popped
    ensures t.popped[|s.popped|].frame.frameId == s.jitter.nextPop && t.popped[|s.popped|].afterLoss == s.lossy
  {
    NothingReady(hi);
    states', events' := FollowClient(sender, states, events, s);
    var u := s.(pc := Drain);
    assert J.LinkedAt(s.jitter, J.Cell(s.jitter.nextPop));
    PopContiguous(s.jitter, hi, 0, false, 0);
    t := ClientStep(u, 0, false, 0);
    states', events' := FollowClient(sender, states', events', u);
  }

  /** The first keyframe arrives, is taken and pushed. */
  lemma FirstPushed(sender: Sender, k: nat, stale: seq<byte>)
      returns (states: seq<System>, events: seq<Event>, t: System)
    requires BurstySender(sender, k) && |stale| == FRAME_CAPACITY
    ensures Reaches(sender, states, events, t) && t.pc.Pump? && t.recv == EmptyAt(k + 1)
    ensures Contiguous(t.jitter, k + 1) && t.jitter.nextPop == k && t.jitter.count == 1 && t.popped == []
  {
    states, events := Opening(sender);
    var s := Start().(pc := Pump);
    var f;
    states, events, f := ArriveAndTake(sender, states, events, s, k, stale);
    var u := s.(recv := EmptyAt(k + 1), delivered := s.delivered + [f], pc := Insert(f));
    FirstPush(f);
    states, events := FollowClient(sender, states, events, u);
    t := Pushed(u, f);
  }

  /** With nothing to recover, the client goes back to pumping. */
  lemma BackToPump(sender: Sender, states: seq<System>, events: seq<Event>, s: System, hi: nat)
      returns (states': seq<System>, events': seq<Event>)
    requires Sendable(sender) && Reaches(sender, states, events, s) && s.pc.Scan? && s.recv == EmptyAt(hi)
    ensures Reaches(sender, states', events', s.(pc := Pump))
  {
    NothingReady(hi);
    states', events' := FollowClient(sender, states, events, s);
    states', events' := FollowClient(sender, states', events', s.(pc := Compare(0)));
  }

  /** The first keyframe goes all the way to the decoder, and the client pumps again. */
  lemma FirstFrame(sender: Sender, k: nat, stale: seq<byte>)
      returns (states: seq<System>, events: seq<Event>, t: System)
    requires BurstySender(sender, k) && |stale| == FRAME_CAPACITY
    ensures Reaches(sender, states, events, t) && t.pc.Pump? && t.recv == EmptyAt(k + 1)
    ensures Contiguous(t.jitter, k + 1) && t.jitter.nextPop == k + 1 && t.jitter.count == 0
    ensures |t.popped| == 1 && t.popped[0].frame.frameId == k
  {
    states, events, t := FirstPushed(sender, k, stale);
    states, events, t := PumpAndPop(sender, states, events, t, k + 1);
    states, events := BackToPump(sender, states, events, t, k + 1);
    t := t.(pc := Pump);
  }

  lemma FullPush(b: J.Jitter, f: Frame)
    requires Contiguous(b, f.frameId) && b.count == J.HIGH_WATER
    ensures var t := J.Push(b, f);
      Contiguous(t, f.frameId + 1) && t.nextPop == b.nextPop + 1 && t.count > 0
  {
    PushContiguous(b, f);
  }

  /** A frame arrives, is taken, and its push makes the full buffer drop its head. */
  lemma PushIntoFull(sender: Sender, states: seq<System>, events: seq<Event>, s: System, hi: nat, stale: seq<byte>)
      returns (states': seq<System>, events': seq<Event>, t: System)
    requires Sendable(sender) && Reaches(sender, states, events, s) && |stale| == FRAME_CAPACITY
    requires s.pc.Pump? && s.recv == EmptyAt(hi) && Contiguous(s.jitter, hi) && s.jitter.count == J.HIGH_WATER
    requires hi in sender && FragmentCount(|sender[hi].bytes|) == 1
    ensures Reaches(sender, states', events', t)
    ensures t.pc.Pump? && t.recv == EmptyAt(hi + 1) && Contiguous(t.jitter, hi + 1)
    ensures t.jitter.count > 0 && t.jitter.nextPop == s.jitter.nextPop + 1 && t.popped == s.popped
  {
    var f;
    states', events', f := ArriveAndTake(sender, states, events, s, hi, stale);
    var u := s.(recv := EmptyAt(hi + 1), delivered := s.delivered + [f], pc := Insert(f));
    FullPush(s.jitter, f);
    states', events' := FollowClient(sender, states', events', u);
    t := Pushed(u, f);
  }

  /** For every sender of a keyframe and 29 more single-fragment frames, if those arrive between two pops, the decoder
      gets frame `k + 2` right after frame `k`, and that is no keyframe. */
  lemma OverflowHappens(sender: Sender, k: nat, stale: seq<byte>)
      returns (states: seq<System>, events: seq<Event>, t: System)
    requires BurstySender(sender, k) && |stale| == FRAME_CAPACITY
    ensures Reaches(sender, states, events, t) && |t.popped| == 2
    ensures t.popped[0].frame.frameId == k && t.popped[1].frame.frameId == k + 2 && !Key(sender, k + 2)
    ensures !Intact(sender, t.popped)
  {
    states, events, t := FirstFrame(sender, k, stale);
    states, events, t := Burst(sender, states, events, t, k + 1, J.HIGH_WATER, stale);
    states, events, t := PushIntoFull(sender, states, events, t, k + 29, stale);
    states, events, t := PumpAndPop(sender, states, events, t, k + 30);
    assert !Joins(sender, t.popped, 1);
  }

  /** And if they arrive before the first pop, the only keyframe is dropped: the first frame the decoder gets is
      `k + 1`, which is no keyframe. */
  lemma KeyframeLost(sender: Sender, k: nat, stale: seq<byte>)
      returns (states: seq<System>, events: seq<Event>, t: System)
    requires BurstySender(sender, k) && |stale| == FRAME_CAPACITY
    ensures Reaches(sender, states, events, t) && |t.popped| == 1
    ensures t.popped[0].frame.frameId == k + 1 && !Key(sender, k + 1)
    ensures !Intact(sender, t.popped)
  {
    states, events, t := FirstPushed(sender, k, stale);
    states, events, t := Burst(sender, states, events, t, k + 1, J.HIGH_WATER - 1, stale);
    states, events, t := PushIntoFull(sender, states, events, t, k + 28, stale);
    states, events, t := PumpAndPop(sender, states, events, t, k + 29);
    assert !Joins(sender, t.popped, 0);
  }
}
