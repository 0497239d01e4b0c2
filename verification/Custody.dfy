/** Where a delivered frame is: with the client thread, in the jitter buffer, with the decoder, or given back to the
    receiver, and never in two of these places. */
module Custody {
  import opened Wrappers
  import opened Packetizer
  import opened Reassembly
  import opened Pipeline
  import J = JitterModel

  function InHand(s: System): seq<Frame> {
    if s.pc.Insert? then [s.pc.frame] else []
  }

  function PoppedFrames(popped: seq<Popped>): seq<Frame> {
    if popped == [] then [] else PoppedFrames(popped[..|popped| - 1]) + [popped[|popped| - 1].frame]
  }

  /** The frames in the first `n` slots. */
  function Slots(ring: seq<Option<Frame>>, n: nat): seq<Frame>
    requires n <= |ring|
  {
    if n == 0 then [] else Slots(ring, n - 1) + J.Released(ring[n - 1])
  }

  /** The frames whose pointer a step destroys: what a push sheds or refuses, and what a reset drops. */
  function GivenBack(s: System, e: Event): seq<Frame>
    requires J.Sized(s.jitter)
  {
    if e.Client? && s.pc.Insert? then J.PushReleases(s.jitter, s.pc.frame)
    else if e.Client? && s.pc.Restart? then Slots(s.jitter.ring, |s.jitter.ring|)
    else []
  }

  /** Everything given back in the first `n` steps of a run. */
  ghost function GivenBackBy(states: seq<System>, events: seq<Event>, n: nat): seq<Frame>
    requires n <= |events| < |states| && forall i :: 0 <= i < n ==> J.Sized(states[i].jitter)
  {
    if n == 0 then [] else GivenBackBy(states, events, n - 1) + GivenBack(states[n - 1], events[n - 1])
  }

  /** Frame `x` stands as often among the delivered ones as in the four places together. */
  ghost predicate Accounted(s: System, back: seq<Frame>, x: Frame) {
    && J.Sized(s.jitter)
    && J.Copies(s.delivered, x) == J.Copies(InHand(s), x) + J.Stored(s.jitter.ring, |s.jitter.ring|, x)
                                   + J.Copies(PoppedFrames(s.popped), x) + J.Copies(back, x)
  }

  lemma OneCopy(f: Frame, x: Frame)
    ensures J.Copies([f], x) == if f == x then 1 else 0
  {
    assert [f][1..] == [];
  }

  lemma ReleasedCopies(e: Option<Frame>, x: Frame)
    ensures J.Copies(J.Released(e), x) == if e == Some(x) then 1 else 0
  {
    if e.Some? {
      OneCopy(e.value, x);
    }
  }

  lemma OneMoreSlot(before: seq<Frame>, e: Option<Frame>, after: seq<Frame>, x: Frame)
    requires after == before + J.Released(e)
    ensures J.Copies(after, x) == J.Copies(before, x) + if e == Some(x) then 1 else 0
  {
    J.CopiesAppend(before, J.Released(e), x);
    ReleasedCopies(e, x);
  }

  lemma {:induction false} SlotsAreStored(ring: seq<Option<Frame>>, n: nat, x: Frame)
    requires n <= |ring|
    ensures J.Copies(Slots(ring, n), x) == J.Stored(ring, n, x)
  {
    if n > 0 {
      SlotsAreStored(ring, n - 1, x);
      OneMoreSlot(Slots(ring, n - 1), ring[n - 1], Slots(ring, n), x);
    }
  }

  lemma {:induction false} NothingStored(ring: seq<Option<Frame>>, n: nat, x: Frame)
    requires n <= |ring| && forall j :: 0 <= j < n ==> ring[j].None?
    ensures J.Stored(ring, n, x) == 0
  {
    if n > 0 {
      NothingStored(ring, n - 1, x);
    }
  }

  lemma ResetAccounted(s: System, back: seq<Frame>, x: Frame)
    requires Accounted(s, back, x) && s.pc.Restart?
    ensures Accounted(s.(jitter := J.Reset(s.jitter, s.pc.kf), pc := Pump),
                      back + Slots(s.jitter.ring, |s.jitter.ring|), x)
  {
    SlotsAreStored(s.jitter.ring, |s.jitter.ring|, x);
    NothingStored(J.Reset(s.jitter, s.pc.kf).ring, |J.Reset(s.jitter, s.pc.kf).ring|, x);
    J.CopiesAppend(back, Slots(s.jitter.ring, |s.jitter.ring|), x);
  }

  lemma PushAccounted(s: System, back: seq<Frame>, x: Frame)
    requires Accounted(s, back, x) && WellFormed(s) && s.pc.Insert?
    ensures Accounted(Pushed(s, s.pc.frame), back + J.PushReleases(s.jitter, s.pc.frame), x)
  {
    OneCopy(s.pc.frame, x);
    J.PushConserves(s.jitter, s.pc.frame, x);
    J.CopiesAppend(back, J.PushReleases(s.jitter, s.pc.frame), x);
  }

  lemma TakeAccounted(s: System, back: seq<Frame>, x: Frame)
    requires Accounted(s, back, x) && WellFormed(s) && s.pc.Pump? && Ready(s.recv).Some?
    ensures Accounted(Taken(s), back, x)
  {
    OneCopy(Ready(s.recv).value, x);
    J.CopiesAppend(s.delivered, [Ready(s.recv).value], x);
  }

  lemma PoppedMore(popped: seq<Popped>, p: Popped, x: Frame)
    ensures J.Copies(PoppedFrames(popped + [p]), x) == J.Copies(PoppedFrames(popped), x) + if p.frame == x then 1 else 0
  {
    assert (popped + [p])[..|popped|] == popped;
    OneCopy(p.frame, x);
    J.CopiesAppend(PoppedFrames(popped), [p.frame], x);
  }

  lemma DrainedAccounted(s: System, back: seq<Frame>, x: Frame, jitter: J.Jitter, f: Frame)
    requires Accounted(s, back, x) && s.pc.Drain? && J.Sized(jitter)
    requires J.Stored(s.jitter.ring, |s.jitter.ring|, x)
          == J.Stored(jitter.ring, |jitter.ring|, x) + if f == x then 1 else 0
    ensures Accounted(Drained(s, jitter, f), back, x)
  {
    var t := Drained(s, jitter, f);
    PoppedMore(s.popped, Popped(f, s.lossy), x);
    assert t.popped == s.popped + [Popped(f, s.lossy)] && t.delivered == s.delivered && t.jitter == jitter;
    assert InHand(s) == InHand(t) == [];
  }

  /** A step that only moves the client thread between states without a frame in hand. */
  lemma IdleAccounted(s: System, back: seq<Frame>, x: Frame, pc: Pc)
    requires Accounted(s, back, x) && !s.pc.Insert? && !pc.Insert?
    ensures Accounted(s.(pc := pc), back, x)
  {
  }

  lemma PopAccounted(s: System, back: seq<Frame>, x: Frame, sync: nat, early: bool, maxFrames: nat)
    requires Accounted(s, back, x) && WellFormed(s) && s.pc.Drain?
    ensures Accounted(ClientStep(s, sync, early, maxFrames), back, x)
  {
    var r := J.Pop(s.jitter, sync, early, maxFrames);
    J.PopConserves(s.jitter, sync, early, maxFrames, x);
    if r.1.Some? {
      DrainedAccounted(s, back, x, r.0, r.1.value);
    } else {
      IdleAccounted(s, back, x, Scan);
    }
  }

  lemma ClientAccounted(s: System, e: Event, back: seq<Frame>, x: Frame)
    requires Accounted(s, back, x) && WellFormed(s) && e.Client?
    ensures Accounted(ClientStep(s, e.sync, e.early, e.maxFrames), back + GivenBack(s, e), x)
  {
    assert back + [] == back;
    match s.pc
    case Insert(_) => PushAccounted(s, back, x);
    case Restart(_) => ResetAccounted(s, back, x);
    case Drain => PopAccounted(s, back, x, e.sync, e.early, e.maxFrames);
    case Pump =>
      if Ready(s.recv).Some? {
        TakeAccounted(s, back, x);
      }
    case Scan =>
    case Compare(_) =>
    case Force(_) =>
  }

  lemma NetworkAccounted(s: System, back: seq<Frame>, x: Frame, recv: State)
    requires Accounted(s, back, x)
    ensures Accounted(s.(recv := recv), back, x)
  {
  }

  lemma NextAccounted(sender: Sender, s: System, e: Event, t: System, back: seq<Frame>, more: seq<Frame>, x: Frame)
    requires Accounted(s, back, x) && Next(sender, s, e, t) && more == back + GivenBack(s, e)
    ensures Accounted(t, more, x)
  {
    if e.Client? {
      ClientAccounted(s, e, back, x);
    } else {
      assert more == back && t == s.(recv := t.recv);
      NetworkAccounted(s, back, x, t.recv);
    }
  }

  lemma NextSized(sender: Sender, s: System, e: Event, t: System)
    requires Next(sender, s, e, t)
    ensures J.Sized(s.jitter)
  {
  }

  lemma BackMore(states: seq<System>, events: seq<Event>, p: nat, i: nat, back: seq<Frame>, more: seq<Frame>)
    requires i == p + 1 && i <= |events| < |states| && forall k :: 0 <= k < i ==> J.Sized(states[k].jitter)
    requires back == GivenBackBy(states, events, p) && more == GivenBackBy(states, events, i)
    ensures more == back + GivenBack(states[p], events[p])
  {
    var k := i - 1;
    assert k == p;
    var s, e := states[k], events[k];
    var gone := GivenBack(s, e);
    assert more == GivenBackBy(states, events, k) + gone;
  }

  lemma StartAccounted(x: Frame)
    ensures Accounted(Start(), [], x)
  {
    NothingStored(Start().jitter.ring, |Start().jitter.ring|, x);
  }

  /** In every execution, every delivered frame is accounted for. */
  lemma {:induction false} AlwaysAccounted(sender: Sender, states: seq<System>, events: seq<Event>, i: nat, x: Frame)
    requires Execution(sender, states, events) && i < |states|
    ensures forall k :: 0 <= k < i ==> J.Sized(states[k].jitter)
    ensures Accounted(states[i], GivenBackBy(states, events, i), x)
  {
    if i == 0 {
      StartAccounted(x);
    } else {
      var p := i - 1;
      AlwaysAccounted(sender, states, events, p, x);
      NextSized(sender, states[p], events[p], states[i]);
      var back, more := GivenBackBy(states, events, p), GivenBackBy(states, events, i);
      BackMore(states, events, p, i, back, more);
      NextAccounted(sender, states[p], events[p], states[i], back, more, x);
    }
  }

  // ---------------------------------------------------------------- in exactly one place

  lemma {:induction false} Increases(frames: seq<Frame>, i: nat, j: nat)
    requires forall k :: 0 < k < |frames| ==> frames[k - 1].frameId < frames[k].frameId
    requires i < j < |frames|
    ensures frames[i].frameId < frames[j].frameId
  {
    if i < j - 1 {
      Increases(frames, i, j - 1);
    }
  }

  lemma {:induction false} NoCopies(frames: seq<Frame>, x: Frame)
    requires x !in frames
    ensures J.Copies(frames, x) == 0
  {
    if frames != [] {
      NoCopies(frames[1..], x);
    }
  }

  lemma {:induction false} CopiesOnce(frames: seq<Frame>, x: Frame)
    requires forall i, j :: 0 <= i < j < |frames| ==> frames[i] != frames[j]
    ensures J.Copies(frames, x) == if x in frames then 1 else 0
  {
    if frames != [] {
      if frames[0] == x {
        NoCopies(frames[1..], x);
      } else {
        CopiesOnce(frames[1..], x);
      }
    }
  }

  /** In every execution, a delivered frame is in exactly one of the four places, once, and no other frame is in any. */
  lemma OnePlace(sender: Sender, states: seq<System>, events: seq<Event>, i: nat, x: Frame)
    requires Sendable(sender) && Execution(sender, states, events) && i < |states|
    ensures forall k :: 0 <= k < i ==> J.Sized(states[k].jitter)
    ensures J.Sized(states[i].jitter)
    ensures J.Copies(InHand(states[i]), x) + J.Stored(states[i].jitter.ring, |states[i].jitter.ring|, x)
              + J.Copies(PoppedFrames(states[i].popped), x) + J.Copies(GivenBackBy(states, events, i), x)
         == if x in states[i].delivered then 1 else 0
  {
    AlwaysAccounted(sender, states, events, i, x);
    DeliveryIsDecodable(sender, states, events, i);
    var frames := states[i].delivered;
    forall a, b | 0 <= a < b < |frames|
      ensures frames[a] != frames[b]
    {
      Increases(frames, a, b);
    }
    CopiesOnce(frames, x);
  }
}
