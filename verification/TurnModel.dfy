/** One turn of the client's loop on values, with no packet arriving in between. */
module TurnModel {
  import opened Wrappers
  import opened Reassembly
  import J = JitterModel

  /** The slots of a ring that hold a frame. */
  function FullSlots(ring: seq<Option<Frame>>): set<nat> {
    set j | 0 <= j < |ring| && ring[j].Some?
  }

  lemma TakeEmptiesSlot(s: State)
    requires StateShaped(s) && Ready(s).Some?
    ensures StateShaped(AfterTake(s)) && |FullSlots(AfterTake(s).ring)| < |FullSlots(s.ring)|
  {
    assert FullSlots(AfterTake(s).ring) == FullSlots(s.ring) - {Slot(s.nextId)};
  }

  /** Skipping to the newest keyframe, if it is ahead. */
  function Recovered(s: State, b: J.Jitter): (State, J.Jitter)
    requires StateShaped(s) && J.Sized(b)
  {
    var kf := LatestKeyframe(s, FRAME_RING);
    if kf > 0 && kf > s.nextId then (ForceAdvance(s, kf), J.Reset(b, kf)) else (s, b)
  }

  /** Moving every frame that is ready. */
  function Pumped(s: State, b: J.Jitter): (State, J.Jitter)
    requires StateShaped(s) && J.Sized(b)
    decreases |FullSlots(s.ring)|
  {
    if Ready(s).None? then (s, b)
    else
      TakeEmptiesSlot(s);
      Pumped(AfterTake(s), J.Push(b, Ready(s).value))
  }

  lemma {:induction false} PumpedGrows(s: State, b: J.Jitter)
    requires StateShaped(s) && J.Sized(b)
    ensures s.nextId <= Pumped(s, b).0.nextId && (Ready(s).Some? ==> s.nextId < Pumped(s, b).0.nextId)
    decreases |FullSlots(s.ring)|
  {
    if Ready(s).Some? {
      TakeEmptiesSlot(s);
      PumpedGrows(AfterTake(s), J.Push(b, Ready(s).value));
    }
  }

  /** After one turn the read pointer is past every complete keyframe that was held among the next 64 ids. */
  lemma TurnPassesKeyframe(s: State, b: J.Jitter, k: nat)
    requires StateShaped(s) && J.Sized(b) && s.nextId <= k < s.nextId + 64 && KeyframeReady(s, k)
    ensures var (r, c) := Recovered(s, b);
      StateShaped(r) && J.Sized(c) && k < Pumped(r, c).0.nextId
  {
    LatestIsNewest(s, FRAME_RING, k);
    var (r, c) := Recovered(s, b);
    assert Ready(r).Some?;
    PumpedGrows(r, c);
  }
}
