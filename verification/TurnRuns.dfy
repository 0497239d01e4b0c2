/** A turn of the client's loop between two packets is a run of client steps of the interleaved model: what holds in all
    executions of the model holds of what the objects hold and of what the decoder gets. */
module TurnRuns {
  import opened Wrappers
  import opened Packetizer
  import opened Reassembly
  import opened Pipeline
  import J = JitterModel
  import opened TurnModel

  /** Some execution of the model ends here. */
  ghost predicate Reachable(sender: Sender, s: System) {
    exists states, events :: Execution(sender, states, events) && states[|states| - 1] == s
  }

  lemma ReachableInv(sender: Sender, s: System)
    requires Sendable(sender) && Reachable(sender, s)
    ensures Inv(sender, s)
  {
    var states, events :| Execution(sender, states, events) && states[|states| - 1] == s;
    ExecutionInv(sender, states, events, |states| - 1);
  }

  lemma NextReachable(sender: Sender, s: System, e: Event, t: System)
    requires Reachable(sender, s) && Next(sender, s, e, t)
    ensures Reachable(sender, t)
  {
    var states, events :| Execution(sender, states, events) && states[|states| - 1] == s;
    assert Execution(sender, states + [t], events + [e]);
  }

  lemma StepReachable(sender: Sender, s: System, sync: nat, early: bool, maxFrames: nat)
    requires Sendable(sender) && Reachable(sender, s)
    ensures Inv(sender, s) && Reachable(sender, ClientStep(s, sync, early, maxFrames))
  {
    ReachableInv(sender, s);
    NextReachable(sender, s, Client(sync, early, maxFrames), ClientStep(s, sync, early, maxFrames));
  }

  lemma RecoverReachable(sender: Sender, s: System) returns (t: System)
    requires Sendable(sender) && Reachable(sender, s) && s.pc.Scan?
    ensures WellFormed(s) && Reachable(sender, t) && t.pc.Pump? && t.popped == s.popped
    ensures (t.recv, t.jitter) == Recovered(s.recv, s.jitter)
  {
    StepReachable(sender, s, 0, false, 0);
    var kf := LatestKeyframe(s.recv, FRAME_RING);
    t := s.(pc := Compare(kf));
    StepReachable(sender, t, 0, false, 0);
    if kf > 0 && kf > s.recv.nextId {
      t := s.(pc := Force(kf));
      StepReachable(sender, t, 0, false, 0);
      t := s.(recv := ForceAdvance(s.recv, kf), pc := Restart(kf));
      StepReachable(sender, t, 0, false, 0);
      t := t.(jitter := J.Reset(s.jitter, kf), pc := Pump);
    } else {
      t := s.(pc := Pump);
    }
  }

  lemma TakeReachable(sender: Sender, s: System) returns (t: System)
    requires Sendable(sender) && Reachable(sender, s) && s.pc.Pump? && StateShaped(s.recv) && Ready(s.recv).Some?
    ensures Reachable(sender, t) && t.pc == Insert(Ready(s.recv).value)
    ensures t.recv == AfterTake(s.recv) && t.jitter == s.jitter && t.popped == s.popped
  {
    StepReachable(sender, s, 0, false, 0);
    t := Taken(s);
  }

  lemma InsertReachable(sender: Sender, s: System) returns (t: System)
    requires Sendable(sender) && Reachable(sender, s) && s.pc.Insert? && J.Sized(s.jitter)
    ensures Reachable(sender, t) && t.pc.Pump?
    ensures t.recv == s.recv && t.jitter == J.Push(s.jitter, s.pc.frame) && t.popped == s.popped
  {
    StepReachable(sender, s, 0, false, 0);
    t := Pushed(s, s.pc.frame);
  }

  lemma StopReachable(sender: Sender, s: System) returns (t: System)
    requires Sendable(sender) && Reachable(sender, s) && s.pc.Pump? && StateShaped(s.recv) && Ready(s.recv).None?
    ensures Reachable(sender, t) && t == s.(pc := Drain)
  {
    StepReachable(sender, s, 0, false, 0);
    t := s.(pc := Drain);
  }

  lemma {:induction false} PumpReachable(sender: Sender, s: System) returns (t: System)
    requires Sendable(sender) && Reachable(sender, s) && s.pc.Pump?
    ensures WellFormed(s) && Reachable(sender, t) && t.pc.Drain? && t.popped == s.popped
    ensures (t.recv, t.jitter) == Pumped(s.recv, s.jitter)
    decreases |FullSlots(s.recv.ring)|
  {
    ReachableInv(sender, s);
    if Ready(s.recv).None? {
      t := StopReachable(sender, s);
    } else {
      TakeEmptiesSlot(s.recv);
      t := TakeReachable(sender, s);
      t := InsertReachable(sender, t);
      t := PumpReachable(sender, t);
    }
  }

  lemma PopReachable(sender: Sender, s: System, sync: nat, early: bool, maxFrames: nat)
      returns (t: System, frame: Option<Frame>)
    requires Sendable(sender) && Reachable(sender, s) && s.pc.Drain? && J.Tracked(s.jitter)
    ensures Reachable(sender, t) && t.pc.Scan? && t.recv == s.recv
    ensures (t.jitter, frame) == J.Pop(s.jitter, sync, early, maxFrames)
    ensures frame.None? ==> t.popped == s.popped
    ensures frame.Some? ==> t.popped == s.popped + [Popped(frame.value, s.lossy)] && Held(sender, frame.value)
  {
    StepReachable(sender, s, sync, early, maxFrames);
    frame := J.Pop(s.jitter, sync, early, maxFrames).1;
    t := ClientStep(s, sync, early, maxFrames);
    ReachableInv(sender, t);
    assert frame.Some? ==> t.popped[|s.popped|].frame == frame.value;
  }

  /** From any state that an execution reaches, one turn of the loop leads to another; what it pops is what the decoder
      gets, and is the sender's frame. */
  lemma TurnReachable(sender: Sender, s: System, sync: nat, early: bool, maxFrames: nat)
      returns (t: System, frame: Option<Frame>)
    requires Sendable(sender) && Reachable(sender, s) && s.pc.Scan?
    ensures WellFormed(s) && Reachable(sender, t) && t.pc.Scan?
    ensures var (r, b) := Recovered(s.recv, s.jitter);
      && StateShaped(r) && J.Sized(b) && t.recv == Pumped(r, b).0
      && J.Tracked(Pumped(r, b).1) && (t.jitter, frame) == J.Pop(Pumped(r, b).1, sync, early, maxFrames)
    ensures frame.None? ==> t.popped == s.popped
    ensures frame.Some? ==> Held(sender, frame.value)
    ensures frame.Some? ==> exists lossy :: t.popped == s.popped + [Popped(frame.value, lossy)]
  {
    t := RecoverReachable(sender, s);
    ReachableInv(sender, t);
    t := PumpReachable(sender, t);
    ReachableInv(sender, t);
    t, frame := PopReachable(sender, t, sync, early, maxFrames);
  }
}
