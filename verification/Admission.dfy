/** Host admission: the receiver thread, one initialization thread per admitted handshake, and the timeout sweep,
    interleaved at the granularity of their lock sections. */
module HostAdmission {
  import Wrappers

  const MAX_CLIENTS: nat := 32

  datatype Address = Address(ip: string, port: nat)

  /** The receiver thread: between packets, after the lookup of an existing client, after the admission check. */
  datatype Receiver = Listening | LookedUp(address: Address) | Admitted(address: Address)

  /** An initialization thread: not yet run, keys derived, encoder open, only its own address left to erase, gone. */
  datatype Phase = Spawned | KeysDerived | EncoderOpen | MustErase(registered: bool) | Finished

  datatype Thread = Thread(address: Address, phase: Phase)

  datatype State = State(
    clients: seq<Address>, initializing: set<Address>, receiver: Receiver, threads: seq<Thread>, running: bool)

  const EMPTY: State := State([], {}, Listening, [], true)

  datatype Step =
    | Handshake(address: Address)
    | Admit
    | Spawn
    | Begin(t: nat, derives: bool)
    | OpenEncoder(t: nat, opens: bool)
    | Register(t: nat)
    | Erase(t: nat)
    | Sweep(timedOut: set<nat>)
    | Stop

  predicate At(s: State, t: nat, phase: Phase) {
    t < |s.threads| && s.threads[t].phase == phase
  }

  predicate Enabled(s: State, step: Step) {
    match step
    case Handshake(_) => s.receiver.Listening?
    case Admit => s.receiver.LookedUp?
    case Spawn => s.receiver.Admitted?
    case Begin(t, _) => At(s, t, Spawned)
    case OpenEncoder(t, _) => At(s, t, KeysDerived)
    case Register(t) => At(s, t, EncoderOpen)
    case Erase(t) => t < |s.threads| && s.threads[t].phase.MustErase?
    case Sweep(_) => true
    case Stop => true
  }

  /** The clients that have not timed out, in order. */
  function Kept(clients: seq<Address>, timedOut: set<nat>): (r: seq<Address>)
    ensures |r| <= |clients|
    ensures forall a :: a in r ==> a in clients
  {
    if clients == [] then []
    else
      var last := |clients| - 1;
      Kept(clients[..last], timedOut) + if last in timedOut then [] else [clients[last]]
  }

  function WithPhase(s: State, t: nat, phase: Phase): State
    requires t < |s.threads|
  {
    s.(threads := s.threads[t := s.threads[t].(phase := phase)])
  }

  function Apply(s: State, step: Step): State
    requires Enabled(s, step)
  {
    match step
    case Handshake(address) => if address in s.clients then s else s.(receiver := LookedUp(address))
    case Admit =>
      var address := s.receiver.address;
      if |s.clients| + |s.initializing| >= MAX_CLIENTS || address in s.initializing then
        s.(receiver := Listening)
      else
        s.(receiver := Admitted(address), initializing := s.initializing + {address})
    case Spawn => s.(receiver := Listening, threads := s.threads + [Thread(s.receiver.address, Spawned)])
    case Begin(t, derives) =>
      WithPhase(s, t, if !s.running then Finished else if derives then KeysDerived else MustErase(false))
    case OpenEncoder(t, opens) => WithPhase(s, t, if opens then EncoderOpen else MustErase(false))
    case Register(t) => WithPhase(s, t, MustErase(true)).(clients := s.clients + [s.threads[t].address])
    case Erase(t) => WithPhase(s, t, Finished).(initializing := s.initializing - {s.threads[t].address})
    case Sweep(timedOut) => s.(clients := Kept(s.clients, timedOut))
    case Stop => s.(running := false)
  }

  /** The state after an interleaving; None when it cannot happen. */
  function After(steps: seq<Step>): Wrappers.Option<State> {
    if steps == [] then Wrappers.Some(EMPTY)
    else
      match After(steps[..|steps| - 1])
      case None => Wrappers.None
      case Some(s) =>
        var step := steps[|steps| - 1];
        if Enabled(s, step) then Wrappers.Some(Apply(s, step)) else Wrappers.None
  }

  // ---------------------------------------------------------------- counting

  predicate Live(thread: Thread) {
    !thread.phase.Finished?
  }

  /** A thread that holds a place without having registered its client. */
  predicate Unregistered(thread: Thread) {
    Live(thread) && thread.phase != MustErase(true)
  }

  function Count(threads: seq<Thread>): nat {
    if threads == [] then 0
    else Count(threads[..|threads| - 1]) + if Unregistered(threads[|threads| - 1]) then 1 else 0
  }

  /** Unregistered threads, and the handshake that was admitted but has no thread yet. */
  function Pending(s: State): nat {
    Count(s.threads) + if s.receiver.Admitted? then 1 else 0
  }

  lemma {:induction false} CountAfter(threads: seq<Thread>, t: nat, thread: Thread)
    requires t < |threads|
    ensures Count(threads[t := thread])
         == Count(threads) - (if Unregistered(threads[t]) then 1 else 0) + (if Unregistered(thread) then 1 else 0)
  {
    var last := |threads| - 1;
    if t == last {
      assert threads[t := thread][..last] == threads[..last];
    } else {
      CountAfter(threads[..last], t, thread);
      assert threads[t := thread][..last] == threads[..last][t := thread];
    }
  }

  /** Live threads have different addresses. */
  ghost predicate Distinct(threads: seq<Thread>) {
    forall i, j :: 0 <= i < j < |threads| && Live(threads[i]) && Live(threads[j]) ==>
      threads[i].address != threads[j].address
  }

  ghost function LiveAddresses(threads: seq<Thread>): set<Address> {
    set i | 0 <= i < |threads| && Live(threads[i]) :: threads[i].address
  }

  /** So there are at most as many unregistered threads as addresses they use. */
  lemma {:induction false} CountWithin(threads: seq<Thread>, addresses: set<Address>)
    requires Distinct(threads) && LiveAddresses(threads) <= addresses
    ensures Count(threads) <= |addresses|
  {
    if threads != [] {
      var last := |threads| - 1;
      if Live(threads[last]) {
        var rest := addresses - {threads[last].address};
        assert threads[last].address in LiveAddresses(threads);
        LiveAreOthers(threads, addresses);
        CountWithin(threads[..last], rest);
        assert |rest| == |addresses| - 1;
      } else {
        assert LiveAddresses(threads[..last]) <= LiveAddresses(threads);
        CountWithin(threads[..last], addresses);
      }
    }
  }

  lemma LiveAreOthers(threads: seq<Thread>, addresses: set<Address>)
    requires threads != [] && Distinct(threads) && LiveAddresses(threads) <= addresses && Live(threads[|threads| - 1])
    ensures LiveAddresses(threads[..|threads| - 1]) <= addresses - {threads[|threads| - 1].address}
  {
    var before := threads[..|threads| - 1];
    forall a | a in LiveAddresses(before)
      ensures a in addresses && a != threads[|threads| - 1].address
    {
      var i :| 0 <= i < |before| && Live(before[i]) && before[i].address == a;
      assert threads[i] == before[i];
      assert a in LiveAddresses(threads);
    }
  }

  // ---------------------------------------------------------------- the invariant

  ghost function Held(s: State): set<Address> {
    LiveAddresses(s.threads) + if s.receiver.Admitted? then {s.receiver.address} else {}
  }

  ghost predicate Inv(s: State) {
    && Distinct(s.threads)
    && Held(s) <= s.initializing
    && (s.receiver.Admitted? ==> s.receiver.address !in LiveAddresses(s.threads))
    && (s.running ==> s.initializing == Held(s))
    && |s.clients| + Pending(s) <= MAX_CLIENTS
    && |s.initializing| <= MAX_CLIENTS
  }

  lemma InvAdmit(s: State)
    requires Inv(s) && Enabled(s, Admit)
    ensures Inv(Apply(s, Admit))
  {
    CountWithin(s.threads, s.initializing);
  }

  lemma InvSpawn(s: State)
    requires Inv(s) && Enabled(s, Spawn)
    ensures Inv(Apply(s, Spawn))
  {
    var n := Apply(s, Spawn);
    var last := |s.threads|;
    assert n.threads[..last] == s.threads;
    assert LiveAddresses(n.threads) == LiveAddresses(s.threads) + {s.receiver.address} by {
      assert n.threads[last].address == s.receiver.address && Live(n.threads[last]);
      forall a | a in LiveAddresses(s.threads)
        ensures a in LiveAddresses(n.threads)
      {
        var i :| 0 <= i < |s.threads| && Live(s.threads[i]) && s.threads[i].address == a;
        assert n.threads[i] == s.threads[i];
      }
    }
    forall i | 0 <= i < last && Live(n.threads[i])
      ensures n.threads[i].address != s.receiver.address
    {
      assert s.threads[i].address in LiveAddresses(s.threads);
    }
  }

  /** A thread moves on but keeps its address. */
  lemma LiveKept(threads: seq<Thread>, t: nat, phase: Phase)
    requires t < |threads| && Live(threads[t]) && !phase.Finished? && Distinct(threads)
    ensures var after := threads[t := threads[t].(phase := phase)];
      Distinct(after) && LiveAddresses(after) == LiveAddresses(threads)
  {
    var after := threads[t := threads[t].(phase := phase)];
    assert forall i :: 0 <= i < |threads| ==>
      Live(after[i]) == Live(threads[i]) && after[i].address == threads[i].address;
  }

  /** A thread that ends gives up its address, and no other thread had it. */
  lemma LiveGone(threads: seq<Thread>, t: nat)
    requires t < |threads| && Live(threads[t]) && Distinct(threads)
    ensures var after := threads[t := threads[t].(phase := Finished)];
      Distinct(after) && LiveAddresses(after) == LiveAddresses(threads) - {threads[t].address}
  {
    var after := threads[t := threads[t].(phase := Finished)];
    assert forall i :: 0 <= i < |threads| && i != t ==> after[i] == threads[i];
    forall a | a in LiveAddresses(threads) && a != threads[t].address
      ensures a in LiveAddresses(after)
    {
      var i :| 0 <= i < |threads| && Live(threads[i]) && threads[i].address == a;
      assert after[i] == threads[i];
    }
    forall a | a in LiveAddresses(after)
      ensures a in LiveAddresses(threads) && a != threads[t].address
    {
      var i :| 0 <= i < |after| && Live(after[i]) && after[i].address == a;
      assert threads[i] == after[i];
    }
  }

  lemma InvMoved(s: State, t: nat, phase: Phase, clients: seq<Address>)
    requires Inv(s) && t < |s.threads| && Live(s.threads[t]) && !phase.Finished?
    requires |clients| + Pending(WithPhase(s, t, phase)) <= |s.clients| + Pending(s)
    ensures Inv(WithPhase(s, t, phase).(clients := clients))
  {
    LiveKept(s.threads, t, phase);
  }

  lemma InvFinished(s: State, t: nat, initializing: set<Address>)
    requires Inv(s) && t < |s.threads| && Live(s.threads[t])
    requires initializing == s.initializing - {s.threads[t].address} || (!s.running && initializing == s.initializing)
    ensures Inv(WithPhase(s, t, Finished).(initializing := initializing))
  {
    LiveGone(s.threads, t);
    CountAfter(s.threads, t, s.threads[t].(phase := Finished));
    assert s.threads[t].address in LiveAddresses(s.threads);
  }

  predicate ThreadStep(step: Step) {
    step.Begin? || step.OpenEncoder? || step.Register? || step.Erase?
  }

  lemma InvThread(s: State, step: Step)
    requires Inv(s) && Enabled(s, step) && ThreadStep(step)
    ensures Inv(Apply(s, step))
  {
    var n, t := Apply(s, step), step.t;
    if n.threads[t].phase.Finished? {
      InvFinished(s, t, n.initializing);
    } else {
      CountAfter(s.threads, t, n.threads[t]);
      InvMoved(s, t, n.threads[t].phase, n.clients);
    }
  }

  lemma InvStep(s: State, step: Step)
    requires Inv(s) && Enabled(s, step)
    ensures Inv(Apply(s, step))
  {
    if step.Admit? {
      InvAdmit(s);
    } else if step.Spawn? {
      InvSpawn(s);
    } else if ThreadStep(step) {
      InvThread(s, step);
    }
  }

  lemma {:induction false} InvAlways(steps: seq<Step>)
    requires After(steps).Some?
    ensures Inv(After(steps).value)
  {
    if steps != [] {
      var before := steps[..|steps| - 1];
      InvAlways(before);
      InvStep(After(before).value, steps[|steps| - 1]);
    }
  }

  // ---------------------------------------------------------------- what it gives

  /** In every interleaving, connected clients plus initializations that have not registered never exceed 32. */
  lemma AdmissionBound(steps: seq<Step>)
    requires After(steps).Some?
    ensures |After(steps).value.clients| + Pending(After(steps).value) <= 32
    ensures |After(steps).value.initializing| <= 32
  {
    InvAlways(steps);
  }

  /** No two initializations of one address run at the same time. */
  lemma OneInitializationPerAddress(steps: seq<Step>, i: nat, j: nat)
    requires After(steps).Some?
    requires var s := After(steps).value; i < j < |s.threads| && Live(s.threads[i]) && Live(s.threads[j])
    ensures After(steps).value.threads[i].address != After(steps).value.threads[j].address
  {
    InvAlways(steps);
  }

  /** While the session runs, the set of initializing addresses is exactly what running initializations hold: when all
      are done, it is empty and every place is free again. */
  lemma NoAddressLeaks(steps: seq<Step>)
    requires After(steps).Some? && After(steps).value.running
    ensures After(steps).value.initializing == Held(After(steps).value)
  {
    InvAlways(steps);
  }

  /** What starting a thread does to the set of initializing addresses: it goes on holding exactly what live
      initializations hold if and only if the session runs. */
  lemma BeginKeepsHeldIff(steps: seq<Step>, t: nat, derives: bool)
    requires After(steps).Some?
    requires var s := After(steps).value; Enabled(s, Begin(t, derives)) && s.initializing == Held(s)
    ensures var s := After(steps).value; var n := Apply(s, Begin(t, derives));
      n.initializing == Held(n) <==> s.running
  {
    InvAlways(steps);
    var s := After(steps).value;
    var n := Apply(s, Begin(t, derives));
    assert s.threads[t].address in LiveAddresses(s.threads);
    if s.running {
      LiveKept(s.threads, t, n.threads[t].phase);
    } else {
      LiveGone(s.threads, t);
    }
  }

  /** A thread that starts after the session was stopped returns without erasing its address. */
  lemma StoppedThreadLeaks(steps: seq<Step>, t: nat)
    requires After(steps).Some? && !After(steps).value.running && Enabled(After(steps).value, Begin(t, true))
    ensures var n := Apply(After(steps).value, Begin(t, true));
      n.threads[t].address in n.initializing && n.threads[t].address !in Held(n)
  {
    InvAlways(steps);
    var s := After(steps).value;
    assert s.threads[t].address in LiveAddresses(s.threads);
    LiveGone(s.threads, t);
  }

  lemma Follow(steps: seq<Step>, s: State, step: Step) returns (longer: seq<Step>, n: State)
    requires After(steps) == Wrappers.Some(s) && Enabled(s, step)
    ensures longer == steps + [step] && n == Apply(s, step) && After(longer) == Wrappers.Some(n)
  {
    n := Apply(s, step);
    longer := steps + [step];
    assert longer[..|steps|] == steps;
  }

  /** There are such runs: a handshake is admitted, its thread is created, and the session stops before it begins. */
  lemma LeakHappens(a: Address) returns (steps: seq<Step>, s: State)
    ensures After(steps) == Wrappers.Some(s) && s.threads == [Thread(a, Finished)]
    ensures s.initializing == {a} && Held(s) == {}
  {
    steps, s := Follow([], EMPTY, Handshake(a));
    steps, s := Follow(steps, s, Admit);
    steps, s := Follow(steps, s, Spawn);
    steps, s := Follow(steps, s, Stop);
    steps, s := Follow(steps, s, Begin(0, true));
  }

  /** The run has a step with which initialization `t` derived its keys, and one with which it opened its encoder. */
  ghost predicate Earned(steps: seq<Step>, t: nat, phase: Phase) {
    && (phase == KeysDerived || phase == EncoderOpen || phase == MustErase(true) ==> Begin(t, true) in steps)
    && (phase == EncoderOpen || phase == MustErase(true) ==> OpenEncoder(t, true) in steps)
  }

  /** In every interleaving: an initialization gets as far as it has earned. None registers a client without having
      derived its keys and opened its encoder. */
  lemma {:induction false} PhasesAreEarned(steps: seq<Step>, t: nat)
    requires After(steps).Some? && t < |After(steps).value.threads|
    ensures Earned(steps, t, After(steps).value.threads[t].phase)
  {
    var last := |steps| - 1;
    var before := steps[..last];
    forall step | step in before
      ensures step in steps
    {
    }
    assert steps[last] in steps;
    if t < |After(before).value.threads| {
      PhasesAreEarned(before, t);
    }
  }

  // ---------------------------------------------------------------- the sweep

  /** A sweep takes away exactly the clients that have timed out and nothing else. */
  lemma SweepLeaves(steps: seq<Step>, timedOut: set<nat>) returns (ids: seq<nat>)
    requires After(steps).Some?
    ensures After(steps + [Sweep(timedOut)]).Some?
    ensures var s, n := After(steps).value, After(steps + [Sweep(timedOut)]).value;
      Picks(s.clients, timedOut, n.clients, ids) && n == s.(clients := n.clients)
  {
    assert (steps + [Sweep(timedOut)])[..|steps|] == steps;
    ids := KeptExactly(After(steps).value.clients, timedOut);
  }

  lemma KeptNext(clients: seq<Address>, timedOut: set<nat>, i: nat)
    requires i < |clients|
    ensures Kept(clients[..i + 1], timedOut)
         == Kept(clients[..i], timedOut) + if i in timedOut then [] else [clients[i]]
  {
    assert clients[..i + 1][..i] == clients[..i];
  }

  /** `ids` are the positions of those that have not timed out, in order, and `kept` are the clients there. */
  ghost predicate Picks(clients: seq<Address>, timedOut: set<nat>, kept: seq<Address>, ids: seq<nat>) {
    && |ids| == |kept|
    && (forall k :: 0 <= k < |ids| ==> ids[k] < |clients| && ids[k] !in timedOut && kept[k] == clients[ids[k]])
    && (forall k, l :: 0 <= k < l < |ids| ==> ids[k] < ids[l])
    && (forall i: nat :: i < |clients| && i !in timedOut ==> i in ids)
  }

  lemma PicksMore(clients: seq<Address>, timedOut: set<nat>, kept: seq<Address>, ids: seq<nat>, last: nat)
    requires |clients| == last + 1 && Picks(clients[..last], timedOut, kept, ids)
    ensures last in timedOut ==> Picks(clients, timedOut, kept, ids)
    ensures last !in timedOut ==> Picks(clients, timedOut, kept + [clients[last]], ids + [last])
  {
  }

  /** Who is left: exactly those that have not timed out, once each and in their order. */
  lemma {:induction false} KeptExactly(clients: seq<Address>, timedOut: set<nat>) returns (ids: seq<nat>)
    ensures Picks(clients, timedOut, Kept(clients, timedOut), ids)
  {
    if clients == [] {
      ids := [];
    } else {
      var last := |clients| - 1;
      ids := KeptExactly(clients[..last], timedOut);
      PicksMore(clients, timedOut, Kept(clients[..last], timedOut), ids, last);
      if last !in timedOut {
        ids := ids + [last];
      }
    }
  }

  lemma Erased<T>(kept: seq<T>, rest: seq<T>)
    requires rest != []
    ensures (kept + rest)[..|kept|] + (kept + rest)[|kept| + 1..] == kept + rest[1..]
    ensures kept + rest == kept + [rest[0]] + rest[1..]
  {
  }

  /** The sweep erases every timed-out client and advances past the others; `timedOut` says who is, by its original
      position. */
  method SweepTimedOut(clients: seq<Address>, timedOut: set<nat>) returns (left: seq<Address>)
    ensures left == Kept(clients, timedOut)
  {
    left := clients;
    var it := 0;
    ghost var kept: seq<Address> := [];
    for i := 0 to |clients|
      invariant kept == Kept(clients[..i], timedOut) && it == |kept|
      invariant left == kept + clients[i..]
    {
      KeptNext(clients, timedOut, i);
      Erased(kept, clients[i..]);
      if i in timedOut {
        left := left[..it] + left[it + 1..];
      } else {
        kept := kept + [clients[i]];
        it := it + 1;
      }
    }
    assert clients[..|clients|] == clients;
  }
}
