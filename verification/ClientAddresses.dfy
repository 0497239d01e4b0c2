/** Whether one address can get two clients. The lookup of existing clients and the admission check are separate lock
    sections; addresses stay unique exactly as long as no admission succeeds for an address that has a client. */
module ClientAddresses {
  import opened HostAdmission
  import Wrappers

  ghost predicate Unique(clients: seq<Address>) {
    forall i, j :: 0 <= i < j < |clients| ==> clients[i] != clients[j]
  }

  /** The admission check lets the handshake through. */
  predicate Admits(s: State) {
    && s.receiver.LookedUp?
    && |s.clients| + |s.initializing| < MAX_CLIENTS && s.receiver.address !in s.initializing
  }

  /** An admission that lets through an address that already has a client. */
  predicate Careless(s: State) {
    Admits(s) && s.receiver.address in s.clients
  }

  /** From step `from` on, no admission of the run is careless. */
  ghost predicate Careful(steps: seq<Step>, from: nat) {
    forall k: nat :: from <= k < |steps| ==> CarefulAt(steps, k)
  }

  predicate CarefulAt(steps: seq<Step>, k: nat)
    requires k < |steps|
  {
    steps[k].Admit? && After(steps[..k]).Some? ==> !Careless(After(steps[..k]).value)
  }

  // ---------------------------------------------------------------- careful runs keep addresses unique

  /** No address that is about to get a client has one. */
  ghost predicate NewcomersUnknown(s: State) {
    && (forall i :: 0 <= i < |s.threads| && Unregistered(s.threads[i]) ==> s.threads[i].address !in s.clients)
    && (s.receiver.Admitted? ==> s.receiver.address !in s.clients)
  }

  ghost predicate UniqueInv(s: State) {
    Inv(s) && Unique(s.clients) && NewcomersUnknown(s)
  }

  lemma {:induction false} KeptUnique(clients: seq<Address>, timedOut: set<nat>)
    requires Unique(clients)
    ensures Unique(Kept(clients, timedOut))
  {
    if clients != [] {
      var last := |clients| - 1;
      KeptUnique(clients[..last], timedOut);
      assert clients[last] !in clients[..last];
    }
  }

  lemma RegisterUnique(s: State, t: nat)
    requires UniqueInv(s) && Enabled(s, Register(t))
    ensures Unique(Apply(s, Register(t)).clients) && NewcomersUnknown(Apply(s, Register(t)))
  {
    assert s.threads[t].address in LiveAddresses(s.threads);
  }

  /** A thread that moves on without registering stays a newcomer or stops being one. */
  lemma MoveUnknown(s: State, t: nat, phase: Phase, initializing: set<Address>)
    requires NewcomersUnknown(s) && t < |s.threads|
    requires Unregistered(s.threads[t].(phase := phase)) ==> Unregistered(s.threads[t])
    ensures NewcomersUnknown(WithPhase(s, t, phase).(initializing := initializing))
  {
    var n := WithPhase(s, t, phase);
    forall i | 0 <= i < |n.threads| && Unregistered(n.threads[i])
      ensures n.threads[i].address !in s.clients
    {
      assert i != t ==> n.threads[i] == s.threads[i];
      assert Unregistered(s.threads[i]);
    }
  }

  lemma SpawnUnknown(s: State)
    requires NewcomersUnknown(s) && Enabled(s, Spawn)
    ensures NewcomersUnknown(Apply(s, Spawn))
  {
    var n := Apply(s, Spawn);
    forall i | 0 <= i < |n.threads| && Unregistered(n.threads[i])
      ensures n.threads[i].address !in s.clients
    {
      assert i < |s.threads| ==> n.threads[i] == s.threads[i];
    }
  }

  lemma UniqueStep(s: State, step: Step)
    requires UniqueInv(s) && Enabled(s, step) && (step.Admit? ==> !Careless(s))
    ensures Unique(Apply(s, step).clients) && NewcomersUnknown(Apply(s, step))
  {
    match step
    case Register(t) => RegisterUnique(s, t);
    case Sweep(timedOut) => KeptUnique(s.clients, timedOut);
    case Spawn => SpawnUnknown(s);
    case Begin(t, _) => MoveUnknown(s, t, Apply(s, step).threads[t].phase, s.initializing);
    case OpenEncoder(t, _) => MoveUnknown(s, t, Apply(s, step).threads[t].phase, s.initializing);
    case Erase(t) => MoveUnknown(s, t, Finished, Apply(s, step).initializing);
    case Handshake(_) =>
    case Admit =>
    case Stop =>
  }

  lemma {:induction false} UniqueAlways(steps: seq<Step>)
    requires After(steps).Some? && Careful(steps, 0)
    ensures UniqueInv(After(steps).value)
  {
    if steps != [] {
      var last := |steps| - 1;
      forall k: nat | k < last
        ensures CarefulAt(steps[..last], k)
      {
        assert steps[..last][..k] == steps[..k] && CarefulAt(steps, k);
      }
      UniqueAlways(steps[..last]);
      assert CarefulAt(steps, last);
      InvStep(After(steps[..last]).value, steps[last]);
      UniqueStep(After(steps[..last]).value, steps[last]);
    }
  }

  /** In every interleaving without a careless admission, no two clients have the same address. */
  lemma CarefulIsUnique(steps: seq<Step>)
    requires After(steps).Some? && Careful(steps, 0)
    ensures Unique(After(steps).value.clients)
  {
    UniqueAlways(steps);
  }

  // ---------------------------------------------------------------- the lookup of existing clients

  /** Step `k` looked this address up and found no client with it. */
  ghost predicate FoundUnknown(steps: seq<Step>, k: nat, a: Address)
    requires k < |steps|
  {
    steps[k] == Handshake(a) && After(steps[..k]).Some? && a !in After(steps[..k]).value.clients
  }

  lemma LookedUpBy(s: State, step: Step)
    requires Enabled(s, step) && Apply(s, step).receiver.LookedUp?
    ensures
      if step.Handshake? then
        step == Handshake(Apply(s, step).receiver.address) && Apply(s, step).receiver.address !in s.clients
      else
        s.receiver == Apply(s, step).receiver
  {
  }

  lemma FoundBefore(steps: seq<Step>, n: nat, k: nat, a: Address)
    requires k < n <= |steps| && FoundUnknown(steps[..n], k, a)
    ensures FoundUnknown(steps, k, a)
  {
    assert steps[..n][..k] == steps[..k];
  }

  /** In every interleaving, a handshake reaches the admission check only after its address was looked up and had no
      client then. */
  lemma {:induction false} AdmissionWasUnknown(steps: seq<Step>)
    requires After(steps).Some? && After(steps).value.receiver.LookedUp?
    ensures exists k: nat :: k < |steps| && FoundUnknown(steps, k, After(steps).value.receiver.address)
  {
    var last := |steps| - 1;
    var before, a := steps[..last], After(steps).value.receiver.address;
    LookedUpBy(After(before).value, steps[last]);
    if steps[last].Handshake? {
      assert FoundUnknown(steps, last, a);
    } else {
      AdmissionWasUnknown(before);
      var k: nat :| k < last && FoundUnknown(before, k, a);
      FoundBefore(steps, last, k, a);
    }
  }

  /** A handshake from an address that has a client is dropped without a trace. */
  lemma KnownIsDropped(steps: seq<Step>, a: Address)
    requires After(steps).Some? && After(steps).value.receiver.Listening? && a in After(steps).value.clients
    ensures After(steps + [Handshake(a)]) == After(steps)
  {
    assert (steps + [Handshake(a)])[..|steps|] == steps;
  }

  /** Every admission check comes right after its lookup. */
  predicate AtOnce(steps: seq<Step>) {
    forall k :: 0 <= k < |steps| && steps[k].Admit? ==> k > 0 && steps[k - 1].Handshake?
  }

  lemma AtOnceIsCareful(steps: seq<Step>, k: nat)
    requires AtOnce(steps) && k < |steps|
    ensures CarefulAt(steps, k)
  {
    if steps[k].Admit? && After(steps[..k]).Some? {
      var before := steps[..k];
      assert before[..k - 1] == steps[..k - 1] && before[k - 1] == steps[k - 1];
    }
  }

  /** So when lookup and admission are not separated, no two clients have the same address. */
  lemma AtOnceIsUnique(steps: seq<Step>)
    requires After(steps).Some? && AtOnce(steps)
    ensures Unique(After(steps).value.clients)
  {
    forall k: nat | k < |steps|
      ensures CarefulAt(steps, k)
    {
      AtOnceIsCareful(steps, k);
    }
    CarefulIsUnique(steps);
  }

  // ---------------------------------------------------------------- every place can be taken

  /** One handshake, initialized from start to end. */
  lemma Initialization(steps: seq<Step>, s: State) returns (longer: seq<Step>, n: State)
    requires After(steps) == Wrappers.Some(s) && s.receiver.Listening? && s.running
    requires s.threads != [] && s.threads[|s.threads| - 1].phase == Spawned
    ensures var t := |s.threads| - 1; longer == steps + [Begin(t, true), OpenEncoder(t, true), Register(t)]
    ensures After(longer) == Wrappers.Some(n)
    ensures n.clients == s.clients + [s.threads[|s.threads| - 1].address]
    ensures n == WithPhase(s, |s.threads| - 1, MustErase(true)).(clients := n.clients)
  {
    var t := |s.threads| - 1;
    longer, n := Follow(steps, s, Begin(t, true));
    longer, n := Follow(longer, n, OpenEncoder(t, true));
    longer, n := Follow(longer, n, Register(t));
  }

  /** One address goes from its handshake to a registered client. */
  lemma Joins(steps: seq<Step>, s: State, a: Address) returns (longer: seq<Step>, n: State)
    requires After(steps) == Wrappers.Some(s) && s.receiver.Listening? && s.running && s.initializing == {}
    requires a !in s.clients && |s.clients| < 32
    ensures After(longer) == Wrappers.Some(n) && n.receiver.Listening? && n.running && n.initializing == {}
    ensures n.clients == s.clients + [a]
  {
    longer, n := Follow(steps, s, Handshake(a));
    longer, n := Follow(longer, n, Admit);
    longer, n := Follow(longer, n, Spawn);
    longer, n := Initialization(longer, n);
    longer, n := Follow(longer, n, Erase(|n.threads| - 1));
  }

  /** Any up to 32 different addresses can all become clients, */
  lemma {:induction false} EveryPlaceCanBeTaken(addresses: seq<Address>) returns (steps: seq<Step>, s: State)
    requires Unique(addresses) && |addresses| <= 32
    ensures After(steps) == Wrappers.Some(s) && s.receiver.Listening? && s.running && s.initializing == {}
    ensures s.clients == addresses
  {
    if addresses == [] {
      steps, s := [], EMPTY;
    } else {
      var last := |addresses| - 1;
      var before, a := addresses[..last], addresses[last];
      assert addresses == before + [a] && a !in before;
      steps, s := EveryPlaceCanBeTaken(before);
      steps, s := Joins(steps, s, a);
    }
  }

  /** and while 32 are, or are on their way, no other gets past the admission check. */
  lemma NoPlaceLeft(steps: seq<Step>)
    requires After(steps).Some? && After(steps).value.receiver.LookedUp?
    requires |After(steps).value.clients| + |After(steps).value.initializing| >= 32
    ensures After(steps + [Admit]) == Wrappers.Some(After(steps).value.(receiver := Listening))
  {
    assert (steps + [Admit])[..|steps|] == steps;
  }

  // ---------------------------------------------------------------- careless admissions lead to duplicates

  /** The lookup of existing clients and the admission check are separate lock sections: a handshake looked up before
      the client of its first copy registers, and admitted after that initialization has ended, gives one address two
      clients. */
  lemma TwoClientsOneAddress(a: Address) returns (steps: seq<Step>)
    ensures After(steps).Some? && After(steps).value.clients == [a, a]
  {
    var s: State;
    steps, s := Follow([], EMPTY, Handshake(a));
    steps, s := Follow(steps, s, Admit);
    steps, s := Follow(steps, s, Spawn);
    assert s == State([], {a}, Listening, [Thread(a, Spawned)], true);
    steps, s := RegisterWhileLookedUp(steps, s, a);
    steps, s := Follow(steps, s, Admit);
    steps, s := Follow(steps, s, Spawn);
    steps, s := Initialization(steps, s);
  }

  /** The repeated handshake is looked up while the encoder of the first opens; then the first registers and ends. */
  lemma RegisterWhileLookedUp(steps: seq<Step>, s: State, a: Address) returns (longer: seq<Step>, n: State)
    requires After(steps) == Wrappers.Some(s) && s == State([], {a}, Listening, [Thread(a, Spawned)], true)
    ensures After(longer) == Wrappers.Some(n) && n == State([a], {}, LookedUp(a), [Thread(a, Finished)], true)
  {
    longer, n := Follow(steps, s, Begin(0, true));
    longer, n := Follow(longer, n, OpenEncoder(0, true));
    assert n == State([], {a}, Listening, [Thread(a, EncoderOpen)], true);
    longer, n := Follow(longer, n, Handshake(a));
    longer, n := Follow(longer, n, Register(0));
    longer, n := Follow(longer, n, Erase(0));
    assert n.clients == [a] && n.threads == [Thread(a, Finished)];
  }

  /** The run ends with two clients of one address. */
  ghost predicate Duplicated(steps: seq<Step>) {
    After(steps).Some? && !Unique(After(steps).value.clients)
  }

  /** A careless admission of a running session can always be followed by a second client of that address. */
  lemma CarelessDuplicates(steps: seq<Step>, s: State) returns (more: seq<Step>)
    requires After(steps) == Wrappers.Some(s) && s.running && Careless(s)
    ensures Duplicated(steps + [Admit] + more) && Careful(steps + [Admit] + more, |steps| + 1)
  {
    var a, t := s.receiver.address, |s.threads|;
    var longer, n := Follow(steps, s, Admit);
    longer, n := Follow(longer, n, Spawn);
    longer, n := Initialization(longer, n);
    more := [Spawn, Begin(t, true), OpenEncoder(t, true), Register(t)];
    assert longer == steps + [Admit] + more;
    var i :| 0 <= i < |s.clients| && s.clients[i] == a;
    assert n.clients[i] == a == n.clients[|s.clients|];
    forall k: nat | |steps| + 1 <= k < |longer|
      ensures CarefulAt(longer, k)
    {
      assert longer[k] == more[k - |steps| - 1];
    }
  }

  lemma PrefixCareful(steps: seq<Step>, more: seq<Step>)
    requires After(steps).Some? && Careful(steps, 0) && !Careless(After(steps).value)
    requires Careful(steps + [Admit] + more, |steps| + 1)
    ensures Careful(steps + [Admit] + more, 0)
  {
    var all := steps + [Admit] + more;
    forall k: nat | k <= |steps|
      ensures CarefulAt(all, k)
    {
      assert all[..k] == steps[..k];
      if k < |steps| {
        assert CarefulAt(steps, k);
      } else {
        assert steps[..k] == steps;
      }
    }
  }

  /** After a careful admission, careful runs stay free of duplicates. */
  lemma CarefulStaysUnique(steps: seq<Step>, more: seq<Step>)
    requires After(steps).Some? && Careful(steps, 0) && !Careless(After(steps).value)
    requires Careful(steps + [Admit] + more, |steps| + 1)
    ensures !Duplicated(steps + [Admit] + more)
  {
    PrefixCareful(steps, more);
    if After(steps + [Admit] + more).Some? {
      CarefulIsUnique(steps + [Admit] + more);
    }
  }

  /** The exact condition: after a run without careless admissions, letting the next handshake in can lead to two
      clients with one address, all later admissions being careful, if and only if its address has a client now. */
  lemma DuplicateIff(steps: seq<Step>)
    requires After(steps).Some? && After(steps).value.running && Careful(steps, 0) && Admits(After(steps).value)
    ensures After(steps).value.receiver.address in After(steps).value.clients <==>
      exists more: seq<Step> :: Careful(steps + [Admit] + more, |steps| + 1) && Duplicated(steps + [Admit] + more)
  {
    if Careless(After(steps).value) {
      var more := CarelessDuplicates(steps, After(steps).value);
    } else {
      forall more: seq<Step> | Careful(steps + [Admit] + more, |steps| + 1)
        ensures !Duplicated(steps + [Admit] + more)
      {
        CarefulStaysUnique(steps, more);
      }
    }
  }
}
