/** The life cycle and the quality ladder of the encoder manager. What the codec library answers is an argument of
    every operation; so are the clock and the verdict of the metrics. */
module EncoderLifecycle {
  datatype StreamingState =
    Idle | PreflightValidation | Ready | Starting | Streaming | Degraded | Recovering | EmergencyFallback | Shutdown

  datatype Tier = HighPerformance | Balanced | LowEnd | Recovery

  datatype Capability = Capability(codec: string, available: bool)

  datatype Profile = Profile(width: int, height: int, bitrateKbps: int)

  const SOFTWARE_CODEC := "libx264"
  const ADJUSTMENT_PAUSE: nat := 5000
  const CLOCK_RANGE: nat := 0x1_0000_0000_0000_0000

  type time = n: nat | n < CLOCK_RANGE

  datatype Manager = Manager(
    state: StreamingState, tier: Tier, capabilities: seq<Capability>, backendIndex: nat, sessionLocked: bool,
    lockedCodec: string, hasEncoder: bool, baseWidth: int, baseHeight: int, lastAdjustment: time)

  const CREATED: Manager := Manager(Idle, HighPerformance, [], 0, false, "", false, 1920, 1080, 0)

  // ---------------------------------------------------------------- the pieces

  predicate Allowed(from: StreamingState, to: StreamingState) {
    match from
    case Idle => to == Starting
    case Starting => to == PreflightValidation || to == Shutdown
    case PreflightValidation => to == Ready || to == Shutdown
    case Ready => to == Streaming || to == Shutdown
    case Streaming => to == Degraded || to == Recovering || to == EmergencyFallback || to == Shutdown
    case Degraded => to == Streaming || to == Recovering || to == EmergencyFallback || to == Shutdown
    case Recovering => to == Streaming || to == EmergencyFallback || to == Shutdown
    case EmergencyFallback => to == Streaming || to == Shutdown
    case Shutdown => to == Idle
  }

  /** A transition that the table does not list is refused and changes nothing. */
  function Move(from: StreamingState, to: StreamingState): StreamingState {
    if Allowed(from, to) then to else from
  }

  function ProfileFor(m: Manager, tier: Tier): Profile {
    match tier
    case HighPerformance => Profile(m.baseWidth, m.baseHeight, 15000)
    case Balanced => Profile(m.baseWidth, m.baseHeight, 8000)
    case LowEnd => Profile(1280, 720, 4000)
    case Recovery => Profile(854, 480, 1500)
  }

  function Rank(tier: Tier): (r: nat)
    ensures r <= 3
  {
    match tier
    case HighPerformance => 0
    case Balanced => 1
    case LowEnd => 2
    case Recovery => 3
  }

  function Worse(tier: Tier): Tier {
    match tier
    case HighPerformance => Balanced
    case Balanced => LowEnd
    case LowEnd => Recovery
    case Recovery => Recovery
  }

  function Better(tier: Tier): Tier {
    match tier
    case HighPerformance => HighPerformance
    case Balanced => HighPerformance
    case LowEnd => Balanced
    case Recovery => LowEnd
  }

  /** The emergency fallback: the session is locked to the software codec from here on. */
  function FellBack(m: Manager): Manager {
    m.(state := Move(m.state, EmergencyFallback), lockedCodec := SOFTWARE_CODEC, hasEncoder := true)
  }

  predicate CanSelect(m: Manager) {
    m.sessionLocked || m.backendIndex < |m.capabilities|
  }

  /** Opening the session's codec, or falling back when it does not open. An unlocked session also marks the
      capability it tried. */
  function Selected(m: Manager, opens: bool): Manager {
    if !CanSelect(m) then m
    else if opens then m.(hasEncoder := true)
    else if m.sessionLocked then FellBack(m)
    else
      var tried := m.capabilities[m.backendIndex].(available := false);
      FellBack(m.(capabilities := m.capabilities[m.backendIndex := tried]))
  }

  /** Trying a capability that does not open changes nothing in the list but its own mark. */
  lemma TriedIsMarked(m: Manager, i: nat)
    requires !m.sessionLocked && CanSelect(m) && i < |m.capabilities|
    ensures |Selected(m, false).capabilities| == |m.capabilities|
    ensures Selected(m, false).capabilities[i]
         == if i == m.backendIndex then Capability(m.capabilities[i].codec, false) else m.capabilities[i]
    ensures Selected(m, true).capabilities == m.capabilities
  {
  }

  function AllAvailable(codecs: seq<string>): (capabilities: seq<Capability>)
    ensures |capabilities| == |codecs|
    ensures forall i :: 0 <= i < |codecs| ==> capabilities[i] == Capability(codecs[i], true)
  {
    if codecs == [] then [] else [Capability(codecs[0], true)] + AllAvailable(codecs[1..])
  }

  /** The codecs that were detected, or the software one when there are none. */
  function Detected(codecs: seq<string>): seq<Capability> {
    if codecs == [] then [Capability(SOFTWARE_CODEC, true)] else AllAvailable(codecs)
  }

  /** Whether a capability passes the preflight: it is available and its codec opens. */
  predicate Passes(capabilities: seq<Capability>, opening: set<string>, i: nat)
    requires i < |capabilities|
  {
    capabilities[i].available && capabilities[i].codec in opening
  }

  /** What the preflight settles on: the capability it locks, if any, and the list with the failed ones marked. */
  datatype Outcome = Outcome(ok: bool, index: nat, codec: string, capabilities: seq<Capability>)

  function Preflight(capabilities: seq<Capability>, opening: set<string>, i: nat): Outcome
    requires i <= |capabilities|
    decreases |capabilities| - i
  {
    if i == |capabilities| then Outcome(false, 0, "", capabilities)
    else if Passes(capabilities, opening, i) then Outcome(true, i, capabilities[i].codec, capabilities)
    else Preflight(capabilities[i := capabilities[i].(available := false)], opening, i + 1)
  }

  /** The preflight locks the first capability that passes, marks exactly those before it, and fails only when none
      passes. */
  lemma {:induction false} PreflightFindsFirst(capabilities: seq<Capability>, opening: set<string>, i: nat)
    requires i <= |capabilities|
    ensures var r := Preflight(capabilities, opening, i);
      var k := if r.ok then r.index else |capabilities|;
      && i <= k <= |capabilities| == |r.capabilities|
      && (r.ok ==> k < |capabilities| && Passes(capabilities, opening, k) && r.codec == capabilities[k].codec)
      && (forall j :: i <= j < k ==> !Passes(capabilities, opening, j))
      && (forall j :: i <= j < k ==> r.capabilities[j] == capabilities[j].(available := false))
      && (forall j :: (0 <= j < i || k <= j < |capabilities|) ==> r.capabilities[j] == capabilities[j])
    decreases |capabilities| - i
  {
    if i < |capabilities| && !Passes(capabilities, opening, i) {
      var marked := capabilities[i := capabilities[i].(available := false)];
      PreflightFindsFirst(marked, opening, i + 1);
      forall j | i < j < |capabilities|
        ensures Passes(marked, opening, j) == Passes(capabilities, opening, j)
      {
      }
    }
  }

  // ---------------------------------------------------------------- the operations

  datatype Operation =
    | Initialize(width: int, height: int, codecs: seq<string>, opening: set<string>, opens: bool, softwareOpens: bool)
    | EncodeFrame(initialized: bool, opens: bool, softwareOpens: bool, encodes: bool, fallbackOpens: bool)
    | UpdateMetrics(now: time, needsDowngrade: bool, opens: bool)
    | ShutDown

  /** The states Initialize passes through. */
  function InitializedState(s: StreamingState, preflight: bool, opens: bool, ok: bool): StreamingState {
    var s1 := Move(Move(s, Starting), PreflightValidation);
    if !preflight then Move(s1, Shutdown)
    else
      var s2 := Move(s1, Ready);
      var s3 := if opens then s2 else Move(s2, EmergencyFallback);
      Move(s3, if ok then Streaming else Shutdown)
  }

  function PreflightOf(op: Operation): Outcome
    requires op.Initialize?
  {
    Preflight(Detected(op.codecs), op.opening, 0)
  }

  predicate InitializeOk(op: Operation)
    requires op.Initialize?
  {
    PreflightOf(op).ok && (op.opens || op.softwareOpens)
  }

  function Initialized(m: Manager, op: Operation): Manager
    requires op.Initialize?
  {
    var preflight := PreflightOf(op);
    Manager(InitializedState(m.state, preflight.ok, op.opens, InitializeOk(op)), HighPerformance,
            preflight.capabilities,
            if preflight.ok then preflight.index else 0, preflight.ok,
            if !preflight.ok then m.lockedCodec else if op.opens then preflight.codec else SOFTWARE_CODEC,
            m.hasEncoder || preflight.ok, op.width, op.height, m.lastAdjustment)
  }

  /** An encoder that is missing or not initialized is opened first. */
  predicate NeedsOpening(m: Manager, op: Operation)
    requires op.EncodeFrame?
  {
    !m.hasEncoder || !op.initialized
  }

  predicate ReadyToEncode(m: Manager, op: Operation)
    requires op.EncodeFrame?
  {
    !NeedsOpening(m, op) || (m.sessionLocked && (op.opens || op.softwareOpens))
  }

  predicate EncodeOk(m: Manager, op: Operation)
    requires op.EncodeFrame?
  {
    ReadyToEncode(m, op) && (op.encodes || op.fallbackOpens)
  }

  function Encoded(m: Manager, op: Operation): Manager
    requires op.EncodeFrame?
  {
    var ready := if NeedsOpening(m, op) && m.sessionLocked then Selected(m, op.opens) else m;
    if ReadyToEncode(m, op) && !op.encodes then FellBack(ready) else ready
  }

  predicate SameSize(p: Profile, q: Profile) {
    p.width == q.width && p.height == q.height
  }

  /** One step on the ladder; the encoder is reopened when the picture size changes. */
  function Stepped(m: Manager, improve: bool, opens: bool): Manager {
    var next := m.(tier := if improve then Better(m.tier) else Worse(m.tier));
    if next.tier == m.tier || (m.hasEncoder && SameSize(ProfileFor(m, m.tier), ProfileFor(m, next.tier))) then next
    else Selected(next, opens)
  }

  /** The clock difference is unsigned. */
  predicate Adjusts(m: Manager, op: Operation)
    requires op.UpdateMetrics?
  {
    (op.now - m.lastAdjustment) % CLOCK_RANGE >= ADJUSTMENT_PAUSE && op.needsDowngrade
  }

  /** The part of UpdatePerformanceMetrics that touches the tier. */
  function Measured(m: Manager, op: Operation): Manager
    requires op.UpdateMetrics?
  {
    if !Adjusts(m, op) then m
    else
      var degraded := if m.tier != Recovery then m.(state := Move(m.state, Degraded)) else m;
      Stepped(degraded, false, op.opens).(lastAdjustment := op.now)
  }

  function Apply(m: Manager, op: Operation): Manager {
    match op
    case Initialize(_, _, _, _, _, _) => Initialized(m, op)
    case EncodeFrame(_, _, _, _, _) => Encoded(m, op)
    case UpdateMetrics(_, _, _) => Measured(m, op)
    case ShutDown => m.(state := Move(m.state, Shutdown), hasEncoder := false)
  }

  function After(m: Manager, ops: seq<Operation>): Manager {
    if ops == [] then m else Apply(After(m, ops[..|ops| - 1]), ops[|ops| - 1])
  }

  // ---------------------------------------------------------------- the life cycle

  /** Initialize reports success exactly when it ends in STREAMING, and failure exactly when it ends in SHUTDOWN,
      unless the manager had been shut down and the codec opens all the same: then it reports success and stays shut. */
  lemma InitializeReports(m: Manager, op: Operation)
    requires op.Initialize?
    ensures var ok, state := InitializeOk(op), Initialized(m, op).state;
      && ((ok <==> state == Streaming) <==> !(m.state == Shutdown && ok))
      && ((!ok <==> state == Shutdown) <==> !(m.state == Shutdown && ok))
  {
    StatesOfInitialize(m.state, PreflightOf(op).ok, op.opens, InitializeOk(op));
  }

  lemma StatesOfInitialize(s: StreamingState, preflight: bool, opens: bool, ok: bool)
    requires ok ==> preflight
    ensures InitializedState(s, preflight, opens, ok) == if s == Shutdown || !ok then Shutdown else Streaming
  {
  }

  /** From IDLE the two outcomes are as the caller expects. */
  lemma InitializeFromIdle(m: Manager, op: Operation)
    requires op.Initialize? && m.state == Idle
    ensures InitializeOk(op) <==> Initialized(m, op).state == Streaming
    ensures !InitializeOk(op) <==> Initialized(m, op).state == Shutdown
  {
    InitializeReports(m, op);
  }

  /** The preflight passes if and only if some detected codec opens, libx264 standing in when none is detected. */
  lemma PreflightPassesIff(op: Operation)
    requires op.Initialize?
    ensures PreflightOf(op).ok <==>
      (exists i :: 0 <= i < |op.codecs| && op.codecs[i] in op.opening) || (op.codecs == [] && "libx264" in op.opening)
  {
    var capabilities := Detected(op.codecs);
    PreflightFindsFirst(capabilities, op.opening, 0);
    if op.codecs == [] {
      assert Passes(capabilities, op.opening, 0) <==> "libx264" in op.opening;
    } else {
      assert forall i :: 0 <= i < |op.codecs| ==>
        Passes(capabilities, op.opening, i) == (op.codecs[i] in op.opening);
    }
  }

  /** The codec that opens first among the detected ones, at position `i`. */
  predicate FirstOpening(op: Operation, i: nat)
    requires op.Initialize?
  {
    i < |op.codecs| && op.codecs[i] in op.opening && forall j :: 0 <= j < i ==> op.codecs[j] !in op.opening
  }

  /** Initialize from IDLE streams if and only if the preflight passes and then the codec opens or the software one
      does. It is locked to the first detected codec that opens, and to libx264 when that one does not open after
      all. */
  lemma InitializeStreamsIff(m: Manager, op: Operation)
    requires op.Initialize? && m.state == Idle
    ensures Initialized(m, op).state == Streaming <==>
      && ((exists i: nat :: FirstOpening(op, i)) || (op.codecs == [] && "libx264" in op.opening))
      && (op.opens || op.softwareOpens)
    ensures Initialized(m, op).tier == HighPerformance
    ensures Initialized(m, op).baseWidth == op.width && Initialized(m, op).baseHeight == op.height
    ensures forall i: nat :: FirstOpening(op, i) ==>
      Initialized(m, op).sessionLocked && Initialized(m, op).hasEncoder
      && Initialized(m, op).lockedCodec == if op.opens then op.codecs[i] else "libx264"
  {
    InitializeFromIdle(m, op);
    PreflightPassesIff(op);
    var capabilities := Detected(op.codecs);
    PreflightFindsFirst(capabilities, op.opening, 0);
    if PreflightOf(op).ok && op.codecs != [] {
      assert FirstOpening(op, PreflightOf(op).index) by {
        assert forall j :: 0 <= j < |op.codecs| ==> Passes(capabilities, op.opening, j) == (op.codecs[j] in op.opening);
      }
    }
    forall i: nat | FirstOpening(op, i)
      ensures Initialized(m, op).sessionLocked && Initialized(m, op).hasEncoder
      ensures Initialized(m, op).lockedCodec == if op.opens then op.codecs[i] else "libx264"
    {
      assert forall j :: 0 <= j < |op.codecs| ==> Passes(capabilities, op.opening, j) == (op.codecs[j] in op.opening);
      assert PreflightOf(op).index == i;
    }
  }

  lemma ShutdownStep(m: Manager, op: Operation)
    requires m.state == Shutdown
    ensures Apply(m, op).state == Shutdown
  {
    if op.Initialize? {
      StatesOfInitialize(m.state, PreflightOf(op).ok, op.opens, InitializeOk(op));
    }
  }

  /** Nothing ever leaves SHUTDOWN. */
  lemma {:induction false} ShutdownAbsorbs(m: Manager, ops: seq<Operation>)
    requires m.state == Shutdown
    ensures After(m, ops).state == Shutdown
  {
    if ops != [] {
      ShutdownAbsorbs(m, ops[..|ops| - 1]);
      ShutdownStep(After(m, ops[..|ops| - 1]), ops[|ops| - 1]);
    }
  }

  /** There are such runs: a session starts, is shut down, and the same start reports success without starting. */
  lemma ReportsThoughShut(start: Operation)
    requires start.Initialize? && InitializeOk(start)
    ensures After(CREATED, [start]).state == Streaming && After(CREATED, [start, ShutDown]).state == Shutdown
    ensures After(CREATED, [start, ShutDown, start]).state == Shutdown
  {
    assert [start][..0] == [] && [start] + [ShutDown] == [start, ShutDown];
    InitializeFromIdle(CREATED, start);
    ShutDownReaches([start]);
    assert [start, ShutDown, start][..2] == [start, ShutDown];
    ShutdownStep(After(CREATED, [start, ShutDown]), start);
  }

  /** Between calls only five of the nine states are ever seen. */
  predicate Settled(s: StreamingState) {
    s == Idle || s == Streaming || s == Degraded || s == EmergencyFallback || s == Shutdown
  }

  lemma {:induction false} OnlySettledStates(ops: seq<Operation>)
    ensures Settled(After(CREATED, ops).state)
  {
    if ops != [] {
      var before, op := ops[..|ops| - 1], ops[|ops| - 1];
      OnlySettledStates(before);
      if op.Initialize? {
        InitializeReports(After(CREATED, before), op);
      }
    }
  }

  /** Shutting down works exactly when the manager is not idle: the table has no way from IDLE to SHUTDOWN. */
  lemma ShutDownReaches(ops: seq<Operation>)
    ensures After(CREATED, ops + [ShutDown]).state == Shutdown <==> After(CREATED, ops).state != Idle
  {
    OnlySettledStates(ops);
    assert (ops + [ShutDown])[..|ops|] == ops;
  }

  // ---------------------------------------------------------------- between initializations

  predicate NoInitialize(ops: seq<Operation>) {
    forall op :: op in ops ==> !op.Initialize?
  }

  predicate Troubled(s: StreamingState) {
    s == Degraded || s == EmergencyFallback || s == Shutdown
  }

  /** Once degraded, fallen back or shut down, the manager does not stream normally again. */
  lemma {:induction false} NeverRecovers(m: Manager, ops: seq<Operation>)
    requires NoInitialize(ops) && Troubled(m.state)
    ensures Troubled(After(m, ops).state)
  {
    if ops != [] {
      NeverRecovers(m, ops[..|ops| - 1]);
    }
  }

  /** Once the session runs on the software codec it stays there. */
  lemma {:induction false} FallbackSticks(m: Manager, ops: seq<Operation>)
    requires NoInitialize(ops) && m.lockedCodec == SOFTWARE_CODEC
    ensures After(m, ops).lockedCodec == SOFTWARE_CODEC
  {
    if ops != [] {
      FallbackSticks(m, ops[..|ops| - 1]);
    }
  }

  lemma FallbackStep(m: Manager, op: Operation)
    requires m.state == EmergencyFallback ==> m.lockedCodec == "libx264"
    ensures Apply(m, op).state == EmergencyFallback ==> Apply(m, op).lockedCodec == "libx264"
  {
    if op.Initialize? {
      StatesOfInitialize(m.state, PreflightOf(op).ok, op.opens, InitializeOk(op));
    }
  }

  /** Over every run, a manager in EMERGENCY_FALLBACK is locked to libx264. */
  lemma {:induction false} FallbackIsSoftware(ops: seq<Operation>)
    ensures After(CREATED, ops).state == EmergencyFallback ==> After(CREATED, ops).lockedCodec == "libx264"
  {
    if ops != [] {
      FallbackIsSoftware(ops[..|ops| - 1]);
      FallbackStep(After(CREATED, ops[..|ops| - 1]), ops[|ops| - 1]);
    }
  }

  lemma {:induction false} AfterFirst(m: Manager, op: Operation, ops: seq<Operation>)
    ensures After(m, [op] + ops) == After(Apply(m, op), ops)
  {
    if ops == [] {
      assert [op] + ops == [op] && [op][..0] == [];
    } else {
      var last := |ops| - 1;
      AfterFirst(m, op, ops[..last]);
      assert ([op] + ops)[..last + 1] == [op] + ops[..last];
    }
  }

  /** The next step down needs the encoder to be opened again. */
  predicate Reopens(m: Manager) {
    && m.tier != Recovery && CanSelect(m)
    && !(m.hasEncoder && SameSize(ProfileFor(m, m.tier), ProfileFor(m, Worse(m.tier))))
  }

  /** Of the three steps down only that from balanced to low-end, unless the base size is 1280 by 720 anyway, and that
      from low-end to recovery change the picture size, so only those reopen an encoder that is there. */
  lemma ReopensIff(m: Manager)
    requires m.hasEncoder && m.sessionLocked
    ensures Reopens(m) <==>
      m.tier == LowEnd || (m.tier == Balanced && (m.baseWidth, m.baseHeight) != (1280, 720))
  {
  }

  /** The operations that make the manager fall back: an Initialize with a codec that passes the preflight and then does
      not open, a frame that the encoder fails to encode, and a frame or a step down for which the session's codec does
      not open again. */
  predicate FallsBack(m: Manager, op: Operation) {
    match op
    case Initialize(_, _, codecs, opening, opens, _) => !opens && exists i :: 0 <= i < |codecs| && codecs[i] in opening
    case EncodeFrame(initialized, opens, _, encodes, _) =>
      if m.hasEncoder && initialized then !encodes else m.sessionLocked && !(opens && encodes)
    case UpdateMetrics(_, _, opens) => Adjusts(m, op) && Reopens(m) && !opens
    case ShutDown => false
  }

  /** From such an operation on the codec is libx264, until the next Initialize. */
  lemma FallbackLocksSoftware(m: Manager, op: Operation, ops: seq<Operation>)
    requires FallsBack(m, op) && NoInitialize(ops)
    ensures After(m, [op] + ops).lockedCodec == "libx264"
  {
    if op.Initialize? {
      PreflightPassesIff(op);
    }
    AfterFirst(m, op, ops);
    FallbackSticks(Apply(m, op), ops);
  }

  /** And between initializations nothing else changes the codec. */
  lemma OnlyFallbackChangesCodec(m: Manager, op: Operation)
    requires !op.Initialize? && Apply(m, op).lockedCodec != m.lockedCodec
    ensures FallsBack(m, op)
  {
  }

  // ---------------------------------------------------------------- a session that runs

  predicate Working(s: StreamingState) {
    s == Streaming || s == Degraded || s == EmergencyFallback
  }

  lemma WorkingStep(m: Manager, op: Operation)
    requires Working(m.state) ==> m.hasEncoder && m.sessionLocked
    ensures Working(Apply(m, op).state) ==> Working(m.state) || op.Initialize? || !Settled(m.state)
    ensures Working(Apply(m, op).state) && Settled(m.state) ==> Apply(m, op).hasEncoder && Apply(m, op).sessionLocked
  {
    if op.Initialize? {
      StatesOfInitialize(m.state, PreflightOf(op).ok, op.opens, InitializeOk(op));
    }
  }

  /** Over every run, a manager that streams in any way has an encoder and a locked codec. */
  lemma {:induction false} WorkingHasEncoder(ops: seq<Operation>)
    ensures Working(After(CREATED, ops).state) ==> After(CREATED, ops).hasEncoder && After(CREATED, ops).sessionLocked
  {
    if ops != [] {
      WorkingHasEncoder(ops[..|ops| - 1]);
      OnlySettledStates(ops[..|ops| - 1]);
      WorkingStep(After(CREATED, ops[..|ops| - 1]), ops[|ops| - 1]);
    }
  }

  /** What becomes of a manager that streams, at every operation other than Initialize: it is shut down, falls back, is
      degraded by a step down, or stays as it is. */
  lemma StatesOfTrouble(m: Manager, op: Operation)
    requires Working(m.state) && !op.Initialize?
    ensures Apply(m, op).state ==
      if op.ShutDown? then Shutdown
      else if FallsBack(m, op) then EmergencyFallback
      else if m.state == Streaming && op.UpdateMetrics? && Adjusts(m, op) && m.tier != Recovery then Degraded
      else m.state
  {
    if op.UpdateMetrics? && Adjusts(m, op) {
      StepDownState(m, op);
    }
  }

  lemma StepDownState(m: Manager, op: Operation)
    requires Working(m.state) && op.UpdateMetrics? && Adjusts(m, op)
    ensures Measured(m, op).state ==
      if FallsBack(m, op) then EmergencyFallback
      else if m.state == Streaming && m.tier != Recovery then Degraded
      else m.state
  {
    var degraded := if m.tier != Recovery then m.(state := Move(m.state, Degraded)) else m;
    assert Working(degraded.state) && Reopens(degraded) == Reopens(m);
  }

  /** Whether there is an encoder: after a frame that was encoded there is, after a shutdown there is none, and no other
      operation takes it away. */
  lemma EncoderPresence(m: Manager, op: Operation)
    ensures op.EncodeFrame? && EncodeOk(m, op) ==> Apply(m, op).hasEncoder
    ensures op.ShutDown? ==> !Apply(m, op).hasEncoder
    ensures !op.ShutDown? && m.hasEncoder ==> Apply(m, op).hasEncoder
  {
  }

  /** So a frame fails exactly when both ways of encoding it fail: there is no initialized encoder and neither the
      session's codec nor libx264 opens, or the encoder fails and libx264 does not open. */
  lemma FrameFailsIff(ops: seq<Operation>, op: Operation)
    requires op.EncodeFrame? && Working(After(CREATED, ops).state)
    ensures EncodeOk(After(CREATED, ops), op) <==>
      (op.initialized || op.opens || op.softwareOpens) && (op.encodes || op.fallbackOpens)
  {
    WorkingHasEncoder(ops);
  }

  /** A locked session only ever changes codec by falling back, and never unlocks. */
  lemma {:induction false} CodecLocked(m: Manager, ops: seq<Operation>)
    requires NoInitialize(ops) && m.sessionLocked
    ensures After(m, ops).sessionLocked
    ensures After(m, ops).lockedCodec == m.lockedCodec || After(m, ops).lockedCodec == SOFTWARE_CODEC
  {
    if ops != [] {
      CodecLocked(m, ops[..|ops| - 1]);
    }
  }

  /** How many operations of a run changed the tier. */
  function TierSteps(m: Manager, ops: seq<Operation>): nat {
    if ops == [] then 0
    else
      var before := ops[..|ops| - 1];
      TierSteps(m, before) + if After(m, before).tier != After(m, ops).tier then 1 else 0
  }

  /** The tier never improves: every change is one step down, so there are at most three. */
  lemma {:induction false} TierOnlyFalls(m: Manager, ops: seq<Operation>)
    requires NoInitialize(ops)
    ensures TierSteps(m, ops) == Rank(After(m, ops).tier) - Rank(m.tier)
    ensures TierSteps(m, ops) <= 3
  {
    if ops != [] {
      TierOnlyFalls(m, ops[..|ops| - 1]);
    }
  }

  /** The clock of a run does not go back. */
  predicate ClockRuns(ops: seq<Operation>) {
    forall i, j :: 0 <= i < j < |ops| && ops[i].UpdateMetrics? && ops[j].UpdateMetrics? ==> ops[i].now <= ops[j].now
  }

  /** Whether operation `i` of a run is a metrics update that changes the tier. */
  predicate StepsDown(ops: seq<Operation>, i: nat)
    requires i < |ops|
  {
    ops[i].UpdateMetrics? && After(CREATED, ops[..i]).tier != After(CREATED, ops[..i + 1]).tier
  }

  lemma AdjustStep(m: Manager, op: Operation)
    ensures Apply(m, op).lastAdjustment == if op.UpdateMetrics? && Adjusts(m, op) then op.now else m.lastAdjustment
    ensures op.UpdateMetrics? && Apply(m, op).tier != m.tier ==> Adjusts(m, op)
  {
  }

  function LastAdjustment(ops: seq<Operation>, n: nat): time
    requires n <= |ops|
  {
    After(CREATED, ops[..n]).lastAdjustment
  }

  /** Operation `i` of a run is a metrics update that adjusts. */
  predicate Adjusting(ops: seq<Operation>, i: nat)
    requires i < |ops|
  {
    ops[i].UpdateMetrics? && Adjusts(After(CREATED, ops[..i]), ops[i])
  }

  lemma AdjustingStep(ops: seq<Operation>, i: nat)
    requires i < |ops|
    ensures LastAdjustment(ops, i + 1) == if Adjusting(ops, i) then ops[i].now else LastAdjustment(ops, i)
    ensures Adjusting(ops, i) ==> (ops[i].now - LastAdjustment(ops, i)) % CLOCK_RANGE >= ADJUSTMENT_PAUSE
    ensures StepsDown(ops, i) ==> Adjusting(ops, i)
  {
    assert ops[..i + 1][..i] == ops[..i];
    AdjustStep(After(CREATED, ops[..i]), ops[i]);
  }

  /** The record of a run: the adjustment time before each operation, and which operations adjust. */
  datatype Record = Record(last: seq<time>, adjusts: seq<bool>)

  predicate Recorded(ops: seq<Operation>, r: Record, i: nat)
    requires i < |ops| && i + 1 < |r.last| && i < |r.adjusts|
  {
    if r.adjusts[i] then
      ops[i].UpdateMetrics? && (ops[i].now - r.last[i]) % CLOCK_RANGE >= ADJUSTMENT_PAUSE && r.last[i + 1] == ops[i].now
    else r.last[i + 1] == r.last[i]
  }

  ghost predicate RecordOf(ops: seq<Operation>, r: Record, n: nat) {
    && |r.last| == n + 1 && |r.adjusts| == n <= |ops| && r.last[0] == 0
    && forall i :: 0 <= i < n ==> Recorded(ops, r, i)
  }

  lemma RecordedStep(ops: seq<Operation>, r: Record, i: nat)
    requires i < |ops| && i + 1 < |r.last| && i < |r.adjusts|
    requires r.last[i] == LastAdjustment(ops, i) && r.last[i + 1] == LastAdjustment(ops, i + 1)
    requires r.adjusts[i] == Adjusting(ops, i)
    ensures Recorded(ops, r, i)
  {
    AdjustingStep(ops, i);
  }

  lemma {:induction false} MakeRecord(ops: seq<Operation>, n: nat) returns (r: Record)
    requires n <= |ops|
    ensures RecordOf(ops, r, n) && forall k :: 0 <= k <= n ==> r.last[k] == LastAdjustment(ops, k)
    ensures forall k :: 0 <= k < n ==> r.adjusts[k] == Adjusting(ops, k)
  {
    if n == 0 {
      r := Record([LastAdjustment(ops, 0)], []);
    } else {
      r := MakeRecord(ops, n - 1);
      AdjustingStep(ops, n - 1);
      r := Record(r.last + [LastAdjustment(ops, n)], r.adjusts + [Adjusting(ops, n - 1)]);
      forall i | 0 <= i < n
        ensures Recorded(ops, r, i)
      {
        RecordedStep(ops, r, i);
      }
    }
  }

  /** The recorded time never passes the clock, */
  lemma {:induction false} RecordBounded(ops: seq<Operation>, r: Record, i: nat, now: time)
    requires RecordOf(ops, r, |r.adjusts|) && i <= |r.adjusts|
    requires forall k :: 0 <= k < i && ops[k].UpdateMetrics? ==> ops[k].now <= now
    ensures r.last[i] <= now
  {
    if i > 0 {
      RecordBounded(ops, r, i - 1, now);
      assert Recorded(ops, r, i - 1);
    }
  }

  /** and never goes back. */
  lemma {:induction false} RecordGrows(ops: seq<Operation>, r: Record, i: nat, j: nat)
    requires RecordOf(ops, r, |r.adjusts|) && i <= j <= |r.adjusts| && ClockRuns(ops)
    ensures r.last[i] <= r.last[j]
  {
    if i < j {
      RecordGrows(ops, r, i, j - 1);
      assert Recorded(ops, r, j - 1);
      if r.adjusts[j - 1] {
        RecordBounded(ops, r, j - 1, ops[j - 1].now);
      }
    }
  }

  /** With the clock not behind, the unsigned difference is the elapsed time. */
  lemma Elapsed(now: time, last: time)
    requires last <= now && (now - last) % CLOCK_RANGE >= ADJUSTMENT_PAUSE
    ensures now >= last + ADJUSTMENT_PAUSE
  {
  }

  lemma RecordSpaced(ops: seq<Operation>, r: Record, i: nat, j: nat)
    requires RecordOf(ops, r, |r.adjusts|) && i < j < |r.adjusts| && ClockRuns(ops) && r.adjusts[i] && r.adjusts[j]
    ensures ops[i].UpdateMetrics? && ops[j].UpdateMetrics? && ops[j].now >= ops[i].now + ADJUSTMENT_PAUSE
  {
    assert Recorded(ops, r, i) && Recorded(ops, r, j);
    RecordGrows(ops, r, i + 1, j);
    RecordBounded(ops, r, j, ops[j].now);
    Elapsed(ops[j].now, r.last[j]);
  }

  /** Over any run, two metric-driven steps down are at least 5000 ms apart, initializations included. */
  lemma StepsAreSpaced(ops: seq<Operation>, i: nat, j: nat)
    requires i < j < |ops| && ClockRuns(ops) && StepsDown(ops, i) && StepsDown(ops, j)
    ensures ops[j].now >= ops[i].now + 5000
  {
    var r := MakeRecord(ops, |ops|);
    AdjustingStep(ops, i);
    AdjustingStep(ops, j);
    RecordSpaced(ops, r, i, j);
  }

  /** Operation `i` reports an overload at least 5000 ms after the start of the clock and after every earlier such
      operation that counted. */
  ghost predicate Downgrades(ops: seq<Operation>, i: nat)
    requires i < |ops|
  {
    && ops[i].UpdateMetrics? && ops[i].needsDowngrade && ops[i].now >= 5000
    && forall j: nat :: j < i && Downgrades(ops, j) ==> ops[i].now >= ops[j].now + 5000
  }

  /** The recorded time is that of the last adjusting operation, or zero. */
  lemma {:induction false} RecordIsLast(ops: seq<Operation>, r: Record, i: nat)
    requires RecordOf(ops, r, |r.adjusts|) && i <= |r.adjusts|
    ensures r.last[i] == 0 || exists j :: 0 <= j < i && r.adjusts[j] && ops[j].UpdateMetrics? && r.last[i] == ops[j].now
  {
    if i > 0 {
      var p := i - 1;
      RecordIsLast(ops, r, p);
      assert Recorded(ops, r, p);
    }
  }

  lemma PauseElapsedIff(now: time, last: time)
    requires last <= now
    ensures (now - last) % CLOCK_RANGE >= ADJUSTMENT_PAUSE <==> now >= last + 5000
  {
  }

  lemma {:induction false} AdjustsExactly(ops: seq<Operation>, r: Record, i: nat)
    requires ClockRuns(ops) && RecordOf(ops, r, |ops|) && i < |ops|
    requires forall k :: 0 <= k < |ops| ==> r.adjusts[k] == Adjusting(ops, k) && r.last[k] == LastAdjustment(ops, k)
    ensures Adjusting(ops, i) <==> Downgrades(ops, i)
  {
    if ops[i].UpdateMetrics? {
      RecordBounded(ops, r, i, ops[i].now);
      PauseElapsedIff(ops[i].now, r.last[i]);
      RecordIsLast(ops, r, i);
      forall j: nat | j < i
        ensures Adjusting(ops, j) <==> Downgrades(ops, j)
        ensures Adjusting(ops, j) ==> ops[j].UpdateMetrics? && ops[j].now <= r.last[i]
      {
        AdjustsExactly(ops, r, j);
        RecordGrows(ops, r, j + 1, i);
        assert Recorded(ops, r, j);
      }
    }
  }

  /** Over any run: the tier takes a step down exactly at the overload reports that come 5000 ms after the last one that
      counted, unless it is the lowest already; and each such report counts, at the lowest tier too. */
  lemma StepsDownIff(ops: seq<Operation>, i: nat)
    requires ClockRuns(ops) && i < |ops|
    ensures StepsDown(ops, i) <==> Downgrades(ops, i) && After(CREATED, ops[..i]).tier != Recovery
    ensures Downgrades(ops, i) ==>
      var before, after := Rank(After(CREATED, ops[..i]).tier), Rank(After(CREATED, ops[..i + 1]).tier);
      after == if before == 3 then 3 else before + 1
  {
    var r := MakeRecord(ops, |ops|);
    AdjustsExactly(ops, r, i);
    assert ops[..i + 1][..i] == ops[..i];
  }

  // ---------------------------------------------------------------- the object

  class EncoderManager {
    var state: StreamingState
    var currentTier: Tier
    var capabilities: seq<Capability>
    var backendIndex: nat
    var sessionLocked: bool
    var lockedCodec: string
    var hasEncoder: bool
    var baseWidth: int
    var baseHeight: int
    var lastAdjustmentTime: time

    ghost function Value(): Manager
      reads this
    {
      Manager(state, currentTier, capabilities, backendIndex, sessionLocked, lockedCodec, hasEncoder,
              baseWidth, baseHeight, lastAdjustmentTime)
    }

    constructor ()
      ensures Value() == CREATED
    {
      state, currentTier, capabilities, backendIndex, sessionLocked := Idle, HighPerformance, [], 0, false;
      lockedCodec, hasEncoder, baseWidth, baseHeight, lastAdjustmentTime := "", false, 1920, 1080, 0;
    }

    method SetState(newState: StreamingState)
      modifies this`state
      ensures state == Move(old(state), newState)
    {
      if state == newState {
        return;
      }
      var valid := Allowed(state, newState);
      if valid {
        state := newState;
      }
    }

    method EmergencyEncoderFallback(softwareOpens: bool) returns (ok: bool)
      modifies this
      ensures Value() == FellBack(old(Value())) && ok == softwareOpens
    {
      SetState(EmergencyFallback);
      lockedCodec := SOFTWARE_CODEC;
      if !hasEncoder {
        hasEncoder := true;
      }
      return softwareOpens;
    }

    method SelectAndInitEncoder(opens: bool, softwareOpens: bool) returns (ok: bool)
      modifies this
      ensures Value() == Selected(old(Value()), opens)
      ensures ok == (CanSelect(old(Value())) && (opens || softwareOpens))
    {
      if sessionLocked {
        hasEncoder := true;
        if opens {
          return true;
        }
        ok := EmergencyEncoderFallback(softwareOpens);
        return ok;
      }
      if backendIndex >= |capabilities| {
        return false;
      }
      hasEncoder := true;
      if opens {
        return true;
      }
      capabilities := capabilities[backendIndex := capabilities[backendIndex].(available := false)];
      ok := EmergencyEncoderFallback(softwareOpens);
    }

    /** Tries the capabilities in order and locks on to the first that opens. */
    method PreflightEncoderValidation(opening: set<string>) returns (ok: bool)
      modifies this`capabilities, this`backendIndex, this`lockedCodec
      ensures var r := Preflight(old(capabilities), opening, 0);
        && ok == r.ok && capabilities == r.capabilities && backendIndex == (if ok then r.index else old(backendIndex))
        && lockedCodec == (if ok then r.codec else old(lockedCodec))
    {
      for i := 0 to |capabilities|
        invariant |capabilities| == |old(capabilities)|
        invariant Preflight(old(capabilities), opening, 0) == Preflight(capabilities, opening, i)
        invariant backendIndex == old(backendIndex) && lockedCodec == old(lockedCodec)
      {
        var cap := capabilities[i];
        if cap.available {
          if cap.codec in opening {
            backendIndex := i;
            lockedCodec := cap.codec;
            return true;
          }
          capabilities := capabilities[i := cap.(available := false)];
        } else {
          assert capabilities[i := cap.(available := false)] == capabilities;
        }
      }
      return false;
    }

    /** Everything up to and including the preflight. */
    method Prepare(op: Operation) returns (preflight: bool)
      requires op.Initialize?
      modifies this
      ensures preflight == PreflightOf(op).ok
      ensures state == Move(Move(old(state), Starting), PreflightValidation)
      ensures currentTier == HighPerformance && !sessionLocked && baseWidth == op.width && baseHeight == op.height
      ensures capabilities == PreflightOf(op).capabilities
      ensures backendIndex == (if preflight then PreflightOf(op).index else 0)
      ensures lockedCodec == (if preflight then PreflightOf(op).codec else old(lockedCodec))
      ensures hasEncoder == old(hasEncoder) && lastAdjustmentTime == old(lastAdjustmentTime)
    {
      SetState(Starting);
      baseWidth, baseHeight := op.width, op.height;
      currentTier, backendIndex, sessionLocked := HighPerformance, 0, false;
      capabilities := Detected(op.codecs);
      SetState(PreflightValidation);
      preflight := PreflightEncoderValidation(op.opening);
    }

    method Initialize(op: Operation) returns (ok: bool)
      requires op.Initialize?
      modifies this
      ensures Value() == Initialized(old(Value()), op) && ok == InitializeOk(op)
    {
      var preflight := Prepare(op);
      if !preflight {
        SetState(Shutdown);
        return false;
      }
      sessionLocked := true;
      SetState(Ready);
      ok := SelectAndInitEncoder(op.opens, op.softwareOpens);
      if ok {
        SetState(Streaming);
        return true;
      }
      SetState(Shutdown);
      return false;
    }

    method EncodeFrame(op: Operation) returns (ok: bool)
      requires op.EncodeFrame?
      modifies this
      ensures Value() == Encoded(old(Value()), op) && ok == EncodeOk(old(Value()), op)
    {
      if !hasEncoder || !op.initialized {
        if !sessionLocked {
          return false;
        }
        var selected := SelectAndInitEncoder(op.opens, op.softwareOpens);
        if !selected {
          return false;
        }
      }
      if !op.encodes {
        ok := EmergencyEncoderFallback(op.fallbackOpens);
        return ok;
      }
      return true;
    }

    /** One step on the ladder; the size of the picture decides whether the encoder is reopened. */
    method AdjustTier(improve: bool, opens: bool)
      modifies this
      ensures Value() == Stepped(old(Value()), improve, opens)
    {
      var oldTier := currentTier;
      if improve {
        if currentTier == Balanced {
          currentTier := HighPerformance;
        } else if currentTier == LowEnd {
          currentTier := Balanced;
        } else if currentTier == Recovery {
          currentTier := LowEnd;
        }
      } else {
        if currentTier == HighPerformance {
          currentTier := Balanced;
        } else if currentTier == Balanced {
          currentTier := LowEnd;
        } else if currentTier == LowEnd {
          currentTier := Recovery;
        }
      }
      if oldTier != currentTier {
        var oldProfile, newProfile := GetProfileForTier(oldTier), GetProfileForTier(currentTier);
        if !(hasEncoder && oldProfile.width == newProfile.width && oldProfile.height == newProfile.height) {
          var _ := SelectAndInitEncoder(opens, false);
        }
      }
    }

    function GetProfileForTier(tier: Tier): (p: Profile)
      reads this
      ensures p == ProfileFor(Value(), tier)
    {
      match tier
      case HighPerformance => Profile(baseWidth, baseHeight, 15000)
      case Balanced => Profile(baseWidth, baseHeight, 8000)
      case LowEnd => Profile(1280, 720, 4000)
      case Recovery => Profile(854, 480, 1500)
    }

    method UpdatePerformanceMetrics(op: Operation)
      requires op.UpdateMetrics?
      modifies this
      ensures Value() == Measured(old(Value()), op)
    {
      if (op.now - lastAdjustmentTime) % CLOCK_RANGE < ADJUSTMENT_PAUSE {
        return;
      }
      if op.needsDowngrade {
        if currentTier != Recovery {
          SetState(Degraded);
        }
        AdjustTier(false, op.opens);
        lastAdjustmentTime := op.now;
      }
    }

    method ShutDown()
      modifies this
      ensures Value() == Apply(old(Value()), Operation.ShutDown)
    {
      SetState(Shutdown);
      if hasEncoder {
        hasEncoder := false;
      }
    }
  }
}
