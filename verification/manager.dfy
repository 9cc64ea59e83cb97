/** What a backend can declare, with the stable ordering key. */
module Capabilities {
  import opened Options

  datatype Capability =
    | Capture | Interception | Filtering | Inspection | Direction
    | Ipv4 | Ipv6 | Tcp | Udp | Icmp | IcmpV6 | NetworkLayer | AddressMetadata
    | Modification | Drop | Pass | Reinjection
    | QueueControl | HandleLifetime | ErrorReporting
    | L2Capture | RawEthernet | AdapterEnumeration
    | WfpEngineAccess | WfpFilters | WfpLayers | WfpFlows
    | InterfaceInfo | RouteInfo | NeighborInfo | GatewayInfo
    | Diagnostics | Telemetry
    | Forwarding | NatState

  function SortKey(c: Capability): nat {
    match c
    case Capture => 0 case Interception => 1 case Filtering => 2 case Inspection => 3 case Direction => 4
    case Ipv4 => 10 case Ipv6 => 11 case Tcp => 12 case Udp => 13 case Icmp => 14 case IcmpV6 => 15
    case NetworkLayer => 20 case AddressMetadata => 21
    case Modification => 30 case Drop => 31 case Pass => 32 case Reinjection => 33
    case QueueControl => 40 case HandleLifetime => 41 case ErrorReporting => 42
    case L2Capture => 50 case RawEthernet => 51 case AdapterEnumeration => 52
    case WfpEngineAccess => 60 case WfpFilters => 61 case WfpLayers => 62 case WfpFlows => 63
    case InterfaceInfo => 70 case RouteInfo => 71 case NeighborInfo => 72 case GatewayInfo => 73
    case Diagnostics => 80 case Telemetry => 81
    case Forwarding => 90 case NatState => 91
  }

  /** `from_u16`: the capability of a stable code. */
  function FromCode(code: int): Option<Capability> {
    match code
    case 0 => Some(Capture) case 1 => Some(Interception) case 2 => Some(Filtering) case 3 => Some(Inspection)
    case 4 => Some(Direction) case 10 => Some(Ipv4) case 11 => Some(Ipv6) case 12 => Some(Tcp)
    case 13 => Some(Udp) case 14 => Some(Icmp) case 15 => Some(IcmpV6) case 20 => Some(NetworkLayer)
    case 21 => Some(AddressMetadata) case 30 => Some(Modification) case 31 => Some(Drop) case 32 => Some(Pass)
    case 33 => Some(Reinjection) case 40 => Some(QueueControl) case 41 => Some(HandleLifetime) case 42 => Some(ErrorReporting)
    case 50 => Some(L2Capture) case 51 => Some(RawEthernet) case 52 => Some(AdapterEnumeration) case 60 => Some(WfpEngineAccess)
    case 61 => Some(WfpFilters) case 62 => Some(WfpLayers) case 63 => Some(WfpFlows) case 70 => Some(InterfaceInfo)
    case 71 => Some(RouteInfo) case 72 => Some(NeighborInfo) case 73 => Some(GatewayInfo) case 80 => Some(Diagnostics)
    case 81 => Some(Telemetry) case 90 => Some(Forwarding) case 91 => Some(NatState)
    case _ => None
  }

  /** The code of a capability names it and no other. */
  lemma CodeRoundTrip(c: Capability)
    ensures FromCode(SortKey(c)) == Some(c)
  {
  }

  lemma {:induction false} CodeIsUnique(c: Capability, code: int)
    ensures FromCode(code) == Some(c) <==> code == SortKey(c)
  {
    CodeRoundTrip(c);
  }
}

/** The lifecycle of one backend and its transition matrix. */
module Lifecycles {
  datatype Lifecycle = Disabled | Starting | Running | Degraded | Failed | Stopping | Stopped {
    predicate CanStart() {
      this == Disabled || this == Stopped || this == Failed
    }

    predicate CanStop() {
      this == Starting || this == Running || this == Degraded
    }

    predicate IsActive() {
      this == Starting || this == Running || this == Degraded || this == Stopping
    }

    /** Lifecycle-available: the only states in which a backend is given work. */
    predicate IsAvailable() {
      this == Running || this == Degraded
    }

    predicate CanTransitionTo(next: Lifecycle) {
      this == next ||
      match this
      case Disabled => next == Starting
      case Starting => next == Running || next == Degraded || next == Failed || next == Stopping
      case Running => next == Degraded || next == Stopping || next == Failed
      case Degraded => next == Running || next == Stopping || next == Failed
      case Stopping => next == Stopped || next == Failed
      case Failed => next == Starting || next == Stopped
      case Stopped => next == Starting || next == Disabled
    }
  }
}

/** The backend manager: registered backends with lifecycle, health and errors. */
module Managers {
  import opened Options
  import opened Saturating
  import opened Capabilities
  import opened Lifecycles
  import opened Health

  datatype Error =
    | InvalidArgument | BackendNotFound | AlreadyRegistered | AlreadyRunning | NotRunning
    | InvalidTransition | ConcurrentOperation | NotInitialized | NativeFailed | CapabilityUnavailable

  datatype Outcome<+T> = Ok(value: T) | Err(error: Error)

  datatype Role = Primary | Supplementary

  datatype Backend = Backend(
    capabilities: set<Capability>, role: Role, lifecycle: Lifecycle,
    monitor: Monitor, errors: U64, lastError: Option<int>)

  type Registry = map<string, Backend>

  function NewBackend(capabilities: set<Capability>, role: Role): Backend {
    Backend(capabilities, role, Stopped, Default(), 0, None)
  }

  /** The Unicode property White_Space, which `trim` strips. */
  predicate IsWhiteSpace(c: char) {
    var n := c as int;
    || 0x9 <= n <= 0xD || n in {0x20, 0x85, 0xA0, 0x1680}
    || 0x2000 <= n <= 0x200A || n in {0x2028, 0x2029, 0x202F, 0x205F, 0x3000}
  }

  /** Nothing is left of the name once `trim` has stripped it. */
  predicate IsBlank(name: string) {
    forall c | c in name :: IsWhiteSpace(c)
  }

  // ---- Operations on one backend ----

  /** `set_lifecycle`: an allowed edge, with the health it forces. */
  function Moved(b: Backend, next: Lifecycle): (Backend, Outcome<()>) {
    if !b.lifecycle.CanTransitionTo(next) then (b, Err(InvalidTransition))
    else
      var b' := b.(lifecycle := next);
      match next
      case Running => (b'.(monitor := Forced(b.monitor, Healthy)), Ok(()))
      case Failed => (b'.(monitor := Forced(b.monitor, Unhealthy)), Ok(()))
      case _ => (b', Ok(()))
  }

  function StartBegun(b: Backend): (Backend, Outcome<()>) {
    if !b.lifecycle.CanStart() then (b, Err(if b.lifecycle == Running then AlreadyRunning else InvalidTransition))
    else (b.(lifecycle := Starting), Ok(()))
  }

  function StopBegun(b: Backend): (Backend, Outcome<()>) {
    if b.lifecycle == Stopped then (b, Err(NotRunning))
    else if !b.lifecycle.CanStop() then (b, Err(InvalidTransition))
    else (b.(lifecycle := Stopping), Ok(()))
  }

  function Succeeded(b: Backend): Backend {
    var monitor := Observed(b.monitor, true);
    b.(monitor := monitor,
       lifecycle := if monitor.health == Healthy && b.lifecycle == Lifecycle.Degraded then Running else b.lifecycle)
  }

  /** The observation is recorded even when the lifecycle it asks for is refused. */
  function FailedOnce(b: Backend, code: Option<int>): (Backend, Outcome<()>) {
    var monitor := Observed(b.monitor, false);
    var b' := b.(monitor := monitor, errors := SatAdd(b.errors, 1), lastError := code);
    match monitor.health
    case Unhealthy =>
      if b.lifecycle.CanTransitionTo(Failed) then (b'.(lifecycle := Failed), Ok(())) else (b', Err(InvalidTransition))
    case Degraded =>
      (b'.(lifecycle := if b.lifecycle == Running then Lifecycle.Degraded else b.lifecycle), Ok(()))
    case _ => (b', Ok(()))
  }

  // ---- Operations on the registry ----

  datatype Op =
    | Register(name: string, capabilities: set<Capability>, role: Role)
    | Unregister(name: string)
    | SetLifecycle(name: string, next: Lifecycle)
    | Start(name: string)
    | Stop(name: string)
    | Success(name: string)
    | Failure(name: string, code: Option<int>)

  function Apply(r: Registry, op: Op): (Registry, Outcome<()>) {
    if op.Register? then
      if IsBlank(op.name) then (r, Err(InvalidArgument))
      else if op.name in r then (r, Err(AlreadyRegistered))
      else (r[op.name := NewBackend(op.capabilities, op.role)], Ok(()))
    else if op.name !in r then (r, Err(BackendNotFound))
    else if op.Unregister? then
      if r[op.name].lifecycle.IsActive() then (r, Err(ConcurrentOperation)) else (r - {op.name}, Ok(()))
    else
      var (b, outcome) := OnBackend(r[op.name], op);
      (r[op.name := b], outcome)
  }

  /** An operation that leaves the set of registered names alone. */
  function OnBackend(b: Backend, op: Op): (Backend, Outcome<()>)
    requires !op.Register? && !op.Unregister?
  {
    match op
    case SetLifecycle(_, next) => Moved(b, next)
    case Start(_) => StartBegun(b)
    case Stop(_) => StopBegun(b)
    case Success(_) => (Succeeded(b), Ok(()))
    case Failure(_, code) => FailedOnce(b, code)
  }

  function Run(r: Registry, ops: seq<Op>): Registry {
    if ops == [] then r else Apply(Run(r, ops[..|ops| - 1]), ops[|ops| - 1]).0
  }

  // ---- What every reachable registry satisfies ----

  predicate BackendOk(b: Backend) {
    && b.monitor.failureThreshold == 3 && b.monitor.recoveryThreshold == 2
    && (b.lifecycle == Running ==> b.monitor.health == Healthy && b.monitor.failures == 0)
  }

  predicate RegistryOk(r: Registry) {
    forall name | name in r :: BackendOk(r[name])
  }

  lemma OnBackendKeeps(b: Backend, op: Op)
    requires BackendOk(b) && !op.Register? && !op.Unregister?
    ensures BackendOk(OnBackend(b, op).0)
    ensures b.lifecycle.CanTransitionTo(OnBackend(b, op).0.lifecycle)
    ensures OnBackend(b, op).0.capabilities == b.capabilities && OnBackend(b, op).0.role == b.role
  {
  }

  /** In every reachable registry a running backend is healthy with no failure
      counted, and the next call moves each lifecycle along an edge of the matrix. */
  lemma {:induction false} EveryRunFollowsMatrix(ops: seq<Op>, op: Op)
    ensures var r := Run(map[], ops);
            && RegistryOk(r)
            && RegistryOk(Apply(r, op).0)
            && forall name | name in r && name in Apply(r, op).0 ::
                 r[name].lifecycle.CanTransitionTo(Apply(r, op).0[name].lifecycle)
  {
    if ops != [] {
      EveryRunFollowsMatrix(ops[..|ops| - 1], ops[|ops| - 1]);
    }
    var r := Run(map[], ops);
    if op.name in r && !op.Register? && !op.Unregister? {
      OnBackendKeeps(r[op.name], op);
    }
  }

  // ---- The matrix, state by state ----

  /** The moves between different lifecycles; staying put is always allowed. */
  const EDGES: set<(Lifecycle, Lifecycle)> :=
    {(Disabled, Starting), (Stopped, Starting), (Failed, Starting),
     (Starting, Running), (Lifecycle.Degraded, Running),
     (Starting, Lifecycle.Degraded), (Running, Lifecycle.Degraded),
     (Starting, Stopping), (Running, Stopping), (Lifecycle.Degraded, Stopping),
     (Stopping, Stopped), (Failed, Stopped),
     (Starting, Failed), (Running, Failed), (Lifecycle.Degraded, Failed), (Stopping, Failed),
     (Stopped, Disabled)}

  /** `set_lifecycle` takes exactly these moves. One it takes sets the lifecycle, forces the
      health of Running and Failed with the counts cleared, and touches nothing else; one it
      refuses touches nothing at all. */
  lemma SetLifecycleExactly(r: Registry, name: string, next: Lifecycle)
    requires name in r
    ensures var (r', outcome) := Apply(r, SetLifecycle(name, next));
            var b, b' := r[name], r'[name];
            && (outcome.Ok? <==> b.lifecycle == next || (b.lifecycle, next) in EDGES)
            && (outcome.Err? ==> outcome == Err(InvalidTransition) && r' == r)
            && (outcome.Ok? ==>
                  && b'.lifecycle == next && b' == b.(lifecycle := next, monitor := b'.monitor)
                  && (next == Running ==> b'.monitor == b.monitor.(failures := 0, recoveries := 0, health := Healthy))
                  && (next == Failed ==> b'.monitor == b.monitor.(failures := 0, recoveries := 0, health := Unhealthy))
                  && (next != Running && next != Failed ==> b'.monitor == b.monitor))
  {
    assert r[name := r[name]] == r;
  }

  /** Start and unregistering are accepted from Disabled, Stopped and Failed, stop from
      Starting, Running and Degraded, each with its own refusal elsewhere. */
  lemma AcceptedByLifecycle(r: Registry, name: string)
    requires name in r
    ensures var l := r[name].lifecycle;
            var (started, start), (stopped, stop), (left, leave) := Apply(r, Op.Start(name)), Apply(r, Op.Stop(name)), Apply(r, Unregister(name));
            && start == (if l in {Disabled, Stopped, Failed} then Ok(())
                         else Err(if l == Running then AlreadyRunning else InvalidTransition))
            && stop == (if l in {Starting, Running, Lifecycle.Degraded} then Ok(())
                        else Err(if l == Stopped then NotRunning else InvalidTransition))
            && leave == (if l in {Disabled, Stopped, Failed} then Ok(()) else Err(ConcurrentOperation))
            && started == (if start.Ok? then r[name := r[name].(lifecycle := Starting)] else r)
            && stopped == (if stop.Ok? then r[name := r[name].(lifecycle := Stopping)] else r)
            && left == (if leave.Ok? then r - {name} else r)
  {
    assert r[name := r[name]] == r;
  }

  /** Unregistered, or in one of the states a start leads out of. */
  predicate OutOfService(r: Registry, name: string) {
    name in r ==> r[name].lifecycle in {Disabled, Stopped, Failed}
  }

  /** However the calls go, a backend out of service gets back into it only through Starting. */
  lemma {:induction false} ServicePassesStarting(r: Registry, ops: seq<Op>, name: string)
    requires OutOfService(r, name)
    requires forall i | 0 <= i <= |ops| :: name in Run(r, ops[..i]) ==> Run(r, ops[..i])[name].lifecycle != Starting
    ensures OutOfService(Run(r, ops), name)
  {
    if ops != [] {
      var before := ops[..|ops| - 1];
      forall i | 0 <= i <= |before|
        ensures before[..i] == ops[..i]
      {
      }
      ServicePassesStarting(r, before, name);
      assert ops[..|ops|] == ops;
      StaysOut(Run(r, before), ops[|ops| - 1], name);
    }
  }

  lemma StaysOut(r: Registry, op: Op, name: string)
    requires OutOfService(r, name)
    ensures var r' := Apply(r, op).0;
            OutOfService(r', name) || r'[name].lifecycle in {Starting, Stopping}
    ensures var r' := Apply(r, op).0;
            name in r' && r'[name].lifecycle !in {Disabled, Stopped, Failed} ==> r'[name].lifecycle == Starting
  {
  }

  /** Failures one after the other count themselves and keep the last code. */
  lemma {:induction false} FailuresAreCounted(b: Backend, codes: seq<Option<int>>)
    ensures var b' := FailAll(b, codes);
            && b'.errors == Cap(b.errors + |codes|)
            && b'.lastError == if codes == [] then b.lastError else codes[|codes| - 1]
  {
    if codes != [] {
      FailuresAreCounted(b, codes[..|codes| - 1]);
    }
  }

  function FailAll(b: Backend, codes: seq<Option<int>>): Backend {
    if codes == [] then b else FailedOnce(FailAll(b, codes[..|codes| - 1]), codes[|codes| - 1]).0
  }

  /** A new name joins stopped, with unknown health and no errors; a blank or taken one is refused. */
  lemma RegisteredExactly(r: Registry, name: string, capabilities: set<Capability>, role: Role)
    ensures var (r', outcome) := Apply(r, Register(name, capabilities, role));
            && (outcome.Ok? <==> name !in r && exists c :: c in name && !IsWhiteSpace(c))
            && (outcome.Ok? ==> && r'.Keys == r.Keys + {name} && (forall n | n in r :: r'[n] == r[n])
                                && r'[name].capabilities == capabilities && r'[name].role == role
                                && r'[name].lifecycle == Stopped && r'[name].monitor.health == Unknown
                                && r'[name].errors == 0 && r'[name].lastError == None)
            && (outcome.Err? ==> r' == r)
  {
  }

  // ---- Health alone ----

  /** A backend under observations only; each failure carries some native code. */
  function Observe(b: Backend, history: seq<bool>): Backend {
    if history == [] then b
    else
      var before := Observe(b, history[..|history| - 1]);
      if history[|history| - 1] then Succeeded(before) else FailedOnce(before, None).0
  }

  /** `k` failures in a row somewhere in the history. */
  ghost predicate HasFailureRun(history: seq<bool>, k: nat) {
    exists i | 0 <= i <= |history| - k :: FailuresAt(history, i, k)
  }

  ghost predicate FailuresAt(history: seq<bool>, i: nat, k: nat) {
    i + k <= |history| && forall j | i <= j < i + k :: !history[j]
  }

  /** Failures the history ends with. */
  function FailureTail(history: seq<bool>): nat {
    if history == [] || history[|history| - 1] then 0 else 1 + FailureTail(history[..|history| - 1])
  }

  lemma {:induction false} TailIsRun(history: seq<bool>)
    ensures FailureTail(history) <= |history|
    ensures FailuresAt(history, |history| - FailureTail(history), FailureTail(history))
    ensures FailureTail(history) < |history| ==> history[|history| - FailureTail(history) - 1]
  {
    if history != [] && !history[|history| - 1] {
      TailIsRun(history[..|history| - 1]);
    }
  }

  lemma RunExtends(history: seq<bool>, k: nat)
    requires history != [] && k > 0
    ensures HasFailureRun(history, k) <==> HasFailureRun(history[..|history| - 1], k) || FailureTail(history) >= k
  {
    var n := |history| - 1;
    var before := history[..n];
    TailIsRun(history);
    if i :| 0 <= i <= |before| - k && FailuresAt(before, i, k) {
      assert FailuresAt(history, i, k);
    }
    if FailureTail(history) >= k {
      assert FailuresAt(history, |history| - k, k);
    }
    if i :| 0 <= i <= |history| - k && FailuresAt(history, i, k) {
      if i + k <= n {
        assert FailuresAt(before, i, k);
      }
    }
  }

  /** From Running, observations alone lead to Failed exactly when they contain a
      full threshold of consecutive failures; before that the lifecycle is Running
      or Degraded, just as health says. */
  lemma {:induction false} HealthAlone(b: Backend, history: seq<bool>)
    requires b.lifecycle == Running && b.monitor.health == Healthy && b.monitor.failures == 0
    ensures var b', k := Observe(b, history), b.monitor.failureThreshold;
            && b'.monitor.failureThreshold == k
            && (b'.lifecycle == Failed <==> HasFailureRun(history, k))
            && (b'.lifecycle != Failed ==>
                  && b'.monitor.failures == FailureTail(history) < k
                  && b'.monitor.health == (if b'.lifecycle == Running then Healthy else BackendHealth.Degraded)
                  && b'.lifecycle.IsAvailable())
  {
    if history != [] {
      HealthAlone(b, history[..|history| - 1]);
      RunExtends(history, b.monitor.failureThreshold);
    }
  }

  /** Short of that, the backend is Running exactly when no failure was seen or the
      successes it ends with reach the recovery threshold. */
  lemma {:induction false} RecoversExactly(b: Backend, history: seq<bool>)
    requires b.lifecycle == Running && b.monitor.health == Healthy && b.monitor.failures == 0
    requires !HasFailureRun(history, b.monitor.failureThreshold)
    ensures var b' := Observe(b, history);
            && b'.monitor.recoveryThreshold == b.monitor.recoveryThreshold
            && (b'.lifecycle == Running <==>
                false !in history || (history[|history| - 1] && Trailing(history) >= b.monitor.recoveryThreshold))
            && (false in history ==> b'.monitor.recoveries == if history[|history| - 1] then Cap32(Trailing(history)) else 0)
  {
    HealthAlone(b, history);
    if history != [] {
      var before := history[..|history| - 1];
      RunExtends(history, b.monitor.failureThreshold);
      RecoversExactly(b, before);
      HealthAlone(b, before);
      assert history == before + [history[|history| - 1]];
      if before != [] {
        assert before[|before| - 1] == history[|history| - 2];
      }
    }
  }

  /** With the default thresholds a degraded backend is still Degraded after one success,
      and Running after the second. */
  lemma OneSuccessIsNotEnough(b: Backend)
    requires BackendOk(b) && b.lifecycle == Running
    ensures Observe(b, [false, false, true]).lifecycle == Lifecycle.Degraded
    ensures Observe(b, [false, false, true, true]).lifecycle == Running
  {
    var b1 := FailedOnce(b, None).0;
    var b2 := FailedOnce(b1, None).0;
    assert [false][..0] == [] && Observe(b, [false]) == b1;
    assert [false, false][..1] == [false] && Observe(b, [false, false]) == b2;
    assert [false, false, true][..2] == [false, false] && Observe(b, [false, false, true]) == Succeeded(b2);
    assert [false, false, true, true][..3] == [false, false, true];
  }

  // ---- The manager object ----

  datatype FailoverPolicy = NoFailover | PreferPrimary | PreferHealthy | RoundRobin

  class BackendManager {
    var backends: Registry
    var policy: FailoverPolicy
    var cursor: U64

    constructor ()
      ensures backends == map[] && policy == PreferHealthy && cursor == 0
    {
      backends, policy, cursor := map[], PreferHealthy, 0;
    }

    method Register(name: string, capabilities: set<Capability>, role: Role) returns (outcome: Outcome<()>)
      modifies `backends
      ensures (backends, outcome) == Apply(old(backends), Op.Register(name, capabilities, role))
    {
      if IsBlank(name) {
        return Err(InvalidArgument);
      }
      if name in backends {
        return Err(AlreadyRegistered);
      }
      backends := backends[name := NewBackend(capabilities, role)];
      return Ok(());
    }

    method Unregister(name: string) returns (outcome: Outcome<()>)
      modifies `backends
      ensures (backends, outcome) == Apply(old(backends), Op.Unregister(name))
    {
      if name !in backends {
        return Err(BackendNotFound);
      }
      if backends[name].lifecycle.IsActive() {
        return Err(ConcurrentOperation);
      }
      backends := backends - {name};
      return Ok(());
    }

    method SetLifecycle(name: string, next: Lifecycle) returns (outcome: Outcome<()>)
      modifies `backends
      ensures (backends, outcome) == Apply(old(backends), Op.SetLifecycle(name, next))
    {
      if name !in backends {
        return Err(BackendNotFound);
      }
      var backend := backends[name];
      if !backend.lifecycle.CanTransitionTo(next) {
        assert backends[name := backend] == backends;
        return Err(InvalidTransition);
      }
      backend := backend.(lifecycle := next);
      if next == Running {
        backend := backend.(monitor := Forced(backend.monitor, Healthy));
      } else if next == Failed {
        backend := backend.(monitor := Forced(backend.monitor, Unhealthy));
      }
      backends := backends[name := backend];
      return Ok(());
    }

    method Start(name: string) returns (outcome: Outcome<()>)
      modifies `backends
      ensures (backends, outcome) == Apply(old(backends), Op.Start(name))
    {
      if name !in backends {
        return Err(BackendNotFound);
      }
      var backend := backends[name];
      assert backends[name := backend] == backends;
      if !backend.lifecycle.CanStart() {
        return Err(if backend.lifecycle == Running then AlreadyRunning else InvalidTransition);
      }
      backends := backends[name := backend.(lifecycle := Starting)];
      return Ok(());
    }

    method Stop(name: string) returns (outcome: Outcome<()>)
      modifies `backends
      ensures (backends, outcome) == Apply(old(backends), Op.Stop(name))
    {
      if name !in backends {
        return Err(BackendNotFound);
      }
      var backend := backends[name];
      assert backends[name := backend] == backends;
      if backend.lifecycle == Stopped {
        return Err(NotRunning);
      }
      if !backend.lifecycle.CanStop() {
        return Err(InvalidTransition);
      }
      backends := backends[name := backend.(lifecycle := Stopping)];
      return Ok(());
    }

    /** Answers the health the observation left. */
    method RecordSuccess(name: string) returns (outcome: Outcome<BackendHealth>)
      modifies `backends
      ensures var (r, applied) := Apply(old(backends), Op.Success(name));
              backends == r && outcome == if applied.Err? then Err(applied.error) else Ok(r[name].monitor.health)
    {
      if name !in backends {
        return Err(BackendNotFound);
      }
      var backend := backends[name];
      backend := backend.(monitor := Observed(backend.monitor, true));
      if backend.monitor.health == Healthy && backend.lifecycle == Lifecycle.Degraded {
        backend := backend.(lifecycle := Running);
      }
      backends := backends[name := backend];
      return Ok(backend.monitor.health);
    }

    method RecordFailure(name: string, code: Option<int>) returns (outcome: Outcome<BackendHealth>)
      modifies `backends
      ensures var (r, applied) := Apply(old(backends), Op.Failure(name, code));
              backends == r && outcome == if applied.Err? then Err(applied.error) else Ok(r[name].monitor.health)
    {
      if name !in backends {
        return Err(BackendNotFound);
      }
      var backend := backends[name];
      backend := backend.(errors := SatAdd(backend.errors, 1), lastError := code);
      backend := backend.(monitor := Observed(backend.monitor, false));
      outcome := Ok(backend.monitor.health);
      match backend.monitor.health {
        case Unhealthy =>
          if backend.lifecycle != Failed {
            if backend.lifecycle.CanTransitionTo(Failed) {
              backend := backend.(lifecycle := Failed);
            } else {
              outcome := Err(InvalidTransition);
            }
          }
        case Degraded =>
          if backend.lifecycle == Running {
            backend := backend.(lifecycle := Lifecycle.Degraded);
          }
        case _ =>
      }
      backends := backends[name := backend];
    }
  }
}
