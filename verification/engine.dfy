/** The native side of the built-in backends: handles that foreign calls open and close. */
module Natives {
  /** What the engine's slot of one built-in backend holds. */
  datatype Slot = Empty | Idle | Live | Broken

  const BUILTINS := {"npcap", "windivert", "wfp", "iphelper", "etw"}

  /** Starting a built-in, creating its instance when the slot is empty. `works` is what
      the foreign calls answer. Only ETW accepts a start while it is already live. */
  function StartSlot(name: string, slot: Slot, works: bool): (Slot, bool) {
    if slot == Live then (Live, name == "etw")
    else if works || name == "npcap" then (Live, true)
    else if name == "windivert" || name == "wfp" then (Broken, false)
    else (Idle, false)
  }

  /** Stopping a built-in; an empty slot is an error, and a failed close breaks the handle. */
  function StopSlot(name: string, slot: Slot, works: bool): (Slot, bool) {
    if slot == Empty then (Empty, false)
    else if name == "npcap" || name == "iphelper" then (Idle, slot == Live)
    else if name == "etw" then (Idle, true)
    else if slot == Live && !works then (Broken, false)
    else (Idle, true)
  }

  /** The WinDivert handle with all its states. */
  datatype HandleState = Closed | Opening | Open | Closing | Failed

  class WinDivertHandle {
    /** A filter with an embedded NUL cannot become a C string. */
    const filterHasNul: bool
    var state: HandleState
    var native: bool

    /** Between calls a native handle is held exactly in the Open state. */
    ghost predicate Valid()
      reads this
    {
      && state != Closing
      && (native <==> state == Open)
      && (filterHasNul ==> state == Closed || state == Opening)
      && (!filterHasNul ==> state != Opening)
    }

    constructor (filterHasNul: bool)
      ensures Valid() && state == Closed && this.filterHasNul == filterHasNul
    {
      this.filterHasNul := filterHasNul;
      state, native := Closed, false;
    }

    /** What the engine sees of the handle when its filter is a proper C string. */
    ghost function AsSlot(): Slot
      requires Valid() && !filterHasNul
      reads this
    {
      match state case Closed => Idle case Open => Live case Failed => Broken
    }

    /** A NUL in the filter leaves the handle Opening for good. */
    method OpenHandle(opens: bool) returns (ok: bool)
      requires Valid()
      modifies this
      ensures Valid()
      ensures !filterHasNul ==> (AsSlot(), ok) == StartSlot("windivert", old(AsSlot()), opens)
      ensures filterHasNul ==> !ok && state == Opening
    {
      if state != Closed && state != Failed {
        return false;
      }
      state := Opening;
      if filterHasNul {
        return false;
      }
      if !opens {
        state := Failed;
        return false;
      }
      native := true;
      state := Open;
      return true;
    }

    /** Native calls are allowed exactly while a native handle is held. */
    method RequireOpen() returns (ok: bool)
      requires Valid()
      ensures ok <==> native
    {
      if state != Open {
        return false;
      }
      ok := native;
    }

    method CloseHandle(closes: bool) returns (ok: bool)
      requires Valid()
      modifies this
      ensures Valid()
      ensures !filterHasNul ==> (AsSlot(), ok) == StopSlot("windivert", old(AsSlot()), closes)
      ensures filterHasNul ==> state == old(state) && ok == (state == Closed)
    {
      if state == Closed {
        return true;
      }
      if state != Open && state != Failed {
        return false;
      }
      state := Closing;
      if native {
        native := false;
        if !closes {
          state := Failed;
          return false;
        }
      }
      state := Closed;
      return true;
    }
  }
}

/** Start, stop, restart, isolation and failover as the engine orchestrates them. */
module Engines {
  import opened Options
  import opened Saturating
  import opened Ordering
  import opened Capabilities
  import opened Lifecycles
  import opened Health
  import opened Managers
  import opened Natives
  import InFlight

  /** `loads` are the counters the load balancer keeps for backends that have work. */
  datatype Engine = Engine(
    initialized: bool, backends: Registry, policy: FailoverPolicy, cursor: U64,
    slots: map<string, Slot>, loads: map<string, InFlight.Load>, capture: Option<string>, reinjection: Option<string>)

  function SlotOf(slots: map<string, Slot>, name: string): Slot {
    if name in slots then slots[name] else Empty
  }

  /** Both maps with the entries of one backend replaced; only built-ins have a slot. */
  function With(e: Engine, name: string, b: Backend, slot: Slot): Engine {
    e.(backends := e.backends[name := b], slots := if name in BUILTINS then e.slots[name := slot] else e.slots)
  }

  // ---- Selecting a failover target ----

  /** Registered backends in name order that are available and healthy, declare the capability and are not excluded. */
  function Candidates(r: Registry, capability: Capability, excluded: string): seq<string> {
    Filter((n: string) => n in r && r[n].lifecycle.IsAvailable() && capability in r[n].capabilities
                          && r[n].monitor.health == Healthy && n != excluded,
           Sorted(r.Keys))
  }

  /** The candidate a policy picks, and the round-robin cursor afterwards. */
  function Select(r: Registry, policy: FailoverPolicy, cursor: U64, candidates: seq<string>): (Option<string>, U64) {
    if candidates == [] then (None, cursor)
    else
      match policy
      case NoFailover => (Some(candidates[0]), cursor)
      case PreferPrimary =>
        var primary := Filter((n: string) => n in r && r[n].role == Primary, candidates);
        (Some(if primary == [] then candidates[0] else primary[0]), cursor)
      case PreferHealthy =>
        var healthy := Filter((n: string) => n in r && r[n].monitor.health == Healthy, candidates);
        (Some(if healthy == [] then candidates[0] else healthy[0]), cursor)
      case RoundRobin =>
        (Some(candidates[cursor % |candidates|]), Inc(cursor))
  }

  function Target(e: Engine, capability: Capability, failed: string): (Option<string>, U64) {
    if e.policy == NoFailover then (None, e.cursor)
    else Select(e.backends, e.policy, e.cursor, Candidates(e.backends, capability, failed))
  }

  // ---- The operations ----

  /** Starting one backend: Starting, the native start, then Running or Failed. */
  function Launch(b: Backend, name: string, slot: Slot, works: bool): (Backend, Slot, Outcome<()>) {
    var (b1, begun) := StartBegun(b);
    if begun.Err? then (b, slot, begun) else
    var (slot', ok) := if name in BUILTINS then StartSlot(name, slot, works) else (slot, true);
    if !ok then (Moved(b1, Lifecycle.Failed).0, slot', Err(NativeFailed)) else
    var (b2, running) := Moved(b1, Running);
    if running.Err? then (b2, slot', running) else (Succeeded(b2), slot', Ok(()))
  }

  /** Stopping one backend: Stopping, the native stop, then Stopped or Failed. */
  function Halt(b: Backend, name: string, slot: Slot, works: bool): (Backend, Slot, Outcome<()>) {
    var (b1, begun) := StopBegun(b);
    if begun.Err? then (b, slot, begun) else
    var (slot', ok) := if name in BUILTINS then StopSlot(name, slot, works) else (slot, true);
    if !ok then (Moved(b1, Lifecycle.Failed).0, slot', Err(NativeFailed)) else
    var (b2, stopped) := Moved(b1, Stopped);
    (b2, slot', stopped)
  }

  /** The native part of a start and of a stop, over all slots. */
  function NativeStart(slots: map<string, Slot>, name: string, works: bool): (map<string, Slot>, bool) {
    if name !in BUILTINS then (slots, true)
    else
      var (slot, ok) := StartSlot(name, SlotOf(slots, name), works);
      (slots[name := slot], ok)
  }

  function NativeStop(slots: map<string, Slot>, name: string, works: bool): (map<string, Slot>, bool) {
    if name !in BUILTINS then (slots, true)
    else
      var (slot, ok) := StopSlot(name, SlotOf(slots, name), works);
      (slots[name := slot], ok)
  }

  function StartBackend(e: Engine, name: string, works: bool): (Engine, Outcome<()>) {
    if !e.initialized then (e, Err(NotInitialized))
    else if name !in e.backends then (e, Err(BackendNotFound))
    else
      var (b, slot, outcome) := Launch(e.backends[name], name, SlotOf(e.slots, name), works);
      (With(e, name, b, slot), outcome)
  }

  function StopBackend(e: Engine, name: string, works: bool): (Engine, Outcome<()>) {
    if !e.initialized then (e, Err(NotInitialized))
    else if name !in e.backends then (e, Err(BackendNotFound))
    else
      var (b, slot, outcome) := Halt(e.backends[name], name, SlotOf(e.slots, name), works);
      var e1 := With(e, name, b, slot);
      if outcome.Err? then (e1, outcome)
      else (e1.(loads := e.loads - {name},
                capture := if e.capture == Some(name) then None else e.capture,
                reinjection := if e.reinjection == Some(name) then None else e.reinjection),
            Ok(()))
  }

  /** A refused manager call leaves everything as it was. */
  lemma NothingMoved(e: Engine, name: string)
    requires name in e.backends && e.slots.Keys == BUILTINS
    ensures With(e, name, e.backends[name], SlotOf(e.slots, name)) == e
  {
    assert e.backends[name := e.backends[name]] == e.backends;
    assert name in BUILTINS ==> e.slots[name := e.slots[name]] == e.slots;
  }

  lemma LastWriteWins(r: Registry, name: string, a: Backend, b: Backend)
    ensures r[name := a][name := b] == r[name := b]
  {
  }

  /** Starting is the sequence of manager and native calls the source makes. */
  lemma StartInSteps(e: Engine, name: string, works: bool)
    requires e.initialized && e.slots.Keys == BUILTINS
    ensures var (r1, begun) := Managers.Apply(e.backends, Op.Start(name));
            var (slots, ok) := NativeStart(e.slots, name, works);
            var (r2, running) := Managers.Apply(r1, Op.SetLifecycle(name, Running));
            StartBackend(e, name, works) ==
            if begun.Err? then (e.(backends := r1), begun)
            else if !ok then
              (e.(backends := Managers.Apply(r1, Op.SetLifecycle(name, Lifecycle.Failed)).0, slots := slots), Err(NativeFailed))
            else if running.Err? then (e.(backends := r2, slots := slots), running)
            else (e.(backends := Managers.Apply(r2, Op.Success(name)).0, slots := slots), Ok(()))
  {
    if name in e.backends {
      NothingMoved(e, name);
      var (b1, begun) := StartBegun(e.backends[name]);
      if begun.Ok? {
        var b2 := Moved(b1, Running).0;
        LastWriteWins(e.backends, name, b1, b2);
        LastWriteWins(e.backends, name, b1, Moved(b1, Lifecycle.Failed).0);
        LastWriteWins(e.backends, name, b2, Succeeded(b2));
      }
    }
  }

  lemma StopInSteps(e: Engine, name: string, works: bool)
    requires e.initialized && e.slots.Keys == BUILTINS
    ensures var (r1, begun) := Managers.Apply(e.backends, Op.Stop(name));
            var (slots, ok) := NativeStop(e.slots, name, works);
            var (r2, stopped) := Managers.Apply(r1, Op.SetLifecycle(name, Stopped));
            StopBackend(e, name, works) ==
            if begun.Err? then (e.(backends := r1), begun)
            else if !ok then
              (e.(backends := Managers.Apply(r1, Op.SetLifecycle(name, Lifecycle.Failed)).0, slots := slots), Err(NativeFailed))
            else if stopped.Err? then (e.(backends := r2, slots := slots), stopped)
            else (e.(backends := r2, slots := slots, loads := e.loads - {name},
                     capture := if e.capture == Some(name) then None else e.capture,
                     reinjection := if e.reinjection == Some(name) then None else e.reinjection), Ok(()))
  {
    if name in e.backends {
      NothingMoved(e, name);
      var (b1, begun) := StopBegun(e.backends[name]);
      if begun.Ok? {
        LastWriteWins(e.backends, name, b1, Moved(b1, Stopped).0);
        LastWriteWins(e.backends, name, b1, Moved(b1, Lifecycle.Failed).0);
      }
    }
  }

  function RestartBackend(e: Engine, name: string, stops: bool, starts: bool): (Engine, Outcome<()>) {
    if !e.initialized then (e, Err(NotInitialized))
    else if name !in e.backends then (e, Err(BackendNotFound))
    else
      match e.backends[name].lifecycle
      case Running | Degraded =>
        var (e1, stopped) := StopBackend(e, name, stops);
        if stopped.Err? then (e1, stopped) else StartBackend(e1, name, starts)
      case Failed | Stopped | Disabled => StartBackend(e, name, starts)
      case Starting | Stopping => (e, Err(ConcurrentOperation))
  }

  function Isolate(e: Engine, name: string, works: bool): (Engine, Outcome<()>) {
    if !e.initialized then (e, Err(NotInitialized))
    else if name !in e.backends then (e, Err(BackendNotFound))
    else
      match e.backends[name].lifecycle
      case Running | Degraded => StopBackend(e, name, works)
      case Failed | Stopped | Disabled => (e, Ok(()))
      case Starting | Stopping => (e, Err(ConcurrentOperation))
  }

  datatype Route = CaptureRoute | ReinjectionRoute

  function RouteCapability(route: Route): Capability {
    match route case CaptureRoute => Capture case ReinjectionRoute => Reinjection
  }

  function Published(e: Engine, route: Route): Option<string> {
    match route case CaptureRoute => e.capture case ReinjectionRoute => e.reinjection
  }

  function Failover(e: Engine, route: Route, failed: string, works: bool): (Engine, Outcome<string>) {
    var (e1, isolated) := Isolate(e, failed, works);
    if isolated.Err? then (e1, Err(isolated.error)) else
    var (target, cursor) := Target(e1, RouteCapability(route), failed);
    var e2 := e1.(cursor := cursor);
    if target.None? then (e2, Err(CapabilityUnavailable))
    else
      match route
      case CaptureRoute => (e2.(capture := target), Ok(target.value))
      case ReinjectionRoute => (e2.(reinjection := target), Ok(target.value))
  }

  datatype Call =
    | Register(name: string, capabilities: set<Capability>, role: Role)
    | Unregister(name: string)
    | Start(name: string, starts: bool)
    | Stop(name: string, stops: bool)
    | Restart(name: string, stops: bool, starts: bool)
    | Isolation(name: string, stops: bool)
    | FailoverTo(route: Route, name: string, stops: bool)
    | Success(name: string)
    | Failure(name: string, code: Option<int>)
    | SetPolicy(policy: FailoverPolicy)

  function Step(e: Engine, call: Call): Engine {
    match call
    case Register(name, capabilities, role) => e.(backends := Managers.Apply(e.backends, Op.Register(name, capabilities, role)).0)
    case Unregister(name) => e.(backends := Managers.Apply(e.backends, Op.Unregister(name)).0)
    case Start(name, starts) => StartBackend(e, name, starts).0
    case Stop(name, stops) => StopBackend(e, name, stops).0
    case Restart(name, stops, starts) => RestartBackend(e, name, stops, starts).0
    case Isolation(name, stops) => Isolate(e, name, stops).0
    case FailoverTo(route, name, stops) => Failover(e, route, name, stops).0
    case Success(name) => e.(backends := Managers.Apply(e.backends, Op.Success(name)).0)
    case Failure(name, code) => e.(backends := Managers.Apply(e.backends, Op.Failure(name, code)).0)
    case SetPolicy(policy) => e.(policy := policy)
  }

  function Run(e: Engine, calls: seq<Call>): Engine {
    if calls == [] then e else Step(Run(e, calls[..|calls| - 1]), calls[|calls| - 1])
  }

  /** After initialisation: backends registered and stopped, and the IP Helper
      instance already started and stored in its slot. */
  predicate IsInitial(e: Engine) {
    && e.initialized
    && (forall name | name in e.backends :: e.backends[name].lifecycle == Stopped && e.backends[name].monitor == Default())
    && e.slots == map["npcap" := Empty, "windivert" := Empty, "wfp" := Empty, "iphelper" := Live, "etw" := Empty]
  }

  // ---- What every run keeps ----

  /** Lifecycle, health and native slot of one backend agree. */
  predicate Agrees(b: Backend, name: string, slot: Slot) {
    && BackendOk(b)
    && b.lifecycle != Starting && b.lifecycle != Stopping
    && (b.lifecycle == Lifecycle.Degraded ==> b.monitor.health == BackendHealth.Degraded)
    && (name in BUILTINS && b.lifecycle.IsAvailable() ==> slot == Live)
  }

  predicate Consistent(e: Engine) {
    forall name | name in e.backends :: Agrees(e.backends[name], name, SlotOf(e.slots, name))
  }

  /** Everything but one backend and its slot is as before. */
  ghost predicate OnlyTouches(e: Engine, e': Engine, name: string) {
    && e'.backends.Keys == e.backends.Keys
    && (forall n | n in e.backends && n != name :: e'.backends[n] == e.backends[n])
    && (forall n | n != name :: SlotOf(e'.slots, n) == SlotOf(e.slots, n))
    && e'.loads - {name} == e.loads - {name}
    && e'.initialized == e.initialized && e'.policy == e.policy
  }

  lemma WithKeeps(e: Engine, name: string, b: Backend, slot: Slot)
    requires Consistent(e) && name in e.backends && Agrees(b, name, slot)
    ensures Consistent(With(e, name, b, slot)) && OnlyTouches(e, With(e, name, b, slot), name)
    ensures name in BUILTINS ==> SlotOf(With(e, name, b, slot).slots, name) == slot
  {
  }

  lemma LaunchKeeps(b: Backend, name: string, slot: Slot, works: bool)
    requires Agrees(b, name, slot)
    ensures var (b', slot', outcome) := Launch(b, name, slot, works);
            && Agrees(b', name, slot')
            && (outcome.Ok? ==> b'.lifecycle == Running)
            && (outcome.Ok? <==> b.lifecycle.CanStart() && (name in BUILTINS ==> StartSlot(name, slot, works).1))
            && (slot == Live ==> slot' == Live)
  {
  }

  lemma HaltKeeps(b: Backend, name: string, slot: Slot, works: bool)
    requires Agrees(b, name, slot)
    ensures var (b', slot', outcome) := Halt(b, name, slot, works);
            && Agrees(b', name, slot')
            && (outcome.Ok? ==> b'.lifecycle == Stopped)
            && (!b.lifecycle.IsAvailable() ==> outcome.Err? && b' == b && slot' == slot)
  {
  }

  lemma StartKeeps(e: Engine, name: string, works: bool)
    requires Consistent(e)
    ensures Consistent(StartBackend(e, name, works).0) && OnlyTouches(e, StartBackend(e, name, works).0, name)
  {
    if e.initialized && name in e.backends {
      var b, slot := e.backends[name], SlotOf(e.slots, name);
      LaunchKeeps(b, name, slot, works);
      var (b', slot', _) := Launch(b, name, slot, works);
      WithKeeps(e, name, b', slot');
    }
  }

  lemma StopKeeps(e: Engine, name: string, works: bool)
    requires Consistent(e)
    ensures var (e', outcome) := StopBackend(e, name, works);
            && Consistent(e') && OnlyTouches(e, e', name)
            && (outcome.Ok? ==> name in e'.backends && e'.backends[name].lifecycle == Stopped && name !in e'.loads
                                && e'.capture != Some(name) && e'.reinjection != Some(name))
  {
    if e.initialized && name in e.backends {
      var b, slot := e.backends[name], SlotOf(e.slots, name);
      HaltKeeps(b, name, slot, works);
      var (b', slot', _) := Halt(b, name, slot, works);
      WithKeeps(e, name, b', slot');
    }
  }

  lemma RestartKeeps(e: Engine, name: string, stops: bool, starts: bool)
    requires Consistent(e)
    ensures var e' := RestartBackend(e, name, stops, starts).0;
            Consistent(e') && OnlyTouches(e, e', name)
  {
    StopKeeps(e, name, stops);
    StartKeeps(StopBackend(e, name, stops).0, name, starts);
    StartKeeps(e, name, starts);
  }

  lemma IsolateKeeps(e: Engine, name: string, works: bool)
    requires Consistent(e)
    ensures var (e', outcome) := Isolate(e, name, works);
            && Consistent(e') && OnlyTouches(e, e', name)
            && (outcome.Ok? ==> name in e'.backends && !e'.backends[name].lifecycle.IsAvailable())
  {
    StopKeeps(e, name, works);
  }

  lemma RegistryKeeps(e: Engine, op: Op)
    requires Consistent(e) && (op.Register? || op.Unregister? || op.Success? || op.Failure?)
    ensures Consistent(e.(backends := Managers.Apply(e.backends, op).0))
  {
    if op.name in e.backends && (op.Success? || op.Failure?) {
      OnBackendKeeps(e.backends[op.name], op);
    }
  }

  lemma FailoverKeeps(e: Engine, route: Route, failed: string, works: bool)
    requires Consistent(e)
    ensures Consistent(Failover(e, route, failed, works).0)
  {
    IsolateKeeps(e, failed, works);
  }

  lemma StepKeeps(e: Engine, call: Call)
    requires Consistent(e)
    ensures Consistent(Step(e, call))
  {
    match call
    case Start(name, starts) => StartKeeps(e, name, starts);
    case Stop(name, stops) => StopKeeps(e, name, stops);
    case Restart(name, stops, starts) => RestartKeeps(e, name, stops, starts);
    case Isolation(name, stops) => IsolateKeeps(e, name, stops);
    case FailoverTo(route, name, stops) => FailoverKeeps(e, route, name, stops);
    case Register(name, capabilities, role) => RegistryKeeps(e, Op.Register(name, capabilities, role));
    case Unregister(name) => RegistryKeeps(e, Op.Unregister(name));
    case Success(name) => RegistryKeeps(e, Op.Success(name));
    case Failure(name, code) => RegistryKeeps(e, Op.Failure(name, code));
    case SetPolicy(policy) =>
  }

  /** In every run, however the foreign calls fail, no backend is left Starting or
      Stopping, and an available built-in backend has its native instance live. */
  lemma {:induction false} EveryRunConsistent(e: Engine, calls: seq<Call>)
    requires IsInitial(e)
    ensures Consistent(Run(e, calls))
  {
    if calls != [] {
      EveryRunConsistent(e, calls[..|calls| - 1]);
      StepKeeps(Run(e, calls[..|calls| - 1]), calls[|calls| - 1]);
    }
  }

  // ---- What start, stop and restart achieve ----

  /** Just brought into service: running, healthy with one success observed, and with a live
      native instance if it is a built-in. */
  ghost predicate InService(e: Engine, name: string) {
    && name in e.backends && e.backends[name].lifecycle == Running && e.backends[name].monitor.health == Healthy
    && e.backends[name].monitor.failures == 0 && e.backends[name].monitor.recoveries == 1
    && (name in {"npcap", "windivert", "wfp", "iphelper", "etw"} ==> name in e.slots && e.slots[name] == Live)
  }

  /** Whether the native part of a start goes through: Npcap's cannot fail, the others need
      their foreign calls, and a live instance is refused by all but ETW. */
  predicate NativeGoes(name: string, slot: Slot, works: bool) {
    match name
    case "npcap" => slot != Live
    case "etw" => slot == Live || works
    case "windivert" => slot != Live && works
    case "wfp" => slot != Live && works
    case "iphelper" => slot != Live && works
    case _ => true
  }

  /** In every consistent state a start succeeds exactly from Disabled, Stopped or Failed with a
      native part that goes through, and then the backend is in service. When only the native
      part fails the backend is Failed; when the call is refused nothing happens. */
  lemma StartExactly(e: Engine, name: string, works: bool)
    requires Consistent(e)
    ensures var (e', outcome) := StartBackend(e, name, works);
            var startable := e.initialized && name in e.backends && e.backends[name].lifecycle in {Disabled, Stopped, Lifecycle.Failed};
            && (outcome.Ok? <==> startable && NativeGoes(name, SlotOf(e.slots, name), works))
            && (outcome.Ok? ==> InService(e', name))
            && (outcome.Err? && startable ==> e'.backends[name].lifecycle == Lifecycle.Failed
                                              && e'.backends[name].monitor.health == Unhealthy)
            && (!startable ==> outcome.Err? && (e.slots.Keys == BUILTINS ==> e' == e))
            && e'.capture == e.capture && e'.reinjection == e.reinjection && e'.loads == e.loads
  {
    if e.initialized && name in e.backends {
      LaunchExactly(e.backends[name], name, SlotOf(e.slots, name), works);
      if e.slots.Keys == BUILTINS {
        NothingMoved(e, name);
      }
    }
  }

  lemma LaunchExactly(b: Backend, name: string, slot: Slot, works: bool)
    requires Agrees(b, name, slot)
    ensures var (b', slot', outcome) := Launch(b, name, slot, works);
            var startable := b.lifecycle in {Disabled, Stopped, Lifecycle.Failed};
            && (outcome.Ok? <==> startable && NativeGoes(name, slot, works))
            && (outcome.Ok? ==> b'.lifecycle == Running && b'.monitor.health == Healthy && (name in BUILTINS ==> slot' == Live)
                                && b'.monitor.failures == 0 && b'.monitor.recoveries == 1)
            && (outcome.Err? && startable ==> b'.lifecycle == Lifecycle.Failed && b'.monitor.health == Unhealthy)
            && (!startable ==> b' == b && slot' == slot)
  {
  }

  /** In every consistent state a stop succeeds exactly from Running or Degraded with a native
      close that works where it can fail, and then the backend is Stopped, its instance idle,
      its work counters forgotten and no route left to it. */
  lemma StopExactly(e: Engine, name: string, works: bool)
    requires Consistent(e)
    ensures var (e', outcome) := StopBackend(e, name, works);
            var stoppable := e.initialized && name in e.backends && e.backends[name].lifecycle in {Running, Lifecycle.Degraded};
            && (outcome.Ok? <==> stoppable && (name == "windivert" || name == "wfp" ==> works))
            && (outcome.Ok? ==>
                  && e'.backends[name].lifecycle == Stopped && name !in e'.loads
                  && (name in {"npcap", "windivert", "wfp", "iphelper", "etw"} ==> e'.slots[name] == Idle)
                  && e'.capture == (if e.capture == Some(name) then None else e.capture)
                  && e'.reinjection == (if e.reinjection == Some(name) then None else e.reinjection))
            && (outcome.Err? ==> e'.capture == e.capture && e'.reinjection == e.reinjection && e'.loads == e.loads)
            && (outcome.Err? && stoppable ==>
                  && e'.backends[name].lifecycle == Lifecycle.Failed && e'.backends[name].monitor.health == Unhealthy
                  && e'.slots[name] == Broken)
            && (!stoppable && e.slots.Keys == BUILTINS ==> e' == e)
  {
    if e.initialized && name in e.backends {
      StopHalts(e.backends[name], name, SlotOf(e.slots, name), works);
      if e.slots.Keys == BUILTINS {
        NothingMoved(e, name);
      }
    }
  }

  lemma StopHalts(b: Backend, name: string, slot: Slot, works: bool)
    requires Agrees(b, name, slot)
    ensures var (b', slot', outcome) := Halt(b, name, slot, works);
            var stoppable := b.lifecycle in {Running, Lifecycle.Degraded};
            && (outcome.Ok? <==> stoppable && (name == "windivert" || name == "wfp" ==> works))
            && (outcome.Ok? ==> b'.lifecycle == Stopped && (name in BUILTINS ==> slot' == Idle))
            && (outcome.Err? && stoppable ==> b'.lifecycle == Lifecycle.Failed && b'.monitor.health == Unhealthy && slot' == Broken)
            && (!stoppable ==> b' == b && slot' == slot)
  {
  }

  /** In every consistent state a restart succeeds exactly when a stop that can fail works and the
      native start goes through on what the stop leaves, or at once where the backend is out of
      service; then the backend is in service, and one that was stopped on the way has lost its
      routes and work counters. */
  lemma RestartExactly(e: Engine, name: string, stops: bool, starts: bool)
    requires Consistent(e)
    ensures var (e', outcome) := RestartBackend(e, name, stops, starts);
            && (outcome.Ok? <==>
                && e.initialized && name in e.backends
                && if e.backends[name].lifecycle in {Running, Lifecycle.Degraded}
                   then (name == "windivert" || name == "wfp" ==> stops) && NativeGoes(name, Idle, starts)
                   else NativeGoes(name, SlotOf(e.slots, name), starts))
            && (outcome.Ok? ==> InService(e', name))
            && (outcome.Ok? && e.backends[name].lifecycle in {Running, Lifecycle.Degraded} ==>
                  && name !in e'.loads && e'.capture != Some(name) && e'.reinjection != Some(name)
                  && (e.capture != Some(name) ==> e'.capture == e.capture)
                  && (e.reinjection != Some(name) ==> e'.reinjection == e.reinjection))
            && (outcome.Err? && e.initialized && name in e.backends ==> e'.backends[name].lifecycle == Lifecycle.Failed)
  {
    if e.initialized && name in e.backends {
      if e.backends[name].lifecycle in {Running, Lifecycle.Degraded} {
        StopExactly(e, name, stops);
        StopKeeps(e, name, stops);
        var (e1, stopped) := StopBackend(e, name, stops);
        if stopped.Ok? {
          StartExactly(e1, name, starts);
          IdleAfterStop(e, name, stops);
        }
      } else {
        StartExactly(e, name, starts);
      }
    }
  }

  /** What a native start finds after a stop that worked. */
  lemma IdleAfterStop(e: Engine, name: string, works: bool)
    requires Consistent(e) && StopBackend(e, name, works).1.Ok?
    ensures forall starts :: NativeGoes(name, SlotOf(StopBackend(e, name, works).0.slots, name), starts) <==> NativeGoes(name, Idle, starts)
  {
    StopExactly(e, name, works);
  }

  /** Isolating a backend out of service changes nothing; one in service it stops. */
  lemma IsolationStops(e: Engine, name: string, works: bool)
    requires Consistent(e) && e.initialized && name in e.backends
    ensures Isolate(e, name, works)
            == if e.backends[name].lifecycle in {Running, Lifecycle.Degraded} then StopBackend(e, name, works) else (e, Ok(()))
  {
  }

  // ---- Failover ----

  lemma SelectPicksCandidate(r: Registry, policy: FailoverPolicy, cursor: U64, candidates: seq<string>)
    ensures Select(r, policy, cursor, candidates).0.Some? <==> candidates != []
    ensures candidates != [] ==> Select(r, policy, cursor, candidates).0.value in candidates
  {
    if candidates != [] {
      var primary := Filter((n: string) => n in r && r[n].role == Primary, candidates);
      assert primary != [] ==> primary[0] in primary;
      var healthy := Filter((n: string) => n in r && r[n].monitor.health == Healthy, candidates);
      assert healthy != [] ==> healthy[0] in healthy;
    }
  }

  /** Isolation touches nothing but the failed backend, and leaves it out of service. */
  lemma IsolateTouches(e: Engine, name: string, works: bool)
    ensures OnlyTouches(e, Isolate(e, name, works).0, name)
    ensures Isolate(e, name, works).1.Ok? ==>
              name in Isolate(e, name, works).0.backends && !Isolate(e, name, works).0.backends[name].lifecycle.IsAvailable()
    ensures Isolate(e, name, works).1.Ok? && e.backends[name].lifecycle.IsAvailable() ==> name !in Isolate(e, name, works).0.loads
  {
    StopTouches(e, name, works);
  }

  lemma StopTouches(e: Engine, name: string, works: bool)
    ensures OnlyTouches(e, StopBackend(e, name, works).0, name)
    ensures StopBackend(e, name, works).1.Ok? ==>
              name in StopBackend(e, name, works).0.backends && StopBackend(e, name, works).0.backends[name].lifecycle == Stopped
    ensures StopBackend(e, name, works).1.Ok? ==> name !in StopBackend(e, name, works).0.loads
  {
    if e.initialized && name in e.backends {
      var (b, slot, outcome) := Halt(e.backends[name], name, SlotOf(e.slots, name), works);
      assert outcome.Ok? ==> b.lifecycle == Stopped;
      assert OnlyTouches(e, With(e, name, b, slot), name);
    }
  }

  /** What a successful failover must have achieved. */
  ghost predicate Switched(e: Engine, e': Engine, route: Route, failed: string, target: string) {
    && target != failed && target in e'.backends && target in e.backends
    && e'.backends[target] == e.backends[target]
    && RouteCapability(route) in e'.backends[target].capabilities
    && e'.backends[target].lifecycle.IsAvailable() && e'.backends[target].monitor.health == Healthy
    && Published(e', route) == Some(target)
    && failed in e.backends && failed in e'.backends && !e'.backends[failed].lifecycle.IsAvailable()
    && (e.backends[failed].lifecycle.IsAvailable() ==> failed !in e'.loads)
  }

  /** In any state, a failover that answers a name has published a different, healthy,
      available backend that declares the capability, and the failed one is out of
      service, its work counters forgotten; with failover disabled it never answers one. In every state a run can
      reach, the backend switched to is Running. */
  lemma FailoverIsSound(e: Engine, route: Route, failed: string, works: bool)
    ensures var (e', outcome) := Failover(e, route, failed, works);
            && (outcome.Ok? ==> Switched(e, e', route, failed, outcome.value))
            && (outcome.Ok? && Consistent(e) ==> e'.backends[outcome.value].lifecycle == Running)
            && (e.policy == NoFailover ==> outcome.Err?)
  {
    IsolateTouches(e, failed, works);
    var (e1, isolated) := Isolate(e, failed, works);
    SelectPicksCandidate(e1.backends, e1.policy, e1.cursor, Candidates(e1.backends, RouteCapability(route), failed));
  }

  /** Isolation takes at most the isolated backend off a route. */
  lemma IsolateRoutes(e: Engine, failed: string, works: bool)
    ensures var e1 := Isolate(e, failed, works).0;
            && (e1.capture == e.capture || (e.capture == Some(failed) && e1.capture == None))
            && (e1.reinjection == e.reinjection || (e.reinjection == Some(failed) && e1.reinjection == None))
  {
  }

  /** Capture failover publishes a backend that declares Capture; the other route only loses
      the failed backend. */
  lemma CaptureFailoverPublishes(e: Engine, failed: string, works: bool, n: string)
    requires Failover(e, CaptureRoute, failed, works).1 == Ok(n)
    ensures var e' := Failover(e, CaptureRoute, failed, works).0;
            && e'.capture == Some(n) && n in e'.backends && Capture in e'.backends[n].capabilities
            && (e'.reinjection == e.reinjection || (e.reinjection == Some(failed) && e'.reinjection == None))
  {
    var e1 := Isolate(e, failed, works).0;
    IsolateRoutes(e, failed, works);
    SelectPicksCandidate(e1.backends, e1.policy, e1.cursor, Candidates(e1.backends, Capture, failed));
  }

  /** Reinjection failover does the same with Reinjection. */
  lemma ReinjectionFailoverPublishes(e: Engine, failed: string, works: bool, n: string)
    requires Failover(e, ReinjectionRoute, failed, works).1 == Ok(n)
    ensures var e' := Failover(e, ReinjectionRoute, failed, works).0;
            && e'.reinjection == Some(n) && n in e'.backends && Reinjection in e'.backends[n].capabilities
            && (e'.capture == e.capture || (e.capture == Some(failed) && e'.capture == None))
  {
    var e1 := Isolate(e, failed, works).0;
    IsolateRoutes(e, failed, works);
    SelectPicksCandidate(e1.backends, e1.policy, e1.cursor, Candidates(e1.backends, Reinjection, failed));
  }

  // ---- What the policies prefer ----

  /** The first name of an ordered list that passes a test comes before every other that does. */
  lemma FirstOfFilter(p: string -> bool, names: seq<string>)
    requires Increasing(names)
    ensures Filter(p, names) != [] <==> exists n :: n in names && p(n)
    ensures Filter(p, names) != [] ==> var first := Filter(p, names)[0];
              first in names && p(first) && forall n | n in names && p(n) :: Le(first, n)
  {
    FilterIncreasing(p, names);
    var kept := Filter(p, names);
    assert (exists n :: n in names && p(n)) ==> exists n :: n in kept;
    if kept != [] {
      assert kept[0] in kept;
      LeTotal(kept[0], kept[0]);
      forall n | n in names && p(n)
        ensures Le(kept[0], n)
      {
        var i :| 0 <= i < |kept| && kept[i] == n;
      }
    }
  }

  /** Passed by the preference, or nobody is; and the first by name among its equals. */
  ghost predicate Preferred(candidates: seq<string>, p: string -> bool, n: string) {
    && n in candidates
    && forall m | m in candidates :: if p(n) then p(m) ==> Le(n, m) else !p(m) && Le(n, m)
  }

  /** Over candidates in name order, PreferPrimary answers a primary backend whenever there is
      one, PreferHealthy a healthy one, and both the first by name among their choices. */
  lemma PolicyPrefers(r: Registry, cursor: U64, candidates: seq<string>)
    requires Increasing(candidates) && candidates != []
    ensures Preferred(candidates, (n: string) => n in r && r[n].role == Primary,
                      Select(r, PreferPrimary, cursor, candidates).0.value)
    ensures Preferred(candidates, (n: string) => n in r && r[n].monitor.health == Healthy,
                      Select(r, PreferHealthy, cursor, candidates).0.value)
    ensures Select(r, NoFailover, cursor, candidates).0.value == candidates[0]
    ensures Select(r, PreferPrimary, cursor, candidates).1 == Select(r, PreferHealthy, cursor, candidates).1 == cursor
  {
    FirstOfFilter((n: string) => n in r && r[n].role == Primary, candidates);
    FirstOfFilter((n: string) => n in r && r[n].monitor.health == Healthy, candidates);
    FirstOfFilter((n: string) => true, candidates);
    LeTotal(candidates[0], candidates[0]);
    assert forall i | 0 <= i < |candidates| :: Le(candidates[0], candidates[i]);
  }

  /** Failover's candidates are who could take over, in name order. */
  lemma CandidatesTakeOver(r: Registry, capability: Capability, failed: string)
    ensures Increasing(Candidates(r, capability, failed))
    ensures forall m :: m in Candidates(r, capability, failed) <==> CanTakeOver(r, m, capability, failed)
  {
    FilterIncreasing((n: string) => n in r && r[n].lifecycle.IsAvailable() && capability in r[n].capabilities
                                    && r[n].monitor.health == Healthy && n != failed,
                     Sorted(r.Keys));
  }

  /** Failover under PreferPrimary goes to a primary backend whenever one could take over, the
      first of them by name. */
  lemma PrimaryTakesOver(e: Engine, capability: Capability, failed: string, n: string, m: string)
    requires e.policy == PreferPrimary && Target(e, capability, failed).0 == Some(n)
    requires CanTakeOver(e.backends, m, capability, failed)
    ensures CanTakeOver(e.backends, n, capability, failed)
    ensures if e.backends[n].role == Primary then e.backends[m].role == Primary ==> Le(n, m)
            else e.backends[m].role != Primary && Le(n, m)
  {
    CandidatesTakeOver(e.backends, capability, failed);
    PolicyPrefers(e.backends, e.cursor, Candidates(e.backends, capability, failed));
  }

  /** Under PreferHealthy it goes to the first by name: all who could take over are healthy. */
  lemma FirstByNameTakesOver(e: Engine, capability: Capability, failed: string, n: string, m: string)
    requires e.policy == PreferHealthy && Target(e, capability, failed).0 == Some(n)
    requires CanTakeOver(e.backends, m, capability, failed)
    ensures CanTakeOver(e.backends, n, capability, failed) && Le(n, m)
  {
    CandidatesTakeOver(e.backends, capability, failed);
    PolicyPrefers(e.backends, e.cursor, Candidates(e.backends, capability, failed));
  }

  /** Who can take over, spelled out. */
  lemma CanTakeOverMeans(r: Registry, n: string, capability: Capability, failed: string)
    ensures CanTakeOver(r, n, capability, failed) <==>
            && n in r && n != failed && capability in r[n].capabilities && r[n].monitor.health == Healthy
            && (r[n].lifecycle == Running || r[n].lifecycle == Lifecycle.Degraded)
  {
  }

  /** A backend that can take over: another one, available and healthy, with the
      capability. Its lifecycle may be Degraded as long as its health is Healthy. */
  predicate CanTakeOver(r: Registry, n: string, capability: Capability, failed: string) {
    && n in r && n != failed && capability in r[n].capabilities
    && r[n].lifecycle.IsAvailable() && r[n].monitor.health == Healthy
  }

  lemma TargetExists(e: Engine, capability: Capability, failed: string)
    requires e.policy != NoFailover
    ensures Target(e, capability, failed).0.Some? <==> exists n :: CanTakeOver(e.backends, n, capability, failed)
  {
    var candidates := Candidates(e.backends, capability, failed);
    assert forall n :: n in candidates <==> CanTakeOver(e.backends, n, capability, failed);
    SelectPicksCandidate(e.backends, e.policy, e.cursor, candidates);
    assert candidates != [] ==> candidates[0] in candidates;
  }

  lemma TakeOverUnchanged(e: Engine, e': Engine, capability: Capability, failed: string)
    requires OnlyTouches(e, e', failed)
    ensures forall n :: CanTakeOver(e.backends, n, capability, failed) <==> CanTakeOver(e'.backends, n, capability, failed)
  {
  }

  /** What isolation needs: a registered backend, and a native close that works where the
      backend is in service and its close can fail. */
  predicate CanIsolate(e: Engine, name: string, works: bool) {
    && e.initialized && name in e.backends
    && (e.backends[name].lifecycle.IsAvailable() && name in {"windivert", "wfp"} ==> works)
  }

  lemma IsolateExactly(e: Engine, name: string, works: bool)
    requires Consistent(e)
    ensures Isolate(e, name, works).1.Ok? <==> CanIsolate(e, name, works)
  {
    if e.initialized && name in e.backends {
      HaltExactly(e.backends[name], name, SlotOf(e.slots, name), works);
    }
  }

  lemma HaltExactly(b: Backend, name: string, slot: Slot, works: bool)
    requires Agrees(b, name, slot)
    ensures Halt(b, name, slot, works).2.Ok? <==> b.lifecycle.IsAvailable() && (name in {"windivert", "wfp"} ==> works)
  {
  }

  /** In every state a run can reach, failover succeeds exactly when it is enabled, the
      failed backend can be isolated and another one could take over before the call. */
  lemma FailoverIsComplete(e: Engine, route: Route, failed: string, works: bool)
    requires Consistent(e)
    ensures Failover(e, route, failed, works).1.Ok? <==>
            && e.policy != NoFailover && CanIsolate(e, failed, works)
            && exists n :: CanTakeOver(e.backends, n, RouteCapability(route), failed)
  {
    IsolateExactly(e, failed, works);
    FailoverOnceIsolated(e, route, failed, works);
    FailoverIsSound(e, route, failed, works);
  }

  /** In any state at all, once the failed backend is isolated the rest of failover
      succeeds exactly when some other backend could take over before the call. */
  lemma FailoverOnceIsolated(e: Engine, route: Route, failed: string, works: bool)
    ensures e.policy != NoFailover && Isolate(e, failed, works).1.Ok? ==>
              (Failover(e, route, failed, works).1.Ok? <==>
               exists n :: CanTakeOver(e.backends, n, RouteCapability(route), failed))
  {
    IsolateTouches(e, failed, works);
    var e1 := Isolate(e, failed, works).0;
    if e.policy != NoFailover {
      TargetExists(e1, RouteCapability(route), failed);
      TakeOverUnchanged(e, e1, RouteCapability(route), failed);
    }
  }

  /** A backend with a Degraded lifecycle is a candidate exactly when its health is Healthy. */
  lemma DegradedIsCandidateExactly(r: Registry, n: string, capability: Capability, failed: string)
    requires n in r && r[n].lifecycle == Lifecycle.Degraded && capability in r[n].capabilities && n != failed
    ensures n in Candidates(r, capability, failed) <==> r[n].monitor.health == Healthy
  {
  }

  lemma SetDegraded(n: string, capabilities: set<Capability>, role: Role)
    requires !IsBlank(n)
    ensures var r := Managers.Run(map[], [Op.Register(n, capabilities, role), Op.Start(n),
                                          Op.SetLifecycle(n, Running), Op.SetLifecycle(n, Lifecycle.Degraded)]);
            && r.Keys == {n} && r[n].lifecycle == Lifecycle.Degraded
            && r[n].monitor.health == Healthy && r[n].capabilities == capabilities
  {
    var ops := [Op.Register(n, capabilities, role), Op.Start(n),
                Op.SetLifecycle(n, Running), Op.SetLifecycle(n, Lifecycle.Degraded)];
    assert ops[..1] == [ops[0]] && ops[..1][..0] == [];
    assert Managers.Run(map[], ops[..1][..0]) == map[];
    var r1 := Managers.Run(map[], ops[..1]);
    assert r1.Keys == {n} && r1[n] == NewBackend(capabilities, role);
    assert ops[..2][..1] == ops[..1] && ops[..3][..2] == ops[..2] && ops[..4][..3] == ops[..3] && ops[..4] == ops;
    var r2 := Managers.Run(map[], ops[..2]);
    assert r2.Keys == {n} && r2[n].lifecycle == Starting;
    var r3 := Managers.Run(map[], ops[..3]);
    assert r3.Keys == {n} && r3[n].lifecycle == Running && r3[n].monitor.health == Healthy;
  }

  /** Setting the lifecycle of a running backend to Degraded from outside the engine
      brings that about: health is left alone, and failover answers the backend. */
  lemma DegradedTakesOver(e: Engine, n: string, capabilities: set<Capability>, role: Role, capability: Capability, failed: string)
    requires !IsBlank(n) && n != failed && capability in capabilities && e.policy != NoFailover
    requires e.backends == Managers.Run(map[], [Op.Register(n, capabilities, role), Op.Start(n),
                                                Op.SetLifecycle(n, Running), Op.SetLifecycle(n, Lifecycle.Degraded)])
    ensures n in e.backends && e.backends[n].lifecycle == Lifecycle.Degraded
    ensures Target(e, capability, failed).0 == Some(n)
  {
    SetDegraded(n, capabilities, role);
    var candidates := Candidates(e.backends, capability, failed);
    assert n in candidates;
    SelectPicksCandidate(e.backends, e.policy, e.cursor, candidates);
  }

  // ---- When a failed backend can be restarted ----

  /** Out of service while its native instance is still live. */
  predicate Orphaned(e: Engine, name: string) {
    && name in BUILTINS && name != "etw"
    && SlotOf(e.slots, name) == Live
    && (name in e.backends ==> !e.backends[name].lifecycle.IsAvailable())
  }

  /** With every foreign call working, a start succeeds exactly when the lifecycle
      allows it and no live native instance was left behind. */
  lemma StartSucceedsExactly(e: Engine, name: string)
    requires Consistent(e) && e.initialized && name in e.backends
    ensures StartBackend(e, name, true).1.Ok? <==> e.backends[name].lifecycle.CanStart() && !Orphaned(e, name)
  {
  }

  /** A full threshold of reported failures takes a running built-in out of
      service and leaves its native instance live. */
  lemma FailuresOrphan(e: Engine, name: string, codes: (Option<int>, Option<int>, Option<int>))
    requires Consistent(e) && name in e.backends && e.backends[name].lifecycle == Running
    requires name in BUILTINS && name != "etw"
    ensures Orphaned(Run(e, [Call.Failure(name, codes.0), Call.Failure(name, codes.1), Call.Failure(name, codes.2)]), name)
  {
    var calls := [Call.Failure(name, codes.0), Call.Failure(name, codes.1), Call.Failure(name, codes.2)];
    assert calls[..2] == [Call.Failure(name, codes.0), Call.Failure(name, codes.1)];
    assert calls[..2][..1] == [Call.Failure(name, codes.0)];
    assert calls[..2][..1][..0] == [];
    var e1 := Step(e, calls[0]);
    assert e1.backends[name].lifecycle == Lifecycle.Degraded && e1.backends[name].monitor.failures == 1;
    var e2 := Step(e1, calls[1]);
    assert e2.backends[name].lifecycle == Lifecycle.Degraded && e2.backends[name].monitor.failures == 2;
    var e3 := Step(e2, calls[2]);
    assert e3.backends[name].lifecycle == Lifecycle.Failed;
    assert Run(e, calls[..2][..1]) == e1;
    assert Run(e, calls[..2]) == e2;
  }

  lemma OrphanUntouched(e: Engine, e': Engine, touched: string, name: string)
    requires Orphaned(e, name) && OnlyTouches(e, e', touched) && touched != name
    ensures Orphaned(e', name)
  {
  }

  /** The native start refuses a live instance, so the backend ends in Failed. */
  lemma StartKeepsOrphan(e: Engine, n: string, works: bool, name: string)
    requires Consistent(e) && Orphaned(e, name)
    ensures Orphaned(StartBackend(e, n, works).0, name)
  {
    StartKeeps(e, n, works);
    if n != name {
      OrphanUntouched(e, StartBackend(e, n, works).0, n, name);
    } else if e.initialized && n in e.backends {
      LaunchKeeps(e.backends[n], n, SlotOf(e.slots, n), works);
    }
  }

  /** Nothing out of service is stopped, so the live instance stays. */
  lemma StopKeepsOrphan(e: Engine, n: string, works: bool, name: string)
    requires Consistent(e) && Orphaned(e, name)
    ensures Orphaned(StopBackend(e, n, works).0, name)
  {
    StopKeeps(e, n, works);
    if n != name {
      OrphanUntouched(e, StopBackend(e, n, works).0, n, name);
    } else if e.initialized && n in e.backends {
      HaltKeeps(e.backends[n], n, SlotOf(e.slots, n), works);
    }
  }

  lemma RestartKeepsOrphan(e: Engine, n: string, stops: bool, starts: bool, name: string)
    requires Consistent(e) && Orphaned(e, name)
    ensures Orphaned(RestartBackend(e, n, stops, starts).0, name)
  {
    StopKeeps(e, n, stops);
    StopKeepsOrphan(e, n, stops, name);
    StartKeepsOrphan(e, n, starts, name);
    StartKeepsOrphan(StopBackend(e, n, stops).0, n, starts, name);
  }

  lemma IsolateKeepsOrphan(e: Engine, n: string, stops: bool, name: string)
    requires Consistent(e) && Orphaned(e, name)
    ensures Orphaned(Isolate(e, n, stops).0, name)
  {
    StopKeepsOrphan(e, n, stops, name);
  }

  lemma RegistryKeepsOrphan(e: Engine, op: Op, name: string)
    requires Consistent(e) && Orphaned(e, name)
    requires op.Register? || op.Unregister? || op.Success? || op.Failure?
    ensures Orphaned(e.(backends := Managers.Apply(e.backends, op).0), name)
  {
  }

  lemma StepKeepsOrphan(e: Engine, call: Call, name: string)
    requires Consistent(e) && Orphaned(e, name)
    ensures Orphaned(Step(e, call), name)
  {
    match call
    case Start(n, starts) => StartKeepsOrphan(e, n, starts, name);
    case Stop(n, stops) => StopKeepsOrphan(e, n, stops, name);
    case Restart(n, stops, starts) => RestartKeepsOrphan(e, n, stops, starts, name);
    case Isolation(n, stops) => IsolateKeepsOrphan(e, n, stops, name);
    case FailoverTo(route, n, stops) => IsolateKeepsOrphan(e, n, stops, name);
    case Register(n, capabilities, role) => RegistryKeepsOrphan(e, Op.Register(n, capabilities, role), name);
    case Unregister(n) => RegistryKeepsOrphan(e, Op.Unregister(n), name);
    case Success(n) => RegistryKeepsOrphan(e, Op.Success(n), name);
    case Failure(n, code) => RegistryKeepsOrphan(e, Op.Failure(n, code), name);
    case SetPolicy(policy) =>
  }

  /** No sequence of calls brings such a backend back: not stop, restart,
      isolation, failover, observations, nor registering it anew. */
  lemma {:induction false} OrphanStaysDown(e: Engine, calls: seq<Call>, name: string)
    requires Consistent(e) && Orphaned(e, name)
    ensures Consistent(Run(e, calls)) && Orphaned(Run(e, calls), name)
  {
    if calls != [] {
      OrphanStaysDown(e, calls[..|calls| - 1], name);
      StepKeeps(Run(e, calls[..|calls| - 1]), calls[|calls| - 1]);
      StepKeepsOrphan(Run(e, calls[..|calls| - 1]), calls[|calls| - 1], name);
    }
  }

  /** The IP Helper backend can never be started through the engine, because
      initialisation has already started the instance in its slot. */
  lemma IpHelperNeverRuns(e: Engine, calls: seq<Call>)
    requires IsInitial(e)
    ensures var e' := Run(e, calls);
            "iphelper" in e'.backends ==> !e'.backends["iphelper"].lifecycle.IsAvailable()
  {
    OrphanStaysDown(e, calls, "iphelper");
  }
}

/** The engine object, stepping manager, native slots and routes in the source's order. */
module EngineObjects {
  import opened Options
  import opened Lifecycles
  import opened Managers
  import opened Natives
  import opened LoadBalancing
  import Engines
  import Selection

  class EngineRuntime {
    const manager: BackendManager
    const balancer: LoadBalancer
    var initialized: bool
    var slots: map<string, Slot>
    var capture: Option<string>
    var reinjection: Option<string>

    /** One slot per built-in backend, occupied or not. */
    ghost predicate Valid()
      reads this
    {
      slots.Keys == BUILTINS
    }

    ghost function Value(): Engines.Engine
      reads this, manager, balancer
    {
      Engines.Engine(initialized, manager.backends, manager.policy, manager.cursor, slots, balancer.counters, capture, reinjection)
    }

    constructor (manager: BackendManager, balancer: LoadBalancer)
      ensures Valid() && this.manager == manager && this.balancer == balancer && !initialized
    {
      this.manager, this.balancer := manager, balancer;
      initialized := false;
      slots := map["npcap" := Empty, "windivert" := Empty, "wfp" := Empty, "iphelper" := Empty, "etw" := Empty];
      capture, reinjection := None, None;
    }

    /** The native part of a start, on the slot of a built-in backend. */
    method StartNative(name: string, works: bool) returns (ok: bool)
      requires Valid()
      modifies `slots
      ensures Valid()
      ensures (slots, ok) == Engines.NativeStart(old(slots), name, works)
    {
      ok := true;
      if name in BUILTINS {
        var (slot, started) := StartSlot(name, slots[name], works);
        slots := slots[name := slot];
        ok := started;
      }
    }

    method StopNative(name: string, works: bool) returns (ok: bool)
      requires Valid()
      modifies `slots
      ensures Valid()
      ensures (slots, ok) == Engines.NativeStop(old(slots), name, works)
    {
      ok := true;
      if name in BUILTINS {
        var (slot, stopped) := StopSlot(name, slots[name], works);
        slots := slots[name := slot];
        ok := stopped;
      }
    }

    method Start(name: string, works: bool) returns (outcome: Outcome<()>)
      requires Valid()
      modifies this, manager
      ensures Valid() && (Value(), outcome) == Engines.StartBackend(old(Value()), name, works)
    {
      if !initialized {
        return Err(NotInitialized);
      }
      Engines.StartInSteps(Value(), name, works);
      var begun := manager.Start(name);
      if begun.Err? {
        return begun;
      }
      var started := StartNative(name, works);
      if !started {
        var _ := manager.SetLifecycle(name, Lifecycle.Failed);
        return Err(NativeFailed);
      }
      var running := manager.SetLifecycle(name, Running);
      if running.Err? {
        return running;
      }
      var _ := manager.RecordSuccess(name);
      return Ok(());
    }

    method Stop(name: string, works: bool) returns (outcome: Outcome<()>)
      requires Valid()
      modifies this, manager, balancer`counters
      ensures Valid() && (Value(), outcome) == Engines.StopBackend(old(Value()), name, works)
    {
      if !initialized {
        return Err(NotInitialized);
      }
      Engines.StopInSteps(Value(), name, works);
      var begun := manager.Stop(name);
      if begun.Err? {
        return begun;
      }
      var halted := StopNative(name, works);
      if !halted {
        var _ := manager.SetLifecycle(name, Lifecycle.Failed);
        return Err(NativeFailed);
      }
      var stopped := manager.SetLifecycle(name, Stopped);
      if stopped.Err? {
        return stopped;
      }
      balancer.Forget(name);
      ClearRoutes(name);
      return Ok(());
    }

    /** A stopped backend is no longer the published route. */
    method ClearRoutes(name: string)
      modifies `capture, `reinjection
      ensures capture == if old(capture) == Some(name) then None else old(capture)
      ensures reinjection == if old(reinjection) == Some(name) then None else old(reinjection)
    {
      if capture == Some(name) {
        capture := None;
      }
      if reinjection == Some(name) {
        reinjection := None;
      }
    }

    method Restart(name: string, stops: bool, starts: bool) returns (outcome: Outcome<()>)
      requires Valid()
      modifies this, manager, balancer`counters
      ensures Valid() && (Value(), outcome) == Engines.RestartBackend(old(Value()), name, stops, starts)
    {
      if !initialized {
        return Err(NotInitialized);
      }
      if name !in manager.backends {
        return Err(BackendNotFound);
      }
      match manager.backends[name].lifecycle {
        case Running | Degraded =>
          outcome := Stop(name, stops);
          if outcome.Ok? {
            outcome := Start(name, starts);
          }
        case Failed | Stopped | Disabled =>
          outcome := Start(name, starts);
        case Starting | Stopping =>
          outcome := Err(ConcurrentOperation);
      }
    }

    method IsolateFailed(name: string, works: bool) returns (outcome: Outcome<()>)
      requires Valid()
      modifies this, manager, balancer`counters
      ensures Valid() && (Value(), outcome) == Engines.Isolate(old(Value()), name, works)
    {
      if !initialized {
        return Err(NotInitialized);
      }
      if name !in manager.backends {
        return Err(BackendNotFound);
      }
      match manager.backends[name].lifecycle {
        case Running | Degraded =>
          outcome := Stop(name, works);
        case Failed | Stopped | Disabled =>
          outcome := Ok(());
        case Starting | Stopping =>
          outcome := Err(ConcurrentOperation);
      }
    }

    method FailoverRoute(route: Engines.Route, failed: string, works: bool) returns (outcome: Outcome<string>)
      requires Valid()
      modifies this, manager, balancer`counters
      ensures Valid() && (Value(), outcome) == Engines.Failover(old(Value()), route, failed, works)
    {
      var isolated := IsolateFailed(failed, works);
      if isolated.Err? {
        return Err(isolated.error);
      }
      var target: Option<string> := None;
      if manager.policy != NoFailover {
        var candidates := Selection.FailoverCandidates(manager.backends, Engines.RouteCapability(route), failed);
        var (picked, cursor) := Engines.Select(manager.backends, manager.policy, manager.cursor, candidates);
        manager.cursor := cursor;
        target := picked;
      }
      if target.None? {
        return Err(CapabilityUnavailable);
      }
      if route.CaptureRoute? {
        capture := target;
      } else {
        reinjection := target;
      }
      return Ok(target.value);
    }
  }
}
