/** The load balancer: placing work by capability and load, and the reports
    that keep the load counters. */
module LoadBalancing {
  import opened Options
  import opened Saturating
  import opened Capabilities
  import opened Managers
  import opened InFlight
  import Planning

  datatype WorkKind =
    | L2Observation | L3Capture | FilterWork | ModifyWork | ReinjectWork | Metadata | FlowInfo | NetworkState | DiagnosticWork

  function PrimaryCapability(kind: WorkKind): Capability {
    match kind
    case L2Observation => L2Capture
    case L3Capture => Capture
    case FilterWork => Filtering
    case ModifyWork => Modification
    case ReinjectWork => Reinjection
    case Metadata => WfpFlows
    case FlowInfo => WfpFlows
    case NetworkState => InterfaceInfo
    case DiagnosticWork => Diagnostics
  }

  function FallbackCapability(kind: WorkKind): Option<Capability> {
    match kind
    case L2Observation => Some(Capture)
    case L3Capture => Some(L2Capture)
    case FilterWork => Some(Capability.Drop)
    case ModifyWork => None
    case ReinjectWork => None
    case Metadata => Some(WfpFlows)
    case FlowInfo => None
    case NetworkState => Some(NeighborInfo)
    case DiagnosticWork => None
  }

  /** Which work goes where: the capability asked for first, and the one asked for next. */
  lemma WorkByCapability(kind: WorkKind)
    ensures PrimaryCapability(kind) == L2Capture <==> kind == L2Observation
    ensures PrimaryCapability(kind) == Capture <==> kind == L3Capture
    ensures PrimaryCapability(kind) == Filtering <==> kind == FilterWork
    ensures PrimaryCapability(kind) == Modification <==> kind == ModifyWork
    ensures PrimaryCapability(kind) == Reinjection <==> kind == ReinjectWork
    ensures PrimaryCapability(kind) == WfpFlows <==> kind == Metadata || kind == FlowInfo
    ensures PrimaryCapability(kind) == InterfaceInfo <==> kind == NetworkState
    ensures PrimaryCapability(kind) == Diagnostics <==> kind == DiagnosticWork
    ensures FallbackCapability(kind) == Some(Capture) <==> kind == L2Observation
    ensures FallbackCapability(kind) == Some(L2Capture) <==> kind == L3Capture
    ensures FallbackCapability(kind) == Some(Capability.Drop) <==> kind == FilterWork
    ensures FallbackCapability(kind) == Some(WfpFlows) <==> kind == Metadata
    ensures FallbackCapability(kind) == Some(NeighborInfo) <==> kind == NetworkState
    ensures FallbackCapability(kind) == None <==> kind in {ModifyWork, ReinjectWork, FlowInfo, DiagnosticWork}
  {
  }

  datatype LoadDecision = LoadDecision(backend: Option<string>, capability: Capability, usedFallback: bool)

  function InFlightOf(counters: map<string, Load>): Planning.Loads {
    map n | n in counters :: counters[n].inFlight
  }

  /** What one uninterrupted finish report leaves in the counters of its backend. */
  function Finish(l: Load, ending: Ending): Load {
    Counted(l.(inFlight := if l.inFlight == 0 then 0 else l.inFlight - 1), ending)
  }

  class LoadBalancer {
    const manager: BackendManager
    var counters: map<string, Load>
    var decisions: U64
    var fallbackDecisions: U64
    var unroutedDecisions: U64
    var reported: Load

    constructor (manager: BackendManager)
      ensures this.manager == manager && counters == map[] && reported == IDLE
      ensures decisions == fallbackDecisions == unroutedDecisions == 0
    {
      this.manager := manager;
      counters, reported := map[], IDLE;
      decisions, fallbackDecisions, unroutedDecisions := 0, 0, 0;
    }

    /** Work goes to the least loaded operational declarer of the primary capability,
        else of the fallback capability; it stays unrouted only if neither has one. */
    method Select(kind: WorkKind) returns (decision: LoadDecision)
      modifies `decisions, `fallbackDecisions, `unroutedDecisions
      ensures Planning.IsPick(manager.backends, InFlightOf(counters), decision.capability, decision.backend)
      ensures decision.usedFallback <==>
              && !Planning.SomeoneOperational(manager.backends, PrimaryCapability(kind))
              && FallbackCapability(kind).Some?
              && Planning.SomeoneOperational(manager.backends, FallbackCapability(kind).value)
      ensures decision.capability == if decision.usedFallback then FallbackCapability(kind).value else PrimaryCapability(kind)
      ensures decisions == Inc(old(decisions))
      ensures fallbackDecisions == if decision.usedFallback then Inc(old(fallbackDecisions)) else old(fallbackDecisions)
      ensures unroutedDecisions == if decision.backend.None? then Inc(old(unroutedDecisions)) else old(unroutedDecisions)
    {
      var primary := PrimaryCapability(kind);
      var fallback := FallbackCapability(kind);
      var loads := InFlightOf(counters);
      var picked := Planning.PickBackend(manager.backends, loads, primary);
      if picked.Some? {
        decisions := Inc(decisions);
        return LoadDecision(picked, primary, false);
      }
      if fallback.Some? {
        var second := Planning.PickBackend(manager.backends, loads, fallback.value);
        if second.Some? {
          decisions := Inc(decisions);
          fallbackDecisions := Inc(fallbackDecisions);
          return LoadDecision(second, fallback.value, true);
        }
      }
      decisions := Inc(decisions);
      unroutedDecisions := Inc(unroutedDecisions);
      return LoadDecision(None, primary, false);
    }

    method EnsureCounters(backend: string)
      modifies `counters
      ensures counters == Ensured(old(counters), backend)
    {
      if backend !in counters {
        counters := counters[backend := IDLE];
      }
      assert counters == Ensured(old(counters), backend);
    }

    method ReportStarted(backend: string)
      modifies `counters
      ensures var l := LoadOf(old(counters), backend);
              counters == old(counters)[backend := l.(inFlight := Inc(l.inFlight))]
    {
      EnsureCounters(backend);
      var l := counters[backend];
      counters := counters[backend := l.(inFlight := Inc(l.inFlight))];
    }

    /** `report_completed`, `report_saturated` and `report_failed` without interference. */
    method ReportFinished(backend: string, ending: Ending)
      modifies `counters, `reported
      ensures counters == old(counters)[backend := Finish(LoadOf(old(counters), backend), ending)]
      ensures reported == Counted(old(reported), ending)
    {
      reported := Counted(reported, ending);
      EnsureCounters(backend);
      var l := counters[backend];
      var amount: U64 := if l.inFlight < 1 then l.inFlight else 1;
      counters := counters[backend := l.(inFlight := Minus(l.inFlight, amount))];
      l := counters[backend];
      counters := counters[backend := Counted(l, ending)];
      assert counters == old(counters)[backend := Finish(LoadOf(old(counters), backend), ending)];
    }

    method Forget(backend: string)
      modifies `counters
      ensures counters == old(counters) - {backend}
    {
      counters := counters - {backend};
    }
  }

  /** `who` alone takes `k` steps. */
  function Alone(who: nat, k: nat): seq<Move> {
    seq(k, _ => Act(who))
  }

  lemma OneMoreStep(workers: seq<Worker>, s: System, who: nat, k: nat)
    requires |s.pcs| == |workers| && k > 0
    ensures InFlight.Run(workers, s, Alone(who, k)) == InFlight.Step(workers, InFlight.Run(workers, s, Alone(who, k - 1)), who)
  {
    assert Alone(who, k)[..k - 1] == Alone(who, k - 1);
  }

  lemma UndisturbedEnsure(workers: seq<Worker>, s: System, who: nat)
    requires |s.pcs| == |workers| && who < |workers| && s.pcs[who] == Announce
    ensures InFlight.Run(workers, s, Alone(who, 2))
            == System(Ensured(s.loads, workers[who].backend), Counted(s.reported, workers[who].ending), s.pcs[who := LoadInFlight])
  {
    assert InFlight.Run(workers, s, Alone(who, 0)) == s;
    OneMoreStep(workers, s, who, 1);
    OneMoreStep(workers, s, who, 2);
  }

  /** Load, subtraction and count, one after the other. */
  lemma UndisturbedUpdate(workers: seq<Worker>, s: System, who: nat)
    requires |s.pcs| == |workers| && who < |workers| && s.pcs[who] == LoadInFlight && workers[who].backend in s.loads
    ensures var b := workers[who].backend;
            var s' := InFlight.Step(workers, InFlight.Step(workers, InFlight.Step(workers, s, who), who), who);
            && s'.loads == s.loads[b := Finish(s.loads[b], workers[who].ending)]
            && s'.reported == s.reported && s'.pcs[who].Done?
  {
    var l := s.loads[workers[who].backend];
    var amount: U64 := if l.inFlight < 1 then l.inFlight else 1;
    var s1 := InFlight.Step(workers, s, who);
    assert s1.loads == s.loads && s1.pcs[who] == Subtract(amount);
    var s2 := InFlight.Step(workers, s1, who);
    assert s2.loads == s.loads[workers[who].backend := l.(inFlight := l.inFlight - amount)] && s2.pcs[who] == Count(amount);
  }

  /** A worker left alone takes five steps from its announcement, and they leave
      exactly what the uninterrupted report leaves. */
  lemma UndisturbedFinish(workers: seq<Worker>, s: System, who: nat)
    requires |s.pcs| == |workers| && who < |workers| && s.pcs[who] == Announce
    ensures var s' := InFlight.Run(workers, s, Alone(who, 5));
            && s'.loads == s.loads[workers[who].backend := Finish(LoadOf(s.loads, workers[who].backend), workers[who].ending)]
            && s'.reported == Counted(s.reported, workers[who].ending)
            && s'.pcs[who].Done?
  {
    UndisturbedEnsure(workers, s, who);
    UndisturbedUpdate(workers, InFlight.Run(workers, s, Alone(who, 2)), who);
    OneMoreStep(workers, s, who, 3);
    OneMoreStep(workers, s, who, 4);
    OneMoreStep(workers, s, who, 5);
  }

  // ---- Greedy placement balances ----

  /** No two operational declarers of the capability are more than one item apart. */
  ghost predicate Even(r: Registry, c: Capability, loads: Planning.Loads) {
    forall a, b :: Planning.Declares(r, a, c) && Planning.Operational(r, a) && Planning.Declares(r, b, c) && Planning.Operational(r, b)
      ==> Planning.LoadOf(loads, a) <= Planning.LoadOf(loads, b) + 1
  }

  function Placed(loads: Planning.Loads, backend: string): Planning.Loads {
    loads[backend := Planning.LoadOf(loads, backend) + 1]
  }

  /** Loads after starting the picked items one after the other. */
  function PlacedAll(loads: Planning.Loads, picks: seq<string>): Planning.Loads {
    if picks == [] then loads else Placed(PlacedAll(loads, picks[..|picks| - 1]), picks[|picks| - 1])
  }

  /** Every pick is what the balancer answers on the loads of its moment. */
  ghost predicate Picked(r: Registry, c: Capability, loads: Planning.Loads, picks: seq<string>) {
    forall k | 0 <= k < |picks| :: Planning.IsPick(r, PlacedAll(loads, picks[..k]), c, Some(picks[k]))
  }

  /** However many items are placed before any finishes, an even load stays even: no
      operational backend idles while another holds two. */
  lemma {:induction false} PlacementStaysEven(r: Registry, c: Capability, loads: Planning.Loads, picks: seq<string>)
    requires Even(r, c, loads) && Picked(r, c, loads, picks)
    ensures Even(r, c, PlacedAll(loads, picks))
  {
    if picks != [] {
      var n := |picks| - 1;
      forall k | 0 <= k < n
        ensures Planning.IsPick(r, PlacedAll(loads, picks[..n][..k]), c, Some(picks[..n][k]))
      {
        assert picks[..n][..k] == picks[..k];
      }
      PlacementStaysEven(r, c, loads, picks[..n]);
      assert Planning.IsPick(r, PlacedAll(loads, picks[..n]), c, Some(picks[n]));
    }
  }
}
