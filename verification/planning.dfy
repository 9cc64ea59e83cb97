/** Who covers a capability: the coverage report, the load balancer's pick and
    the coordinator's plan, all over the same registry. */
module Planning {
  import opened Options
  import opened Ordering
  import opened Capabilities
  import opened Lifecycles
  import opened Health
  import opened Managers

  /** In-flight work per backend; an unknown backend counts as idle. */
  type Loads = map<string, nat>

  function LoadOf(loads: Loads, name: string): nat {
    if name in loads then loads[name] else 0
  }

  /** Fit to be given work: available, and not unhealthy. */
  predicate Operational(r: Registry, name: string) {
    name in r && r[name].lifecycle.IsAvailable() && r[name].monitor.health != Unhealthy
  }

  predicate Declares(r: Registry, name: string, c: Capability) {
    name in r && c in r[name].capabilities
  }

  // ---- The intended layout ----

  function PrimaryNames(c: Capability): set<string> {
    match c
    case Capture | L2Capture | RawEthernet | AdapterEnumeration => {"npcap"}
    case Ipv4 | Ipv6 | Tcp | Udp | Icmp | IcmpV6 | NetworkLayer | AddressMetadata
       | Interception | Filtering | Inspection | Direction
       | Modification | Pass | Drop | Reinjection
       | QueueControl | HandleLifetime | ErrorReporting => {"windivert"}
    case WfpEngineAccess | WfpFilters | WfpLayers | WfpFlows => {"wfp"}
    case InterfaceInfo | RouteInfo | NeighborInfo | GatewayInfo => {"iphelper"}
    case Diagnostics | Telemetry => {"etw"}
    case Forwarding | NatState => {}
  }

  function FallbackNames(c: Capability): set<string> {
    match c
    case Capture | L2Capture | RawEthernet => {"windivert"}
    case Ipv4 | Ipv6 | Tcp | Udp | Icmp | IcmpV6 => {"npcap"}
    case Filtering | Pass | Drop => {"wfp"}
    case NeighborInfo => {"npcap"}
    case _ => {}
  }

  // ---- The coverage report ----

  datatype Status = Available | Degraded | Unavailable | Lost {
    predicate IsUsable() {
      this == Available || this == Status.Degraded
    }
  }

  datatype Coverage = Coverage(status: Status, active: Option<string>, primary: seq<string>, fallbacks: seq<string>)

  function FirstOperational(r: Registry, names: seq<string>): Option<string> {
    if names == [] then None else if Operational(r, names[0]) then Some(names[0]) else FirstOperational(r, names[1..])
  }

  /** The two lists partition the declaring backends, each in name order. */
  ghost predicate IsLayout(r: Registry, c: Capability, intended: set<string>, primary: seq<string>, fallbacks: seq<string>) {
    && Increasing(primary) && Increasing(fallbacks)
    && (forall n :: n in primary <==> Declares(r, n, c) && n in intended)
    && (forall n :: n in fallbacks <==> Declares(r, n, c) && n !in intended)
  }

  /** The first operational name of a list, if it has one. */
  ghost predicate IsActive(r: Registry, names: seq<string>, active: Option<string>) {
    && (active.None? <==> forall n | n in names :: !Operational(r, n))
    && (active.Some? ==> active.value in names && Operational(r, active.value)
                         && forall n | n in names && Operational(r, n) :: Le(active.value, n))
  }

  ghost predicate SomeoneDeclares(r: Registry, c: Capability) {
    exists n :: Declares(r, n, c)
  }

  ghost predicate SomeoneOperational(r: Registry, c: Capability) {
    exists n :: Declares(r, n, c) && Operational(r, n)
  }

  /** What a coverage report must say, without saying how it is computed. */
  ghost predicate IsReport(r: Registry, c: Capability, report: Coverage) {
    && IsLayout(r, c, PrimaryNames(c), report.primary, report.fallbacks)
    && IsActive(r, if report.status == Available then report.primary else report.fallbacks, report.active)
    && (report.status == Available <==> exists n :: n in report.primary && Operational(r, n))
    && (report.status.IsUsable() <==> SomeoneOperational(r, c))
    && (report.status == Unavailable <==> !SomeoneDeclares(r, c))
    && (report.active.Some? <==> report.status.IsUsable())
  }

  /** One pass over the registered names. They come in order, so both vectors come
      out sorted and the source's final sort leaves them alone. */
  method Classify(r: Registry, c: Capability, intended: set<string>, fallback: set<string>)
    returns (primary: seq<string>, fallbacks: seq<string>)
    ensures IsLayout(r, c, intended, primary, fallbacks)
  {
    primary, fallbacks := [], [];
    var names := Sorted(r.Keys);
    for i := 0 to |names|
      invariant Classified(r, c, intended, names[..i], primary, fallbacks)
    {
      var name := names[i];
      assert name in names;
      ClassifiedGrows(r, c, intended, names, i, primary, fallbacks);
      if c in r[name].capabilities {
        if name in intended {
          primary := primary + [name];
        } else if name in fallback {
          fallbacks := fallbacks + [name];
        } else {
          // Declared but not in the layout: a fallback, not silently a primary.
          fallbacks := fallbacks + [name];
        }
      }
    }
    assert names[..|names|] == names;
    AllClassified(r, c, intended, names, primary, fallbacks);
  }

  /** The two lists hold the declarers seen so far. */
  ghost predicate Classified(r: Registry, c: Capability, intended: set<string>, seen: seq<string>, primary: seq<string>, fallbacks: seq<string>) {
    && Kept(seen, (n: string) => Declares(r, n, c) && n in intended, primary)
    && Kept(seen, (n: string) => Declares(r, n, c) && n !in intended, fallbacks)
  }

  lemma ClassifiedGrows(r: Registry, c: Capability, intended: set<string>, names: seq<string>, i: nat, primary: seq<string>, fallbacks: seq<string>)
    requires i < |names| && Increasing(names) && Classified(r, c, intended, names[..i], primary, fallbacks)
    ensures Classified(r, c, intended, names[..i + 1],
                       if Declares(r, names[i], c) && names[i] in intended then primary + [names[i]] else primary,
                       if Declares(r, names[i], c) && names[i] !in intended then fallbacks + [names[i]] else fallbacks)
  {
    KeptGrows(names, i, (n: string) => Declares(r, n, c) && n in intended, primary);
    KeptGrows(names, i, (n: string) => Declares(r, n, c) && n !in intended, fallbacks);
  }

  lemma AllClassified(r: Registry, c: Capability, intended: set<string>, names: seq<string>, primary: seq<string>, fallbacks: seq<string>)
    requires (forall n :: n in names <==> n in r) && Classified(r, c, intended, names, primary, fallbacks)
    ensures IsLayout(r, c, intended, primary, fallbacks)
  {
  }

  lemma {:induction false} FirstOperationalIsActive(r: Registry, names: seq<string>)
    requires Increasing(names)
    ensures IsActive(r, names, FirstOperational(r, names))
  {
    if names != [] {
      FirstOperationalIsActive(r, names[1..]);
      LeTotal(names[0], names[0]);
      assert forall n | n in names :: n == names[0] || n in names[1..];
    }
  }

  method SelectWithFallback(r: Registry, c: Capability) returns (report: Coverage)
    ensures IsReport(r, c, report)
  {
    var primary, fallbacks := Classify(r, c, PrimaryNames(c), FallbackNames(c));
    var active := FirstOperational(r, primary);
    var spare := FirstOperational(r, fallbacks);
    FirstOperationalIsActive(r, primary);
    FirstOperationalIsActive(r, fallbacks);
    if active.Some? {
      report := Coverage(Available, active, primary, fallbacks);
    } else if spare.Some? {
      report := Coverage(Status.Degraded, spare, primary, fallbacks);
    } else {
      report := Coverage(if primary == [] && fallbacks == [] then Unavailable else Lost, None, primary, fallbacks);
    }
    ReportFromLists(r, c, PrimaryNames(c), report, active, spare);
  }

  lemma ReportFromLists(r: Registry, c: Capability, intended: set<string>, report: Coverage, active: Option<string>, spare: Option<string>)
    requires IsLayout(r, c, intended, report.primary, report.fallbacks)
    requires IsActive(r, report.primary, active) && IsActive(r, report.fallbacks, spare)
    requires report.active == if active.Some? then active else spare
    requires report.status == if active.Some? then Available else if spare.Some? then Status.Degraded
                              else if report.primary == [] && report.fallbacks == [] then Unavailable else Lost
    ensures IsActive(r, if report.status == Available then report.primary else report.fallbacks, report.active)
    ensures report.status == Available <==> exists n :: n in report.primary && Operational(r, n)
    ensures report.status.IsUsable() <==> SomeoneOperational(r, c)
    ensures report.status == Unavailable <==> !SomeoneDeclares(r, c)
  {
    LayoutCovers(r, c, intended, report.primary, report.fallbacks);
  }

  /** Being declared, or operational, is being so in one of the two lists. */
  lemma LayoutCovers(r: Registry, c: Capability, intended: set<string>, primary: seq<string>, fallbacks: seq<string>)
    requires IsLayout(r, c, intended, primary, fallbacks)
    ensures SomeoneDeclares(r, c) <==> primary != [] || fallbacks != []
    ensures SomeoneOperational(r, c) <==>
            (exists n :: n in primary && Operational(r, n)) || (exists n :: n in fallbacks && Operational(r, n))
  {
    assert primary != [] ==> primary[0] in primary;
    assert fallbacks != [] ==> fallbacks[0] in fallbacks;
  }

  /** Two correct reports on the same registry agree on status and active backend. */
  lemma ReportIsUnique(r: Registry, c: Capability, one: Coverage, other: Coverage)
    requires IsReport(r, c, one) && IsReport(r, c, other)
    ensures one.status == other.status && one.active == other.active
  {
    assert forall n :: n in one.primary <==> n in other.primary;
    assert forall n :: n in one.fallbacks <==> n in other.fallbacks;
    assert one.status == other.status;
    if one.active.Some? {
      LeAntisymmetric(one.active.value, other.active.value);
    }
  }

  // ---- The load balancer ----

  /** Available declarers in name order. */
  function FindCapable(r: Registry, c: Capability): seq<string> {
    Filter((n: string) => n in r && r[n].lifecycle.IsAvailable() && c in r[n].capabilities, Sorted(r.Keys))
  }

  /** Less loaded, or equally loaded and first by name. */
  predicate Better(loads: Loads, a: string, b: string) {
    LoadOf(loads, a) < LoadOf(loads, b) || (LoadOf(loads, a) == LoadOf(loads, b) && Le(a, b))
  }

  ghost predicate IsPick(r: Registry, loads: Loads, c: Capability, pick: Option<string>) {
    && (pick.None? <==> !SomeoneOperational(r, c))
    && (pick.Some? ==>
          && Declares(r, pick.value, c) && Operational(r, pick.value)
          && forall n :: Declares(r, n, c) && Operational(r, n) ==> Better(loads, pick.value, n))
  }

  /** The best operational name among those seen. */
  ghost predicate IsBest(r: Registry, loads: Loads, seen: seq<string>, best: Option<string>) {
    && (best.None? <==> forall n | n in seen :: !Operational(r, n))
    && (best.Some? ==> best.value in seen && Operational(r, best.value)
                       && forall n | n in seen && Operational(r, n) :: Better(loads, best.value, n))
  }

  lemma BestGrows(r: Registry, loads: Loads, seen: seq<string>, best: Option<string>, name: string)
    requires IsBest(r, loads, seen, best)
    ensures var better := Operational(r, name) && (best.None? || !Better(loads, best.value, name));
            IsBest(r, loads, seen + [name], if better then Some(name) else best)
  {
    LeTotal(name, name);
    if best.Some? {
      LeTotal(name, best.value);
      if Operational(r, name) && !Better(loads, best.value, name) {
        forall n | n in seen && Operational(r, n)
          ensures Better(loads, name, n)
        {
          BetterTransitive(loads, name, best.value, n);
        }
      }
    }
  }

  /** The comparison that replaces the best candidate so far. */
  predicate Beats(loads: Loads, name: string, best: string) {
    LoadOf(loads, name) < LoadOf(loads, best) || (LoadOf(loads, name) == LoadOf(loads, best) && Lt(name, best))
  }

  lemma BeatsIsBetter(loads: Loads, name: string, best: string)
    ensures Beats(loads, name, best) <==> !Better(loads, best, name)
  {
    StrictlyFirst(name, best);
  }

  /** The argmin loop over the available declarers. */
  method BestOf(r: Registry, loads: Loads, candidates: seq<string>) returns (best: Option<string>)
    requires forall n | n in candidates :: n in r && r[n].lifecycle.IsAvailable()
    ensures IsBest(r, loads, candidates, best)
  {
    best := None;
    for i := 0 to |candidates|
      invariant IsBest(r, loads, candidates[..i], best)
    {
      var name := candidates[i];
      assert name in candidates;
      assert candidates[..i + 1] == candidates[..i] + [name];
      BestGrows(r, loads, candidates[..i], best, name);
      if r[name].monitor.health != Unhealthy {
        if best.None? {
          best := Some(name);
        } else {
          BeatsIsBetter(loads, name, best.value);
          if Beats(loads, name, best.value) {
            best := Some(name);
          }
        }
      }
    }
    assert candidates[..|candidates|] == candidates;
  }

  method PickBackend(r: Registry, loads: Loads, c: Capability) returns (pick: Option<string>)
    ensures IsPick(r, loads, c, pick)
  {
    var candidates := FindCapable(r, c);
    pick := BestOf(r, loads, candidates);
    BestIsPick(r, loads, c, pick);
  }

  lemma BestIsPick(r: Registry, loads: Loads, c: Capability, pick: Option<string>)
    requires IsBest(r, loads, FindCapable(r, c), pick)
    ensures IsPick(r, loads, c, pick)
  {
    var candidates := FindCapable(r, c);
    assert forall n :: Operational(r, n) ==> (n in candidates <==> Declares(r, n, c));
    if pick.Some? {
      assert pick.value in candidates;
    }
  }

  lemma StrictlyFirst(a: string, b: string)
    ensures Lt(a, b) <==> !Le(b, a)
  {
    LeTotal(a, b);
    if Le(a, b) && Le(b, a) {
      LeAntisymmetric(a, b);
    }
  }

  lemma BetterTransitive(loads: Loads, a: string, b: string, c: string)
    requires Better(loads, a, b) && Better(loads, b, c)
    ensures Better(loads, a, c)
  {
    if Le(a, b) && Le(b, c) {
      LeTransitive(a, b, c);
    }
  }

  /** The load balancer can place work exactly when the report calls the
      capability usable, and an idle system sends it to the report's active
      backend or to one the layout ranks below it. */
  lemma BalancerAgreesWithReport(r: Registry, loads: Loads, c: Capability, report: Coverage, pick: Option<string>)
    requires IsReport(r, c, report) && IsPick(r, loads, c, pick)
    ensures pick.Some? <==> report.status.IsUsable()
    ensures pick.None? ==> report.status == if SomeoneDeclares(r, c) then Lost else Unavailable
    ensures pick.Some? ==> Better(loads, pick.value, report.active.value)
    ensures pick.Some? ==> pick.value in report.primary + report.fallbacks
    ensures pick.Some? && report.active != pick && LoadOf(loads, pick.value) == LoadOf(loads, report.active.value) ==>
              report.status == Available && pick.value in report.fallbacks
  {
    if pick.Some? && report.active.Some? && report.active != pick {
      if LoadOf(loads, pick.value) == LoadOf(loads, report.active.value) {
        if pick.value in (if report.status == Available then report.primary else report.fallbacks) {
          LeAntisymmetric(pick.value, report.active.value);
        }
      }
    }
  }

  // ---- Lifecycle and health spelled out ----

  /** A pick exists exactly when some registered declarer is Running or Degraded and not
      Unhealthy, and it is such a one with the fewest items in flight, then the first by name. */
  lemma PickMeans(r: Registry, loads: Loads, c: Capability, pick: Option<string>)
    requires IsPick(r, loads, c, pick)
    ensures pick.Some? <==> exists n ::
              && n in r && c in r[n].capabilities && r[n].monitor.health != Unhealthy
              && (r[n].lifecycle == Running || r[n].lifecycle == Lifecycle.Degraded)
    ensures pick.Some? ==>
              && pick.value in r && c in r[pick.value].capabilities && r[pick.value].monitor.health != Unhealthy
              && (r[pick.value].lifecycle == Running || r[pick.value].lifecycle == Lifecycle.Degraded)
              && forall n | n in r && c in r[n].capabilities && r[n].monitor.health != Unhealthy
                            && (r[n].lifecycle == Running || r[n].lifecycle == Lifecycle.Degraded) ::
                   var mine, others := if pick.value in loads then loads[pick.value] else 0, if n in loads then loads[n] else 0;
                   mine < others || (mine == others && Le(pick.value, n))
  {
    assert forall n :: Declares(r, n, c) && Operational(r, n) <==>
                       n in r && c in r[n].capabilities && r[n].monitor.health != Unhealthy
                       && (r[n].lifecycle == Running || r[n].lifecycle == Lifecycle.Degraded);
  }

  /** A report calls the capability usable exactly when some declarer is Running or Degraded and
      not Unhealthy, and Available when one of these is intended for it. */
  lemma StatusMeans(r: Registry, c: Capability, report: Coverage)
    requires IsReport(r, c, report)
    ensures report.status.IsUsable() <==> exists n ::
              && n in r && c in r[n].capabilities && r[n].monitor.health != Unhealthy
              && (r[n].lifecycle == Running || r[n].lifecycle == Lifecycle.Degraded)
    ensures report.status == Available <==> exists n ::
              && n in r && c in r[n].capabilities && r[n].monitor.health != Unhealthy
              && (r[n].lifecycle == Running || r[n].lifecycle == Lifecycle.Degraded) && n in PrimaryNames(c)
  {
    assert forall n :: Declares(r, n, c) && Operational(r, n) <==>
                       n in r && c in r[n].capabilities && r[n].monitor.health != Unhealthy
                       && (r[n].lifecycle == Running || r[n].lifecycle == Lifecycle.Degraded);
    assert report.status == Available <==> exists n :: Declares(r, n, c) && Operational(r, n) && n in PrimaryNames(c);
  }

  /** Unavailable means nobody declares the capability, and there is an active backend exactly
      when the status is Available or Degraded. */
  lemma UnavailableMeans(r: Registry, c: Capability, report: Coverage)
    requires IsReport(r, c, report)
    ensures report.status == Unavailable <==> forall n | n in r :: c !in r[n].capabilities
    ensures report.active.Some? <==> report.status == Available || report.status == Status.Degraded
  {
    assert forall n | n in r :: Declares(r, n, c) <==> c in r[n].capabilities;
  }

  /** A running declarer can be given work through any observations without a full threshold of
      consecutive failures, whatever else is registered; a full threshold takes it out. */
  lemma PickableThroughHistory(r: Registry, name: string, c: Capability, history: seq<bool>, loads: Loads, pick: Option<string>)
    requires RegistryOk(r) && name in r && r[name].lifecycle == Running && c in r[name].capabilities
    requires IsPick(r[name := Observe(r[name], history)], loads, c, pick)
    ensures !HasFailureRun(history, r[name].monitor.failureThreshold) ==> pick.Some?
    ensures HasFailureRun(history, r[name].monitor.failureThreshold) ==> pick != Some(name)
    ensures (forall n | n in r && c in r[n].capabilities :: n == name) ==>
              (pick == Some(name) <==> !HasFailureRun(history, r[name].monitor.failureThreshold))
  {
    var b := r[name];
    HealthAlone(b, history);
    ObserveKeepsDeclaration(b, history);
    var after := r[name := Observe(b, history)];
    PickMeans(after, loads, c, pick);
    assert Declares(after, name, c);
    if !HasFailureRun(history, b.monitor.failureThreshold) {
      assert Operational(after, name);
    }
  }

  lemma {:induction false} ObserveKeepsDeclaration(b: Backend, history: seq<bool>)
    ensures Observe(b, history).capabilities == b.capabilities
  {
    if history != [] {
      ObserveKeepsDeclaration(b, history[..|history| - 1]);
    }
  }

  /** The layout read by backend: what each one is intended for. */
  lemma LayoutByBackend(c: Capability, n: string)
    ensures n in PrimaryNames(c) <==>
            || (n == "npcap" && c in {Capture, L2Capture, RawEthernet, AdapterEnumeration})
            || (n == "windivert" && c !in {Capture, L2Capture, RawEthernet, AdapterEnumeration, WfpEngineAccess, WfpFilters, WfpLayers,
                                           WfpFlows, InterfaceInfo, RouteInfo, NeighborInfo, GatewayInfo, Diagnostics, Telemetry,
                                           Forwarding, NatState})
            || (n == "wfp" && c in {WfpEngineAccess, WfpFilters, WfpLayers, WfpFlows})
            || (n == "iphelper" && c in {InterfaceInfo, RouteInfo, NeighborInfo, GatewayInfo})
            || (n == "etw" && c in {Diagnostics, Telemetry})
    ensures n in FallbackNames(c) ==> n !in PrimaryNames(c)
  {
  }

  // ---- The coordinator ----

  predicate SameOrLower(a: Capability, b: Capability) {
    SortKey(a) <= SortKey(b)
  }

  datatype Plan = Plan(participated: seq<string>, applied: seq<Capability>, complete: bool, missing: seq<Capability>)

  /** The active backend of the coverage report: the first operational declarer by name, those
      the layout intends before the others. */
  ghost predicate IsActiveFor(r: Registry, c: Capability, n: string) {
    && Declares(r, n, c) && Operational(r, n)
    && forall m | Declares(r, m, c) && Operational(r, m) ::
         if n in PrimaryNames(c) then m !in PrimaryNames(c) || Le(n, m) else m !in PrimaryNames(c) && Le(n, m)
  }

  lemma ReportedIsActive(r: Registry, c: Capability, report: Coverage)
    requires IsReport(r, c, report) && report.active.Some?
    ensures IsActiveFor(r, c, report.active.value)
  {
  }

  /** `participant` provides `c`: the source if it declares it, else the report's active backend. */
  ghost predicate Provides(r: Registry, source: Option<string>, c: Capability, participant: string) {
    Declares(r, participant, c) &&
    (source == Some(participant) || (IsActiveFor(r, c, participant) && !(source.Some? && Declares(r, source.value, c))))
  }

  /** A capability is covered when the source declares it or someone operational does. */
  ghost predicate Covered(r: Registry, source: Option<string>, c: Capability) {
    (source.Some? && Declares(r, source.value, c)) || SomeoneOperational(r, c)
  }

  ghost predicate Distinct(names: seq<string>) {
    forall i, j | 0 <= i < j < |names| :: names[i] != names[j]
  }

  ghost predicate IsPlan(r: Registry, source: Option<string>, required: seq<Capability>, plan: Plan) {
    && multiset(plan.applied) + multiset(plan.missing) == multiset(required)
    && (forall c | c in plan.applied :: Covered(r, source, c) && exists p :: p in plan.participated && Provides(r, source, c, p))
    && (forall c | c in plan.missing :: !Covered(r, source, c))
    && (forall p | p in plan.participated :: exists c :: c in required && Provides(r, source, c, p))
    && Distinct(plan.participated)
  }

  method Provider(r: Registry, source: Option<string>, c: Capability) returns (provider: Option<string>)
    ensures provider.Some? <==> Covered(r, source, c)
    ensures provider.Some? ==> Provides(r, source, c, provider.value)
  {
    if source.Some? && source.value in r && c in r[source.value].capabilities {
      return source;
    }
    provider := ActiveBackend(r, c);
  }

  /** The active backend of the coverage report. */
  method ActiveBackend(r: Registry, c: Capability) returns (active: Option<string>)
    ensures active.Some? <==> SomeoneOperational(r, c)
    ensures active.Some? ==> IsActiveFor(r, c, active.value)
  {
    var coverage := SelectWithFallback(r, c);
    active := coverage.active;
    if active.Some? {
      ReportedIsActive(r, c, coverage);
    }
  }

  /** Walks the required capabilities, growing the three vectors, then sorts them. */
  method Coordinate(r: Registry, source: Option<string>, required: seq<Capability>) returns (plan: Plan)
    ensures IsPlan(r, source, required, plan)
    ensures plan.complete <==> forall c | c in required :: Covered(r, source, c)
    ensures SortedBy(SameOrLower, plan.applied) && SortedBy(SameOrLower, plan.missing) && SortedBy(Le, plan.participated)
  {
    plan := Plan([], [], true, []);
    for i := 0 to |required|
      invariant IsPlan(r, source, required[..i], plan)
    {
      var c := required[i];
      assert required[..i + 1] == required[..i] + [c];
      var provider := Provider(r, source, c);
      if provider.Some? {
        PlanGrows(r, source, required[..i], c, plan, provider.value);
        if provider.value !in plan.participated {
          plan := plan.(participated := plan.participated + [provider.value]);
        }
        plan := plan.(applied := plan.applied + [c]);
      } else {
        PlanMisses(r, source, required[..i], c, plan);
        plan := plan.(missing := plan.missing + [c]);
      }
    }
    assert required[..|required|] == required;
    SortingKeepsPlan(r, source, required, plan);
    CompleteExactly(r, source, required, plan);
    SortingSorts(plan);
    plan := Plan(Sort(Le, plan.participated), Sort(SameOrLower, plan.applied), plan.missing == [], Sort(SameOrLower, plan.missing));
  }

  /** A plan is complete exactly when every required capability is declared by the source or by
      some backend that is Running or Degraded and not Unhealthy. */
  lemma CompleteMeans(r: Registry, source: Option<string>, required: seq<Capability>, plan: Plan)
    requires IsPlan(r, source, required, plan)
    ensures plan.missing == [] <==> forall c | c in required ::
              || (source.Some? && source.value in r && c in r[source.value].capabilities)
              || exists n ::
                   && n in r && c in r[n].capabilities && r[n].monitor.health != Unhealthy
                   && (r[n].lifecycle == Running || r[n].lifecycle == Lifecycle.Degraded)
  {
    CompleteExactly(r, source, required, plan);
    assert forall n, c :: Declares(r, n, c) && Operational(r, n) <==>
                          n in r && c in r[n].capabilities && r[n].monitor.health != Unhealthy
                          && (r[n].lifecycle == Running || r[n].lifecycle == Lifecycle.Degraded);
  }

  lemma SortingSorts(plan: Plan)
    ensures SortedBy(SameOrLower, Sort(SameOrLower, plan.applied)) && SortedBy(SameOrLower, Sort(SameOrLower, plan.missing))
    ensures SortedBy(Le, Sort(Le, plan.participated))
  {
    LeIsOrder();
    SortSorts(Le, plan.participated);
    SortSorts(SameOrLower, plan.applied);
    SortSorts(SameOrLower, plan.missing);
  }

  lemma PlanMisses(r: Registry, source: Option<string>, done: seq<Capability>, c: Capability, plan: Plan)
    requires IsPlan(r, source, done, plan) && !Covered(r, source, c)
    ensures IsPlan(r, source, done + [c], plan.(missing := plan.missing + [c]))
  {
    forall p | p in plan.participated
      ensures exists d :: d in done + [c] && Provides(r, source, d, p)
    {
      var d :| d in done && Provides(r, source, d, p);
      assert d in done + [c];
    }
  }

  lemma LeIsOrder()
    ensures TotalOrder(Le)
  {
    forall a, b
      ensures Le(a, b) || Le(b, a)
    {
      LeTotal(a, b);
    }
    forall a, b, c | Le(a, b) && Le(b, c)
      ensures Le(a, c)
    {
      LeTransitive(a, b, c);
    }
  }

  lemma PlanGrows(r: Registry, source: Option<string>, done: seq<Capability>, c: Capability, plan: Plan, provider: string)
    requires IsPlan(r, source, done, plan) && Provides(r, source, c, provider) && Covered(r, source, c)
    ensures var participated := if provider in plan.participated then plan.participated else plan.participated + [provider];
            IsPlan(r, source, done + [c], Plan(participated, plan.applied + [c], plan.complete, plan.missing))
  {
    var participated := if provider in plan.participated then plan.participated else plan.participated + [provider];
    assert provider in participated;
    forall d | d in plan.applied + [c]
      ensures exists p :: p in participated && Provides(r, source, d, p)
    {
      if d != c {
        var p :| p in plan.participated && Provides(r, source, d, p);
        assert p in participated;
      }
    }
    forall p | p in participated
      ensures exists d :: d in done + [c] && Provides(r, source, d, p)
    {
      if p in plan.participated {
        var d :| d in done && Provides(r, source, d, p);
        assert d in done + [c];
      } else {
        assert c in done + [c];
      }
    }
  }

  lemma SortingKeepsPlan(r: Registry, source: Option<string>, required: seq<Capability>, plan: Plan)
    requires IsPlan(r, source, required, plan)
    ensures forall b :: IsPlan(r, source, required,
                   Plan(Sort(Le, plan.participated), Sort(SameOrLower, plan.applied), b, Sort(SameOrLower, plan.missing)))
  {
    SortPermutes(Le, plan.participated);
    SortPermutes(SameOrLower, plan.applied);
    SortPermutes(SameOrLower, plan.missing);
    SameElements(plan.participated, Sort(Le, plan.participated));
    SameElements(plan.applied, Sort(SameOrLower, plan.applied));
    SameElements(plan.missing, Sort(SameOrLower, plan.missing));
    DistinctPermutes(plan.participated, Sort(Le, plan.participated));
  }

  lemma SameElements<T>(s: seq<T>, t: seq<T>)
    requires multiset(s) == multiset(t)
    ensures forall x | x in s :: x in t
    ensures forall x | x in t :: x in s
  {
    forall x | x in s
      ensures x in t
    {
      assert x in multiset(s);
    }
    forall x | x in t
      ensures x in s
    {
      assert x in multiset(t);
    }
  }

  lemma {:induction false} DistinctMultiset(s: seq<string>)
    ensures Distinct(s) <==> forall x :: multiset(s)[x] <= 1
  {
    if s != [] {
      var rest := s[1..];
      assert s == [s[0]] + rest;
      DistinctMultiset(rest);
      if Distinct(s) {
        assert s[0] !in rest;
      }
      if forall x :: multiset(s)[x] <= 1 {
        assert multiset(s)[s[0]] == 1 + multiset(rest)[s[0]];
        assert s[0] !in rest;
        forall x
          ensures multiset(rest)[x] <= 1
        {
          assert multiset(rest)[x] <= multiset(s)[x];
        }
      }
    }
  }

  lemma DistinctPermutes(s: seq<string>, t: seq<string>)
    requires Distinct(s) && multiset(s) == multiset(t)
    ensures Distinct(t)
  {
    DistinctMultiset(s);
    DistinctMultiset(t);
  }

  lemma CompleteExactly(r: Registry, source: Option<string>, required: seq<Capability>, plan: Plan)
    requires IsPlan(r, source, required, plan)
    ensures plan.missing == [] <==> forall c | c in required :: Covered(r, source, c)
  {
    forall c | c in required
      ensures c in plan.applied || c in plan.missing
    {
      assert c in multiset(required);
    }
    if plan.missing != [] {
      var c := plan.missing[0];
      assert c in plan.missing && c in multiset(plan.missing);
      assert c in multiset(required) && c in required;
    }
  }
}
