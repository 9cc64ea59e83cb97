# Verified model of the packet-engine runtime

This project models the parts of the runtime in which several pieces of state
have to agree, and proves what every run of them keeps. Nothing here executes
the engine: foreign calls are inputs that say whether the call worked, clocks
are arguments, and locks appear only as the atomicity of a step.

| file | what it models |
|---|---|
| `flow_counters.dfy`, `counter_interleaving.dfy` | the lock-free per-flow counters, alone and under every interleaving |
| `flow_table.dfy`, `flow_table_properties.dfy` | one flow, the bounded flow table, and its refinement to a map over unordered conversations |
| `health.dfy`, `manager.dfy`, `engine.dfy` | health monitor, lifecycle matrix, backend manager, native handles, start/stop/restart/isolate/failover |
| `ordering.dfy`, `planning.dfy`, `selection.dfy`, `round_robin.dfy` | coverage report, coordinator, argmin pick, requirement filters, round-robin cursor |
| `in_flight.dfy`, `load_balancer.dfy` | the in-flight counters under every interleaving, and the balancer object |
| `nat.dfy` | the NAT store and its two indexes |
| `net.dfy`, `routing.dfy`, `wfp.dfy` | words and masks, both longest-prefix tables, WFP conditions and filters |
| `dedup.dfy`, `decision.dfy` | the deduplication window and the packet policy |

Objects that the source updates in place are classes; each method is proved
equal to a function on values, and the run theorems are about those functions.
Definitions that many theorems share (the reverse of a key, expiry, fitness for
work, a rule's match, the lifecycle matrix, name order) are each tied by a
further lemma to the fields themselves, so that the theorems do not rest on
their names.
Machine words are sequences of bits, most significant first; `WordValues`
proves that the bit operations are the integer ones (shift left is
multiplication by a power of two with the overflow dropped, equal words are
equal integers, prefix matching is equality after division by a power of two).

## Where the code differs from its comments or tests

- `ForwardingTable::lookup` keeps the last of equally long entries, not the
  first as its comment says. The two agree exactly when no other usable entry is
  as long (`FirstEntryWinsExactly`; `SecondEntryAnswers` is a failing input).
- Default recovery takes two successes where a test expects one
  (`OneSuccessIsNotEnough`, and `RecoversExactly` for every history).
- Failover accepts a backend whose lifecycle is Degraded and whose health is
  Healthy, where a test expects none (`DegradedIsCandidateExactly`,
  `DegradedTakesOver`). No run of the engine's own operations reaches such a
  state (`EveryRunConsistent`), so there the target is Running.
- A built-in backend that health alone drives to Failed keeps its native
  instance open. For all but ETW no further call can start it again
  (`FailuresOrphan`, `OrphanStaysDown`), because the native start refuses an open
  instance and nothing stops a Failed backend.
- Initialisation starts the IP Helper instance itself and leaves it in its slot,
  so `start_backend("iphelper")` never succeeds (`IpHelperNeverRuns`).
- Timestamp 0 means "unset", so `first_seen` is the minimum, and independent of
  the schedule, exactly when the timestamps are all positive or all zero
  (`EarliestExactly`, `InterleavingsAgree`).
- `in_flight` underflows in some interleaving without `forget` exactly when an
  unpaired finish stands beside a paired worker, or two beside an unfinished
  start (`UnderflowsExactly`). Since `stop_backend` calls `forget`, workers that
  all pair their reports underflow too: with `forget` it takes exactly two
  finishes and a start on the backend (`ForgetUnderflowsExactly`).
- The NAT allocator does not ask whether an id is live. An acceptable insert
  keeps store and indexes in bijection exactly when the next id is not live
  (`InsertKeepsExactly`); a table of two or more entries is broken by the
  2^64-th insert of some run (`WrappedIdBreaksBijection`), one of at most one
  entry by none (`EveryRunKeepsExactly`).
- A round-robin window across the wrap of the cursor is fair exactly when the
  number of candidates divides 2^64 (`AnswersFairExactly`).
- A policy rule may be accepted and never match: for an unnamed protocol number,
  for a port with ICMP, or for fields of two address families
  (`RuleMatchesExactly`, `RuleMattersExactly`).
- The `u8` of the WFP prefix count overflows on masks the slice parameter
  admits and the only caller never passes (`Prefix`, `LengthFitsExactly`).
- An IPv4 condition reaches the kernel as integers built in host byte order,
  which is harmless exactly when the kernel reads addresses in that order too or
  the condition reads the same from both ends (`ByteOrderMattersExactly`).

## Model

| member | source | states |
|---|---|---|
| FlowCounters.SaturatingAdd | crates/flow-engine/src/counters.rs:67-78 | however often the weak exchange fails, the counter ends as the capped sum |
| Saturating.CapMeans | crates/flow-engine/src/counters.rs:67-78 | a saturating counter is exact while it fits 64 bits, then stays at the greatest value |
| FlowCounters.UpdateFirstSeen | crates/flow-engine/src/counters.rs:40-51 | the retry loop leaves the earlier stamp, an unset one being replaced |
| FlowCounters.UpdateLastSeen | crates/flow-engine/src/counters.rs:53-64 | the retry loop leaves the later stamp |
| FlowCounters.FlowCounters.Record | crates/flow-engine/src/counters.rs:28-33 | one undisturbed record counts one packet, adds the bytes and moves both stamps |
| CounterInterleaving.ThreadEffect | crates/flow-engine/src/counters.rs:40-78 | each load or exchange moves a counter only together with the phase of the thread that owns the change |
| CounterInterleaving.EveryInterleaving | crates/flow-engine/src/counters.rs:28-78 | for every number of threads, every schedule and all spurious failures: capped count, capped byte sum, latest stamp, and earliest stamp when stamps are all positive or all zero |
| CounterInterleaving.InterleavingsAgree | crates/flow-engine/src/counters.rs:28-78 | all complete schedules of the same calls leave the same counters if and only if stamps are all positive or all zero |
| CounterInterleaving.EveryRunCanComplete | crates/flow-engine/src/counters.rs:40-78 | from every reachable state all threads can run to completion |
| CounterInterleaving.EarliestExactly | crates/flow-engine/src/counters.rs:40-51 | first_seen is the minimum under every schedule if and only if stamps are all positive or all zero |
| Flows.RecordAllTallies | crates/flow-engine/src/flow.rs:73-101 | over any packet list: capped totals, the per-direction split, latest stamp per direction, mirrors equal to the counters |
| Flows.PacketsNeverReopen | crates/flow-engine/src/flow.rs:98-100 | the first packet makes a new flow active, and no packet reopens a closed one |
| FlowTables.Create | crates/flow-engine/src/flow_table.rs:32-54 | a zero capacity or timeout is refused, anything else gives an empty table |
| FlowTables.FlowTable.Find | crates/flow-engine/src/flow_table.rs:89-96 | finds the flow under the key or its reverse |
| FlowTables.FlowTable.Insert | crates/flow-engine/src/flow_table.rs:111-136 | refuses a present conversation, then a full table, else stores and counts |
| FlowTables.FlowTable.GetOrCreate | crates/flow-engine/src/flow_table.rs:138-176 | the stored flow, a new one, or a refusal that changes nothing |
| FlowTables.FlowTable.Record | crates/flow-engine/src/flow_table.rs:178-194 | records on the conversation, creating it if there is room |
| FlowTables.FlowTable.Update | crates/flow-engine/src/flow_table.rs:196-216 | records on a present conversation only |
| FlowTables.FlowTable.Remove | crates/flow-engine/src/flow_table.rs:218-235 | removes the conversation and counts it once |
| FlowTables.FlowTable.Close | crates/flow-engine/src/flow_table.rs:237-248 | closes the stored flow and nothing else |
| FlowTables.FlowTable.ExpireIdle | crates/flow-engine/src/flow_table.rs:250-288 | removes exactly the idle flows in any order, counting each as removed and expired |
| FlowTables.FlowTable.Clear | crates/flow-engine/src/flow_table.rs:294-304 | removes everything and counts it |
| FlowTableProperties.ApplyRefines | crates/flow-engine/src/flow_table.rs:81-304 | one call on the table and on a map keyed by unordered conversations: same reply, still representing each other |
| FlowTableProperties.RunRefines | crates/flow-engine/src/flow_table.rs:81-328 | over every run no caller can tell the table from the map over unordered conversations |
| FlowTableProperties.EveryRunIgnoresDirection | crates/flow-engine/src/flow_table.rs:81-96 | never both a key and its distinct reverse, every flow under its own key, and get(k) equals get(reverse k) |
| FlowTableProperties.FindsEitherDirection | crates/flow-engine/src/key.rs:32-40 | in every reachable table a lookup answers a flow if and only if it is stored and its key has the same addresses, ports and protocol, in this direction or with both ends exchanged |
| FlowTableProperties.RecordsEitherDirection | crates/flow-engine/src/flow_table.rs:178-216 | a packet or its reply is tallied on the stored flow and creates none |
| FlowTableProperties.CallsEitherDirection | crates/flow-engine/src/flow_table.rs:111-248 | inserting, getting, removing and closing reach the stored flow from either direction |
| FlowTableProperties.OpensOwnDirection | crates/flow-engine/src/flow_table.rs:138-248 | with neither direction stored a packet opens a flow under its own key if there is room, and update, remove and close change nothing |
| FlowTableProperties.ExpiresExactly | crates/flow-engine/src/flow_table.rs:250-288 | an expiry keeps a flow if and only if less than the timeout has passed since its last use |
| FlowTableProperties.UseKeepsAlive | crates/flow-engine/src/flow.rs:108-113 | that last use is the latest packet time, or the creation time of a flow without packets |
| FlowTableProperties.TotalsCount | crates/flow-engine/src/flow_table.rs:111-322 | size stays bounded, created minus removed is the size change, expired at most removed, stored totals are these counts capped |
| FlowTableProperties.EveryRunConserves | crates/flow-engine/src/flow_table.rs:111-304 | packets and bytes held, departed and clipped equal those present and entered, and nothing is clipped while the total fits 64 bits |
| FlowTableProperties.RefusalChangesNothing | crates/flow-engine/src/flow_table.rs:121-125 | a call refused for capacity leaves the table alone, and only a full table refuses |
| Health.HealthMonitor.RecordSuccess | crates/backend-manager/src/health.rs:170-204 | the success transition, by health |
| Health.HealthMonitor.RecordFailure | crates/backend-manager/src/health.rs:218-236 | the failure transition |
| Health.HealthMonitor.Reset | crates/backend-manager/src/health.rs:242-251 | back to Unknown with no observations |
| Health.HealthMonitor.ForceHealth | crates/backend-manager/src/health.rs:260-267 | overrides health and forgets the observations |
| Health.HealthIsVerdict | crates/backend-manager/src/health.rs:94-267 | health is a closed form of the observations since the last override: trailing run against threshold; saturation never changes it |
| Health.ZeroThresholdIsOne | crates/backend-manager/src/health.rs:94-108 | a threshold of zero counts as one |
| Managers.OnBackendKeeps | crates/backend-manager/src/manager.rs:153-215 | each operation moves the lifecycle along the matrix and keeps a Running backend healthy with no failure counted |
| Managers.EveryRunFollowsMatrix | crates/backend-manager/src/manager.rs:108-215 | in every reachable registry that invariant holds and the next call moves every lifecycle along an edge of the matrix |
| Managers.SetLifecycleExactly | crates/backend-manager/src/backend.rs:82-122 | exactly the listed moves are taken, with the health they force and nothing else; a refused move changes nothing |
| Managers.AcceptedByLifecycle | crates/backend-manager/src/manager.rs:117-188 | from which lifecycles start, stop and unregister are accepted, and the error elsewhere |
| Managers.ServicePassesStarting | crates/backend-manager/src/backend.rs:82-122 | over every run a backend out of service comes back only through Starting |
| Managers.RegisteredExactly | crates/backend-manager/src/manager.rs:108-115 | a registration succeeds if and only if the name is free and not blank, and then the backend is stopped with unknown health and no errors |
| Managers.FailuresAreCounted | crates/backend-manager/src/manager.rs:200-203 | failures are counted and the last native code is kept |
| Capabilities.CodeRoundTrip | crates/backend-manager/src/capabilities.rs:170-172 | decoding the code of a capability gives it back |
| Capabilities.CodeIsUnique | crates/backend-manager/src/capabilities.rs:250-290 | a code decodes to a capability if and only if it is its own |
| Managers.HealthAlone | crates/backend-manager/src/manager.rs:192-215 | observations alone take a Running backend to Failed if and only if they contain a full threshold of consecutive failures |
| Managers.RecoversExactly | crates/backend-manager/src/manager.rs:192-215 | short of that it is Running if and only if no failure was seen or the successes at the end reach the recovery threshold |
| Managers.OneSuccessIsNotEnough | crates/backend-manager/src/manager.rs:468-470 | with default thresholds two failures and a success leave the backend Degraded, a second success brings it back |
| Managers.BackendManager.Register | crates/backend-manager/src/manager.rs:108-115 | blank and duplicate names are refused, others join as Stopped |
| Managers.BackendManager.Unregister | crates/backend-manager/src/manager.rs:117-123 | only an inactive backend leaves |
| Managers.BackendManager.SetLifecycle | crates/backend-manager/src/manager.rs:153-163 | an allowed edge is taken and forces the health of Running and Failed |
| Managers.BackendManager.Start | crates/backend-manager/src/manager.rs:171-178 | Starting from a startable state, else the matching error |
| Managers.BackendManager.Stop | crates/backend-manager/src/manager.rs:182-188 | Stopping from a stoppable state, else the matching error |
| Managers.BackendManager.RecordSuccess | crates/backend-manager/src/manager.rs:192-198 | a healthy verdict brings Degraded back to Running, and the health after the observation is answered |
| Managers.BackendManager.RecordFailure | crates/backend-manager/src/manager.rs:200-215 | the error is counted and an unhealthy or degraded verdict moves the lifecycle, a refused move keeping the observation; else the health after the observation is answered |
| Natives.WinDivertHandle.OpenHandle | crates/backend-windivert/src/handle.rs:100-115 | a native handle is held exactly in Open; a filter with NUL strands the handle in Opening (the configuration constructor rejects one, so it takes a direct assignment to the public `filter` field) |
| Natives.WinDivertHandle.CloseHandle | crates/backend-windivert/src/handle.rs:117-129 | closing gives up the native handle whether or not the native close works |
| Natives.WinDivertHandle.RequireOpen | crates/backend-windivert/src/handle.rs:131-134 | allows native calls exactly while a native handle is held |
| Engines.StartInSteps | crates/ffi/src/backends.rs:23-110 | starting is the manager start, the native start, then Running and a success, or Failed |
| Engines.StopInSteps | crates/ffi/src/backends.rs:116-213 | stopping is the manager stop, the native stop, then Stopped, the load counters forgotten and the routes cleared, or Failed |
| Engines.StartExactly | crates/ffi/src/backends.rs:23-110 | in every reachable state a start succeeds if and only if the lifecycle allows it and the native part goes through, then in service; a failed native part leaves it Failed, a refused call changes nothing |
| Engines.StopExactly | crates/ffi/src/backends.rs:116-213 | a stop succeeds if and only if the backend is in service and its close works where it can fail, then Stopped, idle, forgotten by the balancer and off both routes |
| Engines.RestartExactly | crates/ffi/src/backends.rs:215-232 | a restart succeeds if and only if the stop that can fail works and the native start goes through, then Running, healthy and live, its routes and load counters gone where it was stopped on the way |
| Engines.IsolationStops | crates/ffi/src/backends.rs:254-270 | isolation stops a backend in service and changes nothing for one out of it |
| Engines.EveryRunConsistent | crates/ffi/src/backends.rs:23-325 | in every run, however foreign calls fail, no backend is left Starting or Stopping, an available built-in has its native instance open, a Degraded lifecycle has Degraded health |
| Engines.FailoverIsSound | crates/ffi/src/backends.rs:279-325 | a name answered is another, available, healthy backend declaring the capability and now published, the failed one out of service and its load counters forgotten; never with failover disabled; Running in every reachable state |
| Engines.CaptureFailoverPublishes | crates/ffi/src/backends.rs:279-297 | a capture failover publishes a declarer of Capture on the capture route; the other route loses at most the failed backend |
| Engines.ReinjectionFailoverPublishes | crates/ffi/src/backends.rs:306-324 | a reinjection failover does so with Reinjection on its route |
| Engines.PolicyPrefers | crates/backend-manager/src/selection.rs:61-92 | PreferPrimary answers a primary candidate whenever there is one, PreferHealthy a healthy one, the first by name among their choices |
| Engines.PrimaryTakesOver | crates/backend-manager/src/selection.rs:117-133 | under PreferPrimary failover goes to a primary backend whenever one could take over |
| Engines.FirstByNameTakesOver | crates/backend-manager/src/selection.rs:117-133 | under PreferHealthy failover goes to the first by name that could take over |
| Engines.CandidatesTakeOver | crates/backend-manager/src/selection.rs:117-133 | the candidates are who could take over, in name order |
| Engines.CanTakeOverMeans | crates/backend-manager/src/selection.rs:110-133 | that is: another one, declaring the capability, Healthy, and Running or Degraded |
| Engines.IsolateExactly | crates/ffi/src/backends.rs:254-270 | in every reachable state isolation succeeds if and only if the engine is initialised, the backend registered and, for a WinDivert or WFP backend in service, the native close works |
| Engines.FailoverIsComplete | crates/ffi/src/backends.rs:279-325 | in every reachable state failover succeeds if and only if it is enabled, the failed backend can be isolated and some other backend could take over before the call |
| Engines.FailoverOnceIsolated | crates/backend-manager/src/selection.rs:117-133 | in any state, once the failed backend is isolated, the selection succeeds if and only if some other backend could take over |
| Engines.DegradedIsCandidateExactly | crates/backend-manager/src/selection.rs:117-133 | a Degraded lifecycle is a failover candidate if and only if its health is Healthy |
| Engines.DegradedTakesOver | crates/backend-manager/src/selection.rs:225-232 | after the calls of the test that expects no answer, for any role and enabled policy, the selection answers that backend |
| Engines.StartSucceedsExactly | crates/ffi/src/backends.rs:23-110 | with working foreign calls a start succeeds if and only if the lifecycle allows it and no live instance was left behind |
| Engines.FailuresOrphan | crates/backend-manager/src/manager.rs:200-215 | a full threshold of reported failures leaves a built-in out of service with its instance live |
| Engines.OrphanStaysDown | crates/ffi/src/backends.rs:23-325 | no sequence of calls brings such a backend back |
| Engines.IpHelperNeverRuns | crates/ffi/src/init.rs:139-157 | the IP Helper backend is never available, because initialisation already started its instance |
| EngineObjects.EngineRuntime.Start | crates/ffi/src/backends.rs:23-110 | manager, native slot and routes end as one of: refused unchanged, Failed with the native outcome, Running with health forced and one success recorded |
| EngineObjects.EngineRuntime.Stop | crates/ffi/src/backends.rs:116-213 | refused unchanged, Failed with the native outcome, or Stopped with the load counters forgotten and the backend gone from both routes |
| EngineObjects.EngineRuntime.Restart | crates/ffi/src/backends.rs:215-232 | stop and start from an available state, start from a stopped or failed one |
| EngineObjects.EngineRuntime.IsolateFailed | crates/ffi/src/backends.rs:254-270 | stops an available backend, accepts one already out of service |
| EngineObjects.EngineRuntime.FailoverRoute | crates/ffi/src/backends.rs:279-325 | isolate, select, publish on the capture or the reinjection slot |
| EngineObjects.EngineRuntime.ClearRoutes | crates/ffi/src/backends.rs:205-210 | a stopped backend is no longer published on either route |
| Planning.Classify | crates/backend-manager/src/complementarity.rs:284-310 | primary and fallback lists partition the declaring backends, each in name order |
| Planning.SelectWithFallback | crates/backend-manager/src/complementarity.rs:275-361 | Available, Degraded, Unavailable and Lost mean an operational primary, any operational declarer, no declarer, no operational declarer; the active backend is the first operational one |
| Planning.ReportIsUnique | crates/backend-manager/src/complementarity.rs:275-361 | the specification of a report fixes its status and active backend |
| Planning.StatusMeans | crates/backend-manager/src/complementarity.rs:312-352 | usable if and only if some declarer is Running or Degraded and not Unhealthy, Available if and only if one of them is intended for the capability |
| Planning.UnavailableMeans | crates/backend-manager/src/complementarity.rs:310-361 | Unavailable if and only if nobody declares the capability; an active backend if and only if the status is usable |
| Planning.LayoutByBackend | crates/backend-manager/src/complementarity.rs:172-255 | which capabilities each backend is intended for; a fallback is never intended |
| Planning.BestOf | crates/ffi/src/load_balancer.rs:256-294 | the argmin loop keeps the operational candidate of least load, then least name |
| Ordering.LeByFirstDifference | crates/ffi/src/load_balancer.rs:256-294 | names compare by the first differing character, a name coming before its extensions |
| Planning.PickBackend | crates/ffi/src/load_balancer.rs:247-295 | a pick exists if and only if some declarer is operational, and is the operational declarer with least (in_flight, name) |
| Planning.PickMeans | crates/ffi/src/load_balancer.rs:247-295 | a pick exists if and only if some declarer is Running or Degraded and not Unhealthy, and is one of those with the fewest items in flight, then the first by name |
| Planning.PickableThroughHistory | crates/ffi/src/load_balancer.rs:256-294 | a running declarer stays pickable through any history without a full threshold of consecutive failures, and is not picked after one |
| Planning.BalancerAgreesWithReport | crates/ffi/src/load_balancer.rs:247-295 | a capability is pickable if and only if its status is usable; a missing pick means Lost or Unavailable by whether anyone declares it |
| Planning.Coordinate | crates/ffi/src/coordination.rs:153-207 | applied and missing are the required capabilities as a multiset, participants are distinct and each is the source or the active backend for a required capability, complete if and only if every capability is covered, all three lists sorted |
| Planning.CompleteMeans | crates/ffi/src/coordination.rs:153-207 | complete if and only if each required capability is declared by the source or by a backend that is Running or Degraded and not Unhealthy |
| Selection.CheckRequirements | crates/backend-manager/src/capabilities.rs:488-518 | supported if and only if every required capability is available; each gap list holds exactly the capabilities asked for in vain, sorted |
| Selection.FindCapableRequirements | crates/backend-manager/src/selection.rs:20-47 | exactly the Running or Degraded backends declaring every required capability, in name order |
| Selection.FailoverCandidates | crates/backend-manager/src/selection.rs:126-130 | the filter pipeline gives exactly the engine's failover candidates |
| Selection.SelectorsAgree | crates/backend-manager/src/selection.rs:20-133 | whatever failover can switch to, the balancer can place, the report calls usable and lists |
| RoundRobin.SelectManyWalks | crates/backend-manager/src/selection.rs:85-91 | consecutive selections walk the candidates by the wrapping cursor |
| RoundRobin.FairExactly | crates/backend-manager/src/selection.rs:85-91 | n selections take each of n indices exactly once if and only if the cursor does not wrap in the window or n divides 2^64 |
| RoundRobin.EvenlyTaken | crates/backend-manager/src/selection.rs:85-91 | over any number of selections before the wrap, every index is taken equally often, give or take one |
| RoundRobin.AnswersFairExactly | crates/backend-manager/src/selection.rs:61-107 | as many selections as there are distinct candidates answer every name exactly once if and only if the cursor does not wrap among them or their number divides 2^64 |
| RoundRobin.AnswersEven | crates/backend-manager/src/selection.rs:61-107 | over any number of selections before the wrap, every name is answered equally often, give or take one |
| RoundRobin.CandidatesDistinct | crates/backend-manager/src/selection.rs:117-133 | the failover candidates are distinct, so both apply to them |
| InFlight.EveryInterleaving | crates/ffi/src/load_balancer.rs:331-384 | at every moment of every interleaving with paired finishes and no `forget` of the backend: in_flight is the number outstanding, no subtraction underflows, each tally is the recorded finishes of its kind, and all finished means nothing in flight |
| InFlight.ReportsCount | crates/ffi/src/load_balancer.rs:351-384 | the balancer-wide report counters count the announced finishes of all backends, forgotten or not |
| InFlight.UnderflowsExactly | crates/ffi/src/load_balancer.rs:323-384 | without `forget`, some interleaving that respects the map's lock underflows if and only if an unpaired finish stands beside a paired worker or two beside an unfinished start |
| InFlight.ForgetUnderflowsExactly | crates/ffi/src/load_balancer.rs:323-391 | with `forget`, some interleaving that respects the map's lock underflows if and only if two workers finish on the backend and some worker starts on it |
| LoadBalancing.LoadBalancer.Select | crates/ffi/src/load_balancer.rs:213-245 | routes to the least loaded operational declarer of the primary, else of the fallback capability, and counts the decision |
| LoadBalancing.WorkByCapability | crates/ffi/src/load_balancer.rs:63-92 | which capability each kind of work asks for first and next |
| LoadBalancing.LoadBalancer.ReportStarted | crates/ffi/src/load_balancer.rs:344-348 | one more item in flight, counters created on demand |
| LoadBalancing.LoadBalancer.ReportFinished | crates/ffi/src/load_balancer.rs:351-384 | one item less unless none is in flight, the ending tallied per backend and overall |
| LoadBalancing.LoadBalancer.Forget | crates/ffi/src/load_balancer.rs:387-391 | drops the counters of that backend only |
| LoadBalancing.UndisturbedFinish | crates/ffi/src/load_balancer.rs:351-384 | the five atomic steps of a worker left alone leave what the uninterrupted report leaves |
| LoadBalancing.PlacementStaysEven | crates/ffi/src/load_balancer.rs:5-11 | however many items are placed, operational declarers stay within one item of each other |
| NatTables.InsertedExactly | crates/gateway-capability/src/nat.rs:125-161 | an insert succeeds if and only if it has a timeout, fewer mappings than the limit are live, and no live mapping has either tuple |
| NatTables.InsertKeepsExactly | crates/gateway-capability/src/nat.rs:125-161 | an insert keeps store and indexes in bijection if and only if it is not acceptable in that sense or the next id is not live |
| NatTables.WrappedIdBreaksBijection | crates/gateway-capability/src/nat.rs:268-278 | for every limit of two or more, a run from the empty table whose 2^64-th insert breaks the bijection: the tuple of a live mapping is answered with another mapping |
| NatTables.EveryRunKeepsExactly | crates/gateway-capability/src/nat.rs:105-279 | with no bound on the inserts every run keeps the bijection if and only if the limit is at most one |
| NatTables.EveryRunIndexes | crates/gateway-capability/src/nat.rs:105-279 | with at most 2^64-1 inserts: bijection, bounded size, fresh non-zero ids, both lookups equal a linear scan, live entries found under both tuples |
| NatTables.MappingLivesExactly | crates/gateway-capability/src/nat.rs:82-88 | over every run an accepted mapping is answered under both tuples, with its last use, if and only if it was not removed and every expiry came less than its timeout after that use |
| NatTables.TouchRefreshes | crates/gateway-capability/src/nat.rs:202-244 | touched at u, or stamped at s and untouched, a mapping outlives an expiry at now if and only if now < u + timeout, or now < s + timeout |
| NatTables.PurgedCount | crates/gateway-capability/src/nat.rs:222-244 | expiry counts exactly the entries it drops |
| NatTables.NatTable.Insert | crates/gateway-capability/src/nat.rs:125-161 | zero timeout, then capacity after expiry, then duplicates are refused in that order; else the entry and both index keys appear under the allocated id |
| NatTables.NatTable.Remove | crates/gateway-capability/src/nat.rs:213-220 | removes the entry and both its index keys |
| NatTables.NatTable.RemoveExpired | crates/gateway-capability/src/nat.rs:222-244 | removing the expired ids one by one in any order removes exactly them |
| NatTables.NatTable.AllocateId | crates/gateway-capability/src/nat.rs:268-278 | wraps past 2^64-1 to 1, never to 0 |
| NatTables.NatTable.Touch | crates/gateway-capability/src/nat.rs:202-211 | refreshes a present entry only |
| NatTables.NatTable.Clear | crates/gateway-capability/src/nat.rs:246-250 | empties store and indexes, keeps the allocator |
| NatTables.NatTable.LookupOriginal | crates/gateway-capability/src/nat.rs:171-177 | lookup through the original index |
| NatTables.NatTable.LookupTranslated | crates/gateway-capability/src/nat.rs:179-185 | lookup through the translated index |
| Words.MatchesLeadingBits | crates/backend-iphelper/src/routes.rs:343-369 | masked comparison is agreement on the first p bits, for every p including 0 |
| Routing.ContainsLeadingBits | crates/backend-iphelper/src/routes.rs:107-118 | a prefix contains an address if and only if the families agree and the leading bits are the same |
| WordValues.ShlIsMultiply | crates/backend-iphelper/src/routes.rs:353-367 | the shift that builds the mask is multiplication by a power of two, overflow dropped |
| WordValues.MaskValue | crates/backend-iphelper/src/routes.rs:353-367 | the mask is the integer (2^p - 1) times 2 to the host bits |
| WordValues.SameValueSameWord | crates/backend-iphelper/src/routes.rs:354-368 | words are equal exactly when the integers compared are |
| WordValues.AndIsBitwise | crates/backend-iphelper/src/routes.rs:354-368 | a bit of the masked integer is set exactly when both operands have it set |
| WordValues.MatchesIsDivision | crates/backend-iphelper/src/routes.rs:343-369 | masked comparison of two addresses is equality of the integers after division by 2 to the host bits |
| Routing.SharedAddressSameNetwork | crates/backend-iphelper/src/routes.rs:107-118 | two equally long prefixes containing one address contain the same addresses |
| Routing.LongerPrefixIsInside | crates/backend-iphelper/src/routes.rs:107-118 | a longer prefix sharing an address lies inside the shorter one |
| Routing.RouteLookupIsLongestMatch | crates/backend-iphelper/src/routes.rs:164-174 | a most specific containing route of lowest metric, the last of equals; fails if and only if none contains the address |
| Routing.RouteLookupBits | crates/backend-iphelper/src/routes.rs:164-174 | the same over the leading bits of the address: longest, then lowest metric |
| Routing.RouteTable.Insert | crates/backend-iphelper/src/routes.rs:138-162 | invalid routes refused; the route of the same destination, length and interface replaced where it stands, else appended |
| Routing.RouteTable.Remove | crates/backend-iphelper/src/routes.rs:176-193 | takes out exactly the addressed route, the others in their order |
| Routing.RouteTable.Lookup | crates/backend-iphelper/src/routes.rs:164-174 | the scan computes the last maximum |
| Routing.EntryLookupIsLongestMatch | crates/gateway-capability/src/forwarding.rs:198-205 | the last of the most specific enabled containing entries; fails if and only if none is usable |
| Routing.EntryLookupBits | crates/gateway-capability/src/forwarding.rs:198-205 | the same over the leading bits of the address, among enabled entries |
| Routing.FirstEntryWinsExactly | crates/gateway-capability/src/forwarding.rs:194-205 | the winning entry is also the first of the longest, as the comment promises, if and only if no other usable entry is as long |
| Routing.FirstEntryAnswersExactly | crates/gateway-capability/src/forwarding.rs:194-205 | the answer equals the first of the longest entries if and only if every different one among them is followed by a copy of it |
| Routing.SecondEntryAnswers | crates/gateway-capability/src/forwarding.rs:194-205 | two default entries through different interfaces, where the second one answers |
| Routing.ResolveFollowsEntry | crates/gateway-capability/src/forwarding.rs:208-222 | a decision names the interface and gateway of that entry, or the destination itself where it has no gateway |
| Routing.AddedEntryTakesOver | crates/gateway-capability/src/forwarding.rs:101-103 | an added entry answers for an address if and only if it is usable and at least as long as the present answer |
| Routing.UnusableEntryIsInert | crates/gateway-capability/src/forwarding.rs:198-205 | an entry that is disabled or of another network changes no answer |
| Routing.TablesAgree | crates/gateway-capability/src/forwarding.rs:44-73 | host routes and forwarding entries with the same prefixes agree on the winning length |
| Routing.ForwardingTable.Remove | crates/gateway-capability/src/forwarding.rs:105-120 | filters out all entries of the prefix and interface, the others in their order |
| Routing.ForwardingTable.SetEnabled | crates/gateway-capability/src/forwarding.rs:138-156 | switches the first entry of the prefix only |
| Routing.ForwardingTable.Lookup | crates/gateway-capability/src/forwarding.rs:198-205 | the scan computes the last maximum |
| WfpConditions.Prefix | crates/backend-wfp/src/filter.rs:716-733 | for a mask of any length: none if and only if it is not ones followed by zeros, else the number of ones modulo 256; panics if and only if arithmetic is checked and the first 256 bits are ones |
| WfpConditions.LengthFitsExactly | crates/backend-wfp/src/filter.rs:716-733 | the answer is the prefix length if and only if that is below 256, as it is for every mask under 32 bytes |
| WfpConditions.ConditionMeans | crates/backend-wfp/src/filter.rs:92-106 | a condition holds if and only if the data is long enough and agrees with the value on the compared bits, a short mask ending the comparison |
| WfpConditions.WithMaskIsBitwise | crates/backend-wfp/src/filter.rs:83-106 | a mask is taken if and only if it is as long as the value, and then exactly the bits it sets are compared |
| WfpConditions.PrefixMatchesLeadingBits | crates/backend-wfp/src/filter.rs:92-106 | under an n-bit prefix mask, byte-wise masked matching is agreement on the first n bits |
| WfpConditions.NoMaskMatchesAllBits | crates/backend-wfp/src/filter.rs:92-106 | without a mask, matching is agreement on every bit of the value |
| WfpConditions.Translate | crates/backend-wfp/src/filter.rs:654-713 | exactly the expressible conditions translate, and the native condition matches the same data, an IPv4 one where the kernel reads addresses in the order of the host; no mask becomes length 128 |
| WfpConditions.ByteOrderMattersExactly | crates/backend-wfp/src/filter.rs:672-681 | a translated IPv4 condition keeps its meaning if and only if host and kernel order agree, or mask and masked value read the same from both ends |
| WfpTables.EvaluateIsDecision | crates/backend-wfp/src/filter.rs:520-522 | the first match in table order is the match of greatest weight, then least id |
| WfpTables.VerdictMeans | crates/backend-wfp/src/filter.rs:520-522 | the verdict is that of an enabled filter all of whose conditions hold, of greatest weight among those, then of least id; none if and only if there is no such filter |
| WfpTables.OrderOfInstallationIsIrrelevant | crates/backend-wfp/src/filter.rs:334-338 | the verdict depends on the installed filters, not on the order of installing them |
| WfpTables.WfpFilterTable.Insert | crates/backend-wfp/src/filter.rs:313-341 | refuses a duplicate id, a closed engine or a failed registration, else adds and keeps the order |
| WfpTables.WfpFilterTable.Remove | crates/backend-wfp/src/filter.rs:469-491 | removes exactly that filter and keeps the order |
| Dedup.DedupFilter.ObserveId | crates/correlation/src/dedup.rs:30-54 | duplicate if and only if among the last max_size accepted ids since the clear; the set mirrors the duplicate-free queue; a duplicate leaves the queue alone |
| Dedup.DedupFilter.Clear | crates/correlation/src/dedup.rs:56-61 | forgets membership and order |
| Dedup.AcceptedStep | crates/correlation/src/dedup.rs:40-45 | a duplicate does not refresh an id's age, a new id joins at the young end |
| Dedup.SeenIsDuplicate | crates/correlation/src/dedup.rs:30-54 | whatever the history, an id just seen is a duplicate when seen again if and only if the window holds any ids at all |
| Dedup.RepeatsAreFarApart | crates/correlation/src/dedup.rs:27-54 | between two acceptances of one id lie at least max_size others |
| Dedup.AgesByAcceptances | crates/correlation/src/dedup.rs:27-54 | an id ages out after exactly max_size further acceptances, whatever duplicates come between |
| Decisions.EvaluatePacket | crates/ffi/src/decision.rs:22-51 | the action of the matching rule with least (priority, position), else the default |
| Decisions.DecisionIsUnique | crates/ffi/src/decision.rs:22-51 | a policy decides each packet one way only |
| Decisions.AppendDecides | crates/ffi/src/decision.rs:22-99 | an appended rule decides a packet if and only if it matches and every matching rule before it has a strictly greater priority number, else nothing changes |
| Decisions.OrderIsIrrelevant | crates/ffi/src/decision.rs:27-33 | where matching priorities are distinct, rule order does not matter |
| Decisions.SingleRuleDecides | crates/ffi/src/decision.rs:53-99 | a single rule decides a packet if and only if each field it sets is the packet's own, field by field |
| Decisions.MismatchedRuleIsIdle | crates/ffi/src/decision.rs:53-99 | a rule one of whose set fields is not the packet's may be left out |
| Decisions.RequestDecidesIpv4 | crates/ffi/src/policy_api.rs:137-198 | from host codes to frame fields: an accepted request alone decides an IPv4 frame if and only if each of its codes is open or names what the frame holds |
| Decisions.RequestDecidesIpv6 | crates/ffi/src/policy_api.rs:137-198 | the same for IPv6 frames |
| Decisions.AcceptedExactly | crates/ffi/src/policy_api.rs:137-170 | a request is accepted if and only if all its codes are known and both addresses decode |
| Decisions.RuleMatchesExactly | crates/packet-parser/src/lib.rs:118-250 | an accepted rule matches some packet the parser can produce if and only if its protocol is one the parser names or open, its ports are set only where the parser reads ports, and its addresses and protocol fit one address family |
| Decisions.RuleMattersExactly | crates/ffi/src/policy_api.rs:137-198 | under the same condition and no other, appending the rule changes the decision of some policy on some packet |
| Decisions.AcceptedAndDead | crates/ffi/src/policy_api.rs:137-198 | ICMP with a port, ICMP with an IPv6 address and addresses of two families are accepted and never matter |
| Decisions.OtherProtocolRuleIsDead | crates/ffi/src/decision.rs:64-75 | a rule for an unnamed protocol number matches no packet whatever its other fields and changes no decision |
| Decisions.PolicyStore.AddRule | crates/ffi/src/policy_api.rs:137-198 | an undecodable request is refused whole, else the decoded rule is appended and changes only decisions it takes over |
| Decisions.PolicyStore.SetDefault | crates/ffi/src/policy_api.rs:80-108 | replaces the default and keeps the rules |
| Decisions.PolicyStore.ClearRules | crates/ffi/src/policy_api.rs:111-134 | drops the rules and keeps the default |

## Left out

- Natives.StartSlot and Natives.StopSlot: foreign calls are one success flag, so partial native failures inside an open or close are not told apart.
- InFlight.EveryInterleaving: at most 2^64-1 workers, the range of the counter, and no `forget` of the backend, without which the count is lost; `ForgetUnderflowsExactly` says what `forget` does to the subtraction.
- NatTables.EveryRunIndexes: at most 2^64-1 successful inserts, because the wrapping allocator does not check liveness; `WrappedIdBreaksBijection` shows that one more can break it.
- WfpConditions.Translate: the order in which the kernel reads a packet's IPv4 address is not part of the source, so it is a parameter; the equivalence is stated for the host's order, and `ByteOrderMattersExactly` says when the other order makes a difference.
- Decisions.RuleMatchesExactly: parsing starts from header fields; finding them in the bytes, and frames the parser rejects, are not modelled.
- Flows.RecordAllTallies: the flow's age, average size and direction classification by key are not modelled.
- Relaxed memory ordering: each atomic access is one step of a sequentially consistent interleaving.
- Engine statistics.
- `FailoverPolicy::should_failover`, manager statistics, and `get_mut` accessors that hand out stored values.
- Reading addresses through raw pointers in the policy interface; rules arrive with decoded addresses.
- WFP conditions other than addresses, kernel registration and `clear`; `sync_from_network_state` and neighbor resolution in forwarding.
- Shutdown, network state, gateway capability, connection and neighbor tables, queues, ETW and WFP flow tables, the C interface: small machines, wrappers or foreign code that would only add easier members.
