/** Any number of workers reporting to the load balancer at once. The load of
    the in-flight counter and the subtraction from it are steps of their own, as
    is every other atomic the reports take; `forget` may come between any two. */
module InFlight {
  import opened Saturating
  import opened Sums

  /** The four counters of one backend. */
  datatype Load = Load(inFlight: U64, completed: U64, saturated: U64, failed: U64)

  const IDLE := Load(0, 0, 0, 0)

  datatype Ending = Completed | Saturated | Failed

  /** Whether a worker reports its start, its finish, or first one and then the other. */
  datatype Shape = Paired | StartOnly | FinishOnly

  datatype Worker = Worker(backend: string, shape: Shape, ending: Ending)

  /** Where a worker stands. `Subtract` carries what the load answered; the last
      two positions remember what was subtracted. */
  datatype Pc =
    | EnsureStart | Add
    | Announce | EnsureFinish | LoadInFlight | Subtract(amount: U64) | Count(taken: U64)
    | Done(taken: U64)

  datatype System = System(loads: map<string, Load>, reported: Load, pcs: seq<Pc>)

  function Start(workers: seq<Worker>): System {
    System(map[], IDLE, seq(|workers|, i requires 0 <= i < |workers| =>
                            if workers[i].shape == FinishOnly then Announce else EnsureStart))
  }

  /** `fetch_sub` wraps, as `fetch_add` does. */
  function Minus(a: U64, n: U64): U64 {
    if n <= a then a - n else a + (U64_MAX + 1 - n)
  }

  function Counted(l: Load, ending: Ending): Load {
    match ending
    case Completed => l.(completed := Inc(l.completed))
    case Saturated => l.(saturated := Inc(l.saturated))
    case Failed => l.(failed := Inc(l.failed))
  }

  function Tallied(l: Load, ending: Ending): U64 {
    match ending case Completed => l.completed case Saturated => l.saturated case Failed => l.failed
  }

  function LoadOf(loads: map<string, Load>, backend: string): Load {
    if backend in loads then loads[backend] else IDLE
  }

  function Ensured(loads: map<string, Load>, backend: string): map<string, Load> {
    loads[backend := LoadOf(loads, backend)]
  }

  /** An update under the read lock, skipped when the backend has no counters. */
  function With(loads: map<string, Load>, backend: string, l: Load): map<string, Load> {
    if backend in loads then loads[backend := l] else loads
  }

  /** The next atomic action of one worker. */
  function Advance(loads: map<string, Load>, reported: Load, w: Worker, pc: Pc): (map<string, Load>, Load, Pc) {
    var l := LoadOf(loads, w.backend);
    match pc
    case EnsureStart => (Ensured(loads, w.backend), reported, Add)
    case Add =>
      (With(loads, w.backend, l.(inFlight := Inc(l.inFlight))), reported, if w.shape == StartOnly then Done(0) else Announce)
    case Announce => (loads, Counted(reported, w.ending), EnsureFinish)
    case EnsureFinish => (Ensured(loads, w.backend), reported, LoadInFlight)
    case LoadInFlight =>
      (loads, reported, if w.backend in loads then Subtract(if l.inFlight < 1 then l.inFlight else 1) else Done(0))
    case Subtract(amount) => (With(loads, w.backend, l.(inFlight := Minus(l.inFlight, amount))), reported, Count(amount))
    case Count(taken) => (With(loads, w.backend, Counted(l, w.ending)), reported, Done(taken))
    case Done(taken) => (loads, reported, Done(taken))
  }

  function Step(workers: seq<Worker>, s: System, who: nat): (s': System)
    requires |s.pcs| == |workers|
    ensures |s'.pcs| == |workers|
  {
    if who >= |workers| then s else
    var (loads, reported, pc) := Advance(s.loads, s.reported, workers[who], s.pcs[who]);
    System(loads, reported, s.pcs[who := pc])
  }

  /** A worker moves on, or someone has the counters of a backend forgotten. */
  datatype Move = Act(who: nat) | Forget(backend: string)

  function Play(workers: seq<Worker>, s: System, m: Move): (s': System)
    requires |s.pcs| == |workers|
    ensures |s'.pcs| == |workers|
  {
    match m
    case Act(who) => Step(workers, s, who)
    case Forget(backend) => s.(loads := s.loads - {backend})
  }

  function Run(workers: seq<Worker>, s: System, moves: seq<Move>): (s': System)
    requires |s.pcs| == |workers|
    ensures |s'.pcs| == |workers|
  {
    if moves == [] then s
    else Play(workers, Run(workers, s, moves[..|moves| - 1]), moves[|moves| - 1])
  }

  /** From its load until its finish is counted a worker holds the read lock of the map. */
  predicate Reading(s: System) {
    exists i | 0 <= i < |s.pcs| :: s.pcs[i].Subtract? || s.pcs[i].Count?
  }

  /** Creating and forgetting counters take the write lock, so they wait for every reader. */
  predicate Enabled(workers: seq<Worker>, s: System, m: Move)
    requires |s.pcs| == |workers|
  {
    match m
    case Act(who) => who < |workers| && (s.pcs[who] == EnsureStart || s.pcs[who] == EnsureFinish ==> !Reading(s))
    case Forget(_) => !Reading(s)
  }

  /** The moves respect the lock, each at its moment. */
  predicate Legal(workers: seq<Worker>, moves: seq<Move>) {
    moves == [] ||
    var before := moves[..|moves| - 1];
    Legal(workers, before) && Enabled(workers, Run(workers, Start(workers), before), moves[|moves| - 1])
  }

  /** The next subtraction of `who` would take the counter below zero. */
  predicate Underflows(workers: seq<Worker>, s: System, who: nat)
    requires |s.pcs| == |workers|
  {
    who < |workers| && s.pcs[who].Subtract? && s.pcs[who].amount > LoadOf(s.loads, workers[who].backend).inFlight
  }

  // ---- What one worker has done to one backend ----

  /** Its start is counted. */
  function Added(w: Worker, pc: Pc, backend: string): nat {
    if w.backend == backend && w.shape != FinishOnly && pc != EnsureStart && pc != Add then 1 else 0
  }

  /** What it has subtracted. */
  function Taken(w: Worker, pc: Pc, backend: string): nat {
    if w.backend == backend && (pc.Count? || pc.Done?) then pc.taken else 0
  }

  /** Its finish is recorded. */
  function Ended(w: Worker, pc: Pc, backend: string, ending: Ending): nat {
    if w.backend == backend && w.shape != StartOnly && w.ending == ending && pc.Done? then 1 else 0
  }

  /** Started on the backend and not yet subtracted. */
  function Outstanding(w: Worker, pc: Pc, backend: string): nat {
    if w.backend == backend && w.shape != FinishOnly && pc != EnsureStart && pc != Add
       && (w.shape == StartOnly || (!pc.Count? && !pc.Done?)) then 1 else 0
  }

  /** The same over all workers. */
  function Over(workers: seq<Worker>, pcs: seq<Pc>, of: (Worker, Pc) -> nat): seq<nat>
    requires |workers| == |pcs|
  {
    seq(|pcs|, i requires 0 <= i < |pcs| => of(workers[i], pcs[i]))
  }

  function SumOver(workers: seq<Worker>, pcs: seq<Pc>, of: (Worker, Pc) -> nat): nat
    requires |workers| == |pcs|
  {
    Total(Over(workers, pcs, of))
  }

  function AllAdded(workers: seq<Worker>, pcs: seq<Pc>, backend: string): nat
    requires |workers| == |pcs|
  {
    SumOver(workers, pcs, (w: Worker, pc: Pc) => Added(w, pc, backend))
  }

  function AllTaken(workers: seq<Worker>, pcs: seq<Pc>, backend: string): nat
    requires |workers| == |pcs|
  {
    SumOver(workers, pcs, (w: Worker, pc: Pc) => Taken(w, pc, backend))
  }

  function AllEnded(workers: seq<Worker>, pcs: seq<Pc>, backend: string, ending: Ending): nat
    requires |workers| == |pcs|
  {
    SumOver(workers, pcs, (w: Worker, pc: Pc) => Ended(w, pc, backend, ending))
  }

  function AllOutstanding(workers: seq<Worker>, pcs: seq<Pc>, backend: string): nat
    requires |workers| == |pcs|
  {
    SumOver(workers, pcs, (w: Worker, pc: Pc) => Outstanding(w, pc, backend))
  }

  lemma SumMoves(workers: seq<Worker>, pcs: seq<Pc>, who: nat, pc: Pc, of: (Worker, Pc) -> nat)
    requires |workers| == |pcs| && who < |pcs|
    ensures SumOver(workers, pcs[who := pc], of) + of(workers[who], pcs[who])
            == SumOver(workers, pcs, of) + of(workers[who], pc)
  {
    var w := Over(workers, pcs, of);
    assert Over(workers, pcs[who := pc], of) == w[who := of(workers[who], pc)];
    TotalUpdate(w, who, of(workers[who], pc));
  }

  lemma {:induction false} TotalAtMost(w: seq<nat>, c: nat)
    requires forall i | 0 <= i < |w| :: w[i] <= c
    ensures Total(w) <= c * |w|
  {
    if w != [] {
      TotalAtMost(w[..|w| - 1], c);
    }
  }

  lemma {:induction false} TotalDifference(a: seq<nat>, b: seq<nat>, c: seq<nat>)
    requires |a| == |b| == |c| && forall i | 0 <= i < |a| :: a[i] == b[i] + c[i]
    ensures Total(a) == Total(b) + Total(c)
  {
    if a != [] {
      var n := |a| - 1;
      TotalDifference(a[..n], b[..n], c[..n]);
    }
  }

  // ---- Which sets of workers are safe on a backend ----

  predicate Is(workers: seq<Worker>, i: int, backend: string, shape: Shape) {
    0 <= i < |workers| && workers[i].backend == backend && workers[i].shape == shape
  }

  /** An unpaired finish beside a paired worker, or two of them beside a start
      that is never finished. */
  ghost predicate Risky(workers: seq<Worker>, backend: string) {
    || (exists i, j :: Is(workers, i, backend, FinishOnly) && Is(workers, j, backend, Paired))
    || (exists i, j, k :: i != j && Is(workers, i, backend, FinishOnly) && Is(workers, j, backend, FinishOnly)
                          && Is(workers, k, backend, StartOnly))
  }

  // ---- The invariant ----

  /** The counters of one backend are exactly what the workers did to it. */
  ghost predicate Balanced(workers: seq<Worker>, s: System, backend: string) {
    && |s.pcs| == |workers|
    && var l := LoadOf(s.loads, backend);
       && l.inFlight + AllTaken(workers, s.pcs, backend) == AllAdded(workers, s.pcs, backend)
       && (forall e :: Tallied(l, e) == AllEnded(workers, s.pcs, backend, e))
  }

  /** Past its `ensure` step a worker's backend has counters; positions fit the shape. */
  predicate Placed(loads: map<string, Load>, w: Worker, pc: Pc) {
    && (pc != EnsureStart && pc != Announce && pc != EnsureFinish ==> w.backend in loads)
    && (w.shape == FinishOnly ==> pc != EnsureStart && pc != Add)
    && (w.shape == StartOnly ==> pc == EnsureStart || pc == Add || pc == Done(0))
    && (w.shape == Paired && (pc.Subtract? || pc.Count? || pc.Done?) ==> pc == Subtract(1) || pc == Count(1) || pc == Done(1))
    && (pc.Subtract? ==> pc.amount <= 1) && (pc.Count? || pc.Done? ==> pc.taken <= 1)
  }

  /** Every pending subtraction on the backend is covered by the counter. */
  predicate Solvent(workers: seq<Worker>, s: System, backend: string) {
    && |s.pcs| == |workers|
    && forall i | 0 <= i < |workers| && workers[i].backend == backend && s.pcs[i].Subtract? ::
         s.pcs[i].amount <= LoadOf(s.loads, backend).inFlight
  }

  ghost predicate Inv(workers: seq<Worker>, s: System, backend: string) {
    && Balanced(workers, s, backend)
    && Solvent(workers, s, backend)
    && forall i | 0 <= i < |workers| :: workers[i].backend == backend ==> Placed(s.loads, workers[i], s.pcs[i])
  }

  // ---- How the sums move ----

  lemma SumsMove(workers: seq<Worker>, pcs: seq<Pc>, who: nat, pc: Pc, b: string)
    requires |workers| == |pcs| && who < |pcs|
    ensures AllAdded(workers, pcs[who := pc], b) + Added(workers[who], pcs[who], b)
            == AllAdded(workers, pcs, b) + Added(workers[who], pc, b)
    ensures AllTaken(workers, pcs[who := pc], b) + Taken(workers[who], pcs[who], b)
            == AllTaken(workers, pcs, b) + Taken(workers[who], pc, b)
    ensures forall e :: AllEnded(workers, pcs[who := pc], b, e) + Ended(workers[who], pcs[who], b, e)
                        == AllEnded(workers, pcs, b, e) + Ended(workers[who], pc, b, e)
  {
    SumMoves(workers, pcs, who, pc, (w: Worker, pc: Pc) => Added(w, pc, b));
    SumMoves(workers, pcs, who, pc, (w: Worker, pc: Pc) => Taken(w, pc, b));
    forall e
      ensures AllEnded(workers, pcs[who := pc], b, e) + Ended(workers[who], pcs[who], b, e)
              == AllEnded(workers, pcs, b, e) + Ended(workers[who], pc, b, e)
    {
      SumMoves(workers, pcs, who, pc, (w: Worker, pc: Pc) => Ended(w, pc, b, e));
    }
  }

  /** No sum exceeds the number of workers, so no counter wraps. */
  lemma SumsFit(workers: seq<Worker>, pcs: seq<Pc>, b: string)
    requires |workers| == |pcs|
    ensures AllAdded(workers, pcs, b) <= |workers|
    ensures forall e :: AllEnded(workers, pcs, b, e) <= |workers|
  {
    TotalAtMost(Over(workers, pcs, (w: Worker, pc: Pc) => Added(w, pc, b)), 1);
    forall e
      ensures AllEnded(workers, pcs, b, e) <= |workers|
    {
      TotalAtMost(Over(workers, pcs, (w: Worker, pc: Pc) => Ended(w, pc, b, e)), 1);
    }
  }

  ghost predicate AllPlaced(workers: seq<Worker>, s: System, b: string) {
    && |s.pcs| == |workers|
    && forall i | 0 <= i < |workers| :: workers[i].backend == b ==> Placed(s.loads, workers[i], s.pcs[i])
  }

  /** Without unpaired finishes, what was added and not taken is outstanding. */
  lemma AddedIsTakenOrOutstanding(workers: seq<Worker>, s: System, b: string)
    requires AllPlaced(workers, s, b) && forall i :: !Is(workers, i, b, FinishOnly)
    ensures AllAdded(workers, s.pcs, b) == AllTaken(workers, s.pcs, b) + AllOutstanding(workers, s.pcs, b)
  {
    var added := Over(workers, s.pcs, (w: Worker, pc: Pc) => Added(w, pc, b));
    var taken := Over(workers, s.pcs, (w: Worker, pc: Pc) => Taken(w, pc, b));
    var outstanding := Over(workers, s.pcs, (w: Worker, pc: Pc) => Outstanding(w, pc, b));
    forall i | 0 <= i < |added|
      ensures added[i] == taken[i] + outstanding[i]
    {
      assert !Is(workers, i, b, FinishOnly);
    }
    TotalDifference(added, taken, outstanding);
  }

  lemma OneOutstanding(workers: seq<Worker>, pcs: seq<Pc>, b: string, i: nat)
    requires |workers| == |pcs| && i < |pcs|
    ensures Outstanding(workers[i], pcs[i], b) <= AllOutstanding(workers, pcs, b)
  {
    TotalBounds(Over(workers, pcs, (w: Worker, pc: Pc) => Outstanding(w, pc, b)), i);
  }

  /** Without any start on the backend nothing is ever added. */
  lemma NothingAdded(workers: seq<Worker>, pcs: seq<Pc>, b: string)
    requires |workers| == |pcs|
    requires forall i :: !Is(workers, i, b, Paired) && !Is(workers, i, b, StartOnly)
    ensures AllAdded(workers, pcs, b) == 0
  {
    var added := Over(workers, pcs, (w: Worker, pc: Pc) => Added(w, pc, b));
    forall i | 0 <= i < |added|
      ensures added[i] == 0
    {
      assert !Is(workers, i, b, Paired) && !Is(workers, i, b, StartOnly);
    }
    TotalConstant(added, 0);
  }

  // ---- One step keeps the invariant ----

  lemma StepElsewhere(workers: seq<Worker>, s: System, who: nat, b: string)
    requires Inv(workers, s, b) && who < |workers| && workers[who].backend != b
    ensures Inv(workers, Step(workers, s, who), b)
  {
    var s' := Step(workers, s, who);
    SumsMove(workers, s.pcs, who, s'.pcs[who], b);
    assert LoadOf(s'.loads, b) == LoadOf(s.loads, b);
  }

  /** If one step moved each tally as it moved the worker, the tallies still add up. */
  lemma TalliesFollow(workers: seq<Worker>, s: System, who: nat, b: string)
    requires Balanced(workers, s, b) && who < |workers|
    requires var s' := Step(workers, s, who);
             forall e :: Tallied(LoadOf(s'.loads, b), e) + Ended(workers[who], s.pcs[who], b, e)
                         == Tallied(LoadOf(s.loads, b), e) + Ended(workers[who], s'.pcs[who], b, e)
    ensures var s' := Step(workers, s, who);
            forall e :: Tallied(LoadOf(s'.loads, b), e) == AllEnded(workers, s'.pcs, b, e)
  {
    var s' := Step(workers, s, who);
    SumsMove(workers, s.pcs, who, s'.pcs[who], b);
    forall e
      ensures Tallied(LoadOf(s'.loads, b), e) == AllEnded(workers, s'.pcs, b, e)
    {
      assert Tallied(LoadOf(s.loads, b), e) == AllEnded(workers, s.pcs, b, e);
    }
  }

  /** Steps that only look, announce or create counters. */
  lemma StepLooks(workers: seq<Worker>, s: System, who: nat, b: string)
    requires Inv(workers, s, b) && who < |workers| && workers[who].backend == b
    requires !s.pcs[who].Add? && !s.pcs[who].Subtract? && !s.pcs[who].Count?
    requires s.pcs[who] == LoadInFlight && workers[who].shape == Paired ==> LoadOf(s.loads, b).inFlight > 0
    ensures LoadOf(Step(workers, s, who).loads, b) == LoadOf(s.loads, b)
    ensures Inv(workers, Step(workers, s, who), b)
  {
    var s' := Step(workers, s, who);
    assert Placed(s.loads, workers[who], s.pcs[who]);
    SumsMove(workers, s.pcs, who, s'.pcs[who], b);
  }

  lemma StepAdds(workers: seq<Worker>, s: System, who: nat, b: string)
    requires |workers| <= U64_MAX
    requires Inv(workers, s, b) && who < |workers| && workers[who].backend == b && s.pcs[who].Add?
    ensures Inv(workers, Step(workers, s, who), b)
  {
    var s' := Step(workers, s, who);
    assert Placed(s.loads, workers[who], s.pcs[who]);
    SumsMove(workers, s.pcs, who, s'.pcs[who], b);
    SumsFit(workers, s'.pcs, b);
    assert LoadOf(s'.loads, b) == LoadOf(s.loads, b).(inFlight := LoadOf(s.loads, b).inFlight + 1);
    TalliesFollow(workers, s, who, b);
  }

  lemma StepCounts(workers: seq<Worker>, s: System, who: nat, b: string)
    requires |workers| <= U64_MAX
    requires Inv(workers, s, b) && who < |workers| && workers[who].backend == b && s.pcs[who].Count?
    ensures Inv(workers, Step(workers, s, who), b)
  {
    var s' := Step(workers, s, who);
    assert Placed(s.loads, workers[who], s.pcs[who]);
    SumsMove(workers, s.pcs, who, s'.pcs[who], b);
    SumsFit(workers, s'.pcs, b);
    assert LoadOf(s'.loads, b) == Counted(LoadOf(s.loads, b), workers[who].ending);
    assert Tallied(LoadOf(s.loads, b), workers[who].ending) < U64_MAX;
    TalliesFollow(workers, s, who, b);
  }

  /** The subtraction itself; that the others stay covered is shown separately. */
  lemma StepSubtracts(workers: seq<Worker>, s: System, who: nat, b: string)
    requires Inv(workers, s, b) && who < |workers| && workers[who].backend == b && s.pcs[who].Subtract?
    ensures Balanced(workers, Step(workers, s, who), b) && AllPlaced(workers, Step(workers, s, who), b)
    ensures LoadOf(Step(workers, s, who).loads, b).inFlight == LoadOf(s.loads, b).inFlight - s.pcs[who].amount
  {
    var s' := Step(workers, s, who);
    assert Placed(s.loads, workers[who], s.pcs[who]);
    SumsMove(workers, s.pcs, who, s'.pcs[who], b);
    assert LoadOf(s'.loads, b) == LoadOf(s.loads, b).(inFlight := LoadOf(s.loads, b).inFlight - s.pcs[who].amount);
    TalliesFollow(workers, s, who, b);
  }

  /** On a safe backend a subtraction leaves every other pending one covered. */
  lemma SubtractStaysSolvent(workers: seq<Worker>, s: System, who: nat, b: string)
    requires Inv(workers, s, b) && !Risky(workers, b)
    requires who < |workers| && workers[who].backend == b && s.pcs[who].Subtract?
    ensures Solvent(workers, Step(workers, s, who), b)
  {
    var s' := Step(workers, s, who);
    StepSubtracts(workers, s, who, b);
    forall i | 0 <= i < |workers| && workers[i].backend == b && s'.pcs[i].Subtract?
      ensures s'.pcs[i].amount <= LoadOf(s'.loads, b).inFlight
    {
      assert i != who && Placed(s.loads, workers[i], s.pcs[i]) && Placed(s.loads, workers[who], s.pcs[who]);
      if Is(workers, i, b, Paired) {
        assert forall k :: !Is(workers, k, b, FinishOnly);
        AddedIsTakenOrOutstanding(workers, s', b);
        OneOutstanding(workers, s'.pcs, b, i);
      } else {
        assert Is(workers, i, b, FinishOnly) && !Is(workers, who, b, Paired);
        assert Is(workers, who, b, FinishOnly);
        NothingAdded(workers, s.pcs, b);
      }
    }
  }

  /** A paired worker about to load finds its own start still counted. */
  lemma OwnStartIsCounted(workers: seq<Worker>, s: System, who: nat, b: string)
    requires Inv(workers, s, b) && !Risky(workers, b)
    requires Is(workers, who, b, Paired) && s.pcs[who] == LoadInFlight
    ensures LoadOf(s.loads, b).inFlight > 0
  {
    assert forall k :: !Is(workers, k, b, FinishOnly);
    AddedIsTakenOrOutstanding(workers, s, b);
    OneOutstanding(workers, s.pcs, b, who);
  }

  lemma StepKeeps(workers: seq<Worker>, s: System, who: nat, b: string)
    requires |workers| <= U64_MAX && !Risky(workers, b)
    requires Inv(workers, s, b) && who < |workers|
    ensures Inv(workers, Step(workers, s, who), b)
  {
    if workers[who].backend != b {
      StepElsewhere(workers, s, who, b);
    } else if s.pcs[who].Add? {
      StepAdds(workers, s, who, b);
    } else if s.pcs[who].Count? {
      StepCounts(workers, s, who, b);
    } else if s.pcs[who].Subtract? {
      StepSubtracts(workers, s, who, b);
      SubtractStaysSolvent(workers, s, who, b);
    } else {
      if s.pcs[who] == LoadInFlight && workers[who].shape == Paired {
        OwnStartIsCounted(workers, s, who, b);
      }
      StepLooks(workers, s, who, b);
    }
  }

  lemma StartKeeps(workers: seq<Worker>, b: string)
    ensures Inv(workers, Start(workers), b)
  {
    var s := Start(workers);
    TotalConstant(Over(workers, s.pcs, (w: Worker, pc: Pc) => Added(w, pc, b)), 0);
    TotalConstant(Over(workers, s.pcs, (w: Worker, pc: Pc) => Taken(w, pc, b)), 0);
    forall e
      ensures AllEnded(workers, s.pcs, b, e) == 0
    {
      TotalConstant(Over(workers, s.pcs, (w: Worker, pc: Pc) => Ended(w, pc, b, e)), 0);
    }
  }

  lemma ForgetElsewhere(workers: seq<Worker>, s: System, backend: string, b: string)
    requires Inv(workers, s, b) && backend != b
    ensures Inv(workers, Play(workers, s, Forget(backend)), b)
  {
    assert LoadOf(s.loads - {backend}, b) == LoadOf(s.loads, b);
  }

  lemma {:induction false} RunKeeps(workers: seq<Worker>, moves: seq<Move>, b: string)
    requires |workers| <= U64_MAX && !Risky(workers, b) && Forget(b) !in moves
    ensures Inv(workers, Run(workers, Start(workers), moves), b)
  {
    if moves == [] {
      StartKeeps(workers, b);
    } else {
      var before := moves[..|moves| - 1];
      var m := moves[|moves| - 1];
      RunKeeps(workers, before, b);
      if m.Forget? {
        ForgetElsewhere(workers, Run(workers, Start(workers), before), m.backend, b);
      } else if m.who < |workers| {
        StepKeeps(workers, Run(workers, Start(workers), before), m.who, b);
      }
    }
  }

  // ---- Main result: every interleaving ----

  /** Its finish is recorded, however it ended. */
  function Finished(w: Worker, pc: Pc, backend: string): nat {
    if w.backend == backend && w.shape != StartOnly && pc.Done? then 1 else 0
  }

  function AllFinished(workers: seq<Worker>, pcs: seq<Pc>, backend: string): nat
    requires |workers| == |pcs|
  {
    SumOver(workers, pcs, (w: Worker, pc: Pc) => Finished(w, pc, backend))
  }

  lemma FinishedByEnding(workers: seq<Worker>, pcs: seq<Pc>, b: string)
    requires |workers| == |pcs|
    ensures AllFinished(workers, pcs, b)
            == AllEnded(workers, pcs, b, Completed) + AllEnded(workers, pcs, b, Saturated) + AllEnded(workers, pcs, b, Failed)
  {
    var completed := Over(workers, pcs, (w: Worker, pc: Pc) => Ended(w, pc, b, Completed));
    var saturated := Over(workers, pcs, (w: Worker, pc: Pc) => Ended(w, pc, b, Saturated));
    var failed := Over(workers, pcs, (w: Worker, pc: Pc) => Ended(w, pc, b, Failed));
    var rest := seq(|pcs|, i requires 0 <= i < |pcs| => saturated[i] + failed[i]);
    TotalDifference(rest, saturated, failed);
    TotalDifference(Over(workers, pcs, (w: Worker, pc: Pc) => Finished(w, pc, b)), completed, rest);
  }

  /** At every moment of every interleaving in which each finish has its own start and
      the backend is not forgotten, whether or not the moves respect the lock, in-flight is the number of outstanding items, no subtraction underflows, and
      the three tallies add up to the recorded finishes; when all have finished,
      nothing is in flight. The bound is the range of the counter. */
  lemma EveryInterleaving(workers: seq<Worker>, moves: seq<Move>, b: string)
    requires |workers| <= U64_MAX && Forget(b) !in moves && forall i :: !Is(workers, i, b, FinishOnly)
    ensures var s := Run(workers, Start(workers), moves);
            var l := LoadOf(s.loads, b);
            && l.inFlight == AllOutstanding(workers, s.pcs, b)
            && (forall who | 0 <= who < |workers| && workers[who].backend == b :: !Underflows(workers, s, who))
            && l.completed + l.saturated + l.failed == AllFinished(workers, s.pcs, b)
            && l.completed == AllEnded(workers, s.pcs, b, Completed)
            && l.saturated == AllEnded(workers, s.pcs, b, Saturated)
            && l.failed == AllEnded(workers, s.pcs, b, Failed)
            && ((forall i | 0 <= i < |workers| && workers[i].backend == b :: workers[i].shape == Paired && s.pcs[i].Done?)
                ==> l.inFlight == 0)
  {
    var s := Run(workers, Start(workers), moves);
    RunKeeps(workers, moves, b);
    AddedIsTakenOrOutstanding(workers, s, b);
    FinishedByEnding(workers, s.pcs, b);
    assert forall e :: Tallied(LoadOf(s.loads, b), e) == AllEnded(workers, s.pcs, b, e);
    if forall i | 0 <= i < |workers| && workers[i].backend == b :: workers[i].shape == Paired && s.pcs[i].Done? {
      TotalConstant(Over(workers, s.pcs, (w: Worker, pc: Pc) => Outstanding(w, pc, b)), 0);
    }
  }

  // ---- The balancer-wide report counters ----

  function Announced(w: Worker, pc: Pc, ending: Ending): nat {
    if w.shape != StartOnly && w.ending == ending && pc != EnsureStart && pc != Add && pc != Announce then 1 else 0
  }

  function AllAnnounced(workers: seq<Worker>, pcs: seq<Pc>, ending: Ending): nat
    requires |workers| == |pcs|
  {
    SumOver(workers, pcs, (w: Worker, pc: Pc) => Announced(w, pc, ending))
  }

  lemma AnnouncedMoves(workers: seq<Worker>, s: System, who: nat, ending: Ending)
    requires |s.pcs| == |workers| <= U64_MAX && who < |workers|
    requires workers[who].shape == StartOnly ==> s.pcs[who] in {EnsureStart, Add, Done(0)}
    requires Tallied(s.reported, ending) == AllAnnounced(workers, s.pcs, ending)
    ensures var s' := Step(workers, s, who);
            Tallied(s'.reported, ending) == AllAnnounced(workers, s'.pcs, ending)
  {
    var s' := Step(workers, s, who);
    var of := (w: Worker, pc: Pc) => Announced(w, pc, ending);
    SumMoves(workers, s.pcs, who, s'.pcs[who], of);
    TotalAtMost(Over(workers, s'.pcs, of), 1);
  }

  /** The report counters count the announced finishes of every backend, paired or not,
      forgotten or not. */
  lemma {:induction false} ReportsCount(workers: seq<Worker>, moves: seq<Move>, ending: Ending)
    requires |workers| <= U64_MAX
    ensures var s := Run(workers, Start(workers), moves);
            && Tallied(s.reported, ending) == AllAnnounced(workers, s.pcs, ending)
            && forall i | 0 <= i < |workers| && workers[i].shape == StartOnly :: s.pcs[i] in {EnsureStart, Add, Done(0)}
  {
    if moves == [] {
      TotalConstant(Over(workers, Start(workers).pcs, (w: Worker, pc: Pc) => Announced(w, pc, ending)), 0);
    } else {
      var before := moves[..|moves| - 1];
      var m := moves[|moves| - 1];
      ReportsCount(workers, before, ending);
      if m.Act? && m.who < |workers| {
        AnnouncedMoves(workers, Run(workers, Start(workers), before), m.who, ending);
      }
    }
  }

  // ---- Schedules that respect the lock ----

  /** These moves are legal and lead here. */
  ghost predicate Reached(workers: seq<Worker>, moves: seq<Move>, s: System) {
    Legal(workers, moves) && Run(workers, Start(workers), moves) == s
  }

  lemma Extend(workers: seq<Worker>, moves: seq<Move>, s: System, m: Move)
    requires |s.pcs| == |workers| && Reached(workers, moves, s) && Enabled(workers, s, m)
    ensures Reached(workers, moves + [m], Play(workers, s, m))
  {
    assert (moves + [m])[..|moves|] == moves;
  }

  /** Runs a worker through its start on a backend with nothing in flight. */
  lemma RunStart(workers: seq<Worker>, moves: seq<Move>, s: System, who: nat) returns (longer: seq<Move>, s': System)
    requires |s.pcs| == |workers| && Reached(workers, moves, s) && !Reading(s)
    requires who < |workers| && s.pcs[who] == EnsureStart && LoadOf(s.loads, workers[who].backend).inFlight == 0
    ensures |s'.pcs| == |workers| && Reached(workers, longer, s') && !Reading(s')
    ensures forall b :: Forget(b) in longer ==> Forget(b) in moves
    ensures LoadOf(s'.loads, workers[who].backend).inFlight == 1
    ensures s'.pcs == s.pcs[who := if workers[who].shape == StartOnly then Done(0) else Announce]
  {
    Extend(workers, moves, s, Act(who));
    var s1 := Step(workers, s, who);
    Extend(workers, moves + [Act(who)], s1, Act(who));
    longer, s' := moves + [Act(who)] + [Act(who)], Step(workers, s1, who);
  }

  /** Runs a worker from its announcement to the point where it will take the read lock. */
  lemma RunToLoad(workers: seq<Worker>, moves: seq<Move>, s: System, who: nat) returns (longer: seq<Move>, s': System)
    requires |s.pcs| == |workers| && Reached(workers, moves, s) && !Reading(s)
    requires who < |workers| && s.pcs[who] == Announce
    ensures |s'.pcs| == |workers| && Reached(workers, longer, s') && !Reading(s')
    ensures forall b :: Forget(b) in longer ==> Forget(b) in moves
    ensures s'.loads == Ensured(s.loads, workers[who].backend) && s'.pcs == s.pcs[who := LoadInFlight]
  {
    Extend(workers, moves, s, Act(who));
    var s1 := Step(workers, s, who);
    Extend(workers, moves + [Act(who)], s1, Act(who));
    longer, s' := moves + [Act(who)] + [Act(who)], Step(workers, s1, who);
  }

  /** Two workers past the write lock share the read lock: both load 1, both subtract it. */
  lemma TwoSubtractionsUnderflow(workers: seq<Worker>, moves: seq<Move>, s: System, i: nat, j: nat, b: string)
      returns (longer: seq<Move>)
    requires |s.pcs| == |workers| && Reached(workers, moves, s) && !Reading(s)
    requires i < |workers| && j < |workers| && i != j && workers[i].backend == workers[j].backend == b
    requires s.pcs[i] == s.pcs[j] == Announce && LoadOf(s.loads, b).inFlight == 1
    ensures Legal(workers, longer) && Underflows(workers, Run(workers, Start(workers), longer), i)
    ensures forall c :: Forget(c) in longer ==> Forget(c) in moves
  {
    var m1, s1 := RunToLoad(workers, moves, s, i);
    var m2, s2 := RunToLoad(workers, m1, s1, j);
    Extend(workers, m2, s2, Act(i));
    var s3 := Step(workers, s2, i);
    Extend(workers, m2 + [Act(i)], s3, Act(j));
    var s4 := Step(workers, s3, j);
    assert s4.pcs[i] == s4.pcs[j] == Subtract(1) && LoadOf(s4.loads, b).inFlight == 1;
    Extend(workers, m2 + [Act(i)] + [Act(j)], s4, Act(j));
    longer := m2 + [Act(i)] + [Act(j)] + [Act(j)];
  }

  // ---- Exactly when a subtraction can underflow ----

  /** No legal schedule without `forget` on the backend takes its counter below zero. */
  ghost predicate NeverUnderflows(workers: seq<Worker>, b: string) {
    forall moves, who: nat | Legal(workers, moves) && Forget(b) !in moves && who < |workers| && workers[who].backend == b ::
      !Underflows(workers, Run(workers, Start(workers), moves), who)
  }

  lemma RiskyUnderflows(workers: seq<Worker>, b: string)
    requires Risky(workers, b)
    ensures !NeverUnderflows(workers, b)
  {
    var none: seq<Move>, s := [], Start(workers);
    assert Reached(workers, none, s) && !Reading(s);
    if i, j :| Is(workers, i, b, FinishOnly) && Is(workers, j, b, Paired) {
      var started, s1 := RunStart(workers, none, s, j);
      var moves := TwoSubtractionsUnderflow(workers, started, s1, i, j, b);
    } else {
      var i, j, k :| i != j && Is(workers, i, b, FinishOnly) && Is(workers, j, b, FinishOnly) && Is(workers, k, b, StartOnly);
      var started, s1 := RunStart(workers, none, s, k);
      var moves := TwoSubtractionsUnderflow(workers, started, s1, i, j, b);
    }
  }

  /** Without `forget`, some interleaving that respects the lock underflows the counter exactly
      when an unpaired finish stands beside a paired worker, or two beside an unfinished start. */
  lemma UnderflowsExactly(workers: seq<Worker>, b: string)
    requires |workers| <= U64_MAX
    ensures NeverUnderflows(workers, b) <==> !Risky(workers, b)
  {
    if Risky(workers, b) {
      RiskyUnderflows(workers, b);
    } else {
      forall moves, who: nat | Legal(workers, moves) && Forget(b) !in moves && who < |workers| && workers[who].backend == b
        ensures !Underflows(workers, Run(workers, Start(workers), moves), who)
      {
        RunKeeps(workers, moves, b);
      }
    }
  }

  // ---- With `forget` ----

  predicate Starts(workers: seq<Worker>, i: int, b: string) {
    0 <= i < |workers| && workers[i].backend == b && workers[i].shape != FinishOnly
  }

  predicate Finishes(workers: seq<Worker>, i: int, b: string) {
    0 <= i < |workers| && workers[i].backend == b && workers[i].shape != StartOnly
  }

  /** Two workers that finish on the backend and one, perhaps one of them, that starts on it. */
  ghost predicate RiskyWithForget(workers: seq<Worker>, b: string) {
    exists i, j, k :: i != j && Finishes(workers, i, b) && Finishes(workers, j, b) && Starts(workers, k, b)
  }

  ghost predicate NeverUnderflowsForgetting(workers: seq<Worker>, b: string) {
    forall moves, who: nat | Legal(workers, moves) && who < |workers| && workers[who].backend == b ::
      !Underflows(workers, Run(workers, Start(workers), moves), who)
  }

  /** What `forget` leaves of the invariant: the counter is at most what was added, and
      every pending subtraction is covered. */
  ghost predicate Covered(workers: seq<Worker>, s: System, b: string) {
    && Solvent(workers, s, b)
    && LoadOf(s.loads, b).inFlight <= AllAdded(workers, s.pcs, b)
    && forall i | 0 <= i < |workers| ::
         && (workers[i].shape == StartOnly ==> s.pcs[i] in {EnsureStart, Add, Done(0)})
         && (workers[i].shape == FinishOnly ==> s.pcs[i] != EnsureStart && s.pcs[i] != Add)
  }

  lemma ActStaysCovered(workers: seq<Worker>, s: System, who: nat, b: string)
    requires |workers| <= U64_MAX && Covered(workers, s, b) && who < |workers| && !s.pcs[who].Subtract?
    ensures Covered(workers, Step(workers, s, who), b)
  {
    var s' := Step(workers, s, who);
    SumsMove(workers, s.pcs, who, s'.pcs[who], b);
    SumsFit(workers, s'.pcs, b);
  }

  /** A second pending subtraction would be a second finisher, and then nothing ever started. */
  lemma SubtractStaysCovered(workers: seq<Worker>, s: System, who: nat, b: string)
    requires Covered(workers, s, b) && !RiskyWithForget(workers, b) && who < |workers| && s.pcs[who].Subtract?
    ensures Covered(workers, Step(workers, s, who), b)
  {
    var s' := Step(workers, s, who);
    SumsMove(workers, s.pcs, who, s'.pcs[who], b);
    forall i | 0 <= i < |workers| && workers[i].backend == b && s'.pcs[i].Subtract?
      ensures s'.pcs[i].amount <= LoadOf(s'.loads, b).inFlight
    {
      if workers[who].backend == b {
        assert i != who && Finishes(workers, i, b) && Finishes(workers, who, b);
        assert forall k :: !Starts(workers, k, b);
        assert forall k :: Is(workers, k, b, Paired) || Is(workers, k, b, StartOnly) ==> Starts(workers, k, b);
        NothingAdded(workers, s.pcs, b);
      }
    }
  }

  lemma PlayStaysCovered(workers: seq<Worker>, s: System, m: Move, b: string)
    requires |workers| <= U64_MAX && Covered(workers, s, b) && !RiskyWithForget(workers, b) && Enabled(workers, s, m)
    ensures Covered(workers, Play(workers, s, m), b)
  {
    if m.Act? && s.pcs[m.who].Subtract? {
      SubtractStaysCovered(workers, s, m.who, b);
    } else if m.Act? {
      ActStaysCovered(workers, s, m.who, b);
    } else {
      assert LoadOf(s.loads - {m.backend}, b) == if m.backend == b then IDLE else LoadOf(s.loads, b);
    }
  }

  lemma {:induction false} LegalStaysCovered(workers: seq<Worker>, moves: seq<Move>, b: string)
    requires |workers| <= U64_MAX && !RiskyWithForget(workers, b) && Legal(workers, moves)
    ensures Covered(workers, Run(workers, Start(workers), moves), b)
  {
    if moves != [] {
      var before := moves[..|moves| - 1];
      LegalStaysCovered(workers, before, b);
      PlayStaysCovered(workers, Run(workers, Start(workers), before), moves[|moves| - 1], b);
    }
  }

  /** Between two starts `forget` drops the first, so two paired finishes meet a count of one. */
  lemma PairedForgottenUnderflows(workers: seq<Worker>, i: nat, j: nat, b: string)
    requires i != j && Is(workers, i, b, Paired) && Is(workers, j, b, Paired)
    ensures !NeverUnderflowsForgetting(workers, b)
  {
    var none: seq<Move>, s := [], Start(workers);
    assert Reached(workers, none, s) && !Reading(s);
    var m1, s1 := RunStart(workers, none, s, i);
    Extend(workers, m1, s1, Forget(b));
    var s2 := Play(workers, s1, Forget(b));
    var m3, s3 := RunStart(workers, m1 + [Forget(b)], s2, j);
    var moves := TwoSubtractionsUnderflow(workers, m3, s3, i, j, b);
  }

  lemma RiskyWithForgetUnderflows(workers: seq<Worker>, b: string)
    requires RiskyWithForget(workers, b)
    ensures !NeverUnderflowsForgetting(workers, b)
  {
    var i, j, k :| i != j && Finishes(workers, i, b) && Finishes(workers, j, b) && Starts(workers, k, b);
    if workers[i].shape == Paired && workers[j].shape == Paired {
      PairedForgottenUnderflows(workers, i, j, b);
    } else {
      var none: seq<Move>, s := [], Start(workers);
      assert Reached(workers, none, s) && !Reading(s);
      var starter := if workers[i].shape == Paired then i else if workers[j].shape == Paired then j else k;
      var started, s1 := RunStart(workers, none, s, starter);
      var moves := TwoSubtractionsUnderflow(workers, started, s1, i, j, b);
    }
  }

  /** With `forget`, some interleaving that respects the lock underflows exactly when two workers
      finish on the backend and some worker starts on it, paired or not. */
  lemma ForgetUnderflowsExactly(workers: seq<Worker>, b: string)
    requires |workers| <= U64_MAX
    ensures NeverUnderflowsForgetting(workers, b) <==> !RiskyWithForget(workers, b)
  {
    if RiskyWithForget(workers, b) {
      RiskyWithForgetUnderflows(workers, b);
    } else {
      forall moves, who: nat | Legal(workers, moves) && who < |workers| && workers[who].backend == b
        ensures !Underflows(workers, Run(workers, Start(workers), moves), who)
      {
        LegalStaysCovered(workers, moves, b);
      }
    }
  }
}
