/** Any number of threads inside `FlowCounters::record` at once. Every load and
    every compare-exchange is a step of its own; the schedule picks the thread
    and says whether a weak exchange fails spuriously. A thread that records
    several packets is several entries of `calls` under a narrower schedule. */
module CounterInterleaving {
  import opened Saturating
  import opened Sums
  import opened FlowCounters

  datatype Call = Call(bytes: U64, ts: U64)

  /** Where a thread stands; a `Cas` position carries the value it last saw. */
  datatype Pc =
    | LoadPackets | CasPackets(seen: U64)
    | LoadBytes | CasBytes(seen: U64)
    | LoadFirst | CasFirst(seen: U64)
    | LoadLast | CasLast(seen: U64)
    | Done

  datatype System = System(c: Counters, pcs: seq<Pc>)

  datatype Move = Move(thread: nat, spurious: bool)

  function Start(calls: seq<Call>): System {
    System(ZERO, seq(|calls|, _ => LoadPackets))
  }

  /** The early return of `update_first_seen`, taken on a freshly observed value. */
  function CheckFirst(seen: U64, ts: U64): Pc {
    if seen != 0 && ts >= seen then LoadLast else CasFirst(seen)
  }

  function CheckLast(seen: U64, ts: U64): Pc {
    if ts <= seen then Done else CasLast(seen)
  }

  function StepThread(c: Counters, pc: Pc, call: Call, spurious: bool): (Counters, Pc) {
    match pc
    case LoadPackets => (c, CasPackets(c.packets))
    case CasPackets(seen) =>
      if !spurious && c.packets == seen then (c.(packets := SatAdd(seen, 1)), LoadBytes)
      else (c, CasPackets(c.packets))
    case LoadBytes => (c, CasBytes(c.bytes))
    case CasBytes(seen) =>
      if !spurious && c.bytes == seen then (c.(bytes := SatAdd(seen, call.bytes)), LoadFirst)
      else (c, CasBytes(c.bytes))
    case LoadFirst => (c, CheckFirst(c.firstSeen, call.ts))
    case CasFirst(seen) =>
      if !spurious && c.firstSeen == seen then (c.(firstSeen := call.ts), LoadLast)
      else (c, CheckFirst(c.firstSeen, call.ts))
    case LoadLast => (c, CheckLast(c.lastSeen, call.ts))
    case CasLast(seen) =>
      if !spurious && c.lastSeen == seen then (c.(lastSeen := call.ts), Done)
      else (c, CheckLast(c.lastSeen, call.ts))
    case Done => (c, Done)
  }

  function Step(calls: seq<Call>, s: System, m: Move): (s': System)
    requires |s.pcs| == |calls|
    ensures |s'.pcs| == |calls|
  {
    if m.thread >= |calls| then s else
    var (c, pc) := StepThread(s.c, s.pcs[m.thread], calls[m.thread], m.spurious);
    System(c, s.pcs[m.thread := pc])
  }

  function Run(calls: seq<Call>, s: System, schedule: seq<Move>): (s': System)
    requires |s.pcs| == |calls|
    ensures |s'.pcs| == |calls|
  {
    if schedule == [] then s
    else Step(calls, Run(calls, s, schedule[..|schedule| - 1]), schedule[|schedule| - 1])
  }

  predicate Complete(s: System) {
    forall i | 0 <= i < |s.pcs| :: s.pcs[i] == Done
  }

  predicate AllPositive(calls: seq<Call>) {
    forall i | 0 <= i < |calls| :: calls[i].ts > 0
  }

  predicate AllZero(calls: seq<Call>) {
    forall i | 0 <= i < |calls| :: calls[i].ts == 0
  }

  function SumBytes(calls: seq<Call>): nat {
    Total(seq(|calls|, i requires 0 <= i < |calls| => calls[i].bytes))
  }

  /** The largest timestamp, 0 when nothing was recorded. */
  ghost predicate IsLatest(calls: seq<Call>, v: nat) {
    && (forall i | 0 <= i < |calls| :: calls[i].ts <= v)
    && (if calls == [] then v == 0 else exists i | 0 <= i < |calls| :: calls[i].ts == v)
  }

  /** The smallest timestamp, 0 when nothing was recorded. */
  ghost predicate IsEarliest(calls: seq<Call>, v: nat) {
    && (forall i | 0 <= i < |calls| :: v <= calls[i].ts)
    && (if calls == [] then v == 0 else exists i | 0 <= i < |calls| :: calls[i].ts == v)
  }

  // ---- The inductive invariant ----

  /** How many of its four updates a thread has behind it. */
  function Phase(pc: Pc): nat {
    match pc
    case LoadPackets | CasPackets(_) => 0
    case LoadBytes | CasBytes(_) => 1
    case LoadFirst | CasFirst(_) => 2
    case LoadLast | CasLast(_) => 3
    case Done => 4
  }

  /** A pending exchange of a timestamp is one its early return did not cover. */
  predicate PcOk(call: Call, pc: Pc) {
    && (pc.CasFirst? ==> pc.seen == 0 || call.ts < pc.seen)
    && (pc.CasLast? ==> pc.seen < call.ts)
  }

  function PacketWeights(pcs: seq<Pc>): seq<nat> {
    seq(|pcs|, i requires 0 <= i < |pcs| => if Phase(pcs[i]) > 0 then 1 else 0)
  }

  function ByteWeights(calls: seq<Call>, pcs: seq<Pc>): seq<nat>
    requires |calls| == |pcs|
  {
    seq(|pcs|, i requires 0 <= i < |pcs| => if Phase(pcs[i]) > 1 then calls[i].bytes else 0)
  }

  ghost predicate FirstOk(calls: seq<Call>, s: System)
    requires |s.pcs| == |calls|
  {
    && (forall i | 0 <= i < |calls| :: Phase(s.pcs[i]) > 2 ==> 0 < s.c.firstSeen <= calls[i].ts)
    && (s.c.firstSeen == 0 || exists i | 0 <= i < |calls| :: Phase(s.pcs[i]) > 2 && calls[i].ts == s.c.firstSeen)
  }

  ghost predicate LastOk(calls: seq<Call>, s: System)
    requires |s.pcs| == |calls|
  {
    && (forall i | 0 <= i < |calls| :: Phase(s.pcs[i]) > 3 ==> calls[i].ts <= s.c.lastSeen)
    && (s.c.lastSeen == 0 || exists i | 0 <= i < |calls| :: Phase(s.pcs[i]) > 3 && calls[i].ts == s.c.lastSeen)
  }

  ghost predicate Inv(calls: seq<Call>, s: System) {
    && |s.pcs| == |calls|
    && (forall i | 0 <= i < |calls| :: PcOk(calls[i], s.pcs[i]))
    && s.c.packets == Cap(Total(PacketWeights(s.pcs)))
    && s.c.bytes == Cap(Total(ByteWeights(calls, s.pcs)))
    && LastOk(calls, s)
    && (AllPositive(calls) ==> FirstOk(calls, s))
    && (AllZero(calls) ==> s.c.firstSeen == 0)
  }

  lemma StartKeeps(calls: seq<Call>)
    ensures Inv(calls, Start(calls))
  {
    var s := Start(calls);
    TotalConstant(PacketWeights(s.pcs), 0);
    TotalConstant(ByteWeights(calls, s.pcs), 0);
  }

  /** One step of one thread: each counter moves only with the phase that owns it. */
  lemma ThreadEffect(c: Counters, pc: Pc, call: Call, spurious: bool)
    requires PcOk(call, pc)
    ensures var (c', pc') := StepThread(c, pc, call, spurious);
            && Phase(pc) <= Phase(pc') && PcOk(call, pc')
            && c'.packets == (if Phase(pc) == 0 < Phase(pc') then SatAdd(c.packets, 1) else c.packets)
            && c'.bytes == (if Phase(pc) <= 1 < Phase(pc') then SatAdd(c.bytes, call.bytes) else c.bytes)
            && c'.firstSeen == (if Phase(pc) <= 2 < Phase(pc') then FirstAfter(c.firstSeen, call.ts) else c.firstSeen)
            && c'.lastSeen == (if Phase(pc) <= 3 < Phase(pc') then LastAfter(c.lastSeen, call.ts) else c.lastSeen)
  {
  }

  lemma WeightsMove(calls: seq<Call>, pcs: seq<Pc>, i: nat, pc: Pc)
    requires |calls| == |pcs| && i < |pcs| && Phase(pcs[i]) <= Phase(pc)
    ensures Total(PacketWeights(pcs[i := pc]))
            == Total(PacketWeights(pcs)) + if Phase(pcs[i]) == 0 < Phase(pc) then 1 else 0
    ensures Total(ByteWeights(calls, pcs[i := pc]))
            == Total(ByteWeights(calls, pcs)) + if Phase(pcs[i]) <= 1 < Phase(pc) then calls[i].bytes else 0
  {
    var p, p' := PacketWeights(pcs), PacketWeights(pcs[i := pc]);
    var b, b' := ByteWeights(calls, pcs), ByteWeights(calls, pcs[i := pc]);
    assert p' == p[i := p'[i]];
    assert b' == b[i := b'[i]];
    TotalUpdate(p, i, p'[i]);
    TotalUpdate(b, i, b'[i]);
  }

  lemma LastMove(calls: seq<Call>, s: System, i: nat, c: Counters, pc: Pc)
    requires |s.pcs| == |calls| && i < |calls| && LastOk(calls, s)
    requires Phase(s.pcs[i]) <= Phase(pc)
    requires c.lastSeen == if Phase(s.pcs[i]) <= 3 < Phase(pc) then LastAfter(s.c.lastSeen, calls[i].ts) else s.c.lastSeen
    ensures LastOk(calls, System(c, s.pcs[i := pc]))
  {
    if c.lastSeen != 0 {
      if c.lastSeen == s.c.lastSeen {
        var j :| 0 <= j < |calls| && Phase(s.pcs[j]) > 3 && calls[j].ts == s.c.lastSeen;
        assert Phase(s.pcs[i := pc][j]) > 3;
      } else {
        assert Phase(s.pcs[i := pc][i]) > 3;
      }
    }
  }

  lemma FirstMove(calls: seq<Call>, s: System, i: nat, c: Counters, pc: Pc)
    requires |s.pcs| == |calls| && i < |calls| && AllPositive(calls) && FirstOk(calls, s)
    requires Phase(s.pcs[i]) <= Phase(pc)
    requires c.firstSeen == if Phase(s.pcs[i]) <= 2 < Phase(pc) then FirstAfter(s.c.firstSeen, calls[i].ts) else s.c.firstSeen
    ensures FirstOk(calls, System(c, s.pcs[i := pc]))
  {
    if c.firstSeen != 0 {
      if c.firstSeen == s.c.firstSeen {
        var j :| 0 <= j < |calls| && Phase(s.pcs[j]) > 2 && calls[j].ts == s.c.firstSeen;
        assert Phase(s.pcs[i := pc][j]) > 2;
      } else {
        assert Phase(s.pcs[i := pc][i]) > 2;
      }
    }
  }

  lemma StepKeeps(calls: seq<Call>, s: System, m: Move)
    requires Inv(calls, s) && m.thread < |calls|
    ensures Inv(calls, Step(calls, s, m))
  {
    var i := m.thread;
    var (c, pc) := StepThread(s.c, s.pcs[i], calls[i], m.spurious);
    ThreadEffect(s.c, s.pcs[i], calls[i], m.spurious);
    WeightsMove(calls, s.pcs, i, pc);
    LastMove(calls, s, i, c, pc);
    if AllPositive(calls) {
      FirstMove(calls, s, i, c, pc);
    }
  }

  lemma {:induction false} RunKeeps(calls: seq<Call>, s: System, schedule: seq<Move>)
    requires Inv(calls, s)
    ensures Inv(calls, Run(calls, s, schedule))
  {
    if schedule != [] {
      var before := schedule[..|schedule| - 1];
      var m := schedule[|schedule| - 1];
      RunKeeps(calls, s, before);
      if m.thread < |calls| {
        StepKeeps(calls, Run(calls, s, before), m);
      }
    }
  }

  // ---- Main result: every interleaving ----

  /** Whatever the schedule, once every call has returned the counters hold the
      capped count, the capped byte sum and the extreme timestamps. */
  lemma EveryInterleaving(calls: seq<Call>, schedule: seq<Move>)
    requires Complete(Run(calls, Start(calls), schedule))
    ensures var c := Run(calls, Start(calls), schedule).c;
            && c.packets == Cap(|calls|)
            && c.bytes == Cap(SumBytes(calls))
            && IsLatest(calls, c.lastSeen)
            && (AllPositive(calls) || AllZero(calls) ==> IsEarliest(calls, c.firstSeen))
  {
    StartKeeps(calls);
    RunKeeps(calls, Start(calls), schedule);
    var s := Run(calls, Start(calls), schedule);
    TotalConstant(PacketWeights(s.pcs), 1);
    assert ByteWeights(calls, s.pcs) == seq(|calls|, i requires 0 <= i < |calls| => calls[i].bytes);
    if calls != [] {
      assert s.pcs[0] == Done;
      assert calls[0].ts <= s.c.lastSeen;
      assert s.c.lastSeen == 0 ==> calls[0].ts == s.c.lastSeen;
      if AllPositive(calls) {
        assert 0 < s.c.firstSeen;
        var j :| 0 <= j < |calls| && Phase(s.pcs[j]) > 2 && calls[j].ts == s.c.firstSeen;
      } else if AllZero(calls) {
        assert calls[0].ts == s.c.firstSeen;
      }
    }
  }

  // ---- Progress: an undisturbed thread finishes, with the sequential effect ----

  lemma {:induction false} RunSplit(calls: seq<Call>, s: System, a: seq<Move>, b: seq<Move>)
    requires |s.pcs| == |calls|
    ensures Run(calls, s, a + b) == Run(calls, Run(calls, s, a), b)
  {
    if b == [] {
      assert a + b == a;
    } else {
      assert (a + b)[..|a + b| - 1] == a + b[..|b| - 1];
      RunSplit(calls, s, a, b[..|b| - 1]);
    }
  }

  /** What the counters become when the thread at `pc` runs on alone. */
  function Finish(c: Counters, pc: Pc, call: Call): Counters {
    var k := Phase(pc);
    var c0 := if k > 0 then c else c.(packets := SatAdd(c.packets, 1));
    var c1 := if k > 1 then c0 else c0.(bytes := SatAdd(c0.bytes, call.bytes));
    var c2 := if k > 2 then c1 else c1.(firstSeen := FirstAfter(c1.firstSeen, call.ts));
    if k > 3 then c2 else c2.(lastSeen := LastAfter(c2.lastSeen, call.ts))
  }

  /** Undisturbed steps left: a stale value costs one failed exchange. */
  function StepsLeft(c: Counters, pc: Pc): nat {
    var stale := match pc
                 case CasPackets(v) => if v == c.packets then 1 else 2
                 case CasBytes(v) => if v == c.bytes then 1 else 2
                 case CasFirst(v) => if v == c.firstSeen then 1 else 2
                 case CasLast(v) => if v == c.lastSeen then 1 else 2
                 case _ => if pc == Done then 0 else 3;
    4 * (4 - Phase(pc)) + stale
  }

  lemma FinishThread(calls: seq<Call>, s: System, i: nat) returns (schedule: seq<Move>)
    requires |s.pcs| == |calls| && i < |calls| && PcOk(calls[i], s.pcs[i])
    ensures Run(calls, s, schedule) == System(Finish(s.c, s.pcs[i], calls[i]), s.pcs[i := Done])
    decreases StepsLeft(s.c, s.pcs[i])
  {
    if s.pcs[i] == Done {
      schedule := [];
      assert s.pcs[i := Done] == s.pcs;
    } else {
      var m := Move(i, false);
      var s' := Step(calls, s, m);
      assert Run(calls, s, [m]) == s' by {
        assert [m][..0] == [];
      }
      var rest := FinishThread(calls, s', i);
      schedule := [m] + rest;
      RunSplit(calls, s, [m], rest);
      assert s'.pcs[i := Done] == s.pcs[i := Done];
    }
  }

  /** Finishes every thread below `n` except `last`. */
  lemma FinishBelow(calls: seq<Call>, s: System, n: nat, last: nat) returns (schedule: seq<Move>)
    requires |s.pcs| == |calls| && n <= |calls|
    requires forall i | 0 <= i < |calls| :: PcOk(calls[i], s.pcs[i])
    ensures var s' := Run(calls, s, schedule);
            forall i | 0 <= i < |calls| :: s'.pcs[i] == if i < n && i != last then Done else s.pcs[i]
  {
    if n == 0 {
      schedule := [];
    } else {
      var before := FinishBelow(calls, s, n - 1, last);
      if n - 1 == last {
        schedule := before;
      } else {
        var one := FinishThread(calls, Run(calls, s, before), n - 1);
        schedule := before + one;
        RunSplit(calls, s, before, one);
      }
    }
  }

  /** No thread can be locked out: every reachable state runs on to completion. */
  lemma EveryRunCanComplete(calls: seq<Call>, schedule: seq<Move>) returns (rest: seq<Move>)
    ensures Complete(Run(calls, Start(calls), schedule + rest))
  {
    StartKeeps(calls);
    RunKeeps(calls, Start(calls), schedule);
    rest := FinishBelow(calls, Run(calls, Start(calls), schedule), |calls|, |calls|);
    RunSplit(calls, Start(calls), schedule, rest);
  }

  // ---- Timestamp 0: exactly when `first_seen` is the minimum ----

  ghost predicate AlwaysEarliest(calls: seq<Call>) {
    forall schedule :: Complete(Run(calls, Start(calls), schedule))
      ==> IsEarliest(calls, Run(calls, Start(calls), schedule).c.firstSeen)
  }

  /** Any call can be the last to record, and then it alone says whether a stamp is set:
      a positive one hides earlier zeros, a zero wipes out earlier stamps. */
  lemma RecordedLast(calls: seq<Call>, last: nat) returns (schedule: seq<Move>)
    requires last < |calls|
    ensures Complete(Run(calls, Start(calls), schedule))
    ensures Run(calls, Start(calls), schedule).c.firstSeen == 0 <==> calls[last].ts == 0
  {
    var others := FinishBelow(calls, Start(calls), |calls|, last);
    var s := Run(calls, Start(calls), others);
    assert s.pcs[last] == LoadPackets;
    var end := FinishThread(calls, s, last);
    schedule := others + end;
    RunSplit(calls, Start(calls), others, end);
  }

  /** `first_seen` ends as the minimum under every schedule exactly when the
      timestamps are all positive or all zero. */
  lemma EarliestExactly(calls: seq<Call>)
    ensures AlwaysEarliest(calls) <==> AllPositive(calls) || AllZero(calls)
  {
    if AllPositive(calls) || AllZero(calls) {
      forall schedule | Complete(Run(calls, Start(calls), schedule))
        ensures IsEarliest(calls, Run(calls, Start(calls), schedule).c.firstSeen)
      {
        EveryInterleaving(calls, schedule);
      }
    } else {
      var zero :| 0 <= zero < |calls| && calls[zero].ts == 0;
      var last :| 0 <= last < |calls| && calls[last].ts > 0;
      var schedule := RecordedLast(calls, last);
      assert calls[zero].ts < Run(calls, Start(calls), schedule).c.firstSeen;
    }
  }

  /** Whether the order in which the threads ran can be told from the counters. */
  ghost predicate SchedulesAgree(calls: seq<Call>) {
    forall one, other :: Complete(Run(calls, Start(calls), one)) && Complete(Run(calls, Start(calls), other))
      ==> Run(calls, Start(calls), one).c == Run(calls, Start(calls), other).c
  }

  /** All complete schedules of the same calls leave the same counters exactly when the
      timestamps are all positive or all zero. */
  lemma InterleavingsAgree(calls: seq<Call>)
    ensures SchedulesAgree(calls) <==> AllPositive(calls) || AllZero(calls)
  {
    if AllPositive(calls) || AllZero(calls) {
      forall one, other | Complete(Run(calls, Start(calls), one)) && Complete(Run(calls, Start(calls), other))
        ensures Run(calls, Start(calls), one).c == Run(calls, Start(calls), other).c
      {
        EveryInterleaving(calls, one);
        EveryInterleaving(calls, other);
      }
    } else {
      var zero :| 0 <= zero < |calls| && calls[zero].ts == 0;
      var positive :| 0 <= positive < |calls| && calls[positive].ts > 0;
      var one := RecordedLast(calls, zero);
      var other := RecordedLast(calls, positive);
      assert Run(calls, Start(calls), one).c != Run(calls, Start(calls), other).c;
    }
  }
}
