/** What every run of the flow table keeps: it is a bounded map over unordered
    conversations, its totals count what happened, and no packet or byte is
    created or lost except by saturation. */
module FlowTableProperties {
  import opened Options
  import opened Saturating
  import opened Net
  import opened FlowCounters
  import opened Flows
  import opened FlowTables

  // ---- Refinement: a plain bounded map keyed by the unordered conversation ----

  function Conversation(key: FlowKey): set<FlowKey> {
    {key, key.Reverse()}
  }

  type Conversations = map<set<FlowKey>, Flow>

  /** The same calls on a map whose keys have no direction. */
  function Plain(a: Conversations, maxEntries: nat, timeout: nat, op: Op): (Conversations, Reply) {
    match op
    case Find(key) => (a, Found(if Conversation(key) in a then Some(a[Conversation(key)]) else None))
    case Insert(flow) =>
      var c := Conversation(flow.key);
      if c in a then (a, Flag(false))
      else if |a| >= maxEntries then (a, Exhausted)
      else (a[c := flow], Flag(true))
    case GetOrCreate(key, now) =>
      var c := Conversation(key);
      if c in a then (a, Found(Some(a[c])))
      else if |a| >= maxEntries then (a, Exhausted)
      else (a[c := NewFlow(key, now)], Found(Some(NewFlow(key, now))))
    case Record(key, bytes, direction, ts, now) =>
      var c := Conversation(key);
      if c in a then (a[c := RecordPacket(a[c], bytes, direction, ts)], Flag(true))
      else if |a| >= maxEntries then (a, Exhausted)
      else (a[c := RecordPacket(NewFlow(key, now), bytes, direction, ts)], Flag(true))
    case Update(key, bytes, direction, ts) =>
      var c := Conversation(key);
      if c in a then (a[c := RecordPacket(a[c], bytes, direction, ts)], Flag(true)) else (a, Flag(false))
    case Remove(key) =>
      var c := Conversation(key);
      if c in a then (a - {c}, Found(Some(a[c]))) else (a, Found(None))
    case Close(key) =>
      var c := Conversation(key);
      if c in a then (a[c := a[c].(state := Closed)], Flag(true)) else (a, Flag(false))
    case ExpireIdle(now) =>
      var idle := set c | c in a && IsIdle(a[c], now, timeout);
      (a - idle, Count(|idle|))
    case Clear => (map[], Count(|a|))
  }

  /** No key is stored beside its distinct reverse, and every flow sits under its own key. */
  ghost predicate WellFormed(t: Table) {
    forall k | k in t.flows :: t.flows[k].key == k && (k.Reverse() in t.flows ==> k.Reverse() == k)
  }

  ghost predicate Represents(t: Table, a: Conversations) {
    && WellFormed(t)
    && a.Keys == (set k | k in t.flows :: Conversation(k))
    && (forall k | k in t.flows :: a[Conversation(k)] == t.flows[k])
  }

  lemma SameConversation(t: Table, a: Conversations, key: FlowKey)
    requires Represents(t, a)
    ensures Holds(t, key) <==> Conversation(key) in a
    ensures Holds(t, key) ==> Conversation(Home(t, key)) == Conversation(key) && a[Conversation(key)] == t.flows[Home(t, key)]
    ensures forall k | k in t.flows :: Conversation(k) == Conversation(key) <==> Holds(t, key) && k == Home(t, key)
  {
    assert key.Reverse().Reverse() == key;
    if Holds(t, key) {
      assert Conversation(Home(t, key)) == Conversation(key);
    }
    forall k | k in t.flows && Conversation(k) == Conversation(key)
      ensures k == key || k == key.Reverse()
    {
      assert k in Conversation(key);
    }
  }

  /** Distinct stored keys are distinct conversations, so the sizes agree. */
  lemma {:induction false} SameSize(keys: set<FlowKey>)
    requires forall k | k in keys :: k.Reverse() in keys ==> k.Reverse() == k
    ensures |set k | k in keys :: Conversation(k)| == |keys|
  {
    if keys != {} {
      var k :| k in keys;
      var rest := keys - {k};
      SameSize(rest);
      forall j | j in rest
        ensures Conversation(j) != Conversation(k)
      {
        assert j in Conversation(j);
      }
      assert (set j | j in keys :: Conversation(j)) == (set j | j in rest :: Conversation(j)) + {Conversation(k)};
    } else {
      assert (set k | k in keys :: Conversation(k)) == {};
    }
  }

  lemma PutRepresents(t: Table, a: Conversations, flow: Flow)
    requires Represents(t, a) && !Holds(t, flow.key)
    ensures Represents(Put(t, flow), a[Conversation(flow.key) := flow])
  {
    var t', a' := Put(t, flow), a[Conversation(flow.key) := flow];
    SameConversation(t, a, flow.key);
    assert flow.key.Reverse().Reverse() == flow.key;
    assert forall k | k in t'.flows && k.Reverse() in t'.flows :: k == flow.key || k.Reverse() == flow.key || k in t.flows;
    forall k | k in t'.flows
      ensures k.Reverse() in t'.flows ==> k.Reverse() == k
    {
      assert k.Reverse().Reverse() == k;
    }
    assert t'.flows.Keys == t.flows.Keys + {flow.key};
    assert a'.Keys == a.Keys + {Conversation(flow.key)};
  }

  lemma ReviseRefines(t: Table, a: Conversations, key: FlowKey, flow: Flow)
    requires Represents(t, a) && Holds(t, key) && flow.key == Stored(t, key).key
    ensures Represents(Revise(t, key, flow), a[Conversation(key) := flow])
  {
    SameConversation(t, a, key);
    assert Revise(t, key, flow).flows.Keys == t.flows.Keys;
    assert a[Conversation(key) := flow].Keys == a.Keys;
  }

  /** Removing stored keys removes exactly their conversations. */
  lemma DropRepresents(t: Table, a: Conversations, gone: set<FlowKey>)
    requires Represents(t, a) && gone <= t.flows.Keys
    ensures Represents(Drop(t, gone), a - (set k | k in gone :: Conversation(k)))
    ensures |set k | k in gone :: Conversation(k)| == |gone|
  {
    var t' := Drop(t, gone);
    var lost := set k | k in gone :: Conversation(k);
    forall k | k in t'.flows
      ensures Conversation(k) !in lost
    {
      if j :| j in gone && Conversation(j) == Conversation(k) {
        SameConversation(t, a, k);
      }
    }
    assert (a - lost).Keys == (set k | k in t'.flows :: Conversation(k));
    SameSize(gone);
  }

  lemma EnsureRefines(t: Table, a: Conversations, key: FlowKey, now: U64)
    requires Represents(t, a) && Ensure(t, key, now).Some?
    ensures var a' := if Conversation(key) in a then a else a[Conversation(key) := NewFlow(key, now)];
            && Represents(Ensure(t, key, now).value, a')
            && a'[Conversation(key)] == Stored(Ensure(t, key, now).value, key)
  {
    SameConversation(t, a, key);
    if !Holds(t, key) {
      PutRepresents(t, a, NewFlow(key, now));
    }
  }

  /** One call on the table and on the plain map: same reply, still representing each other. */
  ghost predicate Refines(t: Table, a: Conversations, op: Op) {
    && Represents(Apply(t, op).0, Plain(a, t.maxEntries, t.timeout, op).0)
    && Apply(t, op).1 == Plain(a, t.maxEntries, t.timeout, op).1
    && Apply(t, op).0.maxEntries == t.maxEntries && Apply(t, op).0.timeout == t.timeout
  }

  lemma EnsuredThenRevised(t: Table, a: Conversations, key: FlowKey, now: U64, flow: Flow)
    requires Represents(t, a) && Ensure(t, key, now).Some? && flow.key == Stored(Ensure(t, key, now).value, key).key
    ensures Represents(Revise(Ensure(t, key, now).value, key, flow), a[Conversation(key) := flow])
  {
    var c, t1 := Conversation(key), Ensure(t, key, now).value;
    EnsureRefines(t, a, key, now);
    var a1 := if c in a then a else a[c := NewFlow(key, now)];
    ReviseRefines(t1, a1, key, flow);
    assert a1[c := flow] == a[c := flow];
  }

  lemma RecordRefines(t: Table, a: Conversations, key: FlowKey, bytes: U64, direction: FlowDirection, ts: U64, now: U64)
    requires Represents(t, a) && Ensure(t, key, now).Some?
    ensures var t1 := Ensure(t, key, now).value;
            var before := if Conversation(key) in a then a[Conversation(key)] else NewFlow(key, now);
            Represents(Revise(t1, key, RecordPacket(Stored(t1, key), bytes, direction, ts)),
                       a[Conversation(key) := RecordPacket(before, bytes, direction, ts)])
  {
    var t1 := Ensure(t, key, now).value;
    EnsureRefines(t, a, key, now);
    EnsuredThenRevised(t, a, key, now, RecordPacket(Stored(t1, key), bytes, direction, ts));
  }

  lemma AddRefines(t: Table, a: Conversations, op: Op)
    requires Represents(t, a) && |a| == |t.flows|
    requires op.Insert? || op.GetOrCreate? || op.Record?
    ensures Refines(t, a, op)
  {
    match op
    case Insert(flow) =>
      SameConversation(t, a, flow.key);
      if !Holds(t, flow.key) {
        PutRepresents(t, a, flow);
      }
    case GetOrCreate(key, now) =>
      SameConversation(t, a, key);
      if Ensure(t, key, now).Some? {
        EnsureRefines(t, a, key, now);
      }
    case Record(key, bytes, direction, ts, now) =>
      SameConversation(t, a, key);
      if Ensure(t, key, now).Some? {
        RecordRefines(t, a, key, bytes, direction, ts, now);
      }
  }

  lemma TouchRefines(t: Table, a: Conversations, op: Op)
    requires Represents(t, a)
    requires op.Find? || op.Update? || op.Close?
    ensures Refines(t, a, op)
  {
    SameConversation(t, a, op.key);
    if Holds(t, op.key) && op.Update? {
      ReviseRefines(t, a, op.key, RecordPacket(Stored(t, op.key), op.bytes, op.direction, op.ts));
    } else if Holds(t, op.key) && op.Close? {
      ReviseRefines(t, a, op.key, Stored(t, op.key).(state := Closed));
    }
  }

  lemma RemovalRefines(t: Table, a: Conversations, op: Op)
    requires Represents(t, a) && |a| == |t.flows|
    requires op.Remove? || op.ExpireIdle? || op.Clear?
    ensures Refines(t, a, op)
  {
    if op.Remove? {
      RemoveRefines(t, a, op);
    } else if op.ExpireIdle? {
      ExpireRefines(t, a, op);
    }
  }

  lemma RemoveRefines(t: Table, a: Conversations, op: Op)
    requires Represents(t, a) && op.Remove?
    ensures Refines(t, a, op)
  {
    SameConversation(t, a, op.key);
    if Holds(t, op.key) {
      DropOneRepresents(t, a, Home(t, op.key));
    }
  }

  lemma DropOneRepresents(t: Table, a: Conversations, home: FlowKey)
    requires Represents(t, a) && home in t.flows
    ensures Represents(Drop(t, {home}), a - {Conversation(home)})
  {
    DropRepresents(t, a, {home});
    assert (set k | k in {home} :: Conversation(k)) == {Conversation(home)};
  }

  lemma ExpireRefines(t: Table, a: Conversations, op: Op)
    requires Represents(t, a) && op.ExpireIdle?
    ensures Refines(t, a, op)
  {
    var idle := IdleKeys(t, op.now);
    DropRepresents(t, a, idle);
    assert (set k | k in idle :: Conversation(k)) == (set c | c in a && IsIdle(a[c], op.now, t.timeout));
  }

  lemma ApplyRefines(t: Table, a: Conversations, op: Op)
    requires Represents(t, a)
    ensures Refines(t, a, op)
  {
    SameSize(t.flows.Keys);
    assert |a| == |a.Keys| == |t.flows.Keys| == |t.flows|;
    if op.Insert? || op.GetOrCreate? || op.Record? {
      AddRefines(t, a, op);
    } else if op.Remove? || op.ExpireIdle? || op.Clear? {
      RemovalRefines(t, a, op);
    } else {
      TouchRefines(t, a, op);
    }
  }

  /** The replies of a whole run, of the table and of the plain map. */
  function Replies(t: Table, ops: seq<Op>): seq<Reply>
    decreases |ops|
  {
    if ops == [] then [] else [Apply(t, ops[0]).1] + Replies(Apply(t, ops[0]).0, ops[1..])
  }

  function PlainReplies(a: Conversations, maxEntries: nat, timeout: nat, ops: seq<Op>): seq<Reply>
    decreases |ops|
  {
    if ops == [] then []
    else
      var (a', reply) := Plain(a, maxEntries, timeout, ops[0]);
      [reply] + PlainReplies(a', maxEntries, timeout, ops[1..])
  }

  /** No caller can tell the table from the map over unordered conversations. */
  lemma {:induction false} RunRefines(t: Table, a: Conversations, ops: seq<Op>)
    requires Represents(t, a)
    ensures Replies(t, ops) == PlainReplies(a, t.maxEntries, t.timeout, ops)
    ensures WellFormed(Run(t, ops))
    decreases |ops|
  {
    if ops != [] {
      ApplyRefines(t, a, ops[0]);
      RunRefines(Apply(t, ops[0]).0, Plain(a, t.maxEntries, t.timeout, ops[0]).0, ops[1..]);
    }
  }

  /** From an empty table: never both a key and its distinct reverse, and a lookup ignores direction. */
  lemma EveryRunIgnoresDirection(maxEntries: nat, timeout: nat, ops: seq<Op>, key: FlowKey)
    ensures var t := Run(NewTable(maxEntries, timeout), ops);
            WellFormed(t) && Get(t, key) == Get(t, key.Reverse())
  {
    var empty: Conversations := map[];
    assert Represents(NewTable(maxEntries, timeout), empty);
    RunRefines(NewTable(maxEntries, timeout), empty, ops);
    assert key.Reverse().Reverse() == key;
  }

  // ---- What a caller sees, field by field ----

  /** In every reachable table a lookup answers a flow exactly when it is stored and its key
      holds the same endpoints and protocol, in the same direction or the other one. */
  lemma FindsEitherDirection(maxEntries: nat, timeout: nat, ops: seq<Op>, a: IpAddr, b: IpAddr, p: U16, q: U16, n: U8, f: Flow)
    ensures var t := Run(NewTable(maxEntries, timeout), ops);
            Apply(t, Op.Find(FlowKey(a, b, p, q, n))).1 == Found(Some(f)) <==>
            && (exists k :: k in t.flows && t.flows[k] == f)
            && (f.key == FlowKey(a, b, p, q, n) || f.key == FlowKey(b, a, q, p, n))
  {
    EveryRunIgnoresDirection(maxEntries, timeout, ops, FlowKey(a, b, p, q, n));
  }

  /** Everything in the table but this one flow is as it was. */
  ghost predicate OnlyFlow(t: Table, t': Table, k: FlowKey) {
    && t'.flows.Keys == t.flows.Keys && k in t.flows
    && (forall j | j in t.flows && j != k :: t'.flows[j] == t.flows[j])
    && t'.created == t.created && t'.removed == t.removed && t'.expired == t.expired
  }

  /** A packet of a stored conversation, or a reply to it, is tallied on the stored flow and
      creates none. */
  lemma RecordsEitherDirection(maxEntries: nat, timeout: nat, ops: seq<Op>, a: IpAddr, b: IpAddr, p: U16, q: U16, n: U8, k: FlowKey,
                               bytes: U64, direction: FlowDirection, ts: U64, now: U64)
    requires k in Run(NewTable(maxEntries, timeout), ops).flows
    requires k == FlowKey(a, b, p, q, n) || k == FlowKey(b, a, q, p, n)
    ensures var t := Run(NewTable(maxEntries, timeout), ops);
            var (t', reply) := Apply(t, Op.Record(FlowKey(a, b, p, q, n), bytes, direction, ts, now));
            && OnlyFlow(t, t', k) && reply == Flag(true)
            && t'.flows[k].packets == Cap(t.flows[k].counters.packets + 1)
            && t'.flows[k].bytes == Cap(t.flows[k].counters.bytes + bytes)
            && Apply(t, Op.Update(FlowKey(a, b, p, q, n), bytes, direction, ts)) == (t', Flag(true))
  {
    EveryRunIgnoresDirection(maxEntries, timeout, ops, FlowKey(a, b, p, q, n));
  }

  /** The other calls reach the stored flow from either direction, too. */
  lemma CallsEitherDirection(maxEntries: nat, timeout: nat, ops: seq<Op>, a: IpAddr, b: IpAddr, p: U16, q: U16, n: U8, k: FlowKey,
                             now: U64, other: Flow)
    requires k in Run(NewTable(maxEntries, timeout), ops).flows
    requires k == FlowKey(a, b, p, q, n) || k == FlowKey(b, a, q, p, n)
    ensures var t, key := Run(NewTable(maxEntries, timeout), ops), FlowKey(a, b, p, q, n);
            && Apply(t, Op.GetOrCreate(key, now)) == (t, Found(Some(t.flows[k])))
            && (other.key == key ==> Apply(t, Op.Insert(other)) == (t, Flag(false)))
            && Apply(t, Op.Remove(key)).0.flows == t.flows - {k} && Apply(t, Op.Remove(key)).1 == Found(Some(t.flows[k]))
            && OnlyFlow(t, Apply(t, Op.Close(key)).0, k)
            && Apply(t, Op.Close(key)).0.flows[k] == t.flows[k].(state := Closed)
  {
    EveryRunIgnoresDirection(maxEntries, timeout, ops, FlowKey(a, b, p, q, n));
  }

  /** With neither direction stored, a packet opens a flow under its own key if there is room,
      and calls that need a stored flow change nothing. */
  lemma OpensOwnDirection(t: Table, a: IpAddr, b: IpAddr, p: U16, q: U16, n: U8, bytes: U64, direction: FlowDirection, ts: U64, now: U64)
    requires FlowKey(a, b, p, q, n) !in t.flows && FlowKey(b, a, q, p, n) !in t.flows
    ensures var key := FlowKey(a, b, p, q, n);
            var (t', reply) := Apply(t, Op.Record(key, bytes, direction, ts, now));
            && (|t.flows| >= t.maxEntries ==> t' == t && reply == Exhausted)
            && (|t.flows| < t.maxEntries ==>
                  && t'.flows.Keys == t.flows.Keys + {key} && (forall j | j in t.flows :: t'.flows[j] == t.flows[j])
                  && t'.flows[key].key == key && t'.flows[key].packets == 1 && t'.flows[key].bytes == bytes
                  && t'.flows[key].firstSeen == t'.flows[key].lastSeen == ts && t'.flows[key].state == Active
                  && reply == Flag(true))
            && Apply(t, Op.Update(key, bytes, direction, ts)) == (t, Flag(false))
            && Apply(t, Op.Remove(key)) == (t, Found(None))
            && Apply(t, Op.Close(key)) == (t, Flag(false))
  {
  }

  /** An expiry at `now` keeps a flow exactly when less than the timeout has passed since its
      last use. */
  lemma ExpiresExactly(t: Table, k: FlowKey, now: U64)
    requires k in t.flows
    ensures var t' := Apply(t, Op.ExpireIdle(now)).0;
            && (k in t'.flows <==> t.timeout > 0 && now < t.flows[k].lastSeen + t.timeout)
            && (k in t'.flows ==> t'.flows[k] == t.flows[k])
  {
  }

  /** A flow lives on after its last packet for the timeout, and after its creation as long
      as it had none. */
  lemma UseKeepsAlive(t: Table, key: FlowKey, bytes: U64, direction: FlowDirection, ts: U64, now: U64, later: U64)
    requires WellFormed(t) && t.timeout > 0
    ensures var (t', reply) := Apply(t, Op.Record(key, bytes, direction, ts, now));
            var before := if Get(t, key).Some? then Get(t, key).value.counters.lastSeen else 0;
            reply == Flag(true) ==>
              (Get(Apply(t', Op.ExpireIdle(later)).0, key).Some? <==> later < (if before < ts then ts else before) + t.timeout)
    ensures var (t', reply) := Apply(t, Op.GetOrCreate(key, now));
            Get(t, key).None? && reply != Exhausted ==>
              (Get(Apply(t', Op.ExpireIdle(later)).0, key).Some? <==> later < now + t.timeout)
  {
    var (t1, reply) := Apply(t, Op.Record(key, bytes, direction, ts, now));
    if reply == Flag(true) {
      var home := if Holds(t, key) then Home(t, key) else key;
      assert key.Reverse().Reverse() == key;
      assert t1.flows[home].lastSeen == LastAfter(if Holds(t, key) then t.flows[home].counters.lastSeen else 0, ts);
      ExpiresExactly(t1, home, later);
      OnlyHome(t1, key, home);
    }
    var t2 := Apply(t, Op.GetOrCreate(key, now)).0;
    if !Holds(t, key) && key in t2.flows {
      ExpiresExactly(t2, key, later);
      OnlyHome(t2, key, key);
    }
  }

  /** After an expiry the conversation is present exactly when the one key it had is. */
  lemma OnlyHome(t: Table, key: FlowKey, home: FlowKey)
    requires home in t.flows && (home == key || home == key.Reverse())
    requires forall k | k in t.flows && (k == key || k == key.Reverse()) :: k == home
    ensures forall now :: Get(Apply(t, Op.ExpireIdle(now)).0, key).Some? <==> home in Apply(t, Op.ExpireIdle(now)).0.flows
  {
  }

  // ---- The running totals ----

  datatype Census = Census(created: nat, removed: nat, expired: nat)

  /** What one call really created, removed and expired. */
  function CensusOf(t: Table, op: Op): Census {
    match op
    case Insert(flow) => Census(if Apply(t, op).1 == Flag(true) then 1 else 0, 0, 0)
    case GetOrCreate(key, now) => Census(if !Holds(t, key) && |t.flows| < t.maxEntries then 1 else 0, 0, 0)
    case Record(key, _, _, _, _) => Census(if !Holds(t, key) && |t.flows| < t.maxEntries then 1 else 0, 0, 0)
    case Remove(key) => Census(0, if Get(t, key).Some? then 1 else 0, 0)
    case ExpireIdle(now) => Census(0, |IdleKeys(t, now)|, |IdleKeys(t, now)|)
    case Clear => Census(0, |t.flows|, 0)
    case _ => Census(0, 0, 0)
  }

  /** The same over a run, counted without a ceiling. */
  function Tally(t: Table, ops: seq<Op>): Census
    decreases |ops|
  {
    if ops == [] then Census(0, 0, 0)
    else
      var first := CensusOf(t, ops[0]);
      var rest := Tally(Apply(t, ops[0]).0, ops[1..]);
      Census(first.created + rest.created, first.removed + rest.removed, first.expired + rest.expired)
  }

  lemma PutSize(t: Table, flow: Flow)
    requires flow.key !in t.flows
    ensures |Put(t, flow).flows| == |t.flows| + 1
  {
    assert Put(t, flow).flows.Keys == t.flows.Keys + {flow.key};
  }

  lemma ReviseSize(t: Table, key: FlowKey, flow: Flow)
    requires Holds(t, key)
    ensures |Revise(t, key, flow).flows| == |t.flows|
  {
    assert Revise(t, key, flow).flows.Keys == t.flows.Keys;
  }

  lemma DropSize(t: Table, gone: set<FlowKey>)
    requires gone <= t.flows.Keys
    ensures |Drop(t, gone).flows| == |t.flows| - |gone|
  {
    assert Drop(t, gone).flows.Keys == t.flows.Keys - gone;
  }

  /** One call moves the size and the stored totals by its census. */
  ghost predicate Counts(t: Table, op: Op) {
    var t', census := Apply(t, op).0, CensusOf(t, op);
    && t'.maxEntries == t.maxEntries && |t'.flows| <= t'.maxEntries
    && |t'.flows| + census.removed == |t.flows| + census.created
    && t'.created == SatAdd(t.created, census.created)
    && t'.removed == SatAdd(t.removed, census.removed)
    && t'.expired == SatAdd(t.expired, census.expired)
    && census.expired <= census.removed
  }

  lemma AddCounts(t: Table, op: Op)
    requires |t.flows| <= t.maxEntries && (op.Insert? || op.GetOrCreate? || op.Record?)
    ensures Counts(t, op)
  {
    match op
    case Insert(flow) =>
      if !Holds(t, flow.key) { PutSize(t, flow); }
    case GetOrCreate(key, now) =>
      if !Holds(t, key) { PutSize(t, NewFlow(key, now)); }
    case Record(key, bytes, direction, ts, now) =>
      if !Holds(t, key) { PutSize(t, NewFlow(key, now)); }
      var r := Ensure(t, key, now);
      if r.Some? {
        ReviseSize(r.value, key, RecordPacket(Stored(r.value, key), bytes, direction, ts));
      }
  }

  lemma TouchCounts(t: Table, op: Op)
    requires |t.flows| <= t.maxEntries && (op.Find? || op.Update? || op.Close?)
    ensures Counts(t, op)
  {
    if Holds(t, op.key) && op.Update? {
      ReviseSize(t, op.key, RecordPacket(Stored(t, op.key), op.bytes, op.direction, op.ts));
    } else if Holds(t, op.key) && op.Close? {
      ReviseSize(t, op.key, Stored(t, op.key).(state := Closed));
    }
  }

  lemma RemovalCounts(t: Table, op: Op)
    requires |t.flows| <= t.maxEntries && (op.Remove? || op.ExpireIdle? || op.Clear?)
    ensures Counts(t, op)
  {
    if op.ExpireIdle? {
      DropSize(t, IdleKeys(t, op.now));
    } else if op.Remove? && Holds(t, op.key) {
      DropSize(t, {Home(t, op.key)});
    }
  }

  lemma ApplyCounts(t: Table, op: Op)
    requires |t.flows| <= t.maxEntries
    ensures Counts(t, op)
  {
    if op.Insert? || op.GetOrCreate? || op.Record? {
      AddCounts(t, op);
    } else if op.Remove? || op.ExpireIdle? || op.Clear? {
      RemovalCounts(t, op);
    } else {
      TouchCounts(t, op);
    }
  }

  /** Created minus removed is the current size, expired flows are among the
      removed ones, and the stored totals are these counts, capped. */
  lemma {:induction false} TotalsCount(t: Table, ops: seq<Op>)
    requires |t.flows| <= t.maxEntries
    ensures var t', census := Run(t, ops), Tally(t, ops);
            && |t'.flows| <= t'.maxEntries
            && |t'.flows| + census.removed == |t.flows| + census.created
            && census.expired <= census.removed
            && t'.created == SatAdd(t.created, census.created)
            && t'.removed == SatAdd(t.removed, census.removed)
            && t'.expired == SatAdd(t.expired, census.expired)
    decreases |ops|
  {
    if ops != [] {
      ApplyCounts(t, ops[0]);
      TotalsCount(Apply(t, ops[0]).0, ops[1..]);
    }
  }

  // ---- Conservation of packets and bytes ----

  datatype Unit = Packets | Bytes

  function Held(f: Flow, u: Unit): U64 {
    match u case Packets => f.counters.packets case Bytes => f.counters.bytes
  }

  function Offered(bytes: U64, u: Unit): U64 {
    match u case Packets => 1 case Bytes => bytes
  }

  ghost function SumHeld(m: map<FlowKey, Flow>, u: Unit): nat
    decreases |m|
  {
    if m == map[] then 0
    else
      var k :| k in m;
      Held(m[k], u) + SumHeld(m - {k}, u)
  }

  lemma {:induction false} SumWithout(m: map<FlowKey, Flow>, k: FlowKey, u: Unit)
    requires k in m
    ensures SumHeld(m, u) == Held(m[k], u) + SumHeld(m - {k}, u)
    decreases |m|
  {
    var j :| j in m && SumHeld(m, u) == Held(m[j], u) + SumHeld(m - {j}, u);
    if j != k {
      SumWithout(m - {j}, k, u);
      SumWithout(m - {k}, j, u);
      assert m - {j} - {k} == m - {k} - {j};
    }
  }

  lemma SumReplace(m: map<FlowKey, Flow>, k: FlowKey, f: Flow, u: Unit)
    ensures SumHeld(m[k := f], u) == Held(f, u) + SumHeld(m - {k}, u)
    ensures k !in m ==> m - {k} == m
  {
    SumWithout(m[k := f], k, u);
    assert m[k := f] - {k} == m - {k};
    assert k !in m ==> m - {k} == m;
  }

  lemma {:induction false} SumSplit(m: map<FlowKey, Flow>, gone: set<FlowKey>, u: Unit)
    requires gone <= m.Keys
    ensures SumHeld(m, u) == SumHeld(m - gone, u) + SumHeld(m - (m.Keys - gone), u)
    decreases |gone|
  {
    if gone == {} {
      assert m - gone == m;
      assert m - (m.Keys - gone) == map[];
    } else {
      var k :| k in gone;
      SumSplit(m, gone - {k}, u);
      SumWithout(m - (gone - {k}), k, u);
      assert m - (gone - {k}) - {k} == m - gone;
      SumWithout(m - (m.Keys - gone), k, u);
      assert m - (m.Keys - gone) - {k} == m - (m.Keys - (gone - {k}));
    }
  }

  /** What entered the table, what left it with removed flows, and what saturation clipped. */
  datatype Ledger = Ledger(entered: nat, departed: nat, clipped: nat)

  function Clip(before: U64, offered: U64): nat {
    before + offered - Cap(before + offered)
  }

  /** The entries of one call, from the flow it touches and what the call offers. */
  ghost function Post(t: Table, op: Op, u: Unit): Ledger {
    match op
    case Insert(flow) => Ledger(if Apply(t, op).1 == Flag(true) then Held(flow, u) else 0, 0, 0)
    case Record(key, bytes, _, _, now) =>
      if Ensure(t, key, now).None? then Ledger(0, 0, 0)
      else Ledger(Offered(bytes, u), 0, Clip(if Holds(t, key) then Held(Stored(t, key), u) else 0, Offered(bytes, u)))
    case Update(key, bytes, _, _) =>
      if !Holds(t, key) then Ledger(0, 0, 0)
      else Ledger(Offered(bytes, u), 0, Clip(Held(Stored(t, key), u), Offered(bytes, u)))
    case Remove(key) => Ledger(0, if Holds(t, key) then Held(Stored(t, key), u) else 0, 0)
    case ExpireIdle(now) => Ledger(0, SumHeld(t.flows - (t.flows.Keys - IdleKeys(t, now)), u), 0)
    case Clear => Ledger(0, SumHeld(t.flows, u), 0)
    case _ => Ledger(0, 0, 0)
  }

  ghost function Audit(t: Table, ops: seq<Op>, u: Unit): Ledger
    decreases |ops|
  {
    if ops == [] then Ledger(0, 0, 0)
    else
      var first := Post(t, ops[0], u);
      var rest := Audit(Apply(t, ops[0]).0, ops[1..], u);
      Ledger(first.entered + rest.entered, first.departed + rest.departed, first.clipped + rest.clipped)
  }

  lemma PutSum(t: Table, flow: Flow, u: Unit)
    requires flow.key !in t.flows
    ensures SumHeld(Put(t, flow).flows, u) == SumHeld(t.flows, u) + Held(flow, u)
  {
    SumReplace(t.flows, flow.key, flow, u);
  }

  lemma ReviseSum(t: Table, key: FlowKey, flow: Flow, u: Unit)
    requires Holds(t, key)
    ensures SumHeld(Revise(t, key, flow).flows, u) + Held(Stored(t, key), u) == SumHeld(t.flows, u) + Held(flow, u)
    ensures Held(Stored(t, key), u) <= SumHeld(t.flows, u)
  {
    SumWithout(t.flows, Home(t, key), u);
    SumReplace(t.flows, Home(t, key), flow, u);
  }

  /** One call neither creates nor loses anything but what saturation clips. */
  ghost predicate Conserves(t: Table, op: Op, u: Unit) {
    var t', l := Apply(t, op).0, Post(t, op, u);
    && SumHeld(t'.flows, u) + l.departed + l.clipped == SumHeld(t.flows, u) + l.entered
    && (l.clipped > 0 ==> SumHeld(t.flows, u) + l.entered > U64_MAX)
  }

  lemma RecordConserves(t: Table, op: Op, u: Unit)
    requires op.Record?
    ensures Conserves(t, op, u)
  {
    var Record(key, bytes, direction, ts, now) := op;
    var r := Ensure(t, key, now);
    if r.Some? {
      ReviseSum(r.value, key, RecordPacket(Stored(r.value, key), bytes, direction, ts), u);
      if !Holds(t, key) {
        PutSum(t, NewFlow(key, now), u);
        assert Stored(r.value, key) == NewFlow(key, now);
      }
    }
  }

  lemma TouchConserves(t: Table, op: Op, u: Unit)
    requires op.Update? || op.Close?
    ensures Conserves(t, op, u)
  {
    if Holds(t, op.key) && op.Update? {
      ReviseSum(t, op.key, RecordPacket(Stored(t, op.key), op.bytes, op.direction, op.ts), u);
    } else if Holds(t, op.key) {
      ReviseSum(t, op.key, Stored(t, op.key).(state := Closed), u);
    }
  }

  lemma RemovalConserves(t: Table, op: Op, u: Unit)
    requires op.Remove? || op.ExpireIdle?
    ensures Conserves(t, op, u)
  {
    if op.ExpireIdle? {
      SumSplit(t.flows, IdleKeys(t, op.now), u);
    } else if Holds(t, op.key) {
      SumWithout(t.flows, Home(t, op.key), u);
    }
  }

  lemma ApplyConserves(t: Table, op: Op, u: Unit)
    ensures Conserves(t, op, u)
  {
    match op
    case Insert(flow) =>
      if !Holds(t, flow.key) { PutSum(t, flow, u); }
    case GetOrCreate(key, now) =>
      if !Holds(t, key) { PutSum(t, NewFlow(key, now), u); }
    case Record(_, _, _, _, _) => RecordConserves(t, op, u);
    case Update(_, _, _, _) => TouchConserves(t, op, u);
    case Close(_) => TouchConserves(t, op, u);
    case Remove(_) => RemovalConserves(t, op, u);
    case ExpireIdle(_) => RemovalConserves(t, op, u);
    case _ =>
  }

  /** Over every run: what is held, what left and what saturation clipped is
      exactly what was there and what entered; nothing is clipped as long as the
      grand total fits 64 bits. */
  lemma {:induction false} EveryRunConserves(t: Table, ops: seq<Op>, u: Unit)
    ensures var t', l := Run(t, ops), Audit(t, ops, u);
            && SumHeld(t'.flows, u) + l.departed + l.clipped == SumHeld(t.flows, u) + l.entered
            && (SumHeld(t.flows, u) + l.entered <= U64_MAX ==> l.clipped == 0)
    decreases |ops|
  {
    if ops != [] {
      ApplyConserves(t, ops[0], u);
      EveryRunConserves(Apply(t, ops[0]).0, ops[1..], u);
    }
  }

  /** A call refused for capacity changes nothing, and only a full table refuses. */
  lemma RefusalChangesNothing(t: Table, op: Op)
    requires Apply(t, op).1 == Exhausted
    ensures Apply(t, op).0 == t && |t.flows| >= t.maxEntries
    ensures op.Insert? ==> !Holds(t, op.flow.key)
    ensures !op.Insert? ==> !Holds(t, op.key)
  {
  }
}
