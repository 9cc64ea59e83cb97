/** One flow: canonical counters, their mirrors and the per-direction split. */
module Flows {
  import opened Saturating
  import opened Net
  import opened FlowCounters

  datatype FlowDirection = Forward | Reverse | Unknown

  datatype FlowState = New | Active | Closed | Expired

  datatype Flow = Flow(
    key: FlowKey, counters: Counters,
    packets: U64, bytes: U64,
    forwardPackets: U64, forwardBytes: U64, reversePackets: U64, reverseBytes: U64,
    firstSeen: U64, lastSeen: U64, lastForwardSeen: U64, lastReverseSeen: U64,
    state: FlowState)

  function NewFlow(key: FlowKey, now: U64): Flow {
    Flow(key, ZERO, 0, 0, 0, 0, 0, 0, now, now, 0, 0, New)
  }

  function Max(a: U64, b: U64): U64 {
    if a < b then b else a
  }

  function RecordPacket(f: Flow, amount: U64, direction: FlowDirection, ts: U64): (g: Flow)
    ensures g.key == f.key && g.counters == Recorded(f.counters, amount, ts)
  {
    var c := Recorded(f.counters, amount, ts);
    var g := f.(counters := c, packets := c.packets, bytes := c.bytes, firstSeen := c.firstSeen, lastSeen := c.lastSeen,
                state := if f.state == New then Active else f.state);
    match direction
    case Forward =>
      g.(forwardPackets := SatAdd(f.forwardPackets, 1), forwardBytes := SatAdd(f.forwardBytes, amount),
         lastForwardSeen := Max(f.lastForwardSeen, ts))
    case Reverse =>
      g.(reversePackets := SatAdd(f.reversePackets, 1), reverseBytes := SatAdd(f.reverseBytes, amount),
         lastReverseSeen := Max(f.lastReverseSeen, ts))
    case Unknown => g
  }

  /** Idle for at least `timeout` nanoseconds, a clock behind the flow counting as no idle time. */
  predicate IsIdle(f: Flow, now: U64, timeout: nat) {
    (if now <= f.lastSeen then 0 else now - f.lastSeen) >= timeout
  }

  datatype Packet = Packet(bytes: U64, direction: FlowDirection, ts: U64)

  function RecordAll(f: Flow, packets: seq<Packet>): Flow {
    if packets == [] then f
    else
      var p := packets[|packets| - 1];
      RecordPacket(RecordAll(f, packets[..|packets| - 1]), p.bytes, p.direction, p.ts)
  }

  /** Packets and bytes of one direction in a packet list. */
  function CountOf(packets: seq<Packet>, d: FlowDirection): nat {
    if packets == [] then 0
    else CountOf(packets[..|packets| - 1], d) + if packets[|packets| - 1].direction == d then 1 else 0
  }

  function BytesOf(packets: seq<Packet>, d: FlowDirection): nat {
    if packets == [] then 0
    else BytesOf(packets[..|packets| - 1], d) + if packets[|packets| - 1].direction == d then packets[|packets| - 1].bytes else 0
  }

  function LatestOf(packets: seq<Packet>, d: FlowDirection): U64 {
    if packets == [] then 0
    else
      var p := packets[|packets| - 1];
      var before := LatestOf(packets[..|packets| - 1], d);
      if p.direction == d then Max(before, p.ts) else before
  }

  /** A new flow fed any packet list holds the capped totals, split by direction,
      and its mirrors repeat its counters. */
  lemma {:induction false} RecordAllTallies(key: FlowKey, now: U64, packets: seq<Packet>)
    ensures var f := RecordAll(NewFlow(key, now), packets);
            && f.key == key
            && f.counters.packets == Cap(|packets|)
            && f.counters.bytes
               == Cap(BytesOf(packets, Forward) + BytesOf(packets, Reverse) + BytesOf(packets, Unknown))
            && f.forwardPackets == Cap(CountOf(packets, Forward)) && f.forwardBytes == Cap(BytesOf(packets, Forward))
            && f.reversePackets == Cap(CountOf(packets, Reverse)) && f.reverseBytes == Cap(BytesOf(packets, Reverse))
            && f.lastForwardSeen == LatestOf(packets, Forward) && f.lastReverseSeen == LatestOf(packets, Reverse)
            && f.packets == f.counters.packets && f.bytes == f.counters.bytes
            && (packets != [] ==> f.firstSeen == f.counters.firstSeen && f.lastSeen == f.counters.lastSeen && f.state == Active)
  {
    if packets != [] {
      RecordAllTallies(key, now, packets[..|packets| - 1]);
    }
  }

  /** The first packet makes a new flow active; nothing reopens a closed or expired one. */
  lemma {:induction false} PacketsNeverReopen(f: Flow, packets: seq<Packet>)
    ensures RecordAll(f, packets).state == if f.state == New && packets != [] then Active else f.state
  {
    if packets != [] {
      PacketsNeverReopen(f, packets[..|packets| - 1]);
    }
  }
}

/** The bounded flow table: a hash map in which a key and its reverse are one
    conversation, with idle expiry and running totals. */
module FlowTables {
  import opened Options
  import opened Saturating
  import opened Net
  import opened FlowCounters
  import opened Flows

  datatype Table = Table(flows: map<FlowKey, Flow>, maxEntries: nat, timeout: nat, created: U64, removed: U64, expired: U64)

  datatype Op =
    | Find(key: FlowKey)
    | Insert(flow: Flow)
    | GetOrCreate(key: FlowKey, now: U64)
    | Record(key: FlowKey, bytes: U64, direction: FlowDirection, ts: U64, now: U64)
    | Update(key: FlowKey, bytes: U64, direction: FlowDirection, ts: U64)
    | Remove(key: FlowKey)
    | Close(key: FlowKey)
    | ExpireIdle(now: U64)
    | Clear

  datatype Reply = Flag(yes: bool) | Exhausted | Found(flow: Option<Flow>) | Count(n: nat)

  function NewTable(maxEntries: nat, timeout: nat): Table {
    Table(map[], maxEntries, timeout, 0, 0, 0)
  }

  predicate Holds(t: Table, key: FlowKey) {
    key in t.flows || key.Reverse() in t.flows
  }

  /** The key under which the conversation of `key` is stored. */
  function Home(t: Table, key: FlowKey): (home: FlowKey)
    ensures Holds(t, key) ==> home in t.flows
  {
    if key in t.flows then key else key.Reverse()
  }

  function Get(t: Table, key: FlowKey): Option<Flow> {
    if Holds(t, key) then Some(t.flows[Home(t, key)]) else None
  }

  function Put(t: Table, flow: Flow): Table {
    t.(flows := t.flows[flow.key := flow], created := SatAdd(t.created, 1))
  }

  /** The table with the conversation of `key` present, or nothing when that needs room it lacks. */
  function Ensure(t: Table, key: FlowKey, now: U64): (r: Option<Table>)
    ensures r.Some? ==> Holds(r.value, key)
  {
    if Holds(t, key) then Some(t)
    else if |t.flows| >= t.maxEntries then None
    else Some(Put(t, NewFlow(key, now)))
  }

  function Stored(t: Table, key: FlowKey): Flow
    requires Holds(t, key)
  {
    t.flows[Home(t, key)]
  }

  function Revise(t: Table, key: FlowKey, flow: Flow): Table
    requires Holds(t, key)
  {
    t.(flows := t.flows[Home(t, key) := flow])
  }

  function Drop(t: Table, gone: set<FlowKey>): Table {
    t.(flows := t.flows - gone, removed := SatAdd(t.removed, |gone|))
  }

  function IdleKeys(t: Table, now: U64): set<FlowKey> {
    set k | k in t.flows && IsIdle(t.flows[k], now, t.timeout)
  }

  /** Flows removed by expiry count in both totals. */
  function Dropped(t: Table, gone: set<FlowKey>): Table {
    Drop(t, gone).(expired := SatAdd(t.expired, |gone|))
  }

  function Expire(t: Table, now: U64): Table {
    Dropped(t, IdleKeys(t, now))
  }

  lemma DroppedNone(t: Table)
    ensures Dropped(t, {}) == t
  {
    assert t.flows - {} == t.flows;
  }

  lemma DroppedOneMore(t: Table, gone: set<FlowKey>, key: FlowKey)
    requires key !in gone
    ensures var d, d' := Dropped(t, gone), Dropped(t, gone + {key});
            && d'.flows == d.flows - {key}
            && d'.removed == SatAdd(d.removed, 1) && d'.expired == SatAdd(d.expired, 1)
  {
    assert |gone + {key}| == |gone| + 1;
    assert t.flows - (gone + {key}) == t.flows - gone - {key};
  }

  /** The effect and the reply of one call. */
  function Apply(t: Table, op: Op): (Table, Reply) {
    match op
    case Find(key) => (t, Found(Get(t, key)))
    case Insert(flow) =>
      if Holds(t, flow.key) then (t, Flag(false))
      else if |t.flows| >= t.maxEntries then (t, Exhausted)
      else (Put(t, flow), Flag(true))
    case GetOrCreate(key, now) =>
      var r := Ensure(t, key, now);
      if r.None? then (t, Exhausted) else (r.value, Found(Some(Stored(r.value, key))))
    case Record(key, bytes, direction, ts, now) =>
      var r := Ensure(t, key, now);
      if r.None? then (t, Exhausted)
      else (Revise(r.value, key, RecordPacket(Stored(r.value, key), bytes, direction, ts)), Flag(true))
    case Update(key, bytes, direction, ts) =>
      if !Holds(t, key) then (t, Flag(false))
      else (Revise(t, key, RecordPacket(Stored(t, key), bytes, direction, ts)), Flag(true))
    case Remove(key) =>
      if !Holds(t, key) then (t, Found(None)) else (Drop(t, {Home(t, key)}), Found(Get(t, key)))
    case Close(key) =>
      if !Holds(t, key) then (t, Flag(false))
      else (Revise(t, key, Stored(t, key).(state := Closed)), Flag(true))
    case ExpireIdle(now) => (Expire(t, now), Count(|IdleKeys(t, now)|))
    case Clear => (t.(flows := map[], removed := SatAdd(t.removed, |t.flows|)), Count(|t.flows|))
  }

  function Run(t: Table, ops: seq<Op>): Table
    decreases |ops|
  {
    if ops == [] then t else Run(Apply(t, ops[0]).0, ops[1..])
  }

  // ---- The table itself ----

  class FlowTable {
    var flows: map<FlowKey, Flow>
    const maxEntries: nat
    const idleTimeout: nat
    var totalCreated: U64
    var totalRemoved: U64
    var totalExpired: U64

    ghost function Value(): Table
      reads this
    {
      Table(flows, maxEntries, idleTimeout, totalCreated, totalRemoved, totalExpired)
    }

    constructor (maxEntries: nat, idleTimeout: nat)
      ensures Value() == NewTable(maxEntries, idleTimeout)
    {
      this.flows := map[];
      this.maxEntries := maxEntries;
      this.idleTimeout := idleTimeout;
      totalCreated, totalRemoved, totalExpired := 0, 0, 0;
    }

    method Find(key: FlowKey) returns (flow: Option<Flow>)
      ensures Found(flow) == Apply(Value(), Op.Find(key)).1
    {
      if key in flows {
        return Some(flows[key]);
      }
      var reverse := key.Reverse();
      return if reverse in flows then Some(flows[reverse]) else None;
    }

    method Insert(flow: Flow) returns (reply: Reply)
      modifies this
      ensures (Value(), reply) == Apply(old(Value()), Op.Insert(flow))
    {
      if flow.key in flows || flow.key.Reverse() in flows {
        return Flag(false);
      }
      if |flows| >= maxEntries {
        return Exhausted;
      }
      flows := flows[flow.key := flow];
      totalCreated := SatAdd(totalCreated, 1);
      return Flag(true);
    }

    /** Returns the key of the stored flow instead of a reference into the map. */
    method GetOrCreate(key: FlowKey, now: U64) returns (home: Option<FlowKey>)
      modifies this
      ensures var r := Ensure(old(Value()), key, now);
              if r.None? then home == None && Value() == old(Value())
              else Value() == r.value && home == Some(Home(r.value, key))
    {
      if key in flows {
        return Some(key);
      }
      var reverse := key.Reverse();
      if reverse in flows {
        return Some(reverse);
      }
      if |flows| >= maxEntries {
        return None;
      }
      flows := flows[key := NewFlow(key, now)];
      totalCreated := SatAdd(totalCreated, 1);
      return Some(key);
    }

    method Record(key: FlowKey, bytes: U64, direction: FlowDirection, ts: U64, now: U64) returns (reply: Reply)
      modifies this
      ensures (Value(), reply) == Apply(old(Value()), Op.Record(key, bytes, direction, ts, now))
    {
      var home := GetOrCreate(key, now);
      if home.None? {
        return Exhausted;
      }
      flows := flows[home.value := RecordPacket(flows[home.value], bytes, direction, ts)];
      return Flag(true);
    }

    method Update(key: FlowKey, bytes: U64, direction: FlowDirection, ts: U64) returns (found: bool)
      modifies this
      ensures (Value(), Flag(found)) == Apply(old(Value()), Op.Update(key, bytes, direction, ts))
    {
      var home := if key in flows then key else key.Reverse();
      found := home in flows;
      if found {
        flows := flows[home := RecordPacket(flows[home], bytes, direction, ts)];
      }
    }

    method Close(key: FlowKey) returns (found: bool)
      modifies this
      ensures (Value(), Flag(found)) == Apply(old(Value()), Op.Close(key))
    {
      var home := if key in flows then key else key.Reverse();
      found := home in flows;
      if found {
        flows := flows[home := flows[home].(state := Closed)];
      }
    }

    method Remove(key: FlowKey) returns (removed: Option<Flow>)
      modifies this
      ensures (Value(), Found(removed)) == Apply(old(Value()), Op.Remove(key))
    {
      removed := None;
      if key in flows {
        removed := Some(flows[key]);
        flows := flows - {key};
      } else {
        var reverse := key.Reverse();
        if reverse in flows {
          removed := Some(flows[reverse]);
          flows := flows - {reverse};
        }
      }
      if removed.Some? {
        totalRemoved := SatAdd(totalRemoved, 1);
      }
    }

    /** Collects the idle keys first, then removes them one by one in any order. */
    method ExpireIdle(now: U64) returns (count: nat)
      modifies this
      ensures Value() == Expire(old(Value()), now) && count == |IdleKeys(old(Value()), now)|
    {
      ghost var t := Value();
      var expiredKeys := set k | k in flows && IsIdle(flows[k], now, idleTimeout);
      count := |expiredKeys|;
      var left := expiredKeys;
      ghost var gone := {};
      DroppedNone(t);
      while left != {}
        invariant left !! gone && left + gone == expiredKeys <= t.flows.Keys
        invariant Value() == Dropped(t, gone)
        decreases left
      {
        var key :| key in left;
        DroppedOneMore(t, gone, key);
        flows := flows - {key};
        totalRemoved := SatAdd(totalRemoved, 1);
        totalExpired := SatAdd(totalExpired, 1);
        left, gone := left - {key}, gone + {key};
      }
      assert gone == expiredKeys == IdleKeys(t, now);
    }

    method Clear() returns (count: nat)
      modifies this
      ensures (Value(), Count(count)) == Apply(old(Value()), Op.Clear)
    {
      count := |flows|;
      flows := map[];
      totalRemoved := SatAdd(totalRemoved, count);
    }
  }

  /** A zero capacity and a zero timeout are refused. */
  method Create(maxEntries: nat, idleTimeout: nat) returns (table: FlowTable?)
    ensures table == null <==> maxEntries == 0 || idleTimeout == 0
    ensures table != null ==> fresh(table) && table.Value() == NewTable(maxEntries, idleTimeout)
  {
    if maxEntries == 0 {
      return null;
    }
    if idleTimeout == 0 {
      return null;
    }
    table := new FlowTable(maxEntries, idleTimeout);
  }
}
