/** The NAT table: an entry store and two indexes into it. */
module NatTables {
  import opened Options
  import opened Saturating
  import opened Net

  datatype NatProtocol = Tcp | Udp | Icmp | IcmpV6 | Other(code: U8)

  datatype NatTuple = NatTuple(srcIp: IpAddr, srcPort: U16, dstIp: IpAddr, dstPort: U16, protocol: NatProtocol)

  datatype NatEntry = NatEntry(
    id: U64, original: NatTuple, translated: NatTuple,
    createdAt: U64, lastSeen: U64, timeoutSecs: U64, enabled: bool)

  datatype NatError = CapacityExceeded | DuplicateMapping | InvalidTimeout

  datatype Answer = Inserted(id: U64) | Refused(error: NatError)

  datatype Table = Table(
    entries: map<U64, NatEntry>, originals: map<NatTuple, U64>, translateds: map<NatTuple, U64>,
    maxEntries: nat, nextId: U64)

  function NewTable(maxEntries: nat): Table {
    Table(map[], map[], map[], maxEntries, 1)
  }

  /** Elapsed time saturates at zero when the clock is behind. */
  predicate IsExpired(entry: NatEntry, now: U64) {
    (if now <= entry.lastSeen then 0 else now - entry.lastSeen) >= entry.timeoutSecs
  }

  function Removed(t: Table, id: U64): Table {
    if id !in t.entries then t
    else
      var entry := t.entries[id];
      t.(entries := t.entries - {id}, originals := t.originals - {entry.original}, translateds := t.translateds - {entry.translated})
  }

  function ExpiredIds(t: Table, now: U64): set<U64> {
    set id | id in t.entries && IsExpired(t.entries[id], now)
  }

  /** The table without some of its entries and without their index keys. */
  function Without(t: Table, gone: set<U64>): Table
    requires gone <= t.entries.Keys
  {
    t.(entries := t.entries - gone,
       originals := t.originals - (set id | id in gone :: t.entries[id].original),
       translateds := t.translateds - (set id | id in gone :: t.entries[id].translated))
  }

  function Purged(t: Table, now: U64): Table {
    Without(t, ExpiredIds(t, now))
  }

  /** Wrapping increment that skips 0. */
  function Successor(id: U64): U64 {
    if id == U64_MAX then 1 else id + 1
  }

  function Stored(t: Table, original: NatTuple, translated: NatTuple, timeout: U64, now: U64): Table {
    var id := t.nextId;
    t.(entries := t.entries[id := NatEntry(id, original, translated, now, now, timeout, true)],
       originals := t.originals[original := id], translateds := t.translateds[translated := id],
       nextId := Successor(id))
  }

  /** `insert` reads the clock twice: once to expire, once to stamp the new entry. */
  function InsertInto(t: Table, original: NatTuple, translated: NatTuple, timeout: U64, expireAt: U64, stampAt: U64): (Table, Answer) {
    if timeout == 0 then (t, Refused(InvalidTimeout))
    else
      var t1 := Purged(t, expireAt);
      if |t1.entries| >= t1.maxEntries then (t1, Refused(CapacityExceeded))
      else if original in t1.originals || translated in t1.translateds then (t1, Refused(DuplicateMapping))
      else (Stored(t1, original, translated, timeout, stampAt), Inserted(t1.nextId))
  }

  function Lookup(entries: map<U64, NatEntry>, index: map<NatTuple, U64>, tuple: NatTuple): Option<NatEntry> {
    if tuple in index && index[tuple] in entries then Some(entries[index[tuple]]) else None
  }

  datatype Op =
    | Insert(original: NatTuple, translated: NatTuple, timeout: U64, expireAt: U64, stampAt: U64)
    | Touch(id: U64, now: U64)
    | Remove(id: U64)
    | RemoveExpired(now: U64)
    | Clear

  function Apply(t: Table, op: Op): Table {
    match op
    case Insert(original, translated, timeout, expireAt, stampAt) =>
      InsertInto(t, original, translated, timeout, expireAt, stampAt).0
    case Touch(id, now) =>
      if id in t.entries then t.(entries := t.entries[id := t.entries[id].(lastSeen := now)]) else t
    case Remove(id) => Removed(t, id)
    case RemoveExpired(now) => Purged(t, now)
    case Clear => t.(entries := map[], originals := map[], translateds := map[])
  }

  function Run(t: Table, ops: seq<Op>): Table {
    if ops == [] then t else Apply(Run(t, ops[..|ops| - 1]), ops[|ops| - 1])
  }

  // ---- Bijection ----

  /** Store and indexes describe the same mappings: each entry sits under its own
      id and both its tuples point at it, and no index key points elsewhere. */
  ghost predicate InBijection(t: Table) {
    && (forall id | id in t.entries ::
          && t.entries[id].id == id
          && t.entries[id].original in t.originals && t.originals[t.entries[id].original] == id
          && t.entries[id].translated in t.translateds && t.translateds[t.entries[id].translated] == id)
    && (forall k | k in t.originals :: t.originals[k] in t.entries && t.entries[t.originals[k]].original == k)
    && (forall k | k in t.translateds :: t.translateds[k] in t.entries && t.entries[t.translateds[k]].translated == k)
  }

  lemma WithoutKeeps(t: Table, gone: set<U64>)
    requires InBijection(t) && gone <= t.entries.Keys
    ensures InBijection(Without(t, gone))
  {
    var t' := Without(t, gone);
    forall id | id in t'.entries
      ensures t.entries[id].original in t'.originals && t.entries[id].translated in t'.translateds
    {
      assert forall j | j in gone :: t.entries[j].original != t.entries[id].original;
      assert forall j | j in gone :: t.entries[j].translated != t.entries[id].translated;
    }
    forall k | k in t'.originals
      ensures t.originals[k] !in gone
    {
      assert t.entries[t.originals[k]].original == k;
    }
    forall k | k in t'.translateds
      ensures t.translateds[k] !in gone
    {
      assert t.entries[t.translateds[k]].translated == k;
    }
  }

  /** An id in use loses its entry, and the tuples of that entry now point at another. */
  lemma StoredOverLive(t: Table, original: NatTuple, translated: NatTuple, timeout: U64, now: U64)
    requires InBijection(t) && original !in t.originals && t.nextId in t.entries
    ensures !InBijection(Stored(t, original, translated, timeout, now))
  {
    var t' := Stored(t, original, translated, timeout, now);
    var lost := t.entries[t.nextId].original;
    assert lost in t'.originals && t'.originals[lost] == t.nextId;
    assert t'.entries[t.nextId].original == original != lost;
  }

  lemma StoredKeeps(t: Table, original: NatTuple, translated: NatTuple, timeout: U64, now: U64)
    requires InBijection(t) && original !in t.originals && translated !in t.translateds
    ensures InBijection(Stored(t, original, translated, timeout, now)) <==> t.nextId !in t.entries
  {
    if t.nextId in t.entries {
      StoredOverLive(t, original, translated, timeout, now);
    } else {
      assert forall k | k in t.originals :: t.originals[k] != t.nextId;
      assert forall k | k in t.translateds :: t.translateds[k] != t.nextId;
    }
  }

  /** The ids an insert finds live, after expiry. */
  function LiveIds(t: Table, now: U64): set<U64> {
    set id | id in t.entries && !IsExpired(t.entries[id], now)
  }

  /** What a caller can see before the call: a timeout, room among the live mappings,
      and none of them with either tuple. */
  ghost predicate Acceptable(t: Table, original: NatTuple, translated: NatTuple, timeout: U64, now: U64) {
    && timeout != 0
    && |LiveIds(t, now)| < t.maxEntries
    && forall id | id in LiveIds(t, now) :: t.entries[id].original != original && t.entries[id].translated != translated
  }

  lemma PurgedIsLive(t: Table, now: U64)
    requires InBijection(t)
    ensures InBijection(Purged(t, now)) && Purged(t, now).entries.Keys == LiveIds(t, now)
    ensures |Purged(t, now).entries| == |LiveIds(t, now)|
  {
    WithoutKeeps(t, ExpiredIds(t, now));
    assert Purged(t, now).entries.Keys == LiveIds(t, now);
    assert |Purged(t, now).entries| == |Purged(t, now).entries.Keys|;
  }

  /** On exact indexes, an index lookup after expiry amounts to a scan of the live entries. */
  lemma IndexedExactly(t: Table, now: U64, tuple: NatTuple)
    requires InBijection(t)
    ensures tuple in Purged(t, now).originals <==> exists id | id in LiveIds(t, now) :: t.entries[id].original == tuple
    ensures tuple in Purged(t, now).translateds <==> exists id | id in LiveIds(t, now) :: t.entries[id].translated == tuple
  {
    PurgedIsLive(t, now);
    var t1 := Purged(t, now);
    if tuple in t1.originals {
      assert t1.originals[tuple] in LiveIds(t, now);
    }
    if tuple in t1.translateds {
      assert t1.translateds[tuple] in LiveIds(t, now);
    }
    assert forall id | id in LiveIds(t, now) :: t1.entries[id] == t.entries[id];
  }

  lemma InsertedExactly(t: Table, original: NatTuple, translated: NatTuple, timeout: U64, expireAt: U64, stampAt: U64)
    requires InBijection(t)
    ensures InsertInto(t, original, translated, timeout, expireAt, stampAt).1.Inserted?
            <==> Acceptable(t, original, translated, timeout, expireAt)
  {
    PurgedIsLive(t, expireAt);
    IndexedExactly(t, expireAt, original);
    IndexedExactly(t, expireAt, translated);
  }

  /** The allocator never asks whether an id is live. An insert keeps the bijection
      exactly when it is not acceptable or the next id is not live. */
  lemma InsertKeepsExactly(t: Table, original: NatTuple, translated: NatTuple, timeout: U64, expireAt: U64, stampAt: U64)
    requires InBijection(t)
    ensures InBijection(InsertInto(t, original, translated, timeout, expireAt, stampAt).0)
            <==> !Acceptable(t, original, translated, timeout, expireAt) || t.nextId !in LiveIds(t, expireAt)
  {
    PurgedIsLive(t, expireAt);
    InsertedExactly(t, original, translated, timeout, expireAt, stampAt);
    if Acceptable(t, original, translated, timeout, expireAt) {
      StoredKeeps(Purged(t, expireAt), original, translated, timeout, stampAt);
    }
  }

  // ---- Every run that does not exhaust the ids ----

  predicate Inserts(t: Table, op: Op) {
    op.Insert? && InsertInto(t, op.original, op.translated, op.timeout, op.expireAt, op.stampAt).1.Inserted?
  }

  function InsertCount(t: Table, ops: seq<Op>): nat {
    if ops == [] then 0
    else
      var before := ops[..|ops| - 1];
      InsertCount(t, before) + if Inserts(Run(t, before), ops[|ops| - 1]) then 1 else 0
  }

  /** Invariant after `n` successful inserts: the live ids are below the next one. */
  ghost predicate Inv(t: Table, n: nat) {
    && n <= U64_MAX
    && InBijection(t)
    && |t.entries| <= t.maxEntries
    && t.nextId == (if n == U64_MAX then 1 else n + 1)
    && (forall id | id in t.entries :: 1 <= id <= n)
  }

  lemma WithoutInv(t: Table, n: nat, gone: set<U64>)
    requires Inv(t, n) && gone <= t.entries.Keys
    ensures Inv(Without(t, gone), n)
  {
    WithoutKeeps(t, gone);
    assert Without(t, gone).entries.Keys == t.entries.Keys - gone;
  }

  lemma StoredInv(t: Table, n: nat, original: NatTuple, translated: NatTuple, timeout: U64, now: U64)
    requires Inv(t, n) && n < U64_MAX && |t.entries| < t.maxEntries
    requires original !in t.originals && translated !in t.translateds
    ensures Inv(Stored(t, original, translated, timeout, now), n + 1)
  {
    StoredKeeps(t, original, translated, timeout, now);
    StoredSize(t, original, translated, timeout, now);
  }

  lemma StoredSize(t: Table, original: NatTuple, translated: NatTuple, timeout: U64, now: U64)
    ensures Stored(t, original, translated, timeout, now).entries.Keys == t.entries.Keys + {t.nextId}
    ensures |Stored(t, original, translated, timeout, now).entries| <= |t.entries| + 1
  {
    assert Stored(t, original, translated, timeout, now).entries.Keys == t.entries.Keys + {t.nextId};
  }

  lemma InsertInv(t: Table, n: nat, op: Op)
    requires Inv(t, n) && op.Insert? && n + (if Inserts(t, op) then 1 else 0) <= U64_MAX
    ensures Inv(InsertInto(t, op.original, op.translated, op.timeout, op.expireAt, op.stampAt).0,
                n + if Inserts(t, op) then 1 else 0)
  {
    if op.timeout != 0 {
      WithoutInv(t, n, ExpiredIds(t, op.expireAt));
      if Inserts(t, op) {
        StoredInv(Purged(t, op.expireAt), n, op.original, op.translated, op.timeout, op.stampAt);
      }
    }
  }

  lemma TouchInv(t: Table, n: nat, id: U64, now: U64)
    requires Inv(t, n) && id in t.entries
    ensures Inv(t.(entries := t.entries[id := t.entries[id].(lastSeen := now)]), n)
  {
    TouchKeeps(t, id, now);
  }

  lemma RemoveInv(t: Table, n: nat, id: U64)
    requires Inv(t, n)
    ensures Inv(Removed(t, id), n)
  {
    if id in t.entries {
      WithoutInv(t, n, {id});
      RemovedIsWithout(t, id);
    }
  }

  lemma ApplyKeeps(t: Table, n: nat, op: Op)
    requires Inv(t, n) && n + (if Inserts(t, op) then 1 else 0) <= U64_MAX
    ensures Inv(Apply(t, op), n + if Inserts(t, op) then 1 else 0)
  {
    if op.Insert? {
      InsertInv(t, n, op);
    } else {
      RestInv(t, n, op);
    }
  }

  lemma RestInv(t: Table, n: nat, op: Op)
    requires Inv(t, n) && !op.Insert?
    ensures Inv(Apply(t, op), n)
  {
    match op
    case Touch(id, now) =>
      if id in t.entries {
        TouchInv(t, n, id, now);
      }
    case Remove(id) => RemoveInv(t, n, id);
    case RemoveExpired(now) => WithoutInv(t, n, ExpiredIds(t, now));
    case Clear =>
  }

  lemma ApplyKeepsLimit(t: Table, op: Op)
    ensures Apply(t, op).maxEntries == t.maxEntries
  {
  }

  lemma LastCall(t: Table, ops: seq<Op>)
    requires ops != []
    ensures var before, op := ops[..|ops| - 1], ops[|ops| - 1];
            && Run(t, ops) == Apply(Run(t, before), op)
            && InsertCount(t, ops) == InsertCount(t, before) + if Inserts(Run(t, before), op) then 1 else 0
  {
  }

  lemma RunInv(t: Table, n: nat, ops: seq<Op>)
    requires Inv(t, n) && n + InsertCount(t, ops) <= U64_MAX
    ensures Inv(Run(t, ops), n + InsertCount(t, ops))
    ensures Run(t, ops).maxEntries == t.maxEntries
    decreases |ops|
  {
    if ops != [] {
      var before := ops[..|ops| - 1];
      LastCall(t, ops);
      RunInv(t, n, before);
      ApplyKeeps(Run(t, before), n + InsertCount(t, before), ops[|ops| - 1]);
      ApplyKeepsLimit(Run(t, before), ops[|ops| - 1]);
    }
  }

  lemma RunKeeps(maxEntries: nat, ops: seq<Op>)
    requires InsertCount(NewTable(maxEntries), ops) <= U64_MAX
    ensures Inv(Run(NewTable(maxEntries), ops), InsertCount(NewTable(maxEntries), ops))
    ensures Run(NewTable(maxEntries), ops).maxEntries == maxEntries
  {
    assert Inv(NewTable(maxEntries), 0);
    RunInv(NewTable(maxEntries), 0, ops);
  }

  /** A linear scan: the entry with this tuple, if there is one. */
  ghost predicate IsScan(entries: map<U64, NatEntry>, key: NatEntry -> NatTuple, tuple: NatTuple, found: Option<NatEntry>) {
    match found
    case None => forall id | id in entries :: key(entries[id]) != tuple
    case Some(e) => e.id in entries && entries[e.id] == e && key(e) == tuple
                    && forall id | id in entries && key(entries[id]) == tuple :: id == e.id
  }

  /** Over every run with at most 2^64 - 1 successful inserts the indexes are exact:
      ids are non-zero and fresh, the size stays bounded, both lookups are linear
      scans, and a live entry is found under either of its tuples. */
  lemma EveryRunIndexes(maxEntries: nat, ops: seq<Op>)
    requires InsertCount(NewTable(maxEntries), ops) <= U64_MAX
    ensures var t := Run(NewTable(maxEntries), ops);
            && InBijection(t) && |t.entries| <= maxEntries
            && 0 !in t.entries
            && (InsertCount(NewTable(maxEntries), ops) < U64_MAX ==> t.nextId !in t.entries)
            && (forall tuple :: IsScan(t.entries, (e: NatEntry) => e.original, tuple, Lookup(t.entries, t.originals, tuple)))
            && (forall tuple :: IsScan(t.entries, (e: NatEntry) => e.translated, tuple, Lookup(t.entries, t.translateds, tuple)))
            && (forall id | id in t.entries ::
                  && Lookup(t.entries, t.translateds, t.entries[id].translated) == Some(t.entries[id])
                  && Lookup(t.entries, t.originals, t.entries[id].original) == Some(t.entries[id]))
  {
    RunKeeps(maxEntries, ops);
    var t := Run(NewTable(maxEntries), ops);
    forall tuple
      ensures IsScan(t.entries, (e: NatEntry) => e.original, tuple, Lookup(t.entries, t.originals, tuple))
      ensures IsScan(t.entries, (e: NatEntry) => e.translated, tuple, Lookup(t.entries, t.translateds, tuple))
    {
    }
  }

  // ---- The bound on inserts is tight ----

  /** The table holding only the mapping that stays. */
  function Keeping(maxEntries: nat, a: NatTuple, nextId: U64): Table {
    Table(map[1 := NatEntry(1, a, a, 0, 0, U64_MAX, true)], map[a := 1], map[a := 1], maxEntries, nextId)
  }

  lemma RunTwo(t: Table, ops: seq<Op>, one: Op, two: Op)
    ensures Run(t, ops + [one, two]) == Apply(Apply(Run(t, ops), one), two)
    ensures InsertCount(t, ops + [one, two])
            == InsertCount(t, ops) + (if Inserts(Run(t, ops), one) then 1 else 0)
               + if Inserts(Apply(Run(t, ops), one), two) then 1 else 0
  {
    var all := ops + [one, two];
    assert all[..|all| - 1] == ops + [one];
    assert (ops + [one])[..|ops|] == ops;
  }

  /** What inserting the passing mapping does, whatever the next id. */
  lemma PassingInsert(maxEntries: nat, a: NatTuple, b: NatTuple, id: U64)
    requires a != b && maxEntries >= 2
    ensures var t := Keeping(maxEntries, a, id);
            InsertInto(t, b, b, U64_MAX, 0, 0) == (Stored(t, b, b, U64_MAX, 0), Inserted(id))
  {
    var t := Keeping(maxEntries, a, id);
    assert ExpiredIds(t, 0) == {};
    WithoutNone(t);
  }

  lemma PassingRemoved(maxEntries: nat, a: NatTuple, b: NatTuple, id: U64)
    requires a != b && id > 1
    ensures Removed(Stored(Keeping(maxEntries, a, id), b, b, U64_MAX, 0), id) == Keeping(maxEntries, a, Successor(id))
  {
    var t := Keeping(maxEntries, a, id);
    var t' := Removed(Stored(t, b, b, U64_MAX, 0), id);
    assert t'.entries == t.entries && t'.originals == t.originals && t'.translateds == t.translateds;
  }

  /** Inserting and removing the passing mapping costs an id and nothing else. */
  lemma PassingRound(maxEntries: nat, a: NatTuple, b: NatTuple, id: U64)
    requires a != b && maxEntries >= 2 && id > 1
    ensures var t, insert := Keeping(maxEntries, a, id), Insert(b, b, U64_MAX, 0, 0);
            && Inserts(t, insert) && !Inserts(Apply(t, insert), Remove(id))
            && Apply(Apply(t, insert), Remove(id)) == Keeping(maxEntries, a, Successor(id))
  {
    var t, insert := Keeping(maxEntries, a, id), Insert(b, b, U64_MAX, 0, 0);
    PassingInsert(maxEntries, a, b, id);
    assert Apply(t, insert) == Stored(t, b, b, U64_MAX, 0);
    PassingRemoved(maxEntries, a, b, id);
  }

  lemma ChurnRound(maxEntries: nat, a: NatTuple, b: NatTuple, id: U64, ops: seq<Op>)
    requires a != b && maxEntries >= 2 && id > 1
    requires Run(NewTable(maxEntries), ops) == Keeping(maxEntries, a, id)
    ensures var more := ops + [Insert(b, b, U64_MAX, 0, 0), Remove(id)];
            && Run(NewTable(maxEntries), more) == Keeping(maxEntries, a, Successor(id))
            && InsertCount(NewTable(maxEntries), more) == InsertCount(NewTable(maxEntries), ops) + 1
  {
    RunTwo(NewTable(maxEntries), ops, Insert(b, b, U64_MAX, 0, 0), Remove(id));
    PassingRound(maxEntries, a, b, id);
  }

  lemma FirstInsert(maxEntries: nat, a: NatTuple)
    requires maxEntries >= 2
    ensures var t0, ops := NewTable(maxEntries), [Insert(a, a, U64_MAX, 0, 0)];
            Run(t0, ops) == Keeping(maxEntries, a, 2) && InsertCount(t0, ops) == 1
  {
    var t0, ops := NewTable(maxEntries), [Insert(a, a, U64_MAX, 0, 0)];
    assert ops[..0] == [];
    assert ExpiredIds(t0, 0) == {};
    WithoutNone(t0);
    assert InsertInto(t0, a, a, U64_MAX, 0, 0) == (Stored(t0, a, a, U64_MAX, 0), Inserted(1));
    assert Stored(t0, a, a, U64_MAX, 0) == Keeping(maxEntries, a, 2);
  }

  /** One mapping stays and one comes and goes `k` times. */
  lemma Churn(maxEntries: nat, a: NatTuple, b: NatTuple, k: nat) returns (ops: seq<Op>)
    requires a != b && maxEntries >= 2 && k < U64_MAX
    ensures Run(NewTable(maxEntries), ops) == Keeping(maxEntries, a, Successor(k + 1))
    ensures InsertCount(NewTable(maxEntries), ops) == k + 1
  {
    if k == 0 {
      ops := [Insert(a, a, U64_MAX, 0, 0)];
      FirstInsert(maxEntries, a);
    } else {
      var before := Churn(maxEntries, a, b, k - 1);
      ChurnRound(maxEntries, a, b, k + 1, before);
      ops := before + [Insert(b, b, U64_MAX, 0, 0), Remove(k + 1)];
    }
  }

  /** A table with room for two mappings is broken by its 2^64-th insert, if one mapping
      outlives all the others: the allocator comes round to its id. */
  lemma WrappedIdBreaksBijection(maxEntries: nat, a: NatTuple, b: NatTuple) returns (ops: seq<Op>)
    requires a != b && maxEntries >= 2
    ensures InsertCount(NewTable(maxEntries), ops) == U64_MAX + 1
    ensures !InBijection(Run(NewTable(maxEntries), ops))
    ensures Lookup(Run(NewTable(maxEntries), ops).entries, Run(NewTable(maxEntries), ops).originals, a)
            == Some(NatEntry(1, b, b, 0, 0, U64_MAX, true))
  {
    var before := Churn(maxEntries, a, b, U64_MAX - 1);
    var last := Insert(b, b, U64_MAX, 0, 0);
    ops := before + [last];
    assert ops[..|ops| - 1] == before;
    PassingInsert(maxEntries, a, b, 1);
    var t := Run(NewTable(maxEntries), ops);
    assert t == Stored(Keeping(maxEntries, a, 1), b, b, U64_MAX, 0);
    assert t.originals[a] == 1 && t.entries[1].original == b;
  }

  /** With room for at most one mapping an insert only succeeds on an empty store. */
  lemma {:induction false} SingleMappingKeeps(maxEntries: nat, ops: seq<Op>)
    requires maxEntries <= 1
    ensures var t := Run(NewTable(maxEntries), ops);
            InBijection(t) && |t.entries| <= t.maxEntries == maxEntries
  {
    if ops != [] {
      SingleMappingKeeps(maxEntries, ops[..|ops| - 1]);
      SingleStepKeeps(Run(NewTable(maxEntries), ops[..|ops| - 1]), ops[|ops| - 1]);
    }
  }

  lemma SoleStored(t: Table, original: NatTuple, translated: NatTuple, timeout: U64, now: U64)
    requires InBijection(t) && |t.entries| < t.maxEntries <= 1
    ensures InBijection(Stored(t, original, translated, timeout, now)) && |Stored(t, original, translated, timeout, now).entries| == 1
  {
    assert t.entries == map[];
    assert original !in t.originals && translated !in t.translateds;
    StoredKeeps(t, original, translated, timeout, now);
  }

  lemma SingleInsertKeeps(t: Table, original: NatTuple, translated: NatTuple, timeout: U64, expireAt: U64, stampAt: U64)
    requires InBijection(t) && |t.entries| <= t.maxEntries <= 1
    ensures var t' := InsertInto(t, original, translated, timeout, expireAt, stampAt).0;
            InBijection(t') && |t'.entries| <= t'.maxEntries == t.maxEntries
  {
    var (t', answer) := InsertInto(t, original, translated, timeout, expireAt, stampAt);
    if timeout != 0 {
      var t1 := Purged(t, expireAt);
      RemovalKeeps(t, ExpiredIds(t, expireAt));
      if answer.Inserted? {
        SoleStored(t1, original, translated, timeout, stampAt);
        assert t' == Stored(t1, original, translated, timeout, stampAt);
      } else {
        assert t' == t1;
      }
    }
  }

  lemma RemovalKeeps(t: Table, gone: set<U64>)
    requires InBijection(t) && gone <= t.entries.Keys
    ensures InBijection(Without(t, gone)) && |Without(t, gone).entries| <= |t.entries|
  {
    WithoutKeeps(t, gone);
    SmallerStore(t, Without(t, gone));
  }

  lemma TouchKeeps(t: Table, id: U64, now: U64)
    requires InBijection(t) && id in t.entries
    ensures var touched := t.entries[id := t.entries[id].(lastSeen := now)];
            InBijection(t.(entries := touched)) && |touched| == |t.entries|
  {
    assert t.entries[id := t.entries[id].(lastSeen := now)].Keys == t.entries.Keys;
  }

  lemma RemovedIsWithout(t: Table, id: U64)
    requires id in t.entries
    ensures Removed(t, id) == Without(t, {id})
  {
    WithoutNone(t);
    WithoutOneMore(t, {}, id);
    assert {} + {id} == {id};
  }

  lemma SingleStepKeeps(t: Table, op: Op)
    requires InBijection(t) && |t.entries| <= t.maxEntries <= 1
    ensures InBijection(Apply(t, op)) && |Apply(t, op).entries| <= t.maxEntries == Apply(t, op).maxEntries
  {
    match op
    case Insert(original, translated, timeout, expireAt, stampAt) =>
      SingleInsertKeeps(t, original, translated, timeout, expireAt, stampAt);
    case Touch(id, now) =>
      if id in t.entries {
        TouchKeeps(t, id, now);
      }
    case Remove(id) =>
      if id in t.entries {
        RemovedIsWithout(t, id);
        RemovalKeeps(t, {id});
      }
    case RemoveExpired(now) => RemovalKeeps(t, ExpiredIds(t, now));
    case Clear =>
  }

  lemma SmallerStore(t: Table, t': Table)
    requires t'.entries.Keys <= t.entries.Keys
    ensures |t'.entries| <= |t.entries|
  {
    assert t.entries.Keys == t'.entries.Keys + (t.entries.Keys - t'.entries.Keys);
  }

  /** Without a bound on the number of inserts, store and indexes stay in bijection over
      every run exactly when the table holds at most one mapping. */
  lemma EveryRunKeepsExactly(maxEntries: nat)
    ensures (forall ops :: InBijection(Run(NewTable(maxEntries), ops))) <==> maxEntries <= 1
  {
    if maxEntries <= 1 {
      forall ops
        ensures InBijection(Run(NewTable(maxEntries), ops))
      {
        SingleMappingKeeps(maxEntries, ops);
      }
    } else {
      var address := V4(seq(32, _ => false));
      var a, b := NatTuple(address, 0, address, 0, Tcp), NatTuple(address, 1, address, 0, Tcp);
      var ops := WrappedIdBreaksBijection(maxEntries, a, b);
      assert !InBijection(Run(NewTable(maxEntries), ops));
    }
  }

  /** Expiry drops exactly as many entries as it counts. */
  lemma PurgedCount(t: Table, now: U64)
    ensures |ExpiredIds(t, now)| == |t.entries| - |Purged(t, now).entries|
  {
    assert Purged(t, now).entries.Keys == t.entries.Keys - ExpiredIds(t, now);
  }

  // ---- How long a mapping lives ----

  /** When the mapping was last used: its stamp, or the time of the last touch since. */
  function LastUse(stamp: U64, id: U64, ops: seq<Op>): U64 {
    if ops == [] then stamp
    else
      var op := ops[|ops| - 1];
      if op.Touch? && op.id == id then op.now else LastUse(stamp, id, ops[..|ops| - 1])
  }

  /** No call removed the mapping, and at each expiry less than its timeout had passed
      since its last use. */
  predicate Survives(stamp: U64, timeout: U64, id: U64, ops: seq<Op>) {
    ops == [] ||
    var before, op := ops[..|ops| - 1], ops[|ops| - 1];
    && Survives(stamp, timeout, id, before)
    && match op
       case Insert(_, _, given, expireAt, _) => given == 0 || expireAt < LastUse(stamp, id, before) + timeout
       case RemoveExpired(now) => now < LastUse(stamp, id, before) + timeout
       case Remove(other) => other != id
       case Clear => false
       case Touch(_, _) => true
  }

  /** What the table must hold of one mapping after some calls. */
  ghost predicate Tracks(t: Table, entry: NatEntry, ops: seq<Op>) {
    && (entry.id in t.entries <==> Survives(entry.createdAt, entry.timeoutSecs, entry.id, ops))
    && (entry.id in t.entries ==> t.entries[entry.id] == entry.(lastSeen := LastUse(entry.createdAt, entry.id, ops)))
  }

  lemma InsertTracks(t: Table, n: nat, entry: NatEntry, ops: seq<Op>, op: Op)
    requires Inv(t, n) && Tracks(t, entry, ops) && 1 <= entry.id <= n && entry.timeoutSecs > 0
    requires op.Insert? && n + (if Inserts(t, op) then 1 else 0) <= U64_MAX
    ensures Tracks(Apply(t, op), entry, ops + [op])
  {
    assert (ops + [op])[..|ops|] == ops;
    if op.timeout != 0 {
      var t1 := Purged(t, op.expireAt);
      assert entry.id in t1.entries <==> entry.id in t.entries && !IsExpired(t.entries[entry.id], op.expireAt);
      assert entry.id in t1.entries ==> t1.entries[entry.id] == t.entries[entry.id];
    }
  }

  lemma RestTracks(t: Table, entry: NatEntry, ops: seq<Op>, op: Op)
    requires Tracks(t, entry, ops) && entry.timeoutSecs > 0 && !op.Insert?
    ensures Tracks(Apply(t, op), entry, ops + [op])
  {
    assert (ops + [op])[..|ops|] == ops;
  }

  lemma StepTracks(t: Table, n: nat, entry: NatEntry, ops: seq<Op>, op: Op)
    requires Inv(t, n) && Tracks(t, entry, ops) && 1 <= entry.id <= n && entry.timeoutSecs > 0
    requires n + (if Inserts(t, op) then 1 else 0) <= U64_MAX
    ensures Tracks(Apply(t, op), entry, ops + [op])
  {
    if op.Insert? {
      InsertTracks(t, n, entry, ops, op);
    } else {
      RestTracks(t, entry, ops, op);
    }
  }

  /** A mapping as an insert stores it. */
  predicate Fresh(t: Table, entry: NatEntry) {
    && entry.id in t.entries && t.entries[entry.id] == entry
    && entry.lastSeen == entry.createdAt && entry.timeoutSecs > 0
  }

  lemma RunTracks(t: Table, n: nat, entry: NatEntry, ops: seq<Op>)
    requires Inv(t, n) && n + InsertCount(t, ops) <= U64_MAX && Fresh(t, entry) && 1 <= entry.id <= n
    ensures Tracks(Run(t, ops), entry, ops)
    decreases |ops|
  {
    if ops != [] {
      var before, op := ops[..|ops| - 1], ops[|ops| - 1];
      assert before + [op] == ops;
      RunTracks(t, n, entry, before);
      RunInv(t, n, before);
      StepTracks(Run(t, before), n + InsertCount(t, before), entry, before, op);
    }
  }

  lemma StoredIsFresh(t: Table, op: Op)
    requires op.Insert? && Inserts(t, op)
    ensures Fresh(Apply(t, op), NatEntry(t.nextId, op.original, op.translated, op.stampAt, op.stampAt, op.timeout, true))
  {
  }

  /** Both lookups answer this entry under its tuples. */
  ghost predicate Answers(t: Table, entry: NatEntry) {
    && Lookup(t.entries, t.originals, entry.original) == Some(entry)
    && Lookup(t.entries, t.translateds, entry.translated) == Some(entry)
  }

  /** Answered with its last use while it survives, gone afterwards. */
  ghost predicate LivesBy(t: Table, id: U64, insert: Op, after: seq<Op>)
    requires insert.Insert?
  {
    var stamp, timeout := insert.stampAt, insert.timeout;
    && (Survives(stamp, timeout, id, after) ==>
          Answers(t, NatEntry(id, insert.original, insert.translated, stamp, LastUse(stamp, id, after), timeout, true)))
    && (!Survives(stamp, timeout, id, after) ==> id !in t.entries)
  }

  lemma TracksLives(t: Table, id: U64, insert: Op, after: seq<Op>)
    requires insert.Insert? && InBijection(t)
    requires Tracks(t, NatEntry(id, insert.original, insert.translated, insert.stampAt, insert.stampAt, insert.timeout, true), after)
    ensures LivesBy(t, id, insert, after)
  {
  }

  lemma InsertedLives(t: Table, n: nat, insert: Op, after: seq<Op>)
    requires Inv(t, n) && insert.Insert? && Inserts(t, insert) && n + 1 + InsertCount(Apply(t, insert), after) <= U64_MAX
    ensures LivesBy(Run(Apply(t, insert), after), t.nextId, insert, after)
  {
    ApplyKeeps(t, n, insert);
    StoredIsFresh(t, insert);
    var entry := NatEntry(t.nextId, insert.original, insert.translated, insert.stampAt, insert.stampAt, insert.timeout, true);
    RunTracks(Apply(t, insert), n + 1, entry, after);
    RunInv(Apply(t, insert), n + 1, after);
    TracksLives(Run(Apply(t, insert), after), t.nextId, insert, after);
  }

  /** Over every run: a mapping accepted at some point is answered under both its tuples, with
      its last use, as long as no call removed it and every expiry since came less than its
      timeout after that use; once one did not, its id is gone for good. */
  lemma MappingLivesExactly(maxEntries: nat, before: seq<Op>, insert: Op, after: seq<Op>)
    requires insert.Insert? && Inserts(Run(NewTable(maxEntries), before), insert)
    requires InsertCount(NewTable(maxEntries), before) + 1
             + InsertCount(Apply(Run(NewTable(maxEntries), before), insert), after) <= U64_MAX
    ensures var t0 := Run(NewTable(maxEntries), before);
            LivesBy(Run(Apply(t0, insert), after), t0.nextId, insert, after)
  {
    RunKeeps(maxEntries, before);
    InsertedLives(Run(NewTable(maxEntries), before), InsertCount(NewTable(maxEntries), before), insert, after);
  }

  /** An expiry keeps an entry exactly when less than its timeout has passed since its last use. */
  lemma ExpiryKeepsExactly(t: Table, id: U64, now: U64)
    requires id in t.entries && t.entries[id].timeoutSecs > 0
    ensures id in Apply(t, RemoveExpired(now)).entries <==> now < t.entries[id].lastSeen + t.entries[id].timeoutSecs
  {
  }

  /** Touched once at `used` and then expired at `now`, a mapping is still there exactly when
      less than its timeout has passed since; untouched, its stamp counts. */
  lemma TouchRefreshes(t: Table, insert: Op, used: U64, now: U64)
    requires insert.Insert? && Inserts(t, insert)
    ensures var t1, id := Apply(t, insert), t.nextId;
            && (id in Apply(Apply(t1, Touch(id, used)), RemoveExpired(now)).entries <==> now < used + insert.timeout)
            && (id in Apply(t1, RemoveExpired(now)).entries <==> now < insert.stampAt + insert.timeout)
  {
    var t1, id := Apply(t, insert), t.nextId;
    StoredIsFresh(t, insert);
    ExpiryKeepsExactly(t1, id, now);
    ExpiryKeepsExactly(Apply(t1, Touch(id, used)), id, now);
  }

  // ---- The table object ----

  class NatTable {
    var entries: map<U64, NatEntry>
    var originalIndex: map<NatTuple, U64>
    var translatedIndex: map<NatTuple, U64>
    const maxEntries: nat
    var nextId: U64

    ghost function Value(): Table
      reads this
    {
      Table(entries, originalIndex, translatedIndex, maxEntries, nextId)
    }

    constructor (maxEntries: nat)
      ensures Value() == NewTable(maxEntries)
    {
      entries, originalIndex, translatedIndex := map[], map[], map[];
      this.maxEntries := maxEntries;
      nextId := 1;
    }

    method Remove(id: U64) returns (removed: Option<NatEntry>)
      modifies this
      ensures Value() == Removed(old(Value()), id)
      ensures removed == if id in old(entries) then Some(old(entries)[id]) else None
    {
      if id !in entries {
        return None;
      }
      var entry := entries[id];
      entries := entries - {id};
      originalIndex := originalIndex - {entry.original};
      translatedIndex := translatedIndex - {entry.translated};
      return Some(entry);
    }

    /** Collects the expired ids, then removes them one by one in any order. */
    method RemoveExpired(now: U64) returns (count: nat)
      modifies this
      ensures Value() == Purged(old(Value()), now) && count == |ExpiredIds(old(Value()), now)|
    {
      ghost var t := Value();
      var expired := set id | id in entries && IsExpired(entries[id], now);
      count := |expired|;
      var left := expired;
      ghost var gone: set<U64> := {};
      WithoutNone(t);
      while left != {}
        invariant left !! gone && left + gone == expired <= t.entries.Keys
        invariant Value() == Without(t, gone)
        decreases left
      {
        var id :| id in left;
        assert id in entries;
        var _ := Remove(id);
        WithoutOneMore(t, gone, id);
        left, gone := left - {id}, gone + {id};
      }
      assert gone == expired == ExpiredIds(t, now);
    }

    method Insert(original: NatTuple, translated: NatTuple, timeout: U64, expireAt: U64, stampAt: U64) returns (answer: Answer)
      modifies this
      ensures (Value(), answer) == InsertInto(old(Value()), original, translated, timeout, expireAt, stampAt)
    {
      if timeout == 0 {
        return Refused(InvalidTimeout);
      }
      var _ := RemoveExpired(expireAt);
      if |entries| >= maxEntries {
        return Refused(CapacityExceeded);
      }
      if original in originalIndex || translated in translatedIndex {
        return Refused(DuplicateMapping);
      }
      var id := Store(original, translated, timeout, stampAt);
      return Inserted(id);
    }

    /** The entry under a new id, and both index keys. */
    method Store(original: NatTuple, translated: NatTuple, timeout: U64, now: U64) returns (id: U64)
      modifies this
      ensures Value() == Stored(old(Value()), original, translated, timeout, now) && id == old(nextId)
    {
      id := AllocateId();
      entries := entries[id := NatEntry(id, original, translated, now, now, timeout, true)];
      originalIndex := originalIndex[original := id];
      translatedIndex := translatedIndex[translated := id];
    }

    method AllocateId() returns (id: U64)
      modifies `nextId
      ensures id == old(nextId) && nextId == Successor(id)
    {
      id := nextId;
      var next := (nextId + 1) % (U64_MAX + 1);
      if next == 0 {
        next := 1;
      }
      nextId := next;
    }

    method Touch(id: U64, now: U64) returns (found: bool)
      modifies `entries
      ensures Value() == Apply(old(Value()), Op.Touch(id, now)) && found == (id in old(entries))
    {
      found := id in entries;
      if found {
        entries := entries[id := entries[id].(lastSeen := now)];
      }
    }

    method Clear()
      modifies this
      ensures Value() == Apply(old(Value()), Op.Clear)
    {
      entries, originalIndex, translatedIndex := map[], map[], map[];
    }

    method LookupOriginal(tuple: NatTuple) returns (found: Option<NatEntry>)
      ensures found == Lookup(entries, originalIndex, tuple)
    {
      if tuple !in originalIndex {
        return None;
      }
      var id := originalIndex[tuple];
      return if id in entries then Some(entries[id]) else None;
    }

    method LookupTranslated(tuple: NatTuple) returns (found: Option<NatEntry>)
      ensures found == Lookup(entries, translatedIndex, tuple)
    {
      if tuple !in translatedIndex {
        return None;
      }
      var id := translatedIndex[tuple];
      return if id in entries then Some(entries[id]) else None;
    }
  }

  lemma WithoutNone(t: Table)
    ensures Without(t, {}) == t
  {
    var same := Without(t, {});
    assert same.entries == t.entries && same.originals == t.originals && same.translateds == t.translateds;
  }

  lemma WithoutOneMore(t: Table, gone: set<U64>, id: U64)
    requires gone <= t.entries.Keys && id in t.entries && id !in gone
    ensures Removed(Without(t, gone), id) == Without(t, gone + {id})
  {
    assert (set j | j in gone + {id} :: t.entries[j].original) == (set j | j in gone :: t.entries[j].original) + {t.entries[id].original};
    assert (set j | j in gone + {id} :: t.entries[j].translated) == (set j | j in gone :: t.entries[j].translated) + {t.entries[id].translated};
    assert t.entries - gone - {id} == t.entries - (gone + {id});
  }
}
