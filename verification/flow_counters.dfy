/** The per-flow aggregate counters: what one `record` call does to the four
    values, and the compare-exchange loops that do it. */
module FlowCounters {
  import opened Saturating

  datatype Counters = Counters(packets: U64, bytes: U64, firstSeen: U64, lastSeen: U64)

  const ZERO := Counters(0, 0, 0, 0)

  /** Timestamp 0 means "unset", so a set value only moves down and an unset one is replaced. */
  function FirstAfter(current: U64, ts: U64): U64 {
    if current != 0 && ts >= current then current else ts
  }

  function LastAfter(current: U64, ts: U64): U64 {
    if ts <= current then current else ts
  }

  /** The effect of one uninterrupted `record`. */
  function Recorded(c: Counters, bytes: U64, ts: U64): Counters {
    Counters(SatAdd(c.packets, 1), SatAdd(c.bytes, bytes), FirstAfter(c.firstSeen, ts), LastAfter(c.lastSeen, ts))
  }

  class AtomicU64 {
    var value: U64

    constructor ()
      ensures value == 0
    {
      value := 0;
    }

    /** A weak compare-exchange: it may fail although the values agree. */
    method CompareExchangeWeak(expected: U64, desired: U64, spurious: bool) returns (ok: bool, observed: U64)
      modifies this
      ensures observed == old(value)
      ensures ok <==> !spurious && old(value) == expected
      ensures value == if ok then desired else old(value)
    {
      observed := value;
      ok := !spurious && value == expected;
      if ok {
        value := desired;
      }
    }
  }

  /** `failures` is how often the weak exchange fails spuriously before it goes through. */
  method SaturatingAdd(counter: AtomicU64, amount: U64, failures: nat)
    modifies counter
    ensures counter.value == Cap(old(counter.value) + amount)
  {
    var current := counter.value;
    var left := failures;
    var done := false;
    while !done
      invariant done ==> counter.value == Cap(old(counter.value) + amount)
      invariant !done ==> counter.value == old(counter.value) == current
      decreases !done, left
    {
      var next := SatAdd(current, amount);
      var observed;
      done, observed := counter.CompareExchangeWeak(current, next, left > 0);
      if !done {
        current := observed;
        left := left - 1;
      }
    }
  }

  method UpdateFirstSeen(cell: AtomicU64, ts: U64, failures: nat)
    modifies cell
    ensures cell.value == FirstAfter(old(cell.value), ts)
  {
    var current := cell.value;
    var left := failures;
    while true
      invariant cell.value == old(cell.value) == current
      decreases left
    {
      if current != 0 && ts >= current {
        return;
      }
      var done, observed := cell.CompareExchangeWeak(current, ts, left > 0);
      if done {
        return;
      }
      current := observed;
      left := left - 1;
    }
  }

  method UpdateLastSeen(cell: AtomicU64, ts: U64, failures: nat)
    modifies cell
    ensures cell.value == LastAfter(old(cell.value), ts)
  {
    var current := cell.value;
    var left := failures;
    while true
      invariant cell.value == old(cell.value) == current
      decreases left
    {
      if ts <= current {
        return;
      }
      var done, observed := cell.CompareExchangeWeak(current, ts, left > 0);
      if done {
        return;
      }
      current := observed;
      left := left - 1;
    }
  }

  class FlowCounters {
    const packets: AtomicU64
    const bytes: AtomicU64
    const firstSeen: AtomicU64
    const lastSeen: AtomicU64

    ghost predicate Valid() {
      && packets != bytes && packets != firstSeen && packets != lastSeen
      && bytes != firstSeen && bytes != lastSeen && firstSeen != lastSeen
    }

    ghost function Value(): Counters
      reads packets, bytes, firstSeen, lastSeen
    {
      Counters(packets.value, bytes.value, firstSeen.value, lastSeen.value)
    }

    constructor ()
      ensures Valid() && Value() == ZERO
      ensures fresh({packets, bytes, firstSeen, lastSeen})
    {
      packets := new AtomicU64();
      bytes := new AtomicU64();
      firstSeen := new AtomicU64();
      lastSeen := new AtomicU64();
    }

    /** `record` without interference from other threads; `failures` gives the
        number of spurious failures each of its four loops meets. */
    method Record(amount: U64, ts: U64, failures: (nat, nat, nat, nat))
      requires Valid()
      modifies packets, bytes, firstSeen, lastSeen
      ensures Value() == Recorded(old(Value()), amount, ts)
    {
      SaturatingAdd(packets, 1, failures.0);
      SaturatingAdd(bytes, amount, failures.1);
      UpdateFirstSeen(firstSeen, ts, failures.2);
      UpdateLastSeen(lastSeen, ts, failures.3);
    }
  }
}
