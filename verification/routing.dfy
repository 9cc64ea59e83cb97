/** Longest-prefix lookup in the host route table and in the forwarding table. */
module Routing {
  import opened Options
  import opened Words
  import opened Net
  import Ordering

  /** `RouteInfo::matches` and `ForwardingEntry::matches`: same family, masked equal. */
  predicate Contains(destination: IpAddr, length: nat, address: IpAddr)
    requires length <= |destination.Bits()|
  {
    match (destination, address)
    case (V4(network), V4(target)) => Matches(network, target, length)
    case (V6(network), V6(target)) => Matches(network, target, length)
    case _ => false
  }

  /** A prefix contains an address of its family whose leading bits are its own. */
  lemma ContainsLeadingBits(destination: IpAddr, length: nat, address: IpAddr)
    requires length <= |destination.Bits()|
    ensures Contains(destination, length, address) <==>
            destination.V4? == address.V4? && destination.Bits()[..length] == address.Bits()[..length]
  {
    if destination.V4? == address.V4? {
      MatchesLeadingBits(destination.Bits(), address.Bits(), length);
    }
  }

  /** Two prefixes of one length that share an address contain the same addresses. */
  lemma SharedAddressSameNetwork(d1: IpAddr, d2: IpAddr, length: nat, shared: IpAddr, any: IpAddr)
    requires length <= |d1.Bits()| && length <= |d2.Bits()|
    requires Contains(d1, length, shared) && Contains(d2, length, shared)
    ensures Contains(d1, length, any) <==> Contains(d2, length, any)
  {
    MatchesLeadingBits(d1.Bits(), shared.Bits(), length);
    MatchesLeadingBits(d2.Bits(), shared.Bits(), length);
    if d1.V4? == any.V4? {
      MatchesLeadingBits(d1.Bits(), any.Bits(), length);
      MatchesLeadingBits(d2.Bits(), any.Bits(), length);
    }
  }

  /** A longer prefix containing a shared address lies inside the shorter one. */
  lemma LongerPrefixIsInside(d1: IpAddr, long: nat, d2: IpAddr, short: nat, shared: IpAddr, any: IpAddr)
    requires short <= long <= |d1.Bits()| && short <= |d2.Bits()|
    requires Contains(d1, long, shared) && Contains(d2, short, shared)
    ensures Contains(d1, long, any) ==> Contains(d2, short, any)
  {
    MatchesLeadingBits(d1.Bits(), shared.Bits(), long);
    MatchesLeadingBits(d2.Bits(), shared.Bits(), short);
    if Contains(d1, long, any) {
      MatchesLeadingBits(d1.Bits(), any.Bits(), long);
      MatchesLeadingBits(d2.Bits(), any.Bits(), short);
      assert d1.Bits()[..long][..short] == shared.Bits()[..short] == any.Bits()[..short];
    }
  }

  /** The same family and the same leading bits. */
  predicate Under(destination: IpAddr, length: nat, address: IpAddr) {
    && (destination.V4? <==> address.V4?) && length <= |destination.Bits()|
    && destination.Bits()[..length] == address.Bits()[..length]
  }

  lemma ContainsIsUnder()
    ensures forall destination: IpAddr, length: nat, address: IpAddr | length <= |destination.Bits()| ::
              Contains(destination, length, address) <==> Under(destination, length, address)
  {
    forall destination: IpAddr, length: nat, address: IpAddr | length <= |destination.Bits()|
      ensures Contains(destination, length, address) <==> Under(destination, length, address)
    {
      ContainsLeadingBits(destination, length, address);
    }
  }

  // ---- The last maximum, as the iterator adapters choose it ----

  /** `max_by` over a filtered list: among equals the last one stays. */
  function LastMax<T>(keep: T -> bool, rank: (T, T) -> bool, s: seq<T>): Option<T> {
    if s == [] then None
    else
      var best := LastMax(keep, rank, s[..|s| - 1]);
      var x := s[|s| - 1];
      if keep(x) && (best.None? || rank(best.value, x)) then Some(x) else best
  }

  /** Nothing kept is ranked above it, and nothing kept after it is ranked as high. */
  ghost predicate IsLastMax<T>(keep: T -> bool, rank: (T, T) -> bool, s: seq<T>, best: Option<T>) {
    match best
    case None => forall x | x in s :: !keep(x)
    case Some(b) =>
      exists i | 0 <= i < |s| :: s[i] == b && keep(b)
        && (forall j | 0 <= j < |s| && keep(s[j]) :: rank(s[j], b))
        && (forall j | i < j < |s| && keep(s[j]) :: !rank(b, s[j]))
  }

  lemma {:induction false} LastMaxCorrect<T(!new)>(keep: T -> bool, rank: (T, T) -> bool, s: seq<T>)
    requires Ordering.TotalOrder(rank)
    ensures IsLastMax(keep, rank, s, LastMax(keep, rank, s))
  {
    if s != [] {
      var n := |s| - 1;
      var before, x := s[..n], s[n];
      LastMaxCorrect(keep, rank, before);
      var best := LastMax(keep, rank, before);
      if keep(x) && (best.None? || rank(best.value, x)) {
        forall j | 0 <= j < |s| && keep(s[j])
          ensures rank(s[j], x)
        {
          if j < n {
            assert before[j] == s[j];
          }
        }
        assert s[n] == x;
      } else if best.Some? {
        var i :| 0 <= i < n && before[i] == best.value
                 && (forall j | 0 <= j < n && keep(before[j]) :: rank(before[j], best.value))
                 && (forall j | i < j < n && keep(before[j]) :: !rank(best.value, before[j]));
        assert s[i] == best.value;
        forall j | 0 <= j < |s| && keep(s[j])
          ensures rank(s[j], best.value)
        {
          if j < n {
            assert before[j] == s[j];
          }
        }
        forall j | i < j < |s| && keep(s[j])
          ensures !rank(best.value, s[j])
        {
          if j < n {
            assert before[j] == s[j];
          }
        }
      }
    }
  }

  // ---- The host route table ----

  datatype Route = Route(destination: IpAddr, length: nat, nextHop: Option<IpAddr>, interfaceIndex: nat, metric: nat)

  datatype RouteError = InvalidInterface | InvalidPrefix | RouteNotFound

  predicate ValidRoute(r: Route) {
    r.interfaceIndex != 0 && r.length <= |r.destination.Bits()|
  }

  type GoodRoute = r: Route | ValidRoute(r) witness Route(V4(seq(32, _ => false)), 0, None, 1, 0)

  predicate SameSlot(a: Route, b: Route) {
    a.destination == b.destination && a.length == b.length && a.interfaceIndex == b.interfaceIndex
  }

  /** Longer prefix first, then lower metric. */
  predicate RouteRank(a: GoodRoute, b: GoodRoute) {
    a.length < b.length || (a.length == b.length && b.metric <= a.metric)
  }

  function LookupRoute(routes: seq<GoodRoute>, address: IpAddr): Option<GoodRoute> {
    LastMax((r: GoodRoute) => Contains(r.destination, r.length, address), RouteRank, routes)
  }

  /** The lookup finds a most specific containing route, of lowest metric among
      those, the last of equals; it fails exactly when no route contains the address. */
  lemma RouteLookupIsLongestMatch(routes: seq<GoodRoute>, address: IpAddr)
    ensures var found := LookupRoute(routes, address);
            && (found.None? <==> forall r | r in routes :: !Contains(r.destination, r.length, address))
            && (found.Some? ==> exists i | 0 <= i < |routes| ::
                  && routes[i] == found.value && Contains(routes[i].destination, routes[i].length, address)
                  && (forall j | 0 <= j < |routes| && Contains(routes[j].destination, routes[j].length, address) ::
                        && routes[j].length <= routes[i].length
                        && (routes[j].length == routes[i].length ==> routes[i].metric <= routes[j].metric)
                        && (i < j && routes[j].length == routes[i].length ==> routes[i].metric < routes[j].metric)))
  {
    LastMaxCorrect((r: GoodRoute) => Contains(r.destination, r.length, address), RouteRank, routes);
  }

  /** The host lookup over the leading bits of the address. */
  lemma RouteLookupBits(routes: seq<GoodRoute>, address: IpAddr)
    ensures var found := LookupRoute(routes, address);
            && (found.None? <==> forall r: GoodRoute | r in routes :: !Under(r.destination, r.length, address))
            && (found.Some? ==> found.value in routes && Under(found.value.destination, found.value.length, address)
                                && forall r: GoodRoute | r in routes && Under(r.destination, r.length, address) ::
                                     r.length < found.value.length
                                     || (r.length == found.value.length && found.value.metric <= r.metric))
  {
    RouteLookupIsLongestMatch(routes, address);
    ContainsIsUnder();
  }

  /** The first route of that slot, or the end of the table. */
  ghost predicate FirstOfSlot(routes: seq<GoodRoute>, slot: Route, i: int) {
    && 0 <= i <= |routes|
    && (forall j | 0 <= j < i :: !SameSlot(routes[j], slot))
    && (i < |routes| ==> SameSlot(routes[i], slot))
  }

  class RouteTable {
    var routes: seq<GoodRoute>

    /** One route per destination, length and interface. */
    ghost predicate Valid()
      reads this
    {
      forall i, j | 0 <= i < j < |routes| :: !SameSlot(routes[i], routes[j])
    }

    constructor ()
      ensures Valid() && routes == []
    {
      routes := [];
    }

    /** Replaces the route of the same slot in place, or appends. */
    method Insert(route: Route) returns (error: Option<RouteError>)
      requires Valid()
      modifies this
      ensures Valid()
      ensures error == if route.interfaceIndex == 0 then Some(InvalidInterface)
                       else if route.length > (if route.destination.V4? then 32 else 128) then Some(InvalidPrefix) else None
      ensures error.Some? ==> routes == old(routes)
      ensures error.None? ==> forall r: Route :: r in routes <==>
                r == route || (r in old(routes) && (r.destination, r.length, r.interfaceIndex)
                                                   != (route.destination, route.length, route.interfaceIndex))
      ensures error.None? ==> exists i ::
                && FirstOfSlot(old(routes), route, i)
                && routes == if i < |old(routes)| then old(routes)[i := route] else old(routes) + [route]
    {
      if route.interfaceIndex == 0 {
        return Some(InvalidInterface);
      }
      if route.length > |route.destination.Bits()| {
        return Some(InvalidPrefix);
      }
      var i := Position(route.destination, route.length, route.interfaceIndex);
      error := None;
      assert FirstOfSlot(old(routes), route, i);
      if i < |routes| {
        routes := routes[i := route];
      } else {
        routes := routes + [route];
      }
      assert route in routes by {
        assert routes[i] == route;
      }
      forall r: Route | r in old(routes) && !SameSlot(r, route)
        ensures r in routes
      {
        var j :| 0 <= j < |old(routes)| && old(routes)[j] == r;
        assert routes[j] == r;
      }
    }

    method Position(destination: IpAddr, length: nat, interfaceIndex: nat) returns (i: nat)
      ensures i <= |routes|
      ensures i < |routes| ==> SameSlot(routes[i], Route(destination, length, None, interfaceIndex, 0))
      ensures forall j | 0 <= j < i :: !SameSlot(routes[j], Route(destination, length, None, interfaceIndex, 0))
    {
      i := 0;
      while i < |routes| && !SameSlot(routes[i], Route(destination, length, None, interfaceIndex, 0))
        invariant i <= |routes|
        invariant forall j | 0 <= j < i :: !SameSlot(routes[j], Route(destination, length, None, interfaceIndex, 0))
      {
        i := i + 1;
      }
    }

    method Remove(destination: IpAddr, length: nat, interfaceIndex: nat) returns (removed: Option<GoodRoute>)
      requires Valid()
      modifies this
      ensures Valid()
      ensures var slot := Route(destination, length, None, interfaceIndex, 0);
              && (removed.None? ==> routes == old(routes) && forall r | r in routes ::
                    r.destination != destination || r.length != length || r.interfaceIndex != interfaceIndex)
              && (removed.Some? ==> exists i ::
                    && FirstOfSlot(old(routes), slot, i) && i < |old(routes)|
                    && (removed.value.destination, removed.value.length, removed.value.interfaceIndex)
                       == (destination, length, interfaceIndex)
                    && removed.value == old(routes)[i] && routes == old(routes)[..i] + old(routes)[i + 1..])
    {
      var i := Position(destination, length, interfaceIndex);
      assert FirstOfSlot(routes, Route(destination, length, None, interfaceIndex, 0), i);
      if i == |routes| {
        return None;
      }
      removed := Some(routes[i]);
      routes := routes[..i] + routes[i + 1..];
    }

    method Lookup(address: IpAddr) returns (found: Option<GoodRoute>)
      ensures found == LookupRoute(routes, address)
    {
      found := None;
      for i := 0 to |routes|
        invariant found == LookupRoute(routes[..i], address)
      {
        assert routes[..i + 1][..i] == routes[..i];
        if Contains(routes[i].destination, routes[i].length, address) && (found.None? || RouteRank(found.value, routes[i])) {
          found := Some(routes[i]);
        }
      }
      assert routes[..|routes|] == routes;
    }
  }

  // ---- The forwarding table ----

  datatype Entry = Entry(destination: IpAddr, length: nat, interfaceId: nat, nextHop: Option<IpAddr>, enabled: bool)

  type GoodEntry = e: Entry | e.length <= |e.destination.Bits()| witness Entry(V4(seq(32, _ => false)), 0, 0, None, false)

  predicate EntryRank(a: GoodEntry, b: GoodEntry) {
    a.length <= b.length
  }

  predicate Usable(e: GoodEntry, address: IpAddr) {
    e.enabled && Contains(e.destination, e.length, address)
  }

  function LookupEntry(entries: seq<GoodEntry>, address: IpAddr): Option<GoodEntry> {
    LastMax((e: GoodEntry) => Usable(e, address), EntryRank, entries)
  }

  /** The entry at this position is usable and no usable one is longer. */
  ghost predicate LongestAt(entries: seq<GoodEntry>, address: IpAddr, i: int) {
    && 0 <= i < |entries| && Usable(entries[i], address)
    && forall j | 0 <= j < |entries| && Usable(entries[j], address) :: entries[j].length <= entries[i].length
  }

  ghost predicate FirstLongest(entries: seq<GoodEntry>, address: IpAddr, i: int) {
    LongestAt(entries, address, i) && forall j | 0 <= j < i :: !LongestAt(entries, address, j)
  }

  ghost predicate LastLongest(entries: seq<GoodEntry>, address: IpAddr, i: int) {
    LongestAt(entries, address, i) && forall j | i < j < |entries| :: !LongestAt(entries, address, j)
  }

  lemma LastLongestAt(entries: seq<GoodEntry>, address: IpAddr, i: nat)
    requires i < |entries| && Usable(entries[i], address)
    requires forall j | 0 <= j < |entries| && Usable(entries[j], address) :: entries[j].length <= entries[i].length
    requires forall j | i < j < |entries| && Usable(entries[j], address) :: entries[j].length < entries[i].length
    ensures LastLongest(entries, address, i)
  {
  }

  /** The lookup finds the last of the most specific enabled containing entries, and fails
      exactly when no enabled entry contains the address. */
  lemma EntryLookupIsLongestMatch(entries: seq<GoodEntry>, address: IpAddr)
    ensures var found := LookupEntry(entries, address);
            && (found.None? <==> forall e | e in entries :: !Usable(e, address))
            && (found.Some? ==> exists i :: LastLongest(entries, address, i) && entries[i] == found.value)
  {
    var keep := (e: GoodEntry) => Usable(e, address);
    LastMaxCorrect(keep, EntryRank, entries);
    var found := LookupEntry(entries, address);
    if found.Some? {
      var i :| 0 <= i < |entries| && entries[i] == found.value && keep(found.value)
               && (forall j | 0 <= j < |entries| && keep(entries[j]) :: EntryRank(entries[j], found.value))
               && (forall j | i < j < |entries| && keep(entries[j]) :: !EntryRank(found.value, entries[j]));
      assert forall j | 0 <= j < |entries| && Usable(entries[j], address) :: keep(entries[j]);
      LastLongestAt(entries, address, i);
    }
  }

  /** The forwarding lookup over the leading bits of the address, disabled entries aside. */
  lemma EntryLookupBits(entries: seq<GoodEntry>, address: IpAddr)
    ensures var found := LookupEntry(entries, address);
            && (found.None? <==> forall e: GoodEntry | e in entries && e.enabled :: !Under(e.destination, e.length, address))
            && (found.Some? ==> found.value in entries && found.value.enabled
                                && Under(found.value.destination, found.value.length, address)
                                && forall e: GoodEntry | e in entries && e.enabled && Under(e.destination, e.length, address) ::
                                     e.length <= found.value.length)
  {
    EntryLookupIsLongestMatch(entries, address);
    ContainsIsUnder();
  }

  /** The comment on the function promises the first of equally long entries. The lookup
      takes the last, which is the first exactly when no other usable entry is as long. */
  lemma FirstEntryWinsExactly(entries: seq<GoodEntry>, address: IpAddr, first: int, last: int)
    requires FirstLongest(entries, address, first) && LastLongest(entries, address, last)
    ensures LookupEntry(entries, address) == Some(entries[last])
    ensures first == last <==>
            forall j | 0 <= j < |entries| && j != last && Usable(entries[j], address) :: entries[j].length < entries[last].length
  {
    EntryLookupIsLongestMatch(entries, address);
    assert entries[last] in entries;
    var i :| LastLongest(entries, address, i) && LookupEntry(entries, address) == Some(entries[i]);
    assert i == last;
    if first == last {
      forall j | 0 <= j < |entries| && j != last && Usable(entries[j], address)
        ensures entries[j].length < entries[last].length
      {
        assert !LongestAt(entries, address, j);
      }
    }
  }

  /** What the caller sees: the answer is the first of the longest entries exactly when every
      different one among them is followed by a copy of it. */
  lemma FirstEntryAnswersExactly(entries: seq<GoodEntry>, address: IpAddr, first: int)
    requires FirstLongest(entries, address, first)
    ensures LookupEntry(entries, address) == Some(entries[first]) <==>
            forall i | LongestAt(entries, address, i) && entries[i] != entries[first] ::
              exists j :: i < j < |entries| && entries[j] == entries[first]
  {
    EntryLookupIsLongestMatch(entries, address);
    assert entries[first] in entries;
    var last :| LastLongest(entries, address, last) && LookupEntry(entries, address) == Some(entries[last]);
    if entries[last] == entries[first] {
      forall i | LongestAt(entries, address, i) && entries[i] != entries[first]
        ensures exists j :: i < j < |entries| && entries[j] == entries[first]
      {
        assert i < last;
      }
    } else if j :| last < j < |entries| && entries[j] == entries[first] {
      assert LongestAt(entries, address, j);
    }
  }

  /** Two default entries through different interfaces: the second one answers. */
  lemma SecondEntryAnswers(address: IpAddr, destination: IpAddr)
    requires destination.V4? == address.V4?
    ensures var first, second := Entry(destination, 0, 1, None, true), Entry(destination, 0, 2, None, true);
            && FirstLongest([first, second], address, 0)
            && LookupEntry([first, second], address) == Some(second) != Some(first)
  {
    var first: GoodEntry, second: GoodEntry := Entry(destination, 0, 1, None, true), Entry(destination, 0, 2, None, true);
    var entries := [first, second];
    assert LongestAt(entries, address, 0) && LongestAt(entries, address, 1);
    FirstEntryWinsExactly(entries, address, 0, 1);
  }

  datatype Decision = Decision(interfaceId: nat, nextHop: IpAddr)

  function Resolve(entries: seq<GoodEntry>, address: IpAddr): Option<Decision> {
    var entry := LookupEntry(entries, address);
    if entry.None? then None
    else Some(Decision(entry.value.interfaceId, if entry.value.nextHop.Some? then entry.value.nextHop.value else address))
  }

  /** A decision names the interface of the last longest usable entry and its gateway, or the
      destination itself when that entry has none; there is one whenever an entry is usable. */
  lemma ResolveFollowsEntry(entries: seq<GoodEntry>, address: IpAddr, last: int)
    requires LastLongest(entries, address, last)
    ensures Resolve(entries, address).Some?
    ensures var d := Resolve(entries, address).value;
            && d.interfaceId == entries[last].interfaceId
            && (entries[last].nextHop == Some(d.nextHop) || (entries[last].nextHop.None? && d.nextHop == address))
  {
    EntryLookupIsLongestMatch(entries, address);
    assert entries[last] in entries;
    var i :| LastLongest(entries, address, i) && LookupEntry(entries, address) == Some(entries[i]);
    assert i == last;
  }

  predicate SameEntry(e: GoodEntry, destination: IpAddr, length: nat, interfaceId: nat) {
    e.destination == destination && e.length == length && e.interfaceId == interfaceId
  }

  class ForwardingTable {
    var entries: seq<GoodEntry>

    constructor ()
      ensures entries == []
    {
      entries := [];
    }

    method Add(entry: GoodEntry)
      modifies this
      ensures entries == old(entries) + [entry]
    {
      entries := entries + [entry];
    }

    /** Unlike the host table, the same prefix may be installed twice; all of them go and
        the others stay in their order. */
    method Remove(destination: IpAddr, length: nat, interfaceId: nat) returns (found: bool)
      modifies this
      ensures entries == Ordering.Filter((e: GoodEntry) => !SameEntry(e, destination, length, interfaceId), old(entries))
      ensures found <==> exists e ::
                && e in old(entries) && e.destination == destination && e.length == length && e.interfaceId == interfaceId
      ensures forall e :: e in entries <==>
                e in old(entries) && (e.destination != destination || e.length != length || e.interfaceId != interfaceId)
      ensures !found ==> entries == old(entries)
    {
      var keep := (e: GoodEntry) => !SameEntry(e, destination, length, interfaceId);
      var kept: seq<GoodEntry> := [];
      for i := 0 to |entries|
        invariant entries == old(entries)
        invariant kept == Ordering.Filter(keep, entries[..i])
      {
        assert entries[..i + 1] == entries[..i] + [entries[i]];
        Ordering.FilterAppend(keep, entries[..i], entries[i]);
        if keep(entries[i]) {
          kept := kept + [entries[i]];
        }
      }
      assert entries[..|entries|] == entries;
      Ordering.FilterKeepsAll(keep, entries);
      found := |kept| != |entries|;
      entries := kept;
    }

    /** Only the first entry of the prefix is switched. */
    method SetEnabled(destination: IpAddr, length: nat, interfaceId: nat, enabled: bool) returns (found: bool)
      modifies this
      ensures !found ==> entries == old(entries) && forall e | e in entries :: !SameEntry(e, destination, length, interfaceId)
      ensures found <==> exists e ::
                && e in old(entries) && e.destination == destination && e.length == length && e.interfaceId == interfaceId
      ensures found ==> exists i | 0 <= i < |old(entries)| ::
                && SameEntry(old(entries)[i], destination, length, interfaceId)
                && (forall j | 0 <= j < i :: !SameEntry(old(entries)[j], destination, length, interfaceId))
                && entries == old(entries)[i := old(entries)[i].(enabled := enabled)]
    {
      for i := 0 to |entries|
        invariant entries == old(entries)
        invariant forall j | 0 <= j < i :: !SameEntry(entries[j], destination, length, interfaceId)
      {
        if SameEntry(entries[i], destination, length, interfaceId) {
          entries := entries[i := entries[i].(enabled := enabled)];
          return true;
        }
      }
      return false;
    }

    method Lookup(address: IpAddr) returns (found: Option<GoodEntry>)
      ensures found == LookupEntry(entries, address)
    {
      found := None;
      for i := 0 to |entries|
        invariant found == LookupEntry(entries[..i], address)
      {
        assert entries[..i + 1][..i] == entries[..i];
        if Usable(entries[i], address) && (found.None? || EntryRank(found.value, entries[i])) {
          found := Some(entries[i]);
        }
      }
      assert entries[..|entries|] == entries;
    }
  }

  /** Appending an entry changes the answer for an address exactly when the entry
      is enabled, contains it and is at least as long as the present answer. */
  lemma AddedEntryTakesOver(entries: seq<GoodEntry>, entry: GoodEntry, address: IpAddr)
    ensures var before := LookupEntry(entries, address);
            LookupEntry(entries + [entry], address)
            == if Usable(entry, address) && (before.None? || before.value.length <= entry.length) then Some(entry) else before
  {
    assert (entries + [entry])[..|entries|] == entries;
  }

  /** A disabled entry, or one of another network, changes no answer. */
  lemma UnusableEntryIsInert(entries: seq<GoodEntry>, entry: GoodEntry, address: IpAddr)
    requires !entry.enabled || !Under(entry.destination, entry.length, address)
    ensures LookupEntry(entries + [entry], address) == LookupEntry(entries, address)
  {
    ContainsLeadingBits(entry.destination, entry.length, address);
    AddedEntryTakesOver(entries, entry, address);
  }

  /** Routes and entries that describe the same prefixes agree on which length wins. */
  lemma TablesAgree(routes: seq<GoodRoute>, entries: seq<GoodEntry>, address: IpAddr)
    requires |routes| == |entries|
    requires forall i | 0 <= i < |routes| ::
               entries[i].enabled && entries[i].destination == routes[i].destination && entries[i].length == routes[i].length
    ensures LookupRoute(routes, address).Some? <==> LookupEntry(entries, address).Some?
    ensures LookupRoute(routes, address).Some? ==>
              LookupRoute(routes, address).value.length == LookupEntry(entries, address).value.length
  {
    RouteLookupIsLongestMatch(routes, address);
    EntryLookupIsLongestMatch(entries, address);
    var r, e := LookupRoute(routes, address), LookupEntry(entries, address);
    if r.Some? {
      var i :| 0 <= i < |routes| && routes[i] == r.value;
      assert Usable(entries[i], address);
      assert entries[i] in entries;
    }
    if e.Some? {
      var j :| 0 <= j < |entries| && entries[j] == e.value;
      assert routes[j] in routes;
    }
  }
}
