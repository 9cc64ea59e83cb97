/** The round-robin cursor: which candidate each selection takes, and how fair it is. */
module RoundRobin {
  import opened Options
  import opened Saturating
  import opened Ordering
  import opened Capabilities
  import opened Managers
  import Engines

  /** The cursor is a 64-bit `usize` and wraps. */
  const WRAP: nat := U64_MAX + 1

  /** The index the `k`-th selection takes from `n` candidates, the cursor starting at `c`. */
  function PickAt(c: nat, n: nat, k: nat): nat
    requires n > 0
  {
    ((c + k) % WRAP) % n
  }

  /** The answers of `m` selections in a row, registry and candidates unchanged. */
  function SelectMany(r: Registry, candidates: seq<string>, cursor: U64, m: nat): seq<Option<string>>
    decreases m
  {
    if m == 0 then []
    else
      var (pick, next) := Engines.Select(r, FailoverPolicy.RoundRobin, cursor, candidates);
      [pick] + SelectMany(r, candidates, next, m - 1)
  }

  lemma OneSelection(r: Registry, candidates: seq<string>, cursor: U64)
    requires candidates != []
    ensures Engines.Select(r, FailoverPolicy.RoundRobin, cursor, candidates)
            == (Some(candidates[PickAt(cursor, |candidates|, 0)]), Inc(cursor))
  {
  }

  lemma LaterPicks(cursor: U64, n: nat, k: nat)
    requires n > 0 && k > 0
    ensures PickAt(Inc(cursor), n, k - 1) == PickAt(cursor, n, k)
  {
    if cursor == U64_MAX {
      AddOne(k - 1, WRAP);
      assert cursor + k == k - 1 + WRAP;
    }
  }

  /** The selections walk the candidates by index. */
  lemma {:induction false} SelectManyWalks(r: Registry, candidates: seq<string>, cursor: U64, m: nat)
    requires candidates != []
    ensures |SelectMany(r, candidates, cursor, m)| == m
    ensures forall k | 0 <= k < m :: SelectMany(r, candidates, cursor, m)[k] == Some(candidates[PickAt(cursor, |candidates|, k)])
    decreases m
  {
    if m > 0 {
      OneSelection(r, candidates, cursor);
      SelectManyWalks(r, candidates, Inc(cursor), m - 1);
      var rest := SelectMany(r, candidates, Inc(cursor), m - 1);
      assert SelectMany(r, candidates, cursor, m) == [Some(candidates[PickAt(cursor, |candidates|, 0)])] + rest;
      forall k | 0 < k < m
        ensures rest[k - 1] == Some(candidates[PickAt(cursor, |candidates|, k)])
      {
        LaterPicks(cursor, |candidates|, k);
      }
    }
  }

  // ---- Arithmetic of remainders ----

  lemma Multiple(p: int, n: int)
    requires n > 0 && -n < p * n < n
    ensures p == 0
  {
    assert p >= 1 ==> p * n >= n;
    assert p <= -1 ==> p * n <= -n;
  }

  /** A remainder is the only value in range that differs by a multiple. */
  lemma Remainder(x: nat, n: nat, q: int, r: nat)
    requires n > 0 && r < n && x == q * n + r
    ensures x % n == r
  {
    assert x == x / n * n + x % n;
    assert (x / n - q) * n == r - x % n;
    Multiple(x / n - q, n);
  }

  lemma AddOne(x: nat, n: nat)
    requires n > 0
    ensures (x + n) % n == x % n
  {
    Remainder(x + n, n, x / n + 1, x % n);
  }

  /** Two numbers less than `n` apart have different remainders. */
  lemma NearbyDiffer(x: nat, y: nat, n: nat)
    requires n > 0 && x < y < x + n
    ensures x % n != y % n
  {
    if x % n == y % n {
      assert y - x == (y / n - x / n) * n;
      Multiple(y / n - x / n, n);
      assert false;
    }
  }

  /** Some number among `n` consecutive ones has remainder `i`. */
  lemma SomeHits(x: nat, n: nat, i: nat) returns (k: nat)
    requires i < n
    ensures k < n && (x + k) % n == i
  {
    if x % n <= i {
      k := i - x % n;
      Remainder(x + k, n, x / n, i);
    } else {
      k := n + i - x % n;
      Remainder(x + k, n, x / n + 1, i);
    }
  }

  lemma DivisibleWrap(x: nat, n: nat)
    requires n > 0 && WRAP % n == 0
    ensures (x % WRAP) % n == x % n
  {
    var w := WRAP / n;
    assert WRAP == w * n;
    var q := x / WRAP;
    var y := x % WRAP;
    assert x == q * WRAP + y;
    assert q * WRAP == (q * w) * n;
    assert y == y / n * n + y % n;
    assert (q * w) * n + y / n * n == (q * w + y / n) * n;
    Remainder(x, n, q * w + y / n, y % n);
  }

  // ---- Lists of picks ----

  /** The indices of `m` selections in a row. */
  function Picks(c: nat, n: nat, m: nat): seq<nat>
    requires n > 0
  {
    seq(m, k requires 0 <= k < m => PickAt(c, n, k))
  }

  /** Picks less than `n` apart differ. */
  ghost predicate Spaced(p: seq<nat>, n: nat) {
    forall k, l | 0 <= k < l < |p| && l < k + n :: p[k] != p[l]
  }

  predicate Holds(p: seq<nat>, k: nat, n: nat, i: nat)
    requires k + n <= |p|
  {
    i in p[k..k + n]
  }

  /** Every stretch of `n` picks holds every index. */
  ghost predicate Covering(p: seq<nat>, n: nat) {
    forall k: nat, i: nat | k + n <= |p| && i < n :: Holds(p, k, n, i)
  }

  /** `n` selections take every candidate exactly once. */
  ghost predicate FairWindow(c: nat, n: nat)
    requires n > 0
  {
    Spaced(Picks(c, n, n), n) && forall i | 0 <= i < n :: i in Picks(c, n, n)
  }

  /** While the wrap does not show, the picks are spaced and covering. */
  lemma PlainPicksAreFair(c: nat, n: nat, m: nat)
    requires n > 0 && forall k | 0 <= k < m :: PickAt(c, n, k) == (c + k) % n
    ensures Spaced(Picks(c, n, m), n) && Covering(Picks(c, n, m), n)
  {
    var p := Picks(c, n, m);
    forall k, l | 0 <= k < l < |p| && l < k + n
      ensures p[k] != p[l]
    {
      NearbyDiffer(c + k, c + l, n);
    }
    forall k: nat, i: nat | k + n <= |p| && i < n
      ensures Holds(p, k, n, i)
    {
      var j := SomeHits(c + k, n, i);
      assert p[k..k + n][j] == p[k + j] == (c + (k + j)) % n;
    }
  }

  lemma PlainWindowIsFair(c: nat, n: nat)
    requires n > 0 && forall k | 0 <= k < n :: PickAt(c, n, k) == (c + k) % n
    ensures FairWindow(c, n)
  {
    PlainPicksAreFair(c, n, n);
    var p := Picks(c, n, n);
    assert p[0..0 + n] == p;
    assert forall i: nat | i < n :: Holds(p, 0, n, i) ==> i in p;
  }

  /** The picks around the wrap: before it the remainders lead up to that of the
      range, after it they start again at 0. */
  lemma BeforeWrap(c: U64, n: nat, k: nat, r: nat)
    requires n > 0 && c + k < WRAP && r < n && c + k == WRAP - WRAP % n + r - (if r < WRAP % n then 0 else n)
    ensures PickAt(c, n, k) == r
  {
    var w := WRAP / n;
    assert WRAP - WRAP % n == w * n;
    OneLess(w, n);
    Remainder(c + k, n, if r < WRAP % n then w else w - 1, r);
    BeforeWrapPlain(c, n, k);
  }

  lemma BeforeWrapPlain(c: nat, n: nat, k: nat)
    requires n > 0 && c + k < WRAP
    ensures PickAt(c, n, k) == (c + k) % n
  {
  }

  lemma OneLess(w: int, n: int)
    ensures (w - 1) * n == w * n - n
  {
  }

  lemma AfterWrap(c: U64, n: nat, k: nat)
    requires n > 0 && WRAP <= c + k < WRAP + n && c + k - WRAP < WRAP
    ensures PickAt(c, n, k) == c + k - WRAP
  {
    Remainder(c + k, WRAP, 1, c + k - WRAP);
    Remainder(c + k - WRAP, n, 0, c + k - WRAP);
  }

  /** A window across the wrap of a range that `n` does not divide takes a candidate
      twice: the first one of the window, or the one at index 0. */
  lemma WrappedWindowRepeats(c: U64, n: nat)
    requires 0 < n <= WRAP && c + n > WRAP && WRAP % n != 0
    ensures !FairWindow(c, n)
  {
    var a, r, p := WRAP - c, WRAP % n, Picks(c, n, n);
    if a <= r {
      BeforeWrap(c, n, 0, r - a);
      AfterWrap(c, n, r);
      assert p[0] == p[r];
    } else {
      BeforeWrap(c, n, a - r, 0);
      AfterWrap(c, n, a);
      assert p[a - r] == p[a];
    }
  }

  /** A window is fair exactly when the cursor does not wrap inside it or the number
      of candidates divides the range of the cursor. */
  lemma FairExactly(c: U64, n: nat)
    requires 0 < n <= WRAP
    ensures FairWindow(c, n) <==> c + n <= WRAP || WRAP % n == 0
  {
    if c + n <= WRAP {
      PlainWindowIsFair(c, n);
    } else if WRAP % n == 0 {
      forall k | 0 <= k < n
        ensures PickAt(c, n, k) == (c + k) % n
      {
        DivisibleWrap(c + k, n);
      }
      PlainWindowIsFair(c, n);
    } else {
      WrappedWindowRepeats(c, n);
    }
  }

  // ---- Any number of selections ----

  /** How often an index is picked. */
  function Times(p: seq<nat>, i: nat): nat {
    if p == [] then 0 else (if p[0] == i then 1 else 0) + Times(p[1..], i)
  }

  lemma {:induction false} TimesSplit(p: seq<nat>, q: seq<nat>, i: nat)
    ensures Times(p + q, i) == Times(p, i) + Times(q, i)
  {
    if p == [] {
      assert p + q == q;
    } else {
      assert (p + q)[1..] == p[1..] + q;
      TimesSplit(p[1..], q, i);
    }
  }

  /** Among distinct picks an index appears once if at all. */
  lemma {:induction false} TimesOfDistinct(p: seq<nat>, i: nat)
    requires forall k, l | 0 <= k < l < |p| :: p[k] != p[l]
    ensures Times(p, i) == if i in p then 1 else 0
  {
    if p != [] {
      TimesOfDistinct(p[1..], i);
      assert i in p <==> i == p[0] || i in p[1..];
      assert p[0] !in p[1..];
    }
  }

  lemma FirstStretch(p: seq<nat>, n: nat, i: nat)
    requires i < n <= |p| && Spaced(p, n) && Covering(p, n)
    ensures Times(p[..n], i) == 1
  {
    assert Holds(p, 0, n, i) && p[0..n] == p[..n];
    TimesOfDistinct(p[..n], i);
  }

  lemma RestIsFair(p: seq<nat>, n: nat)
    requires n <= |p| && Spaced(p, n) && Covering(p, n)
    ensures Spaced(p[n..], n) && Covering(p[n..], n)
  {
    var rest := p[n..];
    forall k: nat, j: nat | k + n <= |rest| && j < n
      ensures Holds(rest, k, n, j)
    {
      assert Holds(p, n + k, n, j);
      assert rest[k..k + n] == p[n + k..n + k + n];
    }
  }

  /** `q` full stretches and a remainder. */
  lemma {:induction false} SpacedIsEven(p: seq<nat>, n: nat, q: nat, i: nat)
    requires i < n && q * n <= |p| < q * n + n && Spaced(p, n) && Covering(p, n)
    ensures q <= Times(p, i) <= q + 1
    decreases q
  {
    if q == 0 {
      TimesOfDistinct(p, i);
    } else {
      assert q * n == (q - 1) * n + n && (q - 1) * n >= 0;
      FirstStretch(p, n, i);
      RestIsFair(p, n);
      assert p == p[..n] + p[n..];
      TimesSplit(p[..n], p[n..], i);
      SpacedIsEven(p[n..], n, q - 1, i);
    }
  }

  lemma Division(m: nat, n: nat)
    requires n > 0
    ensures m / n * n <= m < m / n * n + n
  {
    assert m == m / n * n + m % n;
  }

  lemma NoWrapShows(c: nat, n: nat, m: nat)
    requires n > 0 && c + m <= WRAP
    ensures forall k | 0 <= k < m :: PickAt(c, n, k) == (c + k) % n
  {
  }

  /** Over any number of selections before the cursor wraps, every candidate is taken
      equally often, give or take one. */
  lemma EvenlyTaken(c: nat, n: nat, m: nat, i: nat)
    requires i < n && c + m <= WRAP
    ensures m / n <= Times(Picks(c, n, m), i) <= m / n + 1
  {
    NoWrapShows(c, n, m);
    PlainPicksAreFair(c, n, m);
    Division(m, n);
    var q := m / n;
    SpacedIsEven(Picks(c, n, m), n, q, i);
  }

  // ---- The names answered ----

  /** How often `m` selections in a row answer a name. */
  function Answered(r: Registry, candidates: seq<string>, cursor: U64, m: nat, name: string): nat {
    multiset(SelectMany(r, candidates, cursor, m))[Some(name)]
  }

  ghost predicate Distinct(candidates: seq<string>) {
    forall i, j | 0 <= i < j < |candidates| :: candidates[i] != candidates[j]
  }

  lemma {:induction false} NamesFollowPicks(names: seq<Option<string>>, picks: seq<nat>, candidates: seq<string>, i: nat)
    requires |names| == |picks| && i < |candidates| && Distinct(candidates)
    requires forall k | 0 <= k < |picks| :: picks[k] < |candidates| && names[k] == Some(candidates[picks[k]])
    ensures multiset(names)[Some(candidates[i])] == Times(picks, i)
  {
    if picks != [] {
      NamesFollowPicks(names[1..], picks[1..], candidates, i);
      assert names == [names[0]] + names[1..];
      assert names[0] == Some(candidates[i]) <==> picks[0] == i;
    }
  }

  lemma AnsweredIsTimes(r: Registry, candidates: seq<string>, cursor: U64, m: nat, i: nat)
    requires i < |candidates| && Distinct(candidates)
    ensures Answered(r, candidates, cursor, m, candidates[i]) == Times(Picks(cursor, |candidates|, m), i)
  {
    SelectManyWalks(r, candidates, cursor, m);
    NamesFollowPicks(SelectMany(r, candidates, cursor, m), Picks(cursor, |candidates|, m), candidates, i);
  }

  lemma {:induction false} TimesTwice(p: seq<nat>, k: nat, l: nat)
    requires k < l < |p| && p[k] == p[l]
    ensures Times(p, p[k]) >= 2
  {
    assert p == p[..l] + p[l..] && p[..l] == p[..k] + p[k..l];
    TimesSplit(p[..l], p[l..], p[k]);
    TimesSplit(p[..k], p[k..l], p[k]);
  }

  lemma {:induction false} TimesOfPresent(p: seq<nat>, i: nat)
    ensures Times(p, i) > 0 <==> i in p
  {
    if p != [] {
      TimesOfPresent(p[1..], i);
      assert i in p <==> i == p[0] || i in p[1..];
    }
  }

  /** Every index is picked once. */
  ghost predicate AllOnce(p: seq<nat>, n: nat) {
    forall i: nat | i < n :: Times(p, i) == 1
  }

  lemma AllOnceIsFair(p: seq<nat>, n: nat)
    requires |p| == n && forall k | 0 <= k < n :: p[k] < n
    ensures AllOnce(p, n) <==> Spaced(p, n) && forall i | 0 <= i < n :: i in p
  {
    if Spaced(p, n) && forall i | 0 <= i < n :: i in p {
      forall i: nat | i < n
        ensures Times(p, i) == 1
      {
        TimesOfDistinct(p, i);
      }
    }
    if AllOnce(p, n) {
      forall k, l | 0 <= k < l < |p|
        ensures p[k] != p[l]
      {
        assert Times(p, p[k]) == 1;
        if p[k] == p[l] {
          TimesTwice(p, k, l);
        }
      }
      forall i | 0 <= i < n
        ensures i in p
      {
        TimesOfPresent(p, i);
      }
    }
  }

  lemma PicksInRange(c: nat, n: nat, m: nat)
    requires n > 0
    ensures forall k | 0 <= k < m :: Picks(c, n, m)[k] < n
  {
  }

  /** Every candidate is answered once. */
  ghost predicate AllAnsweredOnce(r: Registry, candidates: seq<string>, cursor: U64) {
    forall name | name in candidates :: Answered(r, candidates, cursor, |candidates|, name) == 1
  }

  lemma AnsweredOncePickedOnce(r: Registry, candidates: seq<string>, cursor: U64)
    requires Distinct(candidates) && candidates != []
    ensures AllAnsweredOnce(r, candidates, cursor) <==> AllOnce(Picks(cursor, |candidates|, |candidates|), |candidates|)
  {
    var n := |candidates|;
    var p := Picks(cursor, n, n);
    if AllOnce(p, n) {
      forall name | name in candidates
        ensures Answered(r, candidates, cursor, n, name) == 1
      {
        var i :| 0 <= i < n && candidates[i] == name;
        AnsweredIsTimes(r, candidates, cursor, n, i);
      }
    }
    if AllAnsweredOnce(r, candidates, cursor) {
      forall i: nat | i < n
        ensures Times(p, i) == 1
      {
        assert candidates[i] in candidates;
        AnsweredIsTimes(r, candidates, cursor, n, i);
      }
    }
  }

  /** As many selections as there are candidates answer every name exactly once if and only
      if the cursor does not wrap among them or their number divides its range. */
  lemma AnswersFairExactly(r: Registry, candidates: seq<string>, cursor: U64)
    requires Distinct(candidates) && 0 < |candidates| <= WRAP
    ensures AllAnsweredOnce(r, candidates, cursor) <==> cursor + |candidates| <= WRAP || WRAP % |candidates| == 0
  {
    var n := |candidates|;
    FairExactly(cursor, n);
    PicksInRange(cursor, n, n);
    AllOnceIsFair(Picks(cursor, n, n), n);
    AnsweredOncePickedOnce(r, candidates, cursor);
  }

  /** Over any number of selections before the wrap, every name is answered equally often,
      give or take one. */
  lemma AnswersEven(r: Registry, candidates: seq<string>, cursor: U64, m: nat, name: string)
    requires Distinct(candidates) && name in candidates && cursor + m <= WRAP
    ensures m / |candidates| <= Answered(r, candidates, cursor, m, name) <= m / |candidates| + 1
  {
    var i :| 0 <= i < |candidates| && candidates[i] == name;
    AnsweredIsTimes(r, candidates, cursor, m, i);
    EvenlyTaken(cursor, |candidates|, m, i);
  }

  /** The engine's failover candidates are distinct, so both results hold of them. */
  lemma CandidatesDistinct(r: Registry, capability: Capability, failed: string)
    ensures Distinct(Engines.Candidates(r, capability, failed))
  {
    Engines.CandidatesTakeOver(r, capability, failed);
  }
}
