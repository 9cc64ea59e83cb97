/** The bounded deduplication filter: a set and a queue that stand for the last
    few accepted ids. */
module Dedup {
  import opened Saturating

  datatype Event = Seen(id: U64) | Cleared

  /** The last `n` elements, or all of them. */
  function Last(s: seq<U64>, n: nat): seq<U64> {
    if |s| <= n then s else s[|s| - n..]
  }

  /** The ids accepted as new since the last clear, oldest first. An id is accepted
      unless it is among the last `maxSize` accepted ones. */
  function Accepted(maxSize: nat, history: seq<Event>): seq<U64> {
    if history == [] then []
    else
      var before := Accepted(maxSize, history[..|history| - 1]);
      match history[|history| - 1]
      case Cleared => []
      case Seen(id) => if id in Last(before, maxSize) then before else before + [id]
  }

  /** What the filter must answer to `id` after a history. */
  predicate IsDuplicate(maxSize: nat, history: seq<Event>, id: U64) {
    id in Last(Accepted(maxSize, history), maxSize)
  }

  /** The set holds the contents of the duplicate-free queue. */
  ghost predicate Mirrors(ids: set<U64>, order: seq<U64>) {
    && (forall x :: x in ids <==> x in order)
    && (forall i, j | 0 <= i < j < |order| :: order[i] != order[j])
  }

  lemma PopFront(ids: set<U64>, order: seq<U64>)
    requires Mirrors(ids, order) && order != []
    ensures Mirrors(ids - {order[0]}, order[1..])
  {
    assert forall x :: x in order <==> x == order[0] || x in order[1..];
  }

  lemma PushBack(ids: set<U64>, order: seq<U64>, id: U64)
    requires Mirrors(ids, order) && id !in ids
    ensures Mirrors(ids + {id}, order + [id])
  {
  }

  class DedupFilter {
    var ids: set<U64>
    var order: seq<U64>
    const maxSize: nat
    /** Every call so far. */
    ghost var history: seq<Event>

    /** The set is the contents of the duplicate-free queue, and the queue is the
        window of the accepted ids. */
    ghost predicate Valid()
      reads this
    {
      && Mirrors(ids, order)
      && order == Last(Accepted(maxSize, history), maxSize)
    }

    constructor (maxSize: nat)
      ensures Valid() && this.maxSize == maxSize && history == [] && order == []
    {
      ids, order, history := {}, [], [];
      this.maxSize := maxSize;
    }

    method ObserveId(id: U64) returns (duplicate: bool)
      requires Valid()
      modifies this
      ensures Valid() && history == old(history) + [Seen(id)]
      ensures duplicate <==> IsDuplicate(maxSize, old(history), id)
      ensures duplicate ==> order == old(order)
    {
      AcceptedGrows(maxSize, history, id);
      ghost var full := order + [id];
      history := history + [Seen(id)];
      if maxSize == 0 {
        return false;
      }
      if id in ids {
        return true;
      }
      PushBack(ids, order, id);
      ids := ids + {id};
      order := order + [id];
      while |order| > maxSize
        invariant Mirrors(ids, order) && Popping(order, full, maxSize)
        invariant history == old(history) + [Seen(id)]
      {
        PopFront(ids, order);
        ids := ids - {order[0]};
        order := order[1..];
      }
      PoppedIsLast(order, full, maxSize);
      return false;
    }

    method Clear()
      requires Valid()
      modifies this
      ensures Valid() && history == old(history) + [Cleared] && order == []
    {
      history := history + [Cleared];
      ids := {};
      order := [];
    }
  }

  /** What the eviction loop has left of the full queue. */
  ghost predicate Popping(order: seq<U64>, full: seq<U64>, n: nat) {
    && |order| <= |full| && order == full[|full| - |order|..]
    && (|order| >= n || order == full)
  }

  lemma PoppedIsLast(order: seq<U64>, full: seq<U64>, n: nat)
    requires Popping(order, full, n) && |order| <= n
    ensures order == Last(full, n)
  {
  }

  /** One more call: a duplicate leaves the accepted ids alone, so it does not refresh
      the id's age; a new id joins at the young end. */
  lemma AcceptedStep(maxSize: nat, history: seq<Event>, id: U64)
    ensures Accepted(maxSize, history + [Seen(id)])
            == if IsDuplicate(maxSize, history, id) then Accepted(maxSize, history) else Accepted(maxSize, history) + [id]
  {
    assert (history + [Seen(id)])[..|history|] == history;
  }

  lemma LastStep(s: seq<U64>, id: U64, n: nat)
    ensures |Last(s, n)| <= n
    ensures Last(s + [id], n) == Last(Last(s, n) + [id], n)
    ensures n > 0 ==> id in Last(s + [id], n)
  {
    if n > 0 {
      assert Last(s + [id], n)[|Last(s + [id], n)| - 1] == id;
    }
  }

  /** The window after one more id. */
  lemma AcceptedGrows(maxSize: nat, history: seq<Event>, id: U64)
    ensures var a, a' := Accepted(maxSize, history), Accepted(maxSize, history + [Seen(id)]);
            && |Last(a, maxSize)| <= maxSize
            && Last(a', maxSize) == if IsDuplicate(maxSize, history, id) then Last(a, maxSize) else Last(Last(a, maxSize) + [id], maxSize)
  {
    AcceptedStep(maxSize, history, id);
    LastStep(Accepted(maxSize, history), id, maxSize);
  }

  // ---- What the window means ----

  /** Between two acceptances of one id lie at least `maxSize` accepted others, so
      within any stretch of `maxSize + 1` accepted ids none repeats. */
  lemma {:induction false} RepeatsAreFarApart(maxSize: nat, history: seq<Event>, i: nat, j: nat)
    requires i < j < |Accepted(maxSize, history)|
    requires Accepted(maxSize, history)[i] == Accepted(maxSize, history)[j]
    ensures j - i > maxSize
  {
    var before := history[..|history| - 1];
    var a, a' := Accepted(maxSize, before), Accepted(maxSize, history);
    if j < |a| {
      RepeatsAreFarApart(maxSize, before, i, j);
    } else {
      var last := Last(a, maxSize);
      assert forall k | 0 <= k < |last| :: last[k] == a[|a| - |last| + k];
      assert a'[j] !in last;
      if |last| >= j - i {
        assert false;
      }
    }
  }

  /** Right after an id was seen, the filter calls it a duplicate exactly when it has room at all. */
  lemma SeenIsDuplicate(maxSize: nat, history: seq<Event>, id: U64)
    ensures IsDuplicate(maxSize, history + [Seen(id)], id) <==> maxSize > 0
  {
    AcceptedStep(maxSize, history, id);
    LastStep(Accepted(maxSize, history), id, maxSize);
  }

  /** The last occurrence of an id is among the last `n` exactly when it lies that near the end. */
  lemma InLastExactly(a: seq<U64>, n: nat, position: nat)
    requires position < |a| && forall k | position < k < |a| :: a[k] != a[position]
    ensures a[position] in Last(a, n) <==> |a| - position <= n
  {
    var start := |a| - |Last(a, n)|;
    assert forall k | 0 <= k < |Last(a, n)| :: Last(a, n)[k] == a[start + k];
    if position >= start {
      assert Last(a, n)[position - start] == a[position];
    }
  }

  /** An accepted id ages out after exactly `maxSize` further acceptances, whatever
      duplicates come between: duplicates do not refresh it. */
  lemma AgesByAcceptances(maxSize: nat, history: seq<Event>, position: nat)
    requires position < |Accepted(maxSize, history)|
    requires forall k | position < k < |Accepted(maxSize, history)| ::
               Accepted(maxSize, history)[k] != Accepted(maxSize, history)[position]
    ensures IsDuplicate(maxSize, history, Accepted(maxSize, history)[position])
            <==> |Accepted(maxSize, history)| - position <= maxSize
  {
    InLastExactly(Accepted(maxSize, history), maxSize, position);
  }
}
