/** The order in which the runtime lists backends, and sorting by it. */
module Ordering {
  /** `String` order: the first differing character decides, a prefix comes first. */
  predicate Le(a: string, b: string) {
    a == [] || (b != [] && (a[0] < b[0] || (a[0] == b[0] && Le(a[1..], b[1..]))))
  }

  predicate Lt(a: string, b: string) {
    a != b && Le(a, b)
  }

  /** The two strings agree up to `k`, and there the first one ends or has the lesser character. */
  predicate DecidesAt(a: string, b: string, k: nat) {
    && k <= |a| && k <= |b| && a[..k] == b[..k]
    && (k == |a| || (k < |b| && a[k] < b[k]))
  }

  /** A string comes before or beside its extensions, and otherwise the first differing
      character decides. */
  lemma {:induction false} LeByFirstDifference(a: string, b: string)
    ensures Le(a, b) <==> exists k: nat :: DecidesAt(a, b, k)
  {
    if a == [] {
      assert DecidesAt(a, b, 0);
    } else if b != [] && a[0] == b[0] {
      LeByFirstDifference(a[1..], b[1..]);
      if k: nat :| DecidesAt(a[1..], b[1..], k) {
        assert a[..k + 1] == [a[0]] + a[1..][..k] && b[..k + 1] == [b[0]] + b[1..][..k];
        assert DecidesAt(a, b, k + 1);
      }
      if k: nat :| DecidesAt(a, b, k) {
        assert k > 0 && a[1..][..k - 1] == a[..k][1..] && b[1..][..k - 1] == b[..k][1..];
        assert DecidesAt(a[1..], b[1..], k - 1);
      }
    } else if b != [] {
      assert forall k | 0 < k <= |a| && k <= |b| :: a[..k][0] == a[0] && b[..k][0] == b[0];
      assert a[0] < b[0] ==> DecidesAt(a, b, 0);
    }
  }

  lemma {:induction false} LeTotal(a: string, b: string)
    ensures Le(a, b) || Le(b, a)
  {
    if a != [] && b != [] {
      LeTotal(a[1..], b[1..]);
    }
  }

  lemma {:induction false} LeAntisymmetric(a: string, b: string)
    requires Le(a, b) && Le(b, a)
    ensures a == b
  {
    if a != [] && b != [] {
      LeAntisymmetric(a[1..], b[1..]);
      assert a == [a[0]] + a[1..] && b == [b[0]] + b[1..];
    }
  }

  lemma {:induction false} LeTransitive(a: string, b: string, c: string)
    requires Le(a, b) && Le(b, c)
    ensures Le(a, c)
  {
    if a != [] && b[0] == a[0] && c[0] == b[0] {
      LeTransitive(a[1..], b[1..], c[1..]);
    }
  }

  predicate IsFirst(x: string, names: set<string>) {
    x in names && forall y | y in names :: Le(x, y)
  }

  lemma {:induction false} FirstExists(names: set<string>)
    requires names != {}
    ensures exists x :: IsFirst(x, names)
    decreases |names|
  {
    var x :| x in names;
    var rest := names - {x};
    LeTotal(x, x);
    if rest == {} {
      assert names == {x};
      assert IsFirst(x, names);
    } else {
      FirstExists(rest);
      var y :| IsFirst(y, rest);
      LeTotal(x, y);
      if Le(x, y) {
        forall z | z in names
          ensures Le(x, z)
        {
          if z != x {
            LeTransitive(x, y, z);
          }
        }
        assert IsFirst(x, names);
      } else {
        assert IsFirst(y, names);
      }
    }
  }

  lemma FirstUnique(names: set<string>)
    ensures forall x, y | IsFirst(x, names) && IsFirst(y, names) :: x == y
  {
    forall x, y | IsFirst(x, names) && IsFirst(y, names)
      ensures x == y
    {
      LeAntisymmetric(x, y);
    }
  }

  /** Listed in strictly increasing order. */
  ghost predicate Increasing(names: seq<string>) {
    forall i, j | 0 <= i < j < |names| :: Lt(names[i], names[j])
  }

  /** The elements of a set in increasing order, as `names()` lists the registered backends. */
  function Sorted(names: set<string>): (r: seq<string>)
    ensures Increasing(r)
    ensures forall x :: x in r <==> x in names
    decreases |names|
  {
    if names == {} then []
    else
      FirstExists(names);
      FirstUnique(names);
      var x :| IsFirst(x, names);
      var rest := Sorted(names - {x});
      assert forall j | 0 <= j < |rest| :: rest[j] in names - {x};
      [x] + rest
  }

  /** The entries that pass a test, in their order. */
  function Filter<T(!new)>(p: T -> bool, s: seq<T>): (r: seq<T>)
    ensures forall x :: x in r <==> x in s && p(x)
    ensures |r| <= |s|
  {
    if s == [] then [] else if p(s[0]) then [s[0]] + Filter(p, s[1..]) else Filter(p, s[1..])
  }

  lemma {:induction false} FilterAppend<T(!new)>(p: T -> bool, s: seq<T>, x: T)
    ensures Filter(p, s + [x]) == Filter(p, s) + if p(x) then [x] else []
  {
    if s != [] {
      assert (s + [x])[1..] == s[1..] + [x];
      FilterAppend(p, s[1..], x);
    }
  }

  /** Nothing is lost exactly when everything passes. */
  lemma {:induction false} FilterKeepsAll<T(!new)>(p: T -> bool, s: seq<T>)
    ensures |Filter(p, s)| == |s| <==> forall x | x in s :: p(x)
    ensures |Filter(p, s)| == |s| ==> Filter(p, s) == s
  {
    if s != [] {
      FilterKeepsAll(p, s[1..]);
      assert s == [s[0]] + s[1..];
    }
  }

  lemma {:induction false} FilterIncreasing(p: string -> bool, s: seq<string>)
    requires Increasing(s)
    ensures Increasing(Filter(p, s))
  {
    if s != [] {
      FilterIncreasing(p, s[1..]);
      assert forall x | x in s[1..] :: Lt(s[0], x);
    }
  }

  /** The names already seen that pass a test, in order. */
  ghost predicate Kept(seen: seq<string>, p: string -> bool, list: seq<string>) {
    Increasing(list) && forall n :: n in list <==> n in seen && p(n)
  }

  /** Pushing the next name, if it passes, keeps the list in order: a later sort finds
      nothing to do. */
  lemma KeptGrows(names: seq<string>, i: nat, p: string -> bool, list: seq<string>)
    requires i < |names| && Increasing(names) && Kept(names[..i], p, list)
    ensures Kept(names[..i + 1], p, if p(names[i]) then list + [names[i]] else list)
  {
    assert names[..i + 1] == names[..i] + [names[i]];
    forall j | 0 <= j < |list|
      ensures Lt(list[j], names[i])
    {
      assert list[j] in names[..i];
    }
  }

  // ---- Sorting a vector ----

  function Insert<T>(le: (T, T) -> bool, x: T, s: seq<T>): seq<T> {
    if s == [] || le(x, s[0]) then [x] + s else [s[0]] + Insert(le, x, s[1..])
  }

  function Sort<T>(le: (T, T) -> bool, s: seq<T>): seq<T> {
    if s == [] then [] else Insert(le, s[0], Sort(le, s[1..]))
  }

  lemma {:induction false} InsertPermutes<T>(le: (T, T) -> bool, x: T, s: seq<T>)
    ensures multiset(Insert(le, x, s)) == multiset{x} + multiset(s)
  {
    if s != [] && !le(x, s[0]) {
      InsertPermutes(le, x, s[1..]);
      assert s == [s[0]] + s[1..];
    }
  }

  lemma {:induction false} SortPermutes<T>(le: (T, T) -> bool, s: seq<T>)
    ensures multiset(Sort(le, s)) == multiset(s)
  {
    if s != [] {
      SortPermutes(le, s[1..]);
      InsertPermutes(le, s[0], Sort(le, s[1..]));
      assert s == [s[0]] + s[1..];
    }
  }

  ghost predicate SortedBy<T>(le: (T, T) -> bool, s: seq<T>) {
    forall i, j | 0 <= i < j < |s| :: le(s[i], s[j])
  }

  ghost predicate TotalOrder<T(!new)>(le: (T, T) -> bool) {
    && (forall a, b :: le(a, b) || le(b, a))
    && (forall a, b, c :: le(a, b) && le(b, c) ==> le(a, c))
  }

  lemma {:induction false} InsertSorts<T(!new)>(le: (T, T) -> bool, x: T, s: seq<T>)
    requires TotalOrder(le) && SortedBy(le, s)
    ensures SortedBy(le, Insert(le, x, s))
  {
    if s != [] && !le(x, s[0]) {
      InsertSorts(le, x, s[1..]);
      InsertPermutes(le, x, s[1..]);
      var rest := Insert(le, x, s[1..]);
      forall y | y in rest
        ensures le(s[0], y)
      {
        assert y in multiset(rest);
        assert y == x || y in s[1..];
      }
    } else if s != [] {
      forall y | y in s
        ensures le(x, y)
      {
        assert y == s[0] || y in s[1..];
      }
    }
  }

  lemma {:induction false} SortSorts<T(!new)>(le: (T, T) -> bool, s: seq<T>)
    requires TotalOrder(le)
    ensures SortedBy(le, Sort(le, s))
  {
    if s != [] {
      SortSorts(le, s[1..]);
      InsertSorts(le, s[0], Sort(le, s[1..]));
    }
  }
}
