/** Filtering backends by a list of requirements, as selection and failover do. */
module Selection {
  import opened Options
  import opened Ordering
  import opened Capabilities
  import opened Lifecycles
  import opened Health
  import opened Managers
  import Engines
  import Planning

  datatype Requirement = Requirement(capability: Capability, required: bool)

  datatype Check = Check(supported: bool, missingRequired: seq<Capability>, missingOptional: seq<Capability>)

  predicate Meets(available: set<Capability>, requirements: seq<Requirement>) {
    forall q | q in requirements && q.required :: q.capability in available
  }

  /** The capabilities of the unmet requirements of one kind, in their order. */
  function Missing(available: set<Capability>, requirements: seq<Requirement>, required: bool): seq<Capability> {
    if requirements == [] then []
    else
      var q := requirements[|requirements| - 1];
      Missing(available, requirements[..|requirements| - 1], required)
      + if q.required == required && q.capability !in available then [q.capability] else []
  }

  /** Optional gaps are listed but never block. */
  method CheckRequirements(available: set<Capability>, requirements: seq<Requirement>) returns (check: Check)
    ensures check.supported <==> Meets(available, requirements)
    ensures multiset(check.missingRequired) == multiset(Missing(available, requirements, true))
    ensures multiset(check.missingOptional) == multiset(Missing(available, requirements, false))
    ensures SortedBy(Planning.SameOrLower, check.missingRequired) && SortedBy(Planning.SameOrLower, check.missingOptional)
    ensures forall c :: c in check.missingRequired <==> c !in available && Requirement(c, true) in requirements
    ensures forall c :: c in check.missingOptional <==> c !in available && Requirement(c, false) in requirements
  {
    var missing, optional: seq<Capability> := [], [];
    for i := 0 to |requirements|
      invariant missing == Missing(available, requirements[..i], true)
      invariant optional == Missing(available, requirements[..i], false)
    {
      var q := requirements[i];
      assert requirements[..i + 1][..i] == requirements[..i];
      if q.capability !in available {
        if q.required {
          missing := missing + [q.capability];
        } else {
          optional := optional + [q.capability];
        }
      }
    }
    assert requirements[..|requirements|] == requirements;
    SortPermutes(Planning.SameOrLower, missing);
    SortPermutes(Planning.SameOrLower, optional);
    SortSorts(Planning.SameOrLower, missing);
    SortSorts(Planning.SameOrLower, optional);
    MissingExactly(available, requirements);
    SameLength(missing, Sort(Planning.SameOrLower, missing));
    var sorted := Sort(Planning.SameOrLower, missing);
    check := Check(sorted == [], sorted, Sort(Planning.SameOrLower, optional));
    MissingHolds(available, requirements, true);
    MissingHolds(available, requirements, false);
    Planning.SameElements(missing, check.missingRequired);
    Planning.SameElements(optional, check.missingOptional);
  }

  /** A capability is missing exactly when some requirement of the kind asks for it in vain. */
  lemma {:induction false} MissingHolds(available: set<Capability>, requirements: seq<Requirement>, required: bool)
    ensures forall c :: c in Missing(available, requirements, required) <==> c !in available && Requirement(c, required) in requirements
  {
    if requirements != [] {
      var n := |requirements| - 1;
      MissingHolds(available, requirements[..n], required);
      assert forall q :: q in requirements <==> q in requirements[..n] || q == requirements[n];
    }
  }

  lemma SameLength<T>(s: seq<T>, t: seq<T>)
    requires multiset(s) == multiset(t)
    ensures |s| == |t|
  {
    assert |multiset(s)| == |s| && |multiset(t)| == |t|;
  }

  /** Nothing required is missing exactly when the set meets the requirements. */
  lemma {:induction false} MissingExactly(available: set<Capability>, requirements: seq<Requirement>)
    ensures Missing(available, requirements, true) == [] <==> Meets(available, requirements)
  {
    if requirements != [] {
      var n := |requirements| - 1;
      MissingExactly(available, requirements[..n]);
      assert forall q :: q in requirements <==> q in requirements[..n] || q == requirements[n];
    }
  }

  predicate Capable(r: Registry, name: string, requirements: seq<Requirement>) {
    name in r && r[name].lifecycle.IsAvailable() && Meets(r[name].capabilities, requirements)
  }

  /** One pass over the names; the final sort finds them in order already. */
  method FindCapableRequirements(r: Registry, requirements: seq<Requirement>) returns (candidates: seq<string>)
    ensures Increasing(candidates)
    ensures forall n :: n in candidates <==> Capable(r, n, requirements)
    ensures forall n :: n in candidates <==>
              && n in r && (r[n].lifecycle == Running || r[n].lifecycle == Lifecycle.Degraded)
              && forall q | q in requirements && q.required :: q.capability in r[n].capabilities
  {
    candidates := [];
    var names := Sorted(r.Keys);
    ghost var p := (n: string) => Capable(r, n, requirements);
    for i := 0 to |names|
      invariant Kept(names[..i], p, candidates)
    {
      var name := names[i];
      assert name in names;
      KeptGrows(names, i, p, candidates);
      if r[name].lifecycle.IsAvailable() {
        var check := CheckRequirements(r[name].capabilities, requirements);
        if check.supported {
          candidates := candidates + [name];
        }
      }
    }
    assert names[..|names|] == names;
  }

  /** Increasing lists with the same names are the same list. */
  lemma {:induction false} IncreasingIsUnique(a: seq<string>, b: seq<string>)
    requires Increasing(a) && Increasing(b) && forall n :: n in a <==> n in b
    ensures a == b
  {
    assert b != [] ==> b[0] in b;
    if a != [] {
      assert a[0] in a && a[0] in b;
      assert b[0] in b && b[0] in a;
      HeadsAgree(a, b);
      forall n
        ensures n in a[1..] <==> n in b[1..]
      {
        assert n in a <==> n == a[0] || n in a[1..];
        assert n in b <==> n == b[0] || n in b[1..];
      }
      IncreasingIsUnique(a[1..], b[1..]);
    }
  }

  lemma HeadsAgree(a: seq<string>, b: seq<string>)
    requires Increasing(a) && Increasing(b) && a != [] && b != [] && a[0] in b && b[0] in a
    ensures a[0] == b[0]
    ensures a[0] !in a[1..] && b[0] !in b[1..]
  {
    if a[0] != b[0] {
      assert Lt(a[0], b[0]) && Lt(b[0], a[0]);
      LeAntisymmetric(a[0], b[0]);
      assert false;
    }
  }

  /** Failover's candidates: the capable backends for one requirement that are healthy
      and not the excluded one. */
  method FailoverCandidates(r: Registry, capability: Capability, excluded: string) returns (candidates: seq<string>)
    ensures candidates == Engines.Candidates(r, capability, excluded)
  {
    var requirements := [Requirement(capability, true)];
    var capable := FindCapableRequirements(r, requirements);
    candidates := Filter((n: string) => n in r && r[n].monitor.health == Healthy && n != excluded, capable);
    FilterIncreasing((n: string) => n in r && r[n].monitor.health == Healthy && n != excluded, capable);
    CandidatesIncreasing(r, capability, excluded);
    assert forall n | n in r :: Meets(r[n].capabilities, requirements) <==> capability in r[n].capabilities by {
      assert requirements[0] in requirements;
    }
    IncreasingIsUnique(candidates, Engines.Candidates(r, capability, excluded));
  }

  lemma CandidatesIncreasing(r: Registry, capability: Capability, excluded: string)
    ensures Increasing(Engines.Candidates(r, capability, excluded))
    ensures forall n :: n in Engines.Candidates(r, capability, excluded) <==>
              Planning.Declares(r, n, capability) && r[n].lifecycle.IsAvailable() && r[n].monitor.health == Healthy && n != excluded
  {
    Engines.CandidatesTakeOver(r, capability, excluded);
  }

  /** The selectors agree: whatever failover can switch to is work the load balancer can
      place and coverage the report calls usable, and it is a candidate of the
      requirement filter. */
  lemma SelectorsAgree(r: Registry, c: Capability, excluded: string, n: string, loads: Planning.Loads,
                       report: Planning.Coverage, pick: Option<string>)
    requires n in Engines.Candidates(r, c, excluded)
    requires Planning.IsReport(r, c, report) && Planning.IsPick(r, loads, c, pick)
    ensures report.status.IsUsable() && pick.Some? && n in report.primary + report.fallbacks
    ensures Planning.LoadOf(loads, pick.value) <= Planning.LoadOf(loads, n)
    ensures Capable(r, n, [Requirement(c, true)])
  {
    CandidatesIncreasing(r, c, excluded);
    assert Planning.Declares(r, n, c) && Planning.Operational(r, n);
    assert Planning.SomeoneOperational(r, c);
  }
}
