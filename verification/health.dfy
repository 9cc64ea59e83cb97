/** Backend health from consecutive observations. */
module Health {
  const U32_MAX: nat := 0xFFFF_FFFF

  type U32 = n: nat | n <= U32_MAX
  type Threshold = n: nat | 1 <= n <= U32_MAX witness 1

  datatype BackendHealth = Unknown | Healthy | Degraded | Unhealthy

  datatype Monitor = Monitor(
    failureThreshold: Threshold, recoveryThreshold: Threshold,
    failures: U32, recoveries: U32, health: BackendHealth)

  function AtLeastOne(n: U32): Threshold {
    if n == 0 then 1 else n
  }

  function NewMonitor(failureThreshold: U32, recoveryThreshold: U32): Monitor {
    Monitor(AtLeastOne(failureThreshold), AtLeastOne(recoveryThreshold), 0, 0, Unknown)
  }

  function Default(): Monitor {
    NewMonitor(3, 2)
  }

  function Cap32(n: nat): U32 {
    if n <= U32_MAX then n else U32_MAX
  }

  function Observed(m: Monitor, success: bool): Monitor {
    if success then
      var recoveries := if m.health == Unknown then 1 else Cap32(m.recoveries + 1);
      var health := if m.health == Unknown || m.health == Healthy || recoveries >= m.recoveryThreshold then Healthy else Degraded;
      m.(failures := 0, recoveries := recoveries, health := health)
    else
      var failures := Cap32(m.failures + 1);
      m.(failures := failures, recoveries := 0, health := if failures >= m.failureThreshold then Unhealthy else Degraded)
  }

  /** `force_health`; `reset` is the override to `Unknown`. */
  function Forced(m: Monitor, health: BackendHealth): Monitor {
    m.(failures := 0, recoveries := 0, health := health)
  }

  function ObserveAll(m: Monitor, history: seq<bool>): Monitor {
    if history == [] then m
    else Observed(ObserveAll(m, history[..|history| - 1]), history[|history| - 1])
  }

  class HealthMonitor {
    const failureThreshold: Threshold
    const recoveryThreshold: Threshold
    var failures: U32
    var recoveries: U32
    var health: BackendHealth

    ghost function Value(): Monitor
      reads this
    {
      Monitor(failureThreshold, recoveryThreshold, failures, recoveries, health)
    }

    constructor (failureThreshold: U32, recoveryThreshold: U32)
      ensures Value() == NewMonitor(failureThreshold, recoveryThreshold)
    {
      this.failureThreshold := AtLeastOne(failureThreshold);
      this.recoveryThreshold := AtLeastOne(recoveryThreshold);
      failures, recoveries, health := 0, 0, Unknown;
    }

    method RecordSuccess() returns (h: BackendHealth)
      modifies this
      ensures Value() == Observed(old(Value()), true) && h == health
    {
      failures := 0;
      match health {
        case Unknown =>
          recoveries := 1;
          health := Healthy;
        case Healthy =>
          recoveries := Cap32(recoveries + 1);
        case Degraded | Unhealthy =>
          recoveries := Cap32(recoveries + 1);
          if recoveries >= recoveryThreshold {
            health := Healthy;
          } else {
            health := Degraded;
          }
      }
      h := health;
    }

    method RecordFailure() returns (h: BackendHealth)
      modifies this
      ensures Value() == Observed(old(Value()), false) && h == health
    {
      recoveries := 0;
      failures := Cap32(failures + 1);
      if failures >= failureThreshold {
        health := Unhealthy;
      } else {
        health := Degraded;
      }
      h := health;
    }

    method Reset()
      modifies this
      ensures Value() == Forced(old(Value()), Unknown)
    {
      failures := 0;
      recoveries := 0;
      health := Unknown;
    }

    method ForceHealth(h: BackendHealth)
      modifies this
      ensures Value() == Forced(old(Value()), h)
    {
      health := h;
      failures := 0;
      recoveries := 0;
    }
  }

  // ---- Closed form over the history ----

  /** Length of the run of equal observations the history ends with. */
  function Trailing(history: seq<bool>): nat {
    if history == [] then 0
    else if |history| > 1 && history[|history| - 2] == history[|history| - 1] then Trailing(history[..|history| - 1]) + 1
    else 1
  }

  /** Health as a function of the state last forced and the observations since. */
  function Verdict(m: Monitor, base: BackendHealth, history: seq<bool>): BackendHealth {
    if history == [] then base
    else if !history[|history| - 1] then
      if Trailing(history) >= m.failureThreshold then Unhealthy else Degraded
    else if false !in history && (base == Unknown || base == Healthy) then Healthy
    else if Trailing(history) >= m.recoveryThreshold then Healthy
    else Degraded
  }

  /** A threshold of zero counts as one, so the first observation decides. */
  lemma ZeroThresholdIsOne(failureThreshold: U32, recoveryThreshold: U32)
    ensures Observed(NewMonitor(0, recoveryThreshold), false).health == Unhealthy
    ensures Observed(Observed(NewMonitor(failureThreshold, 0), false), true).health == Healthy
    ensures NewMonitor(failureThreshold, recoveryThreshold).health == Unknown
  {
  }

  /** After any reset or override, whatever came before it, health is the verdict on
      the observations since; the saturating counters never change the answer. */
  lemma {:induction false} HealthIsVerdict(m: Monitor, base: BackendHealth, history: seq<bool>)
    ensures var m' := ObserveAll(Forced(m, base), history);
            && m'.health == Verdict(m, base, history)
            && m'.failureThreshold == m.failureThreshold && m'.recoveryThreshold == m.recoveryThreshold
            && (history != [] && !history[|history| - 1] ==> m'.failures == Cap32(Trailing(history)) && m'.recoveries == 0)
            && (history != [] && history[|history| - 1] ==> m'.recoveries == Cap32(Trailing(history)) && m'.failures == 0)
  {
    if history != [] {
      var before := history[..|history| - 1];
      HealthIsVerdict(m, base, before);
      assert history == before + [history[|history| - 1]];
      if before != [] {
        assert before[|before| - 1] == history[|history| - 2];
      }
    }
  }
}
