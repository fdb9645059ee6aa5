/** The waits of a retransmission schedule (without jitter). */
module RetryPolicies {

  function Pow(b: real, n: nat): real {
    if n == 0 then 1.0 else b * Pow(b, n - 1)
  }

  datatype RetryPolicy = RetryPolicy(retries: nat, timeout: real, backoff: real, maxWait: real) {

    /** `wait_for`: the wait after `attempt` retries have been made. */
    function WaitFor(attempt: nat): real {
      var wait := timeout * Pow(backoff, attempt);
      if wait <= maxWait then wait else maxWait
    }

    /** The waits of the first `n` attempts together. */
    function SumWaits(n: nat): real {
      if n == 0 then 0.0 else SumWaits(n - 1) + WaitFor(n - 1)
    }

    /** None of the first `n` waits is cut by the ceiling. */
    predicate Uncapped(n: nat) {
      n == 0 || (Uncapped(n - 1) && timeout * Pow(backoff, n - 1) <= maxWait)
    }

    /** No attempt waits less than the base timeout. */
    predicate NeverHasty() {
      backoff >= 1.0 && timeout <= maxWait
    }
  }

  lemma {:induction false} PowGrows(b: real, n: nat)
    requires b >= 1.0
    ensures Pow(b, n) >= 1.0
  {
    if n > 0 {
      PowGrows(b, n - 1);
      assert b * Pow(b, n - 1) >= 1.0 * Pow(b, n - 1);
    }
  }

  lemma Scale(t: real, x: real)
    requires t > 0.0
    ensures t * x >= t <==> x >= 1.0
  {
    if x >= 1.0 {
      assert t * (x - 1.0) >= 0.0;
    } else {
      assert t * (1.0 - x) > 0.0;
    }
  }

  lemma NeverHastyWaits(p: RetryPolicy, n: nat)
    requires p.NeverHasty() && p.timeout >= 0.0
    ensures p.WaitFor(n) >= p.timeout
  {
    PowGrows(p.backoff, n);
    if p.timeout > 0.0 { Scale(p.timeout, Pow(p.backoff, n)); }
  }

  /** Exactly when does every wait reach the base timeout? */
  lemma NeverHastyExactly(p: RetryPolicy)
    requires p.timeout > 0.0
    ensures (forall n: nat :: p.WaitFor(n) >= p.timeout) <==> p.NeverHasty()
  {
    if p.NeverHasty() {
      forall n: nat ensures p.WaitFor(n) >= p.timeout {
        NeverHastyWaits(p, n);
      }
    } else if p.timeout > p.maxWait {
      assert p.WaitFor(0) < p.timeout;
    } else {
      ShrinkingWait(p);
    }
  }

  lemma ShrinkingWait(p: RetryPolicy)
    requires p.timeout > 0.0 && p.backoff < 1.0 && p.timeout <= p.maxWait
    ensures p.WaitFor(1) < p.timeout
  {
    assert Pow(p.backoff, 1) == p.backoff * Pow(p.backoff, 0) == p.backoff;
    Scale(p.timeout, p.backoff);
  }

  /** No schedule is longer than its number of waits times the ceiling. */
  lemma {:induction false} SumWaitsBound(p: RetryPolicy, n: nat)
    ensures p.SumWaits(n) <= n as real * p.maxWait
  {
    if n > 0 {
      SumWaitsBound(p, n - 1);
      assert n as real * p.maxWait == (n - 1) as real * p.maxWait + p.maxWait;
    }
  }

  /** The closed form of a geometric sum whose next term is `t * x`. */
  predicate ClosedForm(sum: real, b: real, t: real, x: real) {
    sum * (b - 1.0) == t * (x - 1.0)
  }

  lemma GeometricStep(t: real, b: real, x: real, next: real, sum: real, wait: real, total: real)
    requires wait == t * x && next == b * x && total == sum + wait
    requires ClosedForm(sum, b, t, x)
    ensures ClosedForm(total, b, t, next)
  {
    assert (sum + wait) * (b - 1.0) == sum * (b - 1.0) + wait * (b - 1.0);
    assert wait * (b - 1.0) == wait * b - wait;
    assert t * next == wait * b;
    assert t * (x - 1.0) == wait - t;
    assert t * (next - 1.0) == t * next - t;
  }

  /** The first `n` terms of the geometric series that starts with `t`. */
  function Series(t: real, b: real, n: nat): real {
    if n == 0 then 0.0 else Series(t, b, n - 1) + t * Pow(b, n - 1)
  }

  lemma {:induction false} SeriesClosed(t: real, b: real, n: nat)
    ensures ClosedForm(Series(t, b, n), b, t, Pow(b, n))
  {
    if n > 0 {
      SeriesClosed(t, b, n - 1);
      var x, sum := Pow(b, n - 1), Series(t, b, n - 1);
      GeometricStep(t, b, x, Pow(b, n), sum, t * x, Series(t, b, n));
    }
  }

  lemma {:induction false} SumIsSeries(p: RetryPolicy, n: nat)
    requires p.Uncapped(n)
    ensures p.SumWaits(n) == Series(p.timeout, p.backoff, n)
  {
    if n > 0 { SumIsSeries(p, n - 1); }
  }

  lemma {:induction false} PowOne(n: nat)
    ensures Pow(1.0, n) == 1.0
  {
    if n > 0 { PowOne(n - 1); }
  }

  lemma {:induction false} SeriesOne(t: real, n: nat)
    ensures Series(t, 1.0, n) == n as real * t
  {
    if n > 0 {
      SeriesOne(t, n - 1);
      PowOne(n - 1);
      assert n as real * t == (n - 1) as real * t + t;
    }
  }

  /** While the ceiling is not reached the waits form a geometric series; without backoff they are all
      the base timeout. */
  lemma {:induction false} GeometricSchedule(p: RetryPolicy, n: nat)
    requires p.Uncapped(n)
    ensures ClosedForm(p.SumWaits(n), p.backoff, p.timeout, Pow(p.backoff, n))
    ensures p.backoff == 1.0 ==> p.SumWaits(n) == n as real * p.timeout
  {
    SumIsSeries(p, n);
    SeriesClosed(p.timeout, p.backoff, n);
    SeriesOne(p.timeout, n);
  }
}
