/** What a change of the retry policy during a run does to the invariants of the client. */
module PolicyChanges {
  import opened RetryPolicies
  import opened AsyncClients

  /** No pending counter and no answered request is beyond the new number of retries, and every
      request that timed out did so after exactly that number. */
  predicate Tolerates(s: Net, retries: nat) {
    && (forall i :: 0 <= i < |s.pending| ==> s.pending[i].1.retries <= retries)
    && (forall u :: u in s.resolved ==>
          if s.resolved[u].TimedOut? then multiset(s.sent)[u] == 1 + retries else multiset(s.sent)[u] <= 1 + retries)
  }

  lemma {:induction false} SumWaitsOf(p: RetryPolicy, q: RetryPolicy, n: nat)
    requires p.timeout == q.timeout && p.backoff == q.backoff && p.maxWait == q.maxWait
    ensures p.SumWaits(n) == q.SumWaits(n)
  {
    if n > 0 {
      SumWaitsOf(p, q, n - 1);
      SameWait(p, q, n - 1);
    }
  }

  lemma SameWait(p: RetryPolicy, q: RetryPolicy, n: nat)
    requires p.timeout == q.timeout && p.backoff == q.backoff && p.maxWait == q.maxWait
    ensures p.WaitFor(n) == q.WaitFor(n)
  {
  }

  /** The invariants survive a change of `retries` exactly for tolerated numbers. */
  lemma RetriesChangeExactly(p: RetryPolicy, s: Net, retries: nat)
    requires Sound(p, s)
    ensures Sound(p.(retries := retries), s) <==> Tolerates(s, retries)
  {
    var q := p.(retries := retries);
    forall n: nat ensures q.SumWaits(n) == p.SumWaits(n) { SumWaitsOf(p, q, n); }
    if Tolerates(s, retries) {
      forall i | 0 <= i < |s.pending| ensures PendingOk(q, s, s.pending[i].1) {
        assert PendingOk(p, s, s.pending[i].1);
      }
      forall u | u in s.resolved ensures ResolvedOk(q, s, u, s.resolved[u]) {
        assert ResolvedOk(p, s, u, s.resolved[u]);
      }
    } else if Sound(q, s) {
      forall i | 0 <= i < |s.pending| ensures s.pending[i].1.retries <= retries {
        assert PendingOk(q, s, s.pending[i].1);
      }
      forall u | u in s.resolved
        ensures if s.resolved[u].TimedOut? then multiset(s.sent)[u] == 1 + retries
                else multiset(s.sent)[u] <= 1 + retries
      {
        assert ResolvedOk(q, s, u, s.resolved[u]);
      }
      assert false;
    }
  }

  lemma Scaled(x: real, t: real, v: real)
    requires x > 0.0
    ensures v <= t <==> v * x <= t * x
    ensures v < t <==> v * x < t * x
  {
    assert (t - v) * x == t * x - v * x;
    if v < t { assert (t - v) * x > 0.0; }
    if v > t { assert (v - t) * x > 0.0; }
  }

  function Capped(wait: real, max: real): real {
    if wait <= max then wait else max
  }

  /** `tx` and `vx` are `t` and `v` multiplied by a factor of at least 1. */
  lemma CappedFollows(t: real, v: real, tx: real, vx: real, max: real)
    requires (v <= t <==> vx <= tx) && tx >= t
    ensures Capped(v, max) <= Capped(t, max) ==> Capped(vx, max) <= Capped(tx, max)
    ensures Capped(v, max) > Capped(t, max) ==> Capped(vx, max) >= Capped(tx, max)
  {
  }

  lemma Stretched(x: real, t: real, v: real) returns (tx: real, vx: real)
    requires x >= 1.0 && t >= 0.0
    ensures tx == t * x && vx == v * x && (v <= t <==> vx <= tx) && tx >= t
  {
    tx, vx := t * x, v * x;
    Scaled(x, t, v);
    if t > 0.0 { Scale(t, x); }
  }

  /** With a backoff of at least 1 all waits move the way the first one does. */
  lemma WaitsFollowFirst(p: RetryPolicy, v: real, n: nat)
    requires p.backoff >= 1.0 && p.timeout >= 0.0
    ensures p.(timeout := v).WaitFor(0) <= p.WaitFor(0) ==> p.(timeout := v).WaitFor(n) <= p.WaitFor(n)
    ensures p.(timeout := v).WaitFor(0) > p.WaitFor(0) ==> p.(timeout := v).WaitFor(n) >= p.WaitFor(n)
  {
    PowGrows(p.backoff, n);
    FirstWait(p);
    FirstWait(p.(timeout := v));
    var tx, vx := Stretched(Pow(p.backoff, n), p.timeout, v);
    CappedFollows(p.timeout, v, tx, vx, p.maxWait);
  }

  lemma FirstWait(p: RetryPolicy)
    ensures p.WaitFor(0) == Capped(p.timeout, p.maxWait)
  {
    assert Pow(p.backoff, 0) == 1.0;
  }

  lemma {:induction false} SumsFollowFirst(p: RetryPolicy, v: real, n: nat)
    requires p.backoff >= 1.0 && p.timeout >= 0.0
    ensures p.(timeout := v).WaitFor(0) <= p.WaitFor(0) ==> p.(timeout := v).SumWaits(n) <= p.SumWaits(n)
    ensures p.(timeout := v).WaitFor(0) > p.WaitFor(0) && n > 0 ==> p.(timeout := v).SumWaits(n) > p.SumWaits(n)
  {
    if n > 0 {
      WaitsFollowFirst(p, v, n - 1);
      SumsFollowFirst(p, v, n - 1);
    }
  }

  lemma ShorterKeeps(p: RetryPolicy, s: Net, v: real)
    requires Sound(p, s) && p.backoff >= 1.0 && p.timeout >= 0.0
    requires p.(timeout := v).WaitFor(0) <= p.WaitFor(0)
    ensures Sound(p.(timeout := v), s)
  {
    var q := p.(timeout := v);
    forall n: nat ensures q.SumWaits(n) <= p.SumWaits(n) { SumsFollowFirst(p, v, n); }
    forall i | 0 <= i < |s.pending| ensures PendingOk(q, s, s.pending[i].1) {
      assert PendingOk(p, s, s.pending[i].1);
    }
    forall u | u in s.resolved ensures ResolvedOk(q, s, u, s.resolved[u]) {
      assert ResolvedOk(p, s, u, s.resolved[u]);
    }
  }

  /** A request that has just timed out. */
  function JustTimedOut(p: RetryPolicy): Net {
    Net([], [0.0], seq(1 + p.retries, _ => 0), map[0 := TimedOut(p.SumWaits(p.retries + 1))])
  }

  lemma {:induction false} AllZero(n: nat)
    ensures multiset(seq<nat>(n, _ => 0))[0] == n
  {
    if n > 0 {
      AllZero(n - 1);
      assert seq<nat>(n, _ => 0) == seq<nat>(n - 1, _ => 0) + [0];
    }
  }

  lemma JustTimedOutSound(p: RetryPolicy)
    ensures Sound(p, JustTimedOut(p))
  {
    AllZero(1 + p.retries);
    assert ResolvedOk(p, JustTimedOut(p), 0, TimedOut(p.SumWaits(p.retries + 1)));
  }

  /** Every retransmission and every time-out came no earlier than the policy's waits allow. */
  predicate WaitedFor(p: RetryPolicy, s: Net) {
    && (forall i :: 0 <= i < |s.pending| ==>
          var r := s.pending[i].1;
          r.uid < |s.created| && r.sendDate >= s.created[r.uid] + p.SumWaits(r.retries))
    && (forall u :: u in s.resolved && s.resolved[u].TimedOut? ==>
          u < |s.created| && s.resolved[u].at >= s.created[u] + p.SumWaits(p.retries + 1))
  }

  /** The invariants survive a change of `timeout` exactly when the run so far has waited for the new one. */
  lemma TimeoutChangeOnRun(p: RetryPolicy, s: Net, v: real)
    requires Sound(p, s)
    ensures Sound(p.(timeout := v), s) <==> WaitedFor(p.(timeout := v), s)
  {
    var q := p.(timeout := v);
    forall i | 0 <= i < |s.pending|
      ensures PendingOk(q, s, s.pending[i].1) <==>
              s.pending[i].1.sendDate >= s.created[s.pending[i].1.uid] + q.SumWaits(s.pending[i].1.retries)
      ensures s.pending[i].1.uid < |s.created|
    {
      assert PendingOk(p, s, s.pending[i].1);
    }
    forall u | u in s.resolved
      ensures u < |s.created|
      ensures ResolvedOk(q, s, u, s.resolved[u]) <==>
              (s.resolved[u].TimedOut? ==> s.resolved[u].at >= s.created[u] + q.SumWaits(q.retries + 1))
    {
      assert ResolvedOk(p, s, u, s.resolved[u]);
    }
  }

  /** The invariants survive a change of `timeout`, whatever the client has been through, exactly when
      the first wait does not grow. */
  lemma TimeoutChangeExactly(p: RetryPolicy, v: real)
    requires p.backoff >= 1.0 && p.timeout >= 0.0
    ensures (forall s :: Sound(p, s) ==> Sound(p.(timeout := v), s)) <==>
            p.(timeout := v).WaitFor(0) <= p.WaitFor(0)
  {
    if p.(timeout := v).WaitFor(0) <= p.WaitFor(0) {
      forall s | Sound(p, s) ensures Sound(p.(timeout := v), s) { ShorterKeeps(p, s, v); }
    } else {
      var s := JustTimedOut(p);
      JustTimedOutSound(p);
      SumsFollowFirst(p, v, p.retries + 1);
      assert !ResolvedOk(p.(timeout := v), s, 0, s.resolved[0]);
    }
  }
}
