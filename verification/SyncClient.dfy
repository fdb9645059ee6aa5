/** The synchronous client's attempt loop and its Acct-Delay-Time bookkeeping. */
module SyncClient {
  import opened Wrappers
  import opened Bytes
  import opened OrderedMaps
  import opened RetryPolicies

  type Store = seq<(nat, seq<bytes>)>

  const ACCT_DELAY_TIME: nat := 41
  const ACCOUNTING_REQUEST: nat := 4

  /** What one attempt meets: no acceptable reply until a clock reading past its deadline, an
      accepted reply, or an exception from the socket. `began` is the reading its deadline is
      computed from. */
  datatype Attempt = Silence(began: real, ended: real) | Replied(began: real) | Failed(began: real)

  datatype Outcome = Reply | Timeout | Exception

  datatype Datagram = Datagram(time: real, attributes: Store)

  /** `int()` of a float. */
  function Truncate(x: real): int {
    if x >= 0.0 then x.Floor else -(-x).Floor
  }

  /** The truncated waits of the first `n` attempts together. */
  function Delays(p: RetryPolicy, n: nat): int {
    if n == 0 then 0 else Delays(p, n - 1) + Truncate(p.WaitFor(n - 1))
  }

  /** The clock never runs backwards, and silence ends at or after the deadline. */
  ghost predicate ClockOk(p: RetryPolicy, attempts: seq<Attempt>) {
    && (forall i :: 0 <= i < |attempts| && attempts[i].Silence? ==>
          attempts[i].ended >= attempts[i].began && attempts[i].ended >= attempts[i].began + p.WaitFor(i))
    && (forall i :: 0 <= i < |attempts| - 1 && attempts[i].Silence? ==> attempts[i + 1].began >= attempts[i].ended)
  }

  /** An integer attribute value: four octets, network order. */
  predicate IsInteger(v: bytes) {
    |v| == 4
  }

  predicate AllIntegers(vs: seq<bytes>) {
    forall i :: 0 <= i < |vs| ==> IsInteger(vs[i])
  }

  predicate Fits32(n: int) {
    0 <= n < 0x1_0000_0000
  }

  function Encoded(n: int): (v: bytes)
    requires Fits32(n)
    ensures IsInteger(v)
  {
    SmallPowers();
    BigEndian(n, 4)
  }

  function Decoded(v: bytes): (n: nat)
    requires IsInteger(v)
    ensures Fits32(n)
  {
    SmallPowers();
    FromBigEndian(v)
  }

  lemma EncodedDecoded(n: int)
    requires Fits32(n)
    ensures Decoded(Encoded(n)) == n
  {
    SmallPowers();
    BigEndianRoundTrip(n, 4);
  }

  lemma DecodedEncoded(v: bytes)
    requires IsInteger(v)
    ensures Encoded(Decoded(v)) == v
  {
    BigEndianBack(v);
  }

  /** What attempt `n` must carry: the caller's value untouched on the first attempt, afterwards the
      caller's first value, or 0 without one, plus the truncated earlier waits. */
  ghost predicate Carries(p: RetryPolicy, original: Store, accounting: bool, n: nat, sent: Store) {
    if n == 0 || !accounting then sent == original
    else
      && Base(original).Some?
      && Fits32(Base(original).value + Delays(p, n))
      && sent == Put(original, ACCT_DELAY_TIME, [Encoded(Base(original).value + Delays(p, n))])
  }

  /** The value retries count from: None when the attribute is present without a decodable first
      value. */
  function Base(m: Store): Option<nat> {
    match Find(m, ACCT_DELAY_TIME)
    case None => Some(0)
    case Some(vs) => if vs != [] && IsInteger(vs[0]) then Some(Decoded(vs[0])) else Option.None
  }

  /** `Acct-Delay-Time` can be read and written back. */
  predicate Readable(m: Store) {
    Find(m, ACCT_DELAY_TIME).Some? ==> AllIntegers(Find(m, ACCT_DELAY_TIME).value)
  }

  /** Attempt `n` can be prepared. */
  predicate Sendable(p: RetryPolicy, original: Store, n: nat) {
    n > 0 ==> Base(original).Some? && Fits32(Base(original).value + Delays(p, n))
  }

  /** The packet differs from the caller's at most in the delay. */
  ghost predicate Touched(accounting: bool, original: Store, left: Store) {
    left == original || (accounting && exists vs :: left == Put(original, ACCT_DELAY_TIME, vs))
  }

  lemma CarriesTouched(p: RetryPolicy, original: Store, accounting: bool, n: nat, sent: Store)
    requires Carries(p, original, accounting, n, sent)
    ensures Touched(accounting, original, sent)
  {
  }

  lemma {:induction false} PutThenRemove<K, V>(m: seq<(K, V)>, k: K, v: V)
    requires !Has(m, k)
    ensures Remove(Put(m, k, v), k) == m
  {
    if m != [] {
      PutThenRemove(m[1..], k, v);
      assert Put(m, k, v)[1..] == Put(m[1..], k, v);
    }
  }

  /** The packet object the caller hands over; its other attributes stay as they are here. */
  class Request {
    const code: nat
    var attributes: Store

    constructor (code: nat, attributes: Store)
      ensures this.code == code && this.attributes == attributes
    {
      this.code := code;
      this.attributes := attributes;
    }

    /** `_send_packet`. The attempts met are an input, as many as the policy may make. */
    method Send(policy: RetryPolicy, attempts: seq<Attempt>) returns (outcome: Outcome, sent: seq<Datagram>)
      requires |attempts| >= policy.retries && ClockOk(policy, attempts)
      modifies this
      ensures attributes == old(attributes)
      ensures |sent| <= policy.retries
      ensures forall n :: 0 <= n < |sent| ==>
                sent[n].time == attempts[n].began
                && Carries(policy, old(attributes), code == ACCOUNTING_REQUEST, n, sent[n].attributes)
      ensures forall n :: 0 <= n < |sent| - 1 ==> attempts[n].Silence?
      ensures outcome.Timeout? <==>
                (code == ACCOUNTING_REQUEST ==> Readable(old(attributes))) && |sent| == policy.retries
                && (sent != [] ==> attempts[|sent| - 1].Silence?)
      ensures outcome.Reply? <==> sent != [] && attempts[|sent| - 1].Replied?
      ensures outcome.Exception? ==>
                || (sent != [] && attempts[|sent| - 1].Failed?)
                || (code == ACCOUNTING_REQUEST && !Readable(old(attributes)) && sent == [])
                || (code == ACCOUNTING_REQUEST && |sent| < policy.retries && !Sendable(policy, old(attributes), |sent|))
    {
      sent := [];
      var accounting := code == ACCOUNTING_REQUEST;
      var had := accounting && Has(attributes, ACCT_DELAY_TIME);
      var snapshot: seq<nat> := [];
      if had {
        var stored := Find(attributes, ACCT_DELAY_TIME).value;
        var readable, values := ReadAll(stored);
        if !readable { return Exception, sent; }
        snapshot := values;
      }
      outcome, sent := TryAll(policy, attempts);
      if accounting {
        ghost var left := attributes;
        if had {
          ghost var stored := old(Find(attributes, ACCT_DELAY_TIME).value);
          var restored := WriteAll(snapshot);
          forall i | 0 <= i < |stored| ensures restored[i] == stored[i] { DecodedEncoded(stored[i]); }
          assert restored == stored;
          RestoredByPut(old(attributes), left);
          attributes := Put(attributes, ACCT_DELAY_TIME, restored);
        } else if Has(attributes, ACCT_DELAY_TIME) {
          DroppedByRemove(old(attributes), left);
          attributes := Remove(attributes, ACCT_DELAY_TIME);
        } else {
          NeverSet(old(attributes), left);
        }
      }
    }

    /** The attempt loop: stops at the first reply or exception; what it leaves in the packet is the
        caller's store, possibly with a bumped delay. */
    method TryAll(policy: RetryPolicy, attempts: seq<Attempt>) returns (outcome: Outcome, sent: seq<Datagram>)
      requires |attempts| >= policy.retries
      requires code == ACCOUNTING_REQUEST ==> Readable(attributes)
      modifies this
      ensures Touched(code == ACCOUNTING_REQUEST, old(attributes), attributes)
      ensures |sent| <= policy.retries
      ensures forall n :: 0 <= n < |sent| ==>
                sent[n].time == attempts[n].began
                && Carries(policy, old(attributes), code == ACCOUNTING_REQUEST, n, sent[n].attributes)
      ensures forall n :: 0 <= n < |sent| - 1 ==> attempts[n].Silence?
      ensures outcome.Timeout? <==> |sent| == policy.retries && (sent != [] ==> attempts[|sent| - 1].Silence?)
      ensures outcome.Reply? <==> sent != [] && attempts[|sent| - 1].Replied?
      ensures outcome.Exception? ==>
                || (sent != [] && attempts[|sent| - 1].Failed?)
                || (code == ACCOUNTING_REQUEST && |sent| < policy.retries && !Sendable(policy, old(attributes), |sent|))
    {
      sent := [];
      var previousWait := policy.timeout;
      var attempt := 0;
      while attempt < policy.retries
        invariant 0 <= attempt <= policy.retries && |sent| == attempt
        invariant attempt > 0 ==> previousWait == policy.WaitFor(attempt - 1)
        invariant Touched(code == ACCOUNTING_REQUEST, old(attributes), attributes)
        invariant attempt == 0 ==> attributes == old(attributes)
        invariant attempt > 0 ==> Carries(policy, old(attributes), code == ACCOUNTING_REQUEST, attempt - 1, attributes)
        invariant forall n :: 0 <= n < |sent| ==>
                    attempts[n].Silence? && sent[n].time == attempts[n].began
                    && Carries(policy, old(attributes), code == ACCOUNTING_REQUEST, n, sent[n].attributes)
      {
        if attempt > 0 && code == ACCOUNTING_REQUEST {
          var raised := Bump(previousWait, policy, attempt, old(attributes));
          if raised { return Exception, sent; }
        }
        assert Carries(policy, old(attributes), code == ACCOUNTING_REQUEST, attempt, attributes);
        CarriesTouched(policy, old(attributes), code == ACCOUNTING_REQUEST, attempt, attributes);
        previousWait := policy.WaitFor(attempt);
        sent := sent + [Datagram(attempts[attempt].began, attributes)];
        match attempts[attempt]
        case Silence(_, _) => attempt := attempt + 1;
        case Replied(_) => return Reply, sent;
        case Failed(_) => return Exception, sent;
      }
      return Timeout, sent;
    }

    /** The delay written before retry `n`. */
    method Bump(previousWait: real, ghost policy: RetryPolicy, ghost n: nat, ghost original: Store)
      returns (raised: bool)
      requires n > 0 && code == ACCOUNTING_REQUEST && previousWait == policy.WaitFor(n - 1)
      requires Carries(policy, original, true, n - 1, attributes)
      modifies this
      ensures raised <==> !Sendable(policy, original, n)
      ensures raised ==> attributes == old(attributes)
      ensures !raised ==> Carries(policy, original, true, n, attributes)
    {
      var base := Base(attributes);
      BaseCarried(policy, original, n - 1, attributes);
      if base.None? { return true; }
      var value := base.value + Truncate(previousWait);
      if !Fits32(value) { return true; }
      if n > 1 {
        PutTwice(original, ACCT_DELAY_TIME, [Encoded(Base(original).value + Delays(policy, n - 1))], [Encoded(value)]);
      }
      attributes := Put(attributes, ACCT_DELAY_TIME, [Encoded(value)]);
      return false;
    }
  }

  /** Reading the delay back from attempt `n`'s packet gives what was put there. */
  lemma BaseCarried(p: RetryPolicy, original: Store, n: nat, now: Store)
    requires Carries(p, original, true, n, now)
    ensures n == 0 ==> Base(now) == Base(original)
    ensures n > 0 ==> Base(now) == Some(Base(original).value + Delays(p, n))
  {
    if n > 0 {
      var value := Base(original).value + Delays(p, n);
      FindPut(original, ACCT_DELAY_TIME, [Encoded(value)], ACCT_DELAY_TIME);
      EncodedDecoded(value);
    }
  }

  lemma RestoredByPut(original: Store, left: Store)
    requires Has(original, ACCT_DELAY_TIME)
    requires Touched(true, original, left)
    ensures Put(left, ACCT_DELAY_TIME, Find(original, ACCT_DELAY_TIME).value) == original
  {
    PutSame(original, ACCT_DELAY_TIME);
    if left != original {
      var vs :| left == Put(original, ACCT_DELAY_TIME, vs);
      PutTwice(original, ACCT_DELAY_TIME, vs, Find(original, ACCT_DELAY_TIME).value);
    }
  }

  lemma DroppedByRemove(original: Store, left: Store)
    requires !Has(original, ACCT_DELAY_TIME) && Has(left, ACCT_DELAY_TIME)
    requires Touched(true, original, left)
    ensures Remove(left, ACCT_DELAY_TIME) == original
  {
    var vs :| left == Put(original, ACCT_DELAY_TIME, vs);
    PutThenRemove(original, ACCT_DELAY_TIME, vs);
  }

  lemma NeverSet(original: Store, left: Store)
    requires !Has(left, ACCT_DELAY_TIME)
    requires Touched(true, original, left)
    ensures left == original
  {
    if left != original {
      var vs :| left == Put(original, ACCT_DELAY_TIME, vs);
      FindPut(original, ACCT_DELAY_TIME, vs, ACCT_DELAY_TIME);
    }
  }

  /** `list(pkt[...])`: decoding every value, which fails on one that is not four octets. */
  method ReadAll(stored: seq<bytes>) returns (ok: bool, values: seq<nat>)
    ensures ok <==> AllIntegers(stored)
    ensures ok ==> |values| == |stored| && forall i :: 0 <= i < |stored| ==> values[i] == Decoded(stored[i])
  {
    values := [];
    for i := 0 to |stored|
      invariant |values| == i && AllIntegers(stored[..i])
      invariant forall k :: 0 <= k < i ==> IsInteger(stored[k]) && values[k] == Decoded(stored[k])
    {
      if !IsInteger(stored[i]) { return false, []; }
      values := values + [Decoded(stored[i])];
    }
    return true, values;
  }

  method WriteAll(values: seq<nat>) returns (stored: seq<bytes>)
    requires forall i :: 0 <= i < |values| ==> Fits32(values[i])
    ensures |stored| == |values| && forall i :: 0 <= i < |values| ==> stored[i] == Encoded(values[i])
  {
    stored := [];
    for i := 0 to |values|
      invariant |stored| == i && forall k :: 0 <= k < i ==> stored[k] == Encoded(values[k])
    {
      stored := stored + [Encoded(values[i])];
    }
  }

  /** The delay an attempt adds never exceeds the real time since the first attempt. */
  lemma {:induction false} DelayBelowElapsed(p: RetryPolicy, attempts: seq<Attempt>, n: nat)
    requires ClockOk(p, attempts) && n < |attempts|
    requires forall i :: 0 <= i < n ==> attempts[i].Silence?
    ensures Delays(p, n) as real <= attempts[n].began - attempts[0].began
  {
    if n > 0 {
      DelayBelowElapsed(p, attempts, n - 1);
      var w := p.WaitFor(n - 1);
      var a := attempts[n - 1];
      assert a.Silence? && attempts[n].began >= a.ended;
      TruncateBelow(w);
      assert Delays(p, n) as real == Delays(p, n - 1) as real + Truncate(w) as real;
    }
  }

  lemma TruncateBelow(w: real)
    ensures w >= 0.0 ==> w - 1.0 < Truncate(w) as real <= w
    ensures w < 0.0 ==> w <= Truncate(w) as real <= 0.0
  {
  }

  /** ... and falls behind the nominal schedule by less than a second per retry. */
  lemma {:induction false} DelayNearSchedule(p: RetryPolicy, n: nat)
    requires forall i: nat :: i < n ==> p.WaitFor(i) >= 0.0
    ensures p.SumWaits(n) - n as real <= Delays(p, n) as real <= p.SumWaits(n)
  {
    if n > 0 {
      DelayNearSchedule(p, n - 1);
      TruncateBelow(p.WaitFor(n - 1));
    }
  }
}
