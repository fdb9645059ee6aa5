/** When the timer loop wakes up, and what that means for the time-outs. */
module AsyncTiming {
  import opened Wrappers
  import opened Bytes
  import opened OrderedMaps
  import opened RetryPolicies
  import opened AsyncClients

  function Deadline(p: RetryPolicy, r: Request): real {
    r.sendDate + p.WaitFor(r.retries)
  }

  /** `next_wake_up`: the least time remaining to the requests that have not expired, at most
      `acc`.  Requests just retried are not looked at again. */
  function NextWakeUp(p: RetryPolicy, m: seq<(byte, Request)>, now: real, acc: real): real {
    if m == [] then acc
    else if Expired(p, m[0].1, now) then NextWakeUp(p, m[1..], now, acc)
    else
      var remaining := p.WaitFor(m[0].1.retries) - (now - m[0].1.sendDate);
      NextWakeUp(p, m[1..], now, if remaining < acc then remaining else acc)
  }

  /** The sleep chosen by a turn of the loop that found `m` pending. */
  function Sleep(p: RetryPolicy, m: seq<(byte, Request)>, now: real): real {
    var next := NextWakeUp(p, m, now, p.timeout);
    if next > 0.0 then next else 0.0
  }

  lemma {:induction false} WakeUpLeast(p: RetryPolicy, m: seq<(byte, Request)>, now: real, acc: real)
    ensures NextWakeUp(p, m, now, acc) <= acc
    ensures forall i :: 0 <= i < |m| && !Expired(p, m[i].1, now) ==>
              now + NextWakeUp(p, m, now, acc) <= Deadline(p, m[i].1)
    decreases |m|
  {
    if m != [] {
      var remaining := p.WaitFor(m[0].1.retries) - (now - m[0].1.sendDate);
      var acc' := if Expired(p, m[0].1, now) || remaining >= acc then acc else remaining;
      WakeUpLeast(p, m[1..], now, acc');
      forall i | 0 <= i < |m| && !Expired(p, m[i].1, now)
        ensures now + NextWakeUp(p, m, now, acc) <= Deadline(p, m[i].1)
      {
        if i > 0 { assert m[1..][i - 1] == m[i]; }
      }
    }
  }

  /** What a tick leaves of a request. */
  function Served(p: RetryPolicy, o: Option<Request>, now: real): Option<Request> {
    match o
    case None => None
    case Some(r) =>
      if !Expired(p, r, now) then o
      else if r.retries >= p.retries then None
      else Some(r.(retries := r.retries + 1, sendDate := now))
  }

  lemma PutTable(s: Net, id: byte, r: Request)
    requires TableOk(s) && Has(s.pending, id) && r.uid == Find(s.pending, id).value.uid
    ensures TableOk(s.(pending := Put(s.pending, id, r)))
    ensures forall i :: 0 <= i < |Put(s.pending, id, r)| ==>
              Put(s.pending, id, r)[i] == (id, r) || Put(s.pending, id, r)[i] in s.pending
  {
    var k := PutAt(s.pending, id, r);
  }

  lemma ServiceTable(p: RetryPolicy, s: Net, id: byte, now: real)
    requires TableOk(s)
    ensures TableOk(Service(p, s, id, now))
  {
    if Has(s.pending, id) {
      var r := Find(s.pending, id).value;
      RemoveTable(s, id);
      PutTable(s, id, r.(retries := r.retries + 1, sendDate := now));
    }
  }

  lemma ServiceFind(p: RetryPolicy, s: Net, id: byte, now: real, q: byte)
    requires TableOk(s)
    ensures Find(Service(p, s, id, now).pending, q) ==
            if q == id then Served(p, Find(s.pending, id), now) else Find(s.pending, q)
  {
    FindRemove(s.pending, id, q);
    if Has(s.pending, id) {
      var r := Find(s.pending, id).value;
      FindPut(s.pending, id, r.(retries := r.retries + 1, sendDate := now), q);
    }
  }

  predicate NoRepeats(ids: seq<byte>) {
    forall i, j :: 0 <= i < j < |ids| ==> ids[i] != ids[j]
  }

  lemma {:induction false} ServiceAllFind(p: RetryPolicy, s: Net, ids: seq<byte>, now: real, q: byte)
    requires TableOk(s) && NoRepeats(ids)
    ensures Find(ServiceAll(p, s, ids, now).pending, q) ==
            if q in ids then Served(p, Find(s.pending, q), now) else Find(s.pending, q)
    decreases |ids|
  {
    if ids != [] {
      ServiceFind(p, s, ids[0], now, q);
      ServiceTable(p, s, ids[0], now);
      ServiceAllFind(p, Service(p, s, ids[0], now), ids[1..], now, q);
      assert q in ids <==> q == ids[0] || q in ids[1..];
    }
  }

  lemma TickFind(p: RetryPolicy, s: Net, now: real, q: byte)
    requires TableOk(s)
    ensures Find(Tick(p, s, now).pending, q) == Served(p, Find(s.pending, q), now)
  {
    ServiceAllFind(p, s, Keys<byte, Request>(s.pending), now, q);
    FindSound(s.pending, q);
    if Has(s.pending, q) {
      var i :| 0 <= i < |s.pending| && s.pending[i].0 == q;
      assert Keys<byte, Request>(s.pending)[i] == q;
    }
  }

  /** The loop sleeps past no deadline of the table it leaves behind. */
  predicate Punctual(p: RetryPolicy, s: Net, now: real) {
    var m := Tick(p, s, now).pending;
    forall i :: 0 <= i < |m| ==> Deadline(p, m[i].1) >= now + Sleep(p, s.pending, now)
  }

  lemma NeverLate(p: RetryPolicy, s: Net, now: real)
    requires Sound(p, s) && p.NeverHasty() && p.timeout >= 0.0
    ensures Punctual(p, s, now)
  {
    var s' := Tick(p, s, now);
    ServiceAllSound(p, s, Keys<byte, Request>(s.pending), now);
    WakeUpLeast(p, s.pending, now, p.timeout);
    forall i | 0 <= i < |s'.pending|
      ensures Deadline(p, s'.pending[i].1) >= now + Sleep(p, s.pending, now)
    {
      var (id, r) := s'.pending[i];
      FindAt(s'.pending, i);
      TickFind(p, s, now, id);
      FindSound(s.pending, id);
      var q := Find(s.pending, id).value;
      if Expired(p, q, now) {
        NeverHastyWaits(p, r.retries);
      }
    }
  }

  /** Whatever is pending, the loop never sleeps past a deadline: this holds exactly for the
      policies whose waits never fall below the base timeout. */
  lemma PunctualExactly(p: RetryPolicy)
    requires p.timeout > 0.0 && p.retries >= 1
    ensures (forall s, now :: Sound(p, s) ==> Punctual(p, s, now)) <==>
            (p.maxWait >= p.timeout && p.WaitFor(1) >= p.timeout)
    ensures p.NeverHasty() <==> p.maxWait >= p.timeout && p.WaitFor(1) >= p.timeout
  {
    if p.maxWait >= p.timeout {
      if p.backoff >= 1.0 {
        NeverHastyWaits(p, 1);
      } else {
        ShrinkingWait(p);
      }
    }
    if p.NeverHasty() {
      forall s, now | Sound(p, s) ensures Punctual(p, s, now) {
        NeverLate(p, s, now);
      }
    } else {
      var now := p.WaitFor(0);
      OneRetry(p, now);
      assert p.WaitFor(1) < p.timeout by {
        if p.maxWait < p.timeout {
          assert p.WaitFor(1) <= p.maxWait;
        }
      }
    }
  }

  /** The client with a single request, sent at time 0. */
  function Single(): Net {
    Submit(IDLE, 0, 0.0)
  }

  lemma SingleSound(p: RetryPolicy)
    ensures Sound(p, Single()) && Single().pending == [(0, Request(0, 0, 0.0))]
  {
    SubmitSound(p, IDLE, 0, 0.0);
  }

  /** Found expired, it is retried. */
  lemma SingleTick(p: RetryPolicy, now: real)
    requires p.retries >= 1 && now >= p.WaitFor(0)
    ensures Tick(p, Single(), now).pending == [(0, Request(0, 1, now))]
  {
    var s := Single();
    SingleSound(p);
    assert Keys<byte, Request>(s.pending) == [0] && Keys<byte, Request>(s.pending)[1..] == [];
    assert Find(s.pending, 0) == Some(Request(0, 0, 0.0));
    var s' := Service(p, s, 0, now);
    assert s'.pending == Put(s.pending, 0, Request(0, 1, now)) == [(0, Request(0, 1, now))];
    assert ServiceAll(p, s, [0], now) == ServiceAll(p, s', [], now) == s';
  }

  lemma SingleSleep(p: RetryPolicy, now: real)
    requires p.timeout > 0.0 && now >= p.WaitFor(0)
    ensures Sleep(p, Single().pending, now) == p.timeout
  {
    SingleSound(p);
    assert Single().pending[1..] == [];
    assert NextWakeUp(p, Single().pending, now, p.timeout) == NextWakeUp(p, [], now, p.timeout);
  }

  /** A single request found expired at `now` is retried, the loop sleeps for the base timeout, and that is
      too long if the next wait is shorter. */
  lemma OneRetry(p: RetryPolicy, now: real)
    requires p.timeout > 0.0 && p.retries >= 1 && now >= p.WaitFor(0)
    ensures Sound(p, Single())
    ensures p.WaitFor(1) < p.timeout ==> !Punctual(p, Single(), now)
  {
    SingleSound(p);
    SingleTick(p, now);
    SingleSleep(p, now);
    var m := Tick(p, Single(), now).pending;
    assert m[0].1 == Request(0, 1, now);
  }

  // --- Runs on an ideal clock ---------------------------------------------------------------

  /** The client between two turns of the loop: the last turn and the next. */
  datatype Clock = Clock(net: Net, last: real, wake: real)

  /** Turns happen exactly when the loop asked to be woken, everything else in between. */
  predicate OnSchedule(c: Clock, e: Event) {
    if e.TickEvent? then e.at == c.wake else c.last <= e.at <= c.wake
  }

  function ClockStep(p: RetryPolicy, c: Clock, e: Event): Clock {
    var net := Step(p, c.net, e);
    if e.TickEvent? then Clock(net, e.at, e.at + Sleep(p, c.net.pending, e.at)) else c.(net := net)
  }

  predicate AllOnSchedule(p: RetryPolicy, c: Clock, events: seq<Event>)
    decreases |events|
  {
    events == [] || (OnSchedule(c, events[0]) && AllOnSchedule(p, ClockStep(p, c, events[0]), events[1..]))
  }

  function ClockRun(p: RetryPolicy, c: Clock, events: seq<Event>): Clock
    decreases |events|
  {
    if events == [] then c else ClockRun(p, ClockStep(p, c, events[0]), events[1..])
  }

  /** Every transmission so far happened at its scheduled time. */
  predicate ExactPending(p: RetryPolicy, s: Net) {
    forall i :: 0 <= i < |s.pending| ==>
      s.pending[i].1.uid < |s.created|
      && s.pending[i].1.sendDate == s.created[s.pending[i].1.uid] + p.SumWaits(s.pending[i].1.retries)
  }

  predicate ExactTimeOuts(p: RetryPolicy, s: Net) {
    forall u :: u in s.resolved && s.resolved[u].TimedOut? ==>
      u < |s.created| && s.resolved[u].at == s.created[u] + p.SumWaits(p.retries + 1)
  }

  predicate NoneBefore(p: RetryPolicy, s: Net, t: real) {
    forall i :: 0 <= i < |s.pending| ==> Deadline(p, s.pending[i].1) >= t
  }

  predicate OnTime(p: RetryPolicy, s: Net, t: real) {
    Sound(p, s) && ExactPending(p, s) && ExactTimeOuts(p, s) && NoneBefore(p, s, t)
  }

  /** Taking requests out of the table cannot make the others late. */
  lemma RemoveOnTime(p: RetryPolicy, s: Net, id: byte, o: Outcome, t: real)
    requires TableOk(s) && ExactPending(p, s) && ExactTimeOuts(p, s) && NoneBefore(p, s, t) && Has(s.pending, id)
    requires var uid := Find(s.pending, id).value.uid;
             o.TimedOut? ==> uid < |s.created| && o.at == s.created[uid] + p.SumWaits(p.retries + 1)
    ensures var s' := s.(pending := Remove(s.pending, id), resolved := s.resolved[Find(s.pending, id).value.uid := o]);
            ExactPending(p, s') && ExactTimeOuts(p, s') && NoneBefore(p, s', t)
  {
    RemoveTable(s, id);
  }

  lemma RetryOnTime(p: RetryPolicy, s: Net, id: byte, r: Request, sent: seq<nat>, t: real)
    requires TableOk(s) && ExactPending(p, s) && ExactTimeOuts(p, s) && NoneBefore(p, s, t) && Has(s.pending, id)
    requires r.uid == Find(s.pending, id).value.uid && r.uid < |s.created|
    requires r.sendDate == s.created[r.uid] + p.SumWaits(r.retries) && Deadline(p, r) >= t
    ensures var s' := s.(pending := Put(s.pending, id, r), sent := sent);
            ExactPending(p, s') && ExactTimeOuts(p, s') && NoneBefore(p, s', t)
  {
    PutTable(s, id, r);
  }

  /** A request found expired by a punctual loop expires at that very moment. */
  lemma DueNow(p: RetryPolicy, s: Net, id: byte, now: real)
    requires OnTime(p, s, now) && Has(s.pending, id) && Expired(p, Find(s.pending, id).value, now)
    ensures var r := Find(s.pending, id).value;
            && PendingOk(p, s, r) && Deadline(p, r) == now
            && p.SumWaits(r.retries + 1) == p.SumWaits(r.retries) + p.WaitFor(r.retries)
  {
    FindSound(s.pending, id);
  }

  lemma ServiceOnTime(p: RetryPolicy, s: Net, id: byte, now: real)
    requires OnTime(p, s, now) && p.NeverHasty() && p.timeout >= 0.0
    ensures OnTime(p, Service(p, s, id, now), now)
  {
    ServiceSound(p, s, id, now);
    if Has(s.pending, id) && Expired(p, Find(s.pending, id).value, now) {
      DueNow(p, s, id, now);
      if Find(s.pending, id).value.retries >= p.retries {
        RemoveOnTime(p, s, id, TimedOut(now), now);
      } else {
        RetriedOnTime(p, s, id, now);
      }
    }
  }

  lemma RetriedOnTime(p: RetryPolicy, s: Net, id: byte, now: real)
    requires OnTime(p, s, now) && p.NeverHasty() && p.timeout >= 0.0
    requires Has(s.pending, id) && Expired(p, Find(s.pending, id).value, now)
    requires Find(s.pending, id).value.retries < p.retries
    ensures OnTime(p, Service(p, s, id, now), now)
  {
    var r := Find(s.pending, id).value;
    ServiceSound(p, s, id, now);
    DueNow(p, s, id, now);
    NeverHastyWaits(p, r.retries + 1);
    RetryOnTime(p, s, id, r.(retries := r.retries + 1, sendDate := now), s.sent + [r.uid], now);
  }

  lemma {:induction false} ServiceAllOnTime(p: RetryPolicy, s: Net, ids: seq<byte>, now: real)
    requires OnTime(p, s, now) && p.NeverHasty() && p.timeout >= 0.0
    ensures OnTime(p, ServiceAll(p, s, ids, now), now)
    decreases |ids|
  {
    if ids != [] {
      ServiceOnTime(p, s, ids[0], now);
      ServiceAllOnTime(p, Service(p, s, ids[0], now), ids[1..], now);
    }
  }

  lemma ReplyOnTime(p: RetryPolicy, s: Net, id: byte, valid: bool, at: real, t: real)
    requires OnTime(p, s, t)
    ensures OnTime(p, Reply(s, id, valid, at), t)
  {
    ReplySound(p, s, id, valid, at);
    if Has(s.pending, id) && valid {
      RemoveOnTime(p, s, id, Answered(at), t);
    }
  }

  lemma SubmitOnTime(p: RetryPolicy, s: Net, id: byte, at: real, t: real)
    requires OnTime(p, s, t) && at + p.WaitFor(0) >= t
    ensures OnTime(p, Submit(s, id, at), t)
  {
    SubmitSound(p, s, id, at);
    assert p.SumWaits(0) == 0.0;
  }

  predicate ClockOk(p: RetryPolicy, c: Clock) {
    OnTime(p, c.net, c.wake) && c.last <= c.wake <= c.last + p.timeout
  }

  lemma ClockStepOk(p: RetryPolicy, c: Clock, e: Event)
    requires ClockOk(p, c) && OnSchedule(c, e) && p.NeverHasty() && p.timeout >= 0.0
    ensures ClockOk(p, ClockStep(p, c, e))
  {
    match e
    case SendEvent(id, at) =>
      NeverHastyWaits(p, 0);
      SubmitOnTime(p, c.net, id, at, c.wake);
    case ReplyEvent(id, valid, at) =>
      ReplyOnTime(p, c.net, id, valid, at, c.wake);
    case TickEvent(at) =>
      ServiceAllOnTime(p, c.net, Keys<byte, Request>(c.net.pending), at);
      NeverLate(p, c.net, at);
      WakeUpLeast(p, c.net.pending, at, p.timeout);
  }

  /** On an ideal clock every time-out fires exactly when the schedule says: at the submission
      time plus the sum of all waits; and no pending deadline is ever missed. */
  lemma {:induction false} TimeOutsExact(p: RetryPolicy, c: Clock, events: seq<Event>)
    requires ClockOk(p, c) && AllOnSchedule(p, c, events) && p.NeverHasty() && p.timeout >= 0.0
    ensures ClockOk(p, ClockRun(p, c, events))
    decreases |events|
  {
    if events != [] {
      ClockStepOk(p, c, events[0]);
      TimeOutsExact(p, ClockStep(p, c, events[0]), events[1..]);
    }
  }

  /** The client before its loop's first turn. */
  function Start(p: RetryPolicy, start: real): Clock {
    Clock(IDLE, start, start + Sleep(p, [], start))
  }

  /** A time-out on an ideal clock, from the start of the client. */
  lemma TimeOutAt(p: RetryPolicy, events: seq<Event>, start: real, uid: nat)
    requires p.NeverHasty() && p.timeout >= 0.0
    requires AllOnSchedule(p, Start(p, start), events)
    requires uid in ClockRun(p, Start(p, start), events).net.resolved
    requires ClockRun(p, Start(p, start), events).net.resolved[uid].TimedOut?
    ensures var s := ClockRun(p, Start(p, start), events).net;
            uid < |s.created| && s.resolved[uid].at == s.created[uid] + p.SumWaits(p.retries + 1)
  {
    var c := Start(p, start);
    assert ClockOk(p, c);
    TimeOutsExact(p, c, events);
    assert ExactTimeOuts(p, ClockRun(p, c, events).net);
  }
}
