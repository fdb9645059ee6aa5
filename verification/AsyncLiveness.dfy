/** On an ideal clock the pending table empties: how far the clock has come after a number of turns,
    and what can still be pending then. */
module AsyncLiveness {
  import opened Bytes
  import opened OrderedMaps
  import opened RetryPolicies
  import opened AsyncClients
  import opened AsyncTiming

  lemma {:induction false} SumWaitsGrow(p: RetryPolicy, m: nat, n: nat)
    requires p.NeverHasty() && p.timeout >= 0.0 && m <= n
    ensures p.SumWaits(m) <= p.SumWaits(n)
    decreases n
  {
    if m < n {
      NeverHastyWaits(p, n - 1);
      SumWaitsGrow(p, m, n - 1);
    }
  }

  /** A pending request is never older than the whole schedule. */
  lemma PendingIsRecent(p: RetryPolicy, c: Clock, i: nat)
    requires ClockOk(p, c) && p.NeverHasty() && p.timeout >= 0.0 && i < |c.net.pending|
    ensures var r := c.net.pending[i].1;
            r.uid < |c.net.created| && c.wake <= c.net.created[r.uid] + p.SumWaits(p.retries + 1)
  {
    var r := c.net.pending[i].1;
    assert PendingOk(p, c.net, r);
    assert Deadline(p, r) >= c.wake;
    assert p.SumWaits(r.retries + 1) == p.SumWaits(r.retries) + p.WaitFor(r.retries);
    SumWaitsGrow(p, r.retries + 1, p.retries + 1);
  }

  /** Once the next turn lies beyond the schedule of a request, its future is resolved. */
  lemma ResolvedByThen(p: RetryPolicy, c: Clock, events: seq<Event>, uid: nat)
    requires ClockOk(p, c) && AllOnSchedule(p, c, events) && p.NeverHasty() && p.timeout >= 0.0
    requires var end := ClockRun(p, c, events);
             uid < |end.net.created| && end.wake > end.net.created[uid] + p.SumWaits(p.retries + 1)
    ensures uid in ClockRun(p, c, events).net.resolved
  {
    var end := ClockRun(p, c, events);
    TimeOutsExact(p, c, events);
    if uid !in end.net.resolved {
      assert IsPending(end.net, uid);
      var i :| 0 <= i < |end.net.pending| && end.net.pending[i].1.uid == uid;
      PendingIsRecent(p, end, i);
      assert false;
    }
  }

  // --- The clock advances -----------------------------------------------------------------------

  predicate NoSends(events: seq<Event>) {
    forall i :: 0 <= i < |events| ==> !events[i].SendEvent?
  }

  function Turns(events: seq<Event>): nat {
    if events == [] then 0 else (if events[0].TickEvent? then 1 else 0) + Turns(events[1..])
  }

  /** Turns come no earlier than the loop asked to be woken; they may come late. */
  predicate NeverEarly(p: RetryPolicy, c: Clock, events: seq<Event>)
    decreases |events|
  {
    events == []
    || ((events[0].TickEvent? ==> events[0].at >= c.wake) && NeverEarly(p, ClockStep(p, c, events[0]), events[1..]))
  }

  /** Some request will have expired when the loop wakes. */
  ghost predicate Due(p: RetryPolicy, c: Clock) {
    exists i :: 0 <= i < |c.net.pending| && Deadline(p, c.net.pending[i].1) <= c.wake
  }

  /** The loop sleeps for a full base timeout or wakes for a request. */
  ghost predicate Purposeful(p: RetryPolicy, c: Clock) {
    c.wake >= c.last + p.timeout || Due(p, c)
  }

  /** Expiries still owed, one more while the loop is about to wake early for nothing. */
  ghost function Credit(p: RetryPolicy, c: Clock): int {
    Owed(p, c.net.pending) + if Purposeful(p, c) then 0 else 1
  }

  /** The sleep is the base timeout or ends at the deadline of a request that has not expired. */
  lemma {:induction false} WakeUpAttained(p: RetryPolicy, m: seq<(byte, Request)>, now: real, acc: real)
    ensures NextWakeUp(p, m, now, acc) == acc
            || exists i :: 0 <= i < |m| && !Expired(p, m[i].1, now)
                           && now + NextWakeUp(p, m, now, acc) == Deadline(p, m[i].1)
    decreases |m|
  {
    if m != [] {
      var remaining := p.WaitFor(m[0].1.retries) - (now - m[0].1.sendDate);
      var acc' := if Expired(p, m[0].1, now) || remaining >= acc then acc else remaining;
      WakeUpAttained(p, m[1..], now, acc');
      var next := NextWakeUp(p, m[1..], now, acc');
      assert NextWakeUp(p, m, now, acc) == next;
      if exists i :: 0 <= i < |m[1..]| && !Expired(p, m[1..][i].1, now) && now + next == Deadline(p, m[1..][i].1) {
        var i :| 0 <= i < |m[1..]| && !Expired(p, m[1..][i].1, now) && now + next == Deadline(p, m[1..][i].1);
        assert m[i + 1] == m[1..][i];
      } else if next != acc {
        assert m[0] == m[0] && !Expired(p, m[0].1, now) && now + next == Deadline(p, m[0].1);
      }
    }
  }

  lemma {:induction false} SomeExpired(p: RetryPolicy, m: seq<(byte, Request)>, now: real, i: nat)
    requires i < |m| && Expired(p, m[i].1, now)
    ensures ExpiredCount(p, m, now) >= 1
  {
    if i > 0 { SomeExpired(p, m[1..], now, i - 1); }
  }

  /** After a turn the loop wakes at the base timeout or for a request. */
  lemma TurnIsPurposeful(p: RetryPolicy, c: Clock, at: real)
    requires Sound(p, c.net) && p.timeout > 0.0
    ensures Purposeful(p, ClockStep(p, c, TickEvent(at)))
  {
    var m := c.net.pending;
    var c' := ClockStep(p, c, TickEvent(at));
    WakeUpAttained(p, m, at, p.timeout);
    if NextWakeUp(p, m, at, p.timeout) != p.timeout {
      var i :| 0 <= i < |m| && !Expired(p, m[i].1, at) && at + NextWakeUp(p, m, at, p.timeout) == Deadline(p, m[i].1);
      FindAt(m, i);
      TickFind(p, c.net, at, m[i].0);
      FindSound(c'.net.pending, m[i].0);
      var j :| 0 <= j < |c'.net.pending| && c'.net.pending[j] == (m[i].0, m[i].1);
      assert Deadline(p, c'.net.pending[j].1) == c'.wake;
    }
  }

  lemma DueExpires(p: RetryPolicy, c: Clock, at: real)
    requires Due(p, c) && at >= c.wake
    ensures ExpiredCount(p, c.net.pending, at) >= 1
  {
    var i :| 0 <= i < |c.net.pending| && Deadline(p, c.net.pending[i].1) <= c.wake;
    SomeExpired(p, c.net.pending, at, i);
  }

  /** A turn comes a full base timeout after the one before, or uses up credit. */
  lemma TurnCredit(p: RetryPolicy, c: Clock, at: real)
    requires Sound(p, c.net) && p.timeout > 0.0 && at >= c.wake
    ensures var c' := ClockStep(p, c, TickEvent(at));
            && c'.last == at && Credit(p, c') <= Credit(p, c)
            && (at >= c.last + p.timeout || Credit(p, c') <= Credit(p, c) - 1)
  {
    TurnIsPurposeful(p, c, at);
    TickOwed(p, c.net, at);
    if Due(p, c) { DueExpires(p, c, at); }
  }

  /** A reply costs no credit. */
  lemma ReplyCredit(p: RetryPolicy, c: Clock, e: Event)
    requires Sound(p, c.net) && e.ReplyEvent?
    ensures var c' := ClockStep(p, c, e);
            c'.last == c.last && c'.wake == c.wake && Credit(p, c') <= Credit(p, c)
  {
    if Has(c.net.pending, e.id) && e.valid {
      var k := RemoveAt(c.net.pending, e.id);
      assert PendingOk(p, c.net, c.net.pending[k].1);
      OwedRemove(p, c.net.pending, e.id);
    }
  }

  /** So many base timeouts in a row. */
  function Span(n: nat, unit: real): real {
    if n == 0 then 0.0 else unit + Span(n - 1, unit)
  }

  lemma {:induction false} SpanIs(n: nat, unit: real)
    ensures Span(n, unit) == n as real * unit
  {
    if n > 0 {
      SpanIs(n - 1, unit);
      assert n as real * unit == (n - 1) as real * unit + unit;
    }
  }

  lemma {:induction false} SpanGrows(m: nat, n: nat, unit: real)
    requires m <= n && unit > 0.0
    ensures Span(m, unit) <= Span(n, unit)
    decreases n
  {
    if m < n { SpanGrows(m, n - 1, unit); }
  }

  /** From `start` to `end`, all but as many of the turns as `credit` took a full base timeout each. */
  ghost predicate Came(unit: real, start: real, credit: nat, turns: nat, end: real) {
    start + Span(turns, unit) <= end + Span(credit, unit)
  }

  lemma TurnCame(unit: real, start: real, middle: real, before: nat, after: nat, turns: nat, end: real)
    requires unit > 0.0 && Came(unit, middle, after, turns, end)
    requires after <= before && middle >= start && (middle >= start + unit || after <= before - 1)
    ensures Came(unit, start, before, turns + 1, end)
  {
    if after <= before - 1 {
      SpanGrows(after, before - 1, unit);
    } else {
      SpanGrows(after, before, unit);
    }
  }

  /** Without new submissions, whatever the policy and however late the turns: all but as many turns as
      there is credit come a full base timeout after the one before. */
  lemma {:induction false} ClockAdvances(p: RetryPolicy, c: Clock, events: seq<Event>)
    requires Sound(p, c.net) && c.last <= c.wake && NeverEarly(p, c, events) && NoSends(events) && p.timeout > 0.0
    ensures ClockRun(p, c, events).net.created == c.net.created
    ensures Credit(p, c) >= 0
    ensures Came(p.timeout, c.last, Credit(p, c), Turns(events), ClockRun(p, c, events).last)
    decreases |events|
  {
    CreditPositive(p, c);
    if events == [] {
      SpanGrows(0, Credit(p, c), p.timeout);
    } else {
      var e, c' := events[0], ClockStep(p, c, events[0]);
      assert NoSends(events[1..]) by { assert forall i :: 0 <= i < |events[1..]| ==> events[1..][i] == events[i + 1]; }
      StepSound(p, c.net, e);
      CreatedKept(p, c.net, e);
      ClockAdvances(p, c', events[1..]);
      CreditPositive(p, c');
      if e.TickEvent? {
        TurnCredit(p, c, e.at);
        TurnCame(p.timeout, c.last, c'.last, Credit(p, c), Credit(p, c'), Turns(events[1..]),
                 ClockRun(p, c, events).last);
      } else {
        ReplyCredit(p, c, e);
        SpanGrows(Credit(p, c'), Credit(p, c), p.timeout);
      }
    }
  }

  lemma CreditPositive(p: RetryPolicy, c: Clock)
    requires Sound(p, c.net)
    ensures Credit(p, c) >= 0
  {
    forall i | 0 <= i < |c.net.pending| ensures c.net.pending[i].1.retries <= p.retries {
      assert PendingOk(p, c.net, c.net.pending[i].1);
    }
    OwedPositive(p, c.net.pending);
  }

  lemma {:induction false} ServiceAllCreated(p: RetryPolicy, s: Net, ids: seq<byte>, now: real)
    ensures ServiceAll(p, s, ids, now).created == s.created
    decreases |ids|
  {
    if ids != [] { ServiceAllCreated(p, Service(p, s, ids[0], now), ids[1..], now); }
  }

  lemma CreatedKept(p: RetryPolicy, s: Net, e: Event)
    requires !e.SendEvent?
    ensures Step(p, s, e).created == s.created
  {
    if e.TickEvent? { ServiceAllCreated(p, s, Keys<byte, Request>(s.pending), e.at); }
  }

  /** The base timeouts by which the turns outnumber `owed`. */
  function Ahead(turns: int, owed: int, unit: real): real {
    (turns - owed) as real * unit
  }

  lemma SpanBetween(turns: nat, owed: nat, unit: real)
    ensures Span(turns, unit) - Span(owed, unit) == Ahead(turns, owed, unit)
  {
    SpanIs(turns, unit);
    SpanIs(owed, unit);
    var t, o, d := turns as real, owed as real, (turns - owed) as real;
    assert d == t - o;
    assert d * unit == t * unit - o * unit;
  }

  lemma Enough(unit: real, bound: real, start: real, credit: nat, owed: nat, turns: nat, end: real)
    requires unit > 0.0 && credit <= owed && Came(unit, start, credit, turns, end)
    requires bound - start < Ahead(turns, owed, unit)
    ensures end > bound
  {
    SpanBetween(turns, owed, unit);
    SpanGrows(credit, owed, unit);
  }

  /** Every schedule has ended by `late`. */
  ghost predicate AllDoneBy(p: RetryPolicy, created: seq<real>, late: real) {
    forall u :: 0 <= u < |created| ==> created[u] + p.SumWaits(p.retries + 1) <= late
  }

  lemma LateMeansEmpty(p: RetryPolicy, c: Clock, late: real)
    requires ClockOk(p, c) && p.NeverHasty() && p.timeout >= 0.0
    requires AllDoneBy(p, c.net.created, late) && c.wake > late
    ensures c.net.pending == [] && forall u :: 0 <= u < |c.net.created| ==> u in c.net.resolved
  {
    if c.net.pending != [] {
      PendingIsRecent(p, c, 0);
      assert false;
    }
    forall u | 0 <= u < |c.net.created| ensures u in c.net.resolved {
      assert u in c.net.resolved || IsPending(c.net, u);
    }
  }

  lemma {:induction false} ScheduleNeverEarly(p: RetryPolicy, c: Clock, events: seq<Event>)
    requires AllOnSchedule(p, c, events)
    ensures NeverEarly(p, c, events)
    decreases |events|
  {
    if events != [] { ScheduleNeverEarly(p, ClockStep(p, c, events[0]), events[1..]); }
  }

  /** With no new sends the table empties: nothing is pending any more, and every future is resolved,
      once the turns outnumber the owed expiries and one by more base timeouts than remain until the
      last schedule has ended. */
  lemma TableEmptiesInTime(p: RetryPolicy, c: Clock, events: seq<Event>, late: real)
    requires ClockOk(p, c) && AllOnSchedule(p, c, events) && NoSends(events) && p.NeverHasty() && p.timeout > 0.0
    requires AllDoneBy(p, c.net.created, late)
    requires late - c.last < Ahead(Turns(events), Owed(p, c.net.pending) + 1, p.timeout)
    ensures var end := ClockRun(p, c, events);
            end.net.pending == [] && forall u :: 0 <= u < |end.net.created| ==> u in end.net.resolved
  {
    var end := ClockRun(p, c, events);
    ScheduleNeverEarly(p, c, events);
    ClockAdvances(p, c, events);
    Enough(p.timeout, late, c.last, Credit(p, c), Owed(p, c.net.pending) + 1, Turns(events), end.last);
    TimeOutsExact(p, c, events);
    assert end.wake > late by { assert ClockOk(p, end); }
    LateMeansEmpty(p, end, late);
  }

  // --- Any policy, late turns -------------------------------------------------------------------

  /** No wait is longer. */
  function LongestWait(p: RetryPolicy): real {
    if p.maxWait > 0.0 then p.maxWait else 0.0
  }

  /** What a request can still make the loop work, as seen at the turn `last`: a longest wait and a base
      timeout for every retry left, and the rest of the current wait. */
  function Work(p: RetryPolicy, r: Request, last: real): real
    requires r.retries <= p.retries
  {
    var rest := Deadline(p, r) - last;
    Span(p.retries - r.retries, LongestWait(p) + p.timeout) + p.timeout + if rest > 0.0 then rest else 0.0
  }

  predicate Counted(p: RetryPolicy, m: seq<(byte, Request)>) {
    forall i :: 0 <= i < |m| ==> m[i].1.retries <= p.retries
  }

  lemma SoundCounted(p: RetryPolicy, s: Net)
    requires Sound(p, s)
    ensures Counted(p, s.pending)
  {
    forall i | 0 <= i < |s.pending| ensures s.pending[i].1.retries <= p.retries {
      assert PendingOk(p, s, s.pending[i].1);
    }
  }

  function AllWork(p: RetryPolicy, m: seq<(byte, Request)>, last: real): real
    requires Counted(p, m)
  {
    if m == [] then 0.0 else Work(p, m[0].1, last) + AllWork(p, m[1..], last)
  }

  lemma {:induction false} WorkAppend(p: RetryPolicy, a: seq<(byte, Request)>, b: seq<(byte, Request)>, last: real)
    requires Counted(p, a) && Counted(p, b)
    ensures Counted(p, a + b) && AllWork(p, a + b, last) == AllWork(p, a, last) + AllWork(p, b, last)
  {
    if a == [] {
      assert a + b == b;
    } else {
      assert (a + b)[0] == a[0] && (a + b)[1..] == a[1..] + b;
      WorkAppend(p, a[1..], b, last);
    }
  }

  lemma WorkRemove(p: RetryPolicy, m: seq<(byte, Request)>, id: byte, last: real)
    requires Counted(p, m) && Has(m, id)
    ensures Find(m, id).value.retries <= p.retries && Counted(p, Remove(m, id))
    ensures AllWork(p, Remove(m, id), last) == AllWork(p, m, last) - Work(p, Find(m, id).value, last)
  {
    var i := RemoveAt(m, id);
    var e := [m[i]];
    assert m == m[..i] + (e + m[i + 1..]);
    assert e[1..] == [];
    WorkAppend(p, m[..i], m[i + 1..], last);
    WorkAppend(p, e, m[i + 1..], last);
    WorkAppend(p, m[..i], e + m[i + 1..], last);
  }

  lemma WorkPut(p: RetryPolicy, m: seq<(byte, Request)>, id: byte, r: Request, last: real)
    requires Counted(p, m) && Has(m, id) && r.retries <= p.retries
    ensures Find(m, id).value.retries <= p.retries && Counted(p, Put(m, id, r))
    ensures AllWork(p, Put(m, id, r), last) ==
            AllWork(p, m, last) - Work(p, Find(m, id).value, last) + Work(p, r, last)
  {
    var i := PutAt(m, id, r);
    var e, f := [m[i]], [(id, r)];
    assert m == m[..i] + (e + m[i + 1..]) && m[i := (id, r)] == m[..i] + (f + m[i + 1..]);
    assert e[1..] == [] && f[1..] == [];
    WorkAppend(p, e, m[i + 1..], last);
    WorkAppend(p, f, m[i + 1..], last);
    WorkAppend(p, m[..i], e + m[i + 1..], last);
    WorkAppend(p, m[..i], f + m[i + 1..], last);
  }

  lemma WorkLeft(p: RetryPolicy, r: Request, last: real)
    requires r.retries <= p.retries && p.timeout > 0.0
    ensures Work(p, r, last) >= p.timeout
  {
    SpanGrows(0, p.retries - r.retries, LongestWait(p) + p.timeout);
  }

  lemma {:induction false} AllWorkLeft(p: RetryPolicy, m: seq<(byte, Request)>, last: real)
    requires Counted(p, m) && p.timeout > 0.0
    ensures AllWork(p, m, last) >= 0.0
  {
    if m != [] {
      WorkLeft(p, m[0].1, last);
      AllWorkLeft(p, m[1..], last);
    }
  }

  /** Servicing an expired request takes at least a base timeout off the work. */
  lemma RetryWork(p: RetryPolicy, r: Request, at: real)
    requires r.retries < p.retries && Expired(p, r, at) && p.timeout > 0.0
    ensures Work(p, r.(retries := r.retries + 1, sendDate := at), at) <= Work(p, r, at) - p.timeout
  {
    assert p.WaitFor(r.retries + 1) <= LongestWait(p);
    var k := p.retries - r.retries;
    assert Span(k, LongestWait(p) + p.timeout) == LongestWait(p) + p.timeout + Span(k - 1, LongestWait(p) + p.timeout);
  }

  lemma ServiceWork(p: RetryPolicy, s: Net, id: byte, at: real)
    requires Sound(p, s) && Counted(p, s.pending) && p.timeout > 0.0
    ensures Counted(p, Service(p, s, id, at).pending)
    ensures AllWork(p, Service(p, s, id, at).pending, at) <= AllWork(p, s.pending, at)
            - if Has(s.pending, id) && Expired(p, Find(s.pending, id).value, at) then p.timeout else 0.0
  {
    if Has(s.pending, id) {
      FindSound(s.pending, id);
      var r := Find(s.pending, id).value;
      if Expired(p, r, at) {
        WorkRemove(p, s.pending, id, at);
        WorkLeft(p, r, at);
        if r.retries < p.retries {
          WorkPut(p, s.pending, id, r.(retries := r.retries + 1, sendDate := at), at);
          RetryWork(p, r, at);
        }
      }
    }
  }

  lemma {:induction false} ServiceAllWork(p: RetryPolicy, s: Net, rest: seq<(byte, Request)>, at: real)
    requires Sound(p, s) && Counted(p, s.pending) && Distinct(rest) && Untouched(s, rest) && p.timeout > 0.0
    ensures Counted(p, ServiceAll(p, s, Keys<byte, Request>(rest), at).pending)
    ensures AllWork(p, ServiceAll(p, s, Keys<byte, Request>(rest), at).pending, at) <= AllWork(p, s.pending, at)
            - if ExpiredCount(p, rest, at) >= 1 then p.timeout else 0.0
    decreases |rest|
  {
    if rest != [] {
      var id := rest[0].0;
      ServiceWork(p, s, id, at);
      ServiceSound(p, s, id, at);
      UntouchedStep(p, s, rest, at);
      assert Keys<byte, Request>(rest)[1..] == Keys<byte, Request>(rest[1..]);
      ServiceAllWork(p, Service(p, s, id, at), rest[1..], at);
    }
  }

  /** A turn does not add to the work, and takes a base timeout off it if a request has expired. */
  lemma TickWork(p: RetryPolicy, s: Net, at: real)
    requires Sound(p, s) && Counted(p, s.pending) && p.timeout > 0.0
    ensures Counted(p, Tick(p, s, at).pending)
    ensures AllWork(p, Tick(p, s, at).pending, at) <= AllWork(p, s.pending, at)
            - if ExpiredCount(p, s.pending, at) >= 1 then p.timeout else 0.0
  {
    AllUntouched(s);
    ServiceAllWork(p, s, s.pending, at);
  }

  /** Neither does the passing of time, which takes a base timeout off if nothing expires for so long. */
  lemma {:induction false} TimeWork(p: RetryPolicy, m: seq<(byte, Request)>, last: real, at: real)
    requires Counted(p, m) && last <= at && p.timeout > 0.0
    ensures AllWork(p, m, at) <= AllWork(p, m, last)
    ensures m != [] && at >= last + p.timeout && ExpiredCount(p, m, at) == 0 ==>
              AllWork(p, m, at) <= AllWork(p, m, last) - p.timeout
  {
    if m != [] { TimeWork(p, m[1..], last, at); }
  }

  /** All the work, a base timeout more while the loop is about to wake early for nothing. */
  ghost function Patience(p: RetryPolicy, c: Clock): real
    requires Counted(p, c.net.pending)
  {
    AllWork(p, c.net.pending, c.last) + if Purposeful(p, c) then 0.0 else p.timeout
  }

  /** Every turn that finds a request pending uses up a base timeout of patience. */
  lemma TurnPatience(p: RetryPolicy, c: Clock, at: real)
    requires Sound(p, c.net) && Counted(p, c.net.pending) && p.timeout > 0.0 && c.last <= c.wake <= at
    requires c.net.pending != []
    ensures var c' := ClockStep(p, c, TickEvent(at));
            && c'.last <= c'.wake && Counted(p, c'.net.pending)
            && Patience(p, c') <= Patience(p, c) - p.timeout
  {
    TurnIsPurposeful(p, c, at);
    TimeWork(p, c.net.pending, c.last, at);
    TickWork(p, c.net, at);
    if Due(p, c) { DueExpires(p, c, at); }
  }

  /** A reply uses up none. */
  lemma ReplyPatience(p: RetryPolicy, c: Clock, e: Event)
    requires Sound(p, c.net) && Counted(p, c.net.pending) && p.timeout > 0.0 && e.ReplyEvent?
    ensures var c' := ClockStep(p, c, e);
            Counted(p, c'.net.pending) && Patience(p, c') <= Patience(p, c)
  {
    if Has(c.net.pending, e.id) && e.valid {
      WorkRemove(p, c.net.pending, e.id, c.last);
      WorkLeft(p, Find(c.net.pending, e.id).value, c.last);
    }
  }

  lemma {:induction false} EmptyStays(p: RetryPolicy, c: Clock, events: seq<Event>)
    requires c.net.pending == [] && NoSends(events)
    ensures ClockRun(p, c, events).net.pending == []
    decreases |events|
  {
    if events != [] {
      assert NoSends(events[1..]) by { assert forall i :: 0 <= i < |events[1..]| ==> events[1..][i] == events[i + 1]; }
      EmptyStays(p, ClockStep(p, c, events[0]), events[1..]);
    }
  }

  /** However late the turns: they use up patience as long as anything is pending. */
  lemma {:induction false} PatienceRuns(p: RetryPolicy, c: Clock, events: seq<Event>)
    requires Sound(p, c.net) && Counted(p, c.net.pending) && c.last <= c.wake && p.timeout > 0.0
    requires NeverEarly(p, c, events) && NoSends(events)
    ensures var end := ClockRun(p, c, events);
            && Sound(p, end.net) && Counted(p, end.net.pending)
            && (end.net.pending == [] || Patience(p, end) + Span(Turns(events), p.timeout) <= Patience(p, c))
    decreases |events|
  {
    if events != [] {
      var e, c' := events[0], ClockStep(p, c, events[0]);
      assert NoSends(events[1..]) by { assert forall i :: 0 <= i < |events[1..]| ==> events[1..][i] == events[i + 1]; }
      StepSound(p, c.net, e);
      SoundCounted(p, c'.net);
      if e.TickEvent? && c.net.pending != [] {
        TurnPatience(p, c, e.at);
      } else if e.ReplyEvent? {
        ReplyPatience(p, c, e);
      }
      PatienceRuns(p, c', events[1..]);
      if c.net.pending == [] { EmptyStays(p, c, events); }
    }
  }

  /** With no new sends the table empties, whatever the policy and however late the turns: once they
      outnumber the patience, counted in base timeouts, nothing is pending and every future is
      resolved. */
  lemma TableEmpties(p: RetryPolicy, c: Clock, events: seq<Event>)
    requires Sound(p, c.net) && Counted(p, c.net.pending) && c.last <= c.wake && p.timeout > 0.0
    requires NeverEarly(p, c, events) && NoSends(events)
    requires Span(Turns(events), p.timeout) > Patience(p, c)
    ensures var end := ClockRun(p, c, events);
            end.net.pending == [] && forall u :: 0 <= u < |end.net.created| ==> u in end.net.resolved
  {
    var end := ClockRun(p, c, events);
    PatienceRuns(p, c, events);
    AllWorkLeft(p, end.net.pending, end.last);
    forall u | 0 <= u < |end.net.created| ensures u in end.net.resolved {
      assert u in end.net.resolved || IsPending(end.net, u);
    }
  }

  lemma {:induction false} WorkBound(p: RetryPolicy, m: seq<(byte, Request)>, last: real)
    requires Counted(p, m) && p.timeout > 0.0 && forall i :: 0 <= i < |m| ==> m[i].1.sendDate <= last
    ensures AllWork(p, m, last) <= Span(|m|, Span(p.retries + 1, LongestWait(p) + p.timeout))
  {
    if m != [] {
      var r, unit := m[0].1, LongestWait(p) + p.timeout;
      assert forall i :: 0 <= i < |m[1..]| ==> m[1..][i] == m[i + 1];
      WorkBound(p, m[1..], last);
      assert p.WaitFor(r.retries) <= LongestWait(p);
      SpanGrows(p.retries - r.retries, p.retries, unit);
      assert Span(p.retries + 1, unit) == unit + Span(p.retries, unit);
    }
  }

  /** Requests sent by the last turn need at most a longest wait and a base timeout for each datagram. */
  lemma PatienceBound(p: RetryPolicy, c: Clock)
    requires Counted(p, c.net.pending) && p.timeout > 0.0
    requires forall i :: 0 <= i < |c.net.pending| ==> c.net.pending[i].1.sendDate <= c.last
    ensures Patience(p, c) <=
            Span(|c.net.pending|, Span(p.retries + 1, LongestWait(p) + p.timeout)) + p.timeout
  {
    WorkBound(p, c.net.pending, c.last);
  }
}
