/** The asynchronous client: pending requests, the timer loop, replies and identifiers. */
module AsyncClients {
  import opened Wrappers
  import opened Bytes
  import opened OrderedMaps
  import opened RetryPolicies

  /** How the future of a request was resolved, and when. */
  datatype Outcome = Answered(at: real) | TimedOut(at: real)

  /** `uid` stands for the future: requests are numbered in the order they are submitted. */
  datatype Request = Request(uid: nat, retries: nat, sendDate: real)

  /** The pending table by identifier, the submission times, the datagrams sent (as the requests
      they carry) and the futures resolved. */
  datatype Net = Net(
    pending: seq<(byte, Request)>,
    created: seq<real>,
    sent: seq<nat>,
    resolved: map<nat, Outcome>)

  const IDLE := Net([], [], [], map[])

  // --- Steps --------------------------------------------------------------------------------

  /** `send_packet`; an identifier in flight is refused (IdentifierExhausted). */
  function Submit(s: Net, id: byte, now: real): Net {
    if Has(s.pending, id) then s
    else
      var uid := |s.created|;
      Net(s.pending + [(id, Request(uid, 0, now))], s.created + [now], s.sent + [uid], s.resolved)
  }

  predicate Expired(p: RetryPolicy, r: Request, now: real) {
    now - r.sendDate >= p.WaitFor(r.retries)
  }

  /** What the timer loop does with one pending request. */
  function Service(p: RetryPolicy, s: Net, id: byte, now: real): Net {
    match Find(s.pending, id)
    case None => s
    case Some(r) =>
      if !Expired(p, r, now) then s
      else if r.retries >= p.retries then
        s.(pending := Remove(s.pending, id), resolved := s.resolved[r.uid := TimedOut(now)])
      else
        s.(pending := Put(s.pending, id, r.(retries := r.retries + 1, sendDate := now)), sent := s.sent + [r.uid])
  }

  function ServiceAll(p: RetryPolicy, s: Net, ids: seq<byte>, now: real): Net
    decreases |ids|
  {
    if ids == [] then s else ServiceAll(p, Service(p, s, ids[0], now), ids[1..], now)
  }

  /** One turn of `__timeout_handler__`. */
  function Tick(p: RetryPolicy, s: Net, now: real): Net {
    ServiceAll(p, s, Keys<byte, Request>(s.pending), now)
  }

  /** `datagram_received`; `valid` is the verdict of decoding and `verify_reply`. */
  function Reply(s: Net, id: byte, valid: bool, now: real): Net {
    match Find(s.pending, id)
    case None => s
    case Some(r) =>
      if valid then s.(pending := Remove(s.pending, id), resolved := s.resolved[r.uid := Answered(now)])
      else s
  }

  // --- What every run keeps -----------------------------------------------------------------

  predicate IsPending(s: Net, uid: nat) {
    exists i :: 0 <= i < |s.pending| && s.pending[i].1.uid == uid
  }

  predicate PendingOk(p: RetryPolicy, s: Net, r: Request) {
    r.uid < |s.created| && r.uid !in s.resolved && r.retries <= p.retries
    && multiset(s.sent)[r.uid] == 1 + r.retries
    && r.sendDate >= s.created[r.uid] + p.SumWaits(r.retries)
  }

  predicate ResolvedOk(p: RetryPolicy, s: Net, uid: nat, o: Outcome) {
    uid < |s.created|
    && match o
       case Answered(_) => 1 <= multiset(s.sent)[uid] <= 1 + p.retries
       case TimedOut(at) =>
         multiset(s.sent)[uid] == 1 + p.retries && at >= s.created[uid] + p.SumWaits(p.retries + 1)
  }

  predicate TableOk(s: Net) {
    Distinct(s.pending)
    && forall i, j :: 0 <= i < j < |s.pending| ==> s.pending[i].1.uid != s.pending[j].1.uid
  }

  predicate AllPendingOk(p: RetryPolicy, s: Net) {
    forall i :: 0 <= i < |s.pending| ==> PendingOk(p, s, s.pending[i].1)
  }

  predicate AllResolvedOk(p: RetryPolicy, s: Net) {
    forall u :: u in s.resolved ==> ResolvedOk(p, s, u, s.resolved[u])
  }

  predicate SentOk(s: Net) {
    forall k :: 0 <= k < |s.sent| ==> s.sent[k] < |s.created|
  }

  predicate Sound(p: RetryPolicy, s: Net) {
    TableOk(s) && AllPendingOk(p, s) && AllResolvedOk(p, s) && Covered(s) && SentOk(s)
  }

  lemma SubmitCovered(s: Net, id: byte, now: real)
    requires Covered(s) && !Has(s.pending, id)
    ensures Covered(Submit(s, id, now))
  {
    var s' := Submit(s, id, now);
    forall u | 0 <= u < |s'.created| ensures u in s'.resolved || IsPending(s', u) {
      if u == |s.created| {
        assert s'.pending[|s.pending|].1.uid == u;
      } else if u !in s.resolved {
        var i :| 0 <= i < |s.pending| && s.pending[i].1.uid == u;
        assert s'.pending[i].1.uid == u;
      }
    }
  }

  /** `s'` has one datagram more than `s`, for request `uid`. */
  predicate OneMore(s: Net, s': Net, uid: nat) {
    s'.sent == s.sent + [uid] && s.created <= s'.created && s'.resolved == s.resolved
  }

  lemma CountsAfter(s: Net, s': Net, uid: nat, u: nat)
    requires OneMore(s, s', uid)
    ensures multiset(s'.sent)[u] == multiset(s.sent)[u] + (if u == uid then 1 else 0)
  {
  }

  /** A datagram for one request changes nothing for the others. */
  lemma OtherPending(p: RetryPolicy, s: Net, s': Net, uid: nat, r: Request)
    requires OneMore(s, s', uid) && PendingOk(p, s, r) && r.uid != uid
    ensures PendingOk(p, s', r)
  {
    CountsAfter(s, s', uid, r.uid);
  }

  lemma OtherResolved(p: RetryPolicy, s: Net, s': Net, uid: nat)
    requires OneMore(s, s', uid) && AllResolvedOk(p, s) && uid !in s.resolved
    ensures AllResolvedOk(p, s')
  {
    forall u | u in s'.resolved ensures ResolvedOk(p, s', u, s'.resolved[u]) {
      assert ResolvedOk(p, s, u, s.resolved[u]);
      CountsAfter(s, s', uid, u);
    }
  }

  lemma SubmitSound(p: RetryPolicy, s: Net, id: byte, now: real)
    requires Sound(p, s)
    ensures Sound(p, Submit(s, id, now))
  {
    if !Has(s.pending, id) {
      var s', uid := Submit(s, id, now), |s.created|;
      SubmitCovered(s, id, now);
      assert uid !in s.sent && uid !in s.resolved by {
        assert uid in s.resolved ==> ResolvedOk(p, s, uid, s.resolved[uid]);
      }
      OtherResolved(p, s, s', uid);
      SubmitPending(p, s, id, now);
    }
  }

  lemma SubmitPending(p: RetryPolicy, s: Net, id: byte, now: real)
    requires TableOk(s) && AllPendingOk(p, s) && !Has(s.pending, id)
    requires |s.created| !in s.sent && |s.created| !in s.resolved
    ensures TableOk(Submit(s, id, now)) && AllPendingOk(p, Submit(s, id, now))
  {
    var s', uid := Submit(s, id, now), |s.created|;
    FindSound(s.pending, id);
    forall i | 0 <= i < |s'.pending| ensures PendingOk(p, s', s'.pending[i].1) {
      if i < |s.pending| {
        assert PendingOk(p, s, s.pending[i].1);
        OtherPending(p, s, s', uid, s.pending[i].1);
      } else {
        CountsAfter(s, s', uid, uid);
        assert p.SumWaits(0) == 0.0;
      }
    }
    assert forall i :: 0 <= i < |s.pending| ==> PendingOk(p, s, s.pending[i].1);
  }

  /** Every submitted request is accounted for. */
  predicate Covered(s: Net) {
    forall u :: 0 <= u < |s.created| ==> u in s.resolved || IsPending(s, u)
  }

  lemma RemoveCovered(s: Net, id: byte, o: Outcome)
    requires Covered(s) && Has(s.pending, id)
    ensures Covered(Resolve(s, id, o))
  {
    var k := RemoveAt(s.pending, id);
    var s' := Resolve(s, id, o);
    forall u | 0 <= u < |s'.created| ensures u in s'.resolved || IsPending(s', u) {
      if u !in s'.resolved {
        var i :| 0 <= i < |s.pending| && s.pending[i].1.uid == u;
        assert s'.pending[if i < k then i else i - 1].1.uid == u;
      }
    }
  }

  lemma ReplaceCovered(s: Net, k: nat, r: Request, sent: seq<nat>)
    requires Covered(s) && k < |s.pending| && r.uid == s.pending[k].1.uid
    ensures Covered(s.(pending := s.pending[k := (s.pending[k].0, r)], sent := sent))
  {
    var s' := s.(pending := s.pending[k := (s.pending[k].0, r)], sent := sent);
    forall u | 0 <= u < |s'.created| ensures u in s'.resolved || IsPending(s', u) {
      if u !in s'.resolved {
        var i :| 0 <= i < |s.pending| && s.pending[i].1.uid == u;
        assert s'.pending[i].1.uid == u;
      }
    }
  }

  /** The request leaves the table and its future is resolved. */
  function Resolve(s: Net, id: byte, o: Outcome): Net
    requires Has(s.pending, id)
  {
    s.(pending := Remove(s.pending, id), resolved := s.resolved[Find(s.pending, id).value.uid := o])
  }

  lemma RemoveTable(s: Net, id: byte)
    requires TableOk(s) && Has(s.pending, id)
    ensures TableOk(s.(pending := Remove(s.pending, id)))
    ensures forall i :: 0 <= i < |Remove(s.pending, id)| ==> Remove(s.pending, id)[i] in s.pending
  {
    var k := RemoveAt(s.pending, id);
    var m := Remove(s.pending, id);
    assert forall i :: 0 <= i < k ==> m[i] == s.pending[i];
    assert forall i :: k <= i < |m| ==> m[i] == s.pending[i + 1];
  }

  /** What stays in the table was there, under another identifier and for another request. */
  lemma RemoveLeaves(s: Net, id: byte, i: nat) returns (j: nat)
    requires TableOk(s) && Has(s.pending, id) && i < |Remove(s.pending, id)|
    ensures j < |s.pending| && s.pending[j] == Remove(s.pending, id)[i]
    ensures s.pending[j].1.uid != Find(s.pending, id).value.uid
  {
    var k := RemoveAt(s.pending, id);
    j := if i < k then i else i + 1;
  }

  lemma ResolvePending(p: RetryPolicy, s: Net, id: byte, o: Outcome)
    requires TableOk(s) && AllPendingOk(p, s) && Has(s.pending, id)
    ensures TableOk(Resolve(s, id, o)) && AllPendingOk(p, Resolve(s, id, o))
  {
    var s' := Resolve(s, id, o);
    RemoveTable(s, id);
    forall i | 0 <= i < |s'.pending| ensures PendingOk(p, s', s'.pending[i].1) {
      var j := RemoveLeaves(s, id, i);
      assert PendingOk(p, s, s.pending[j].1);
    }
  }

  lemma ResolveResolved(p: RetryPolicy, s: Net, id: byte, o: Outcome)
    requires AllResolvedOk(p, s) && Has(s.pending, id) && ResolvedOk(p, s, Find(s.pending, id).value.uid, o)
    ensures AllResolvedOk(p, Resolve(s, id, o))
  {
    var s' := Resolve(s, id, o);
    forall u | u in s'.resolved ensures ResolvedOk(p, s', u, s'.resolved[u]) {
      if u != Find(s.pending, id).value.uid { assert ResolvedOk(p, s, u, s.resolved[u]); }
    }
  }

  lemma ResolveSound(p: RetryPolicy, s: Net, id: byte, o: Outcome)
    requires Sound(p, s) && Has(s.pending, id)
    requires ResolvedOk(p, s, Find(s.pending, id).value.uid, o)
    ensures Sound(p, Resolve(s, id, o))
  {
    RemoveCovered(s, id, o);
    ResolvePending(p, s, id, o);
    ResolveResolved(p, s, id, o);
  }

  lemma RetriedOk(p: RetryPolicy, s: Net, s': Net, r: Request, now: real)
    requires OneMore(s, s', r.uid) && PendingOk(p, s, r) && Expired(p, r, now) && r.retries < p.retries
    ensures PendingOk(p, s', r.(retries := r.retries + 1, sendDate := now))
  {
    CountsAfter(s, s', r.uid, r.uid);
    assert p.SumWaits(r.retries + 1) == p.SumWaits(r.retries) + p.WaitFor(r.retries);
  }

  lemma RetryAt(p: RetryPolicy, s: Net, k: nat, now: real)
    requires Sound(p, s) && k < |s.pending|
    requires Expired(p, s.pending[k].1, now) && s.pending[k].1.retries < p.retries
    ensures var r := s.pending[k].1;
            var r' := r.(retries := r.retries + 1, sendDate := now);
            Sound(p, s.(pending := s.pending[k := (s.pending[k].0, r')], sent := s.sent + [r.uid]))
  {
    var r := s.pending[k].1;
    var r' := r.(retries := r.retries + 1, sendDate := now);
    var s' := s.(pending := s.pending[k := (s.pending[k].0, r')], sent := s.sent + [r.uid]);
    assert PendingOk(p, s, r);
    ReplaceCovered(s, k, r', s.sent + [r.uid]);
    OtherResolved(p, s, s', r.uid);
    assert AllPendingOk(p, s') by {
      forall i | 0 <= i < |s'.pending| ensures PendingOk(p, s', s'.pending[i].1) {
        assert PendingOk(p, s, s.pending[i].1);
        if i == k {
          RetriedOk(p, s, s', r, now);
        } else {
          OtherPending(p, s, s', r.uid, s.pending[i].1);
        }
      }
    }
  }

  lemma RetrySound(p: RetryPolicy, s: Net, id: byte, now: real)
    requires Sound(p, s) && Has(s.pending, id)
    requires Expired(p, Find(s.pending, id).value, now) && Find(s.pending, id).value.retries < p.retries
    ensures Sound(p, Service(p, s, id, now))
  {
    var r := Find(s.pending, id).value;
    var k := PutAt(s.pending, id, r.(retries := r.retries + 1, sendDate := now));
    RetryAt(p, s, k, now);
  }

  lemma ServiceSound(p: RetryPolicy, s: Net, id: byte, now: real)
    requires Sound(p, s)
    ensures Sound(p, Service(p, s, id, now))
  {
    if Has(s.pending, id) && Expired(p, Find(s.pending, id).value, now) {
      FindSound(s.pending, id);
      var r := Find(s.pending, id).value;
      assert PendingOk(p, s, r);
      if r.retries >= p.retries {
        ResolveSound(p, s, id, TimedOut(now));
      } else {
        RetrySound(p, s, id, now);
      }
    }
  }

  lemma {:induction false} ServiceAllSound(p: RetryPolicy, s: Net, ids: seq<byte>, now: real)
    requires Sound(p, s)
    ensures Sound(p, ServiceAll(p, s, ids, now))
    decreases |ids|
  {
    if ids != [] {
      ServiceSound(p, s, ids[0], now);
      ServiceAllSound(p, Service(p, s, ids[0], now), ids[1..], now);
    }
  }

  lemma ReplySound(p: RetryPolicy, s: Net, id: byte, valid: bool, now: real)
    requires Sound(p, s)
    ensures Sound(p, Reply(s, id, valid, now))
  {
    if Has(s.pending, id) && valid {
      FindSound(s.pending, id);
      assert PendingOk(p, s, Find(s.pending, id).value);
      ResolveSound(p, s, id, Answered(now));
    }
  }

  // --- Runs ---------------------------------------------------------------------------------

  datatype Event = SendEvent(id: byte, at: real) | TickEvent(at: real) | ReplyEvent(id: byte, valid: bool, at: real)

  function Step(p: RetryPolicy, s: Net, e: Event): Net {
    match e
    case SendEvent(id, at) => Submit(s, id, at)
    case TickEvent(at) => Tick(p, s, at)
    case ReplyEvent(id, valid, at) => Reply(s, id, valid, at)
  }

  function Run(p: RetryPolicy, s: Net, events: seq<Event>): Net
    decreases |events|
  {
    if events == [] then s else Run(p, Step(p, s, events[0]), events[1..])
  }

  lemma StepSound(p: RetryPolicy, s: Net, e: Event)
    requires Sound(p, s)
    ensures Sound(p, Step(p, s, e))
  {
    match e
    case SendEvent(id, at) => SubmitSound(p, s, id, at);
    case TickEvent(at) => ServiceAllSound(p, s, Keys<byte, Request>(s.pending), at);
    case ReplyEvent(id, valid, at) => ReplySound(p, s, id, valid, at);
  }

  lemma {:induction false} RunSound(p: RetryPolicy, s: Net, events: seq<Event>)
    requires Sound(p, s)
    ensures Sound(p, Run(p, s, events))
    decreases |events|
  {
    if events != [] {
      StepSound(p, s, events[0]);
      RunSound(p, Step(p, s, events[0]), events[1..]);
    }
  }

  /** After any run from an idle client, whatever the times: each submitted request is exactly one
      of pending, answered and timed out; its datagrams are one plus its retries while pending,
      exactly one plus the limit when timed out; and no time-out comes before the whole
      schedule has passed. */
  lemma ExactlyOnce(p: RetryPolicy, events: seq<Event>, uid: nat)
    requires uid < |Run(p, IDLE, events).created|
    ensures var s := Run(p, IDLE, events);
            (IsPending(s, uid) <==> uid !in s.resolved)
            && 1 <= multiset(s.sent)[uid] <= 1 + p.retries
            && (uid in s.resolved && s.resolved[uid].TimedOut? ==>
                  multiset(s.sent)[uid] == 1 + p.retries
                  && s.resolved[uid].at >= s.created[uid] + p.SumWaits(p.retries + 1))
            && (forall i :: 0 <= i < |s.pending| && s.pending[i].1.uid == uid ==>
                  multiset(s.sent)[uid] == 1 + s.pending[i].1.retries)
  {
    RunSound(p, IDLE, events);
    var s := Run(p, IDLE, events);
    if IsPending(s, uid) {
      var i :| 0 <= i < |s.pending| && s.pending[i].1.uid == uid;
      assert PendingOk(p, s, s.pending[i].1);
    } else {
      assert ResolvedOk(p, s, uid, s.resolved[uid]);
    }
  }

  /** A future once resolved is never touched again, and no request loses its number. */
  lemma {:induction false} ResolvedForever(p: RetryPolicy, s: Net, events: seq<Event>, uid: nat)
    requires Sound(p, s) && uid in s.resolved
    ensures uid in Run(p, s, events).resolved && Run(p, s, events).resolved[uid] == s.resolved[uid]
    decreases |events|
  {
    if events != [] {
      StepSound(p, s, events[0]);
      var s' := Step(p, s, events[0]);
      match events[0] {
        case SendEvent(id, at) =>
        case TickEvent(at) => ServiceAllKeeps(p, s, Keys<byte, Request>(s.pending), at, uid);
        case ReplyEvent(id, valid, at) =>
          FindSound(s.pending, id);
          assert forall i :: 0 <= i < |s.pending| ==> PendingOk(p, s, s.pending[i].1);
      }
      ResolvedForever(p, s', events[1..], uid);
    }
  }

  lemma {:induction false} ServiceAllKeeps(p: RetryPolicy, s: Net, ids: seq<byte>, now: real, uid: nat)
    requires Sound(p, s) && uid in s.resolved
    ensures var s' := ServiceAll(p, s, ids, now); uid in s'.resolved && s'.resolved[uid] == s.resolved[uid]
    decreases |ids|
  {
    if ids != [] {
      FindSound(s.pending, ids[0]);
      assert forall i :: 0 <= i < |s.pending| ==> PendingOk(p, s, s.pending[i].1);
      ServiceSound(p, s, ids[0], now);
      ServiceAllKeeps(p, Service(p, s, ids[0], now), ids[1..], now, uid);
    }
  }

  // --- Progress -----------------------------------------------------------------------------

  /** Datagrams and the final time-out still owed to the pending requests. */
  function Owed(p: RetryPolicy, m: seq<(byte, Request)>): int {
    if m == [] then 0 else p.retries - m[0].1.retries + 1 + Owed(p, m[1..])
  }

  lemma {:induction false} OwedAppend(p: RetryPolicy, a: seq<(byte, Request)>, b: seq<(byte, Request)>)
    ensures Owed(p, a + b) == Owed(p, a) + Owed(p, b)
  {
    if a == [] {
      assert a + b == b;
    } else {
      assert (a + b)[1..] == a[1..] + b;
      OwedAppend(p, a[1..], b);
    }
  }

  lemma OwedAt(p: RetryPolicy, m: seq<(byte, Request)>, i: nat)
    requires i < |m|
    ensures Owed(p, m) == Owed(p, m[..i]) + (p.retries - m[i].1.retries + 1) + Owed(p, m[i + 1..])
  {
    assert m == m[..i] + ([m[i]] + m[i + 1..]);
    OwedAppend(p, m[..i], [m[i]] + m[i + 1..]);
  }

  lemma OwedRemove(p: RetryPolicy, m: seq<(byte, Request)>, id: byte)
    requires Has(m, id)
    ensures Owed(p, Remove(m, id)) == Owed(p, m) - (p.retries - Find(m, id).value.retries + 1)
  {
    var i := RemoveAt(m, id);
    OwedAt(p, m, i);
    OwedAppend(p, m[..i], m[i + 1..]);
  }

  lemma OwedPut(p: RetryPolicy, m: seq<(byte, Request)>, id: byte, r: Request)
    requires Has(m, id)
    ensures Owed(p, Put(m, id, r)) == Owed(p, m) + Find(m, id).value.retries - r.retries
  {
    var i := PutAt(m, id, r);
    var m' := m[i := (id, r)];
    OwedAt(p, m, i);
    OwedAt(p, m', i);
    assert m'[..i] == m[..i] && m'[i + 1..] == m[i + 1..];
  }

  /** Every serviced expiry lowers what is owed by exactly one. */
  lemma ServiceOwed(p: RetryPolicy, s: Net, id: byte, now: real)
    requires Sound(p, s)
    ensures Owed(p, Service(p, s, id, now).pending) ==
            Owed(p, s.pending) - (if Has(s.pending, id) && Expired(p, Find(s.pending, id).value, now) then 1 else 0)
  {
    if Has(s.pending, id) {
      FindSound(s.pending, id);
      var r := Find(s.pending, id).value;
      assert PendingOk(p, s, r);
      OwedRemove(p, s.pending, id);
      OwedPut(p, s.pending, id, r.(retries := r.retries + 1, sendDate := now));
    }
  }

  /** The requests a tick finds expired. */
  function ExpiredCount(p: RetryPolicy, m: seq<(byte, Request)>, now: real): nat {
    if m == [] then 0 else (if Expired(p, m[0].1, now) then 1 else 0) + ExpiredCount(p, m[1..], now)
  }

  /** The requests not yet visited by the current turn of the loop are as the turn found them. */
  predicate Untouched(s: Net, rest: seq<(byte, Request)>) {
    forall i :: 0 <= i < |rest| ==> Find(s.pending, rest[i].0) == Some(rest[i].1)
  }

  lemma ServiceLeavesOthers(p: RetryPolicy, s: Net, id: byte, now: real, other: byte)
    requires Sound(p, s) && other != id
    ensures Find(Service(p, s, id, now).pending, other) == Find(s.pending, other)
  {
    FindRemove(s.pending, id, other);
    if Has(s.pending, id) {
      var r := Find(s.pending, id).value;
      FindPut(s.pending, id, r.(retries := r.retries + 1, sendDate := now), other);
    }
  }

  lemma {:induction false} ServiceAllOwed(p: RetryPolicy, s: Net, rest: seq<(byte, Request)>, now: real)
    requires Sound(p, s) && Distinct(rest) && Untouched(s, rest)
    ensures Owed(p, ServiceAll(p, s, Keys<byte, Request>(rest), now).pending) ==
            Owed(p, s.pending) - ExpiredCount(p, rest, now)
    decreases |rest|
  {
    if rest != [] {
      var id := rest[0].0;
      ServiceOwed(p, s, id, now);
      ServiceSound(p, s, id, now);
      var s' := Service(p, s, id, now);
      UntouchedStep(p, s, rest, now);
      assert Keys<byte, Request>(rest)[1..] == Keys<byte, Request>(rest[1..]);
      ServiceAllOwed(p, s', rest[1..], now);
    }
  }

  lemma UntouchedStep(p: RetryPolicy, s: Net, rest: seq<(byte, Request)>, now: real)
    requires Sound(p, s) && Distinct(rest) && Untouched(s, rest) && rest != []
    ensures Untouched(Service(p, s, rest[0].0, now), rest[1..]) && Distinct(rest[1..])
  {
    forall i | 0 <= i < |rest[1..]|
      ensures Find(Service(p, s, rest[0].0, now).pending, rest[1..][i].0) == Some(rest[1..][i].1)
    {
      assert rest[1..][i] == rest[i + 1];
      ServiceLeavesOthers(p, s, rest[0].0, now, rest[i + 1].0);
    }
  }

  lemma AllUntouched(s: Net)
    requires Distinct(s.pending)
    ensures Untouched(s, s.pending)
  {
    forall i | 0 <= i < |s.pending| ensures Find(s.pending, s.pending[i].0) == Some(s.pending[i].1) {
      FindAt(s.pending, i);
    }
  }

  /** A tick lowers what is owed by the number of requests it finds expired. */
  lemma TickOwed(p: RetryPolicy, s: Net, now: real)
    requires Sound(p, s)
    ensures Owed(p, Tick(p, s, now).pending) == Owed(p, s.pending) - ExpiredCount(p, s.pending, now)
  {
    AllUntouched(s);
    ServiceAllOwed(p, s, s.pending, now);
  }

  lemma {:induction false} OwedPositive(p: RetryPolicy, m: seq<(byte, Request)>)
    requires forall i :: 0 <= i < |m| ==> m[i].1.retries <= p.retries
    ensures Owed(p, m) >= |m|
  {
    if m != [] { OwedPositive(p, m[1..]); }
  }

  /** Expiries serviced along a run. */
  function Expiries(p: RetryPolicy, s: Net, events: seq<Event>): nat
    decreases |events|
  {
    if events == [] then 0
    else
      (if events[0].TickEvent? then ExpiredCount(p, s.pending, events[0].at) else 0)
      + Expiries(p, Step(p, s, events[0]), events[1..])
  }

  lemma ReplyOwed(p: RetryPolicy, s: Net, id: byte, valid: bool, now: real)
    requires Sound(p, s)
    ensures Owed(p, Reply(s, id, valid, now).pending) <= Owed(p, s.pending)
  {
    if Has(s.pending, id) && valid {
      FindSound(s.pending, id);
      assert PendingOk(p, s, Find(s.pending, id).value);
      OwedRemove(p, s.pending, id);
    }
  }

  /** Without new submissions only as many expiries can be serviced as were owed at the start, and
      once that many have been, the table is empty. */
  lemma {:induction false} ExpiriesBounded(p: RetryPolicy, s: Net, events: seq<Event>)
    requires Sound(p, s) && forall k :: 0 <= k < |events| ==> !events[k].SendEvent?
    ensures Owed(p, Run(p, s, events).pending) + Expiries(p, s, events) <= Owed(p, s.pending)
    ensures Expiries(p, s, events) <= Owed(p, s.pending)
    ensures Expiries(p, s, events) == Owed(p, s.pending) ==> Run(p, s, events).pending == []
    decreases |events|
  {
    if events == [] {
      assert forall i :: 0 <= i < |s.pending| ==> PendingOk(p, s, s.pending[i].1);
      OwedPositive(p, s.pending);
    } else {
      StepSound(p, s, events[0]);
      match events[0] {
        case SendEvent(id, at) => assert false;
        case TickEvent(at) => TickOwed(p, s, at);
        case ReplyEvent(id, valid, at) => ReplyOwed(p, s, id, valid, at);
      }
      ExpiriesBounded(p, Step(p, s, events[0]), events[1..]);
    }
  }
}
