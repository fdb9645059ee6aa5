/** The client object: the same state updated in place. */
module AsyncClientObject {
  import opened Wrappers
  import opened Bytes
  import opened OrderedMaps
  import opened Decoding
  import opened Signing
  import opened RetryPolicies
  import opened AsyncClients
  import opened PolicyChanges
  import opened AsyncTiming
  import opened Identifiers
  import opened AsyncReplies

  function BusyIds(m: seq<(byte, Request)>): (r: set<byte>)
    ensures forall id :: id in r <==> Has(m, id)
  {
    if m == [] then {} else {m[0].0} + BusyIds(m[1..])
  }

  function RemoveAll(m: seq<(byte, Request)>, ids: seq<byte>): seq<(byte, Request)>
    decreases |ids|
  {
    if ids == [] then m else RemoveAll(Remove(m, ids[0]), ids[1..])
  }

  lemma {:induction false} RemoveAllSnoc(m: seq<(byte, Request)>, ids: seq<byte>, id: byte)
    ensures RemoveAll(m, ids + [id]) == Remove(RemoveAll(m, ids), id)
    decreases |ids|
  {
    if ids == [] {
      assert [id][1..] == [];
    } else {
      assert (ids + [id])[1..] == ids[1..] + [id];
      RemoveAllSnoc(Remove(m, ids[0]), ids[1..], id);
    }
  }

  lemma {:induction false} PutRemoveCommute(m: seq<(byte, Request)>, id: byte, r: Request, other: byte)
    requires id != other
    ensures Remove(Put(m, id, r), other) == Put(Remove(m, other), id, r)
  {
    if m != [] && m[0].0 != id && m[0].0 != other {
      PutRemoveCommute(m[1..], id, r, other);
    } else if m != [] && m[0].0 == other {
      assert Put(m, id, r)[1..] == Put(m[1..], id, r);
    } else if m == [] {
      assert [(id, r)][1..] == [];
    }
  }

  lemma {:induction false} PutRemoveAllCommute(m: seq<(byte, Request)>, id: byte, r: Request, ids: seq<byte>)
    requires id !in ids
    ensures RemoveAll(Put(m, id, r), ids) == Put(RemoveAll(m, ids), id, r)
    decreases |ids|
  {
    if ids != [] {
      PutRemoveCommute(m, id, r, ids[0]);
      PutRemoveAllCommute(Remove(m, ids[0]), id, r, ids[1..]);
    }
  }

  lemma {:induction false} FindRemoveAll(m: seq<(byte, Request)>, ids: seq<byte>, q: byte)
    requires Distinct(m) && q !in ids
    ensures Find(RemoveAll(m, ids), q) == Find(m, q)
    decreases |ids|
  {
    if ids != [] {
      RemoveDistinct(m, ids[0]);
      FindRemove(m, ids[0], q);
      FindRemoveAll(Remove(m, ids[0]), ids[1..], q);
    }
  }

  lemma {:induction false} ServiceAllSnoc(p: RetryPolicy, s: Net, ids: seq<byte>, id: byte, now: real)
    ensures ServiceAll(p, s, ids + [id], now) == Service(p, ServiceAll(p, s, ids, now), id, now)
    decreases |ids|
  {
    if ids == [] {
      assert [id][1..] == [];
    } else {
      assert (ids + [id])[1..] == ids[1..] + [id];
      ServiceAllSnoc(p, Service(p, s, ids[0], now), ids[1..], id, now);
    }
  }

  class DatagramClient {
    var retryPolicy: RetryPolicy
    var pending: seq<(byte, Request)>
    var packetId: byte
    var created: seq<real>
    var sent: seq<nat>
    var resolved: map<nat, Outcome>
    var packets: seq<Asked>

    function State(): Net
      reads this
    {
      Net(pending, created, sent, resolved)
    }

    constructor (policy: RetryPolicy, packetId: byte)
      ensures State() == IDLE && packets == [] && retryPolicy == policy && this.packetId == packetId
    {
      retryPolicy := policy;
      this.packetId := packetId;
      pending, created, sent, resolved, packets := [], [], [], map[], [];
    }

    /** The legacy attribute setters replace the frozen policy in one field.  In the middle of a run
        the invariants hold for the new policy exactly when it tolerates what has happened. */
    method SetRetries(value: nat)
      modifies this`retryPolicy
      ensures retryPolicy == old(retryPolicy).(retries := value)
      ensures old(Sound(retryPolicy, State())) ==> (Sound(retryPolicy, State()) <==> Tolerates(State(), value))
    {
      if Sound(retryPolicy, State()) { RetriesChangeExactly(retryPolicy, State(), value); }
      retryPolicy := retryPolicy.(retries := value);
    }

    method SetTimeout(value: real)
      modifies this`retryPolicy
      ensures retryPolicy == old(retryPolicy).(timeout := value)
      ensures old(Sound(retryPolicy, State())) ==> (Sound(retryPolicy, State()) <==> WaitedFor(retryPolicy, State()))
    {
      if Sound(retryPolicy, State()) { TimeoutChangeOnRun(retryPolicy, State(), value); }
      retryPolicy := retryPolicy.(timeout := value);
    }

    /** `create_id`: the first free identifier after the last one used; None when all 256 are
        pending. */
    method CreateId() returns (r: Option<byte>)
      modifies this`packetId
      ensures r == NextFree(old(packetId), BusyIds(pending))
      ensures packetId == if r.Some? then r.value else old(packetId)
    {
      var start := packetId;
      for offset := 1 to 257
        invariant packetId == start
        invariant FirstFree(start, BusyIds(pending), offset) == NextFree(start, BusyIds(pending))
      {
        var candidate := Candidate(start, offset);
        if !Has(pending, candidate) {
          packetId := candidate;
          return Some(candidate);
        }
      }
      return None;
    }

    /** `send_packet`; false is IdentifierExhausted. */
    method SendPacket(packet: Asked, id: byte, now: real) returns (ok: bool)
      requires Sound(retryPolicy, State()) && |packets| == |created|
      modifies this`pending, this`created, this`sent, this`packets
      ensures ok <==> !Has(old(pending), id)
      ensures State() == Submit(old(State()), id, now)
      ensures packets == if ok then old(packets) + [packet] else old(packets)
      ensures Sound(retryPolicy, State()) && |packets| == |created|
    {
      SubmitSound(retryPolicy, State(), id, now);
      if Has(pending, id) { return false; }
      var uid := |created|;
      pending := pending + [(id, Request(uid, 0, now))];
      created := created + [now];
      sent := sent + [uid];
      packets := packets + [packet];
      return true;
    }

    /** `datagram_received`: decoding, the code, the table and `verify_reply` in turn. */
    method DatagramReceived(c: Receiver, data: bytes, now: real)
      requires Sound(retryPolicy, State()) && |packets| == |created|
      modifies this`pending, this`resolved
      ensures State() == Received(c, old(State()), packets, data, now)
      ensures Sound(retryPolicy, State())
    {
      var reply := DecodeMessage(c.dict, false, data);
      if reply.Err? || reply.value.code == 0 { return; }
      var id := reply.value.id;
      var found := Find(pending, id);
      if found.None? { return; }
      FindSound(pending, id);
      assert PendingOk(retryPolicy, State(), found.value);
      var p := packets[found.value.uid];
      var verdict := VerifyReply(p.dict, c.hmac, c.md5, data, reply.value, id, p.secret, p.code, p.authenticator,
                                 c.enforceMa);
      ReplySound(retryPolicy, State(), id, true, now);
      if verdict == Ok(true) {
        assert found.value.uid !in resolved;
        resolved := resolved[found.value.uid := Answered(now)];
        pending := Remove(pending, id);
      }
    }

    /** The loop body of `__timeout_handler__` for the request at `i`: true when it is to be
        deleted. */
    method ServiceAt(i: nat, now: real) returns (exhausted: bool)
      requires i < |pending| && pending[i].1.uid !in resolved
      modifies this`pending, this`sent, this`resolved
      ensures (exhausted, State()) == ServedAt(retryPolicy, old(State()), i, now)
    {
      var (id, req) := pending[i];
      var elapsed := now - req.sendDate;
      exhausted := false;
      if elapsed >= retryPolicy.WaitFor(req.retries) {
        if req.retries >= retryPolicy.retries {
          resolved := resolved[req.uid := TimedOut(now)];
          exhausted := true;
        } else {
          pending := pending[i := (id, req.(retries := req.retries + 1, sendDate := now))];
          sent := sent + [req.uid];
        }
      }
    }

    /** The walk over the pending requests in one turn of `__timeout_handler__`: requests are
        updated in place, the exhausted ones noted for deletion.  No future is ever set twice. */
    method WalkPending(now: real) returns (req2delete: seq<byte>, nextWakeUp: real)
      requires Sound(retryPolicy, State())
      modifies this`pending, this`sent, this`resolved
      ensures State().(pending := RemoveAll(pending, req2delete)) == Tick(retryPolicy, old(State()), now)
      ensures nextWakeUp == NextWakeUp(retryPolicy, old(pending), now, retryPolicy.timeout)
    {
      ghost var s0 := State();
      req2delete := [];
      nextWakeUp := retryPolicy.timeout;
      var i := 0;
      assert Keys<byte, Request>(s0.pending)[..0] == [];
      while i < |pending|
        invariant 0 <= i <= |pending| == |s0.pending|
        invariant Walked(retryPolicy, s0, i, now, State(), req2delete)
        invariant NextWakeUp(retryPolicy, s0.pending[i..], now, nextWakeUp) ==
                  NextWakeUp(retryPolicy, s0.pending, now, retryPolicy.timeout)
      {
        var (id, req) := pending[i];
        WalkedOpen(retryPolicy, s0, i, now, State(), req2delete);
        NextWakeUpStep(retryPolicy, s0.pending, i, now, nextWakeUp);
        nextWakeUp := WakeUpAfter(retryPolicy, req, now, nextWakeUp);
        WalkedStep(retryPolicy, s0, i, now, State(), req2delete);
        var exhausted := ServiceAt(i, now);
        if exhausted {
          req2delete := req2delete + [id];
        }
        i := i + 1;
      }
      assert Keys<byte, Request>(s0.pending)[..i] == Keys<byte, Request>(s0.pending);
    }

    /** The deletions at the end of the turn. */
    method DeletePending(req2delete: seq<byte>)
      modifies this`pending
      ensures pending == RemoveAll(old(pending), req2delete)
    {
      var j := 0;
      while j < |req2delete|
        invariant 0 <= j <= |req2delete|
        invariant RemoveAll(pending, req2delete[j..]) == RemoveAll(old(pending), req2delete)
      {
        assert req2delete[j..][1..] == req2delete[j + 1..];
        pending := Remove(pending, req2delete[j]);
        j := j + 1;
      }
    }

    /** One turn of `__timeout_handler__`; the result is how long to sleep. */
    method TimeoutTurn(now: real) returns (sleep: real)
      requires Sound(retryPolicy, State())
      modifies this`pending, this`sent, this`resolved
      ensures State() == Tick(retryPolicy, old(State()), now)
      ensures sleep == Sleep(retryPolicy, old(pending), now)
      ensures Sound(retryPolicy, State())
    {
      ServiceAllSound(retryPolicy, State(), Keys<byte, Request>(pending), now);
      var req2delete, nextWakeUp := WalkPending(now);
      DeletePending(req2delete);
      sleep := if nextWakeUp > 0.0 then nextWakeUp else 0.0;
    }
  }

  lemma PutIsUpdate(m: seq<(byte, Request)>, i: nat, r: Request)
    requires Distinct(m) && i < |m|
    ensures Put(m, m[i].0, r) == m[i := (m[i].0, r)]
  {
    FindAt(m, i);
    var k := PutAt(m, m[i].0, r);
  }

  /** `next_wake_up` after one more request. */
  function WakeUpAfter(p: RetryPolicy, r: Request, now: real, acc: real): real {
    var remaining := p.WaitFor(r.retries) - (now - r.sendDate);
    if !Expired(p, r, now) && remaining < acc then remaining else acc
  }

  lemma NextWakeUpStep(p: RetryPolicy, m: seq<(byte, Request)>, i: nat, now: real, acc: real)
    requires i < |m|
    ensures NextWakeUp(p, m[i..], now, acc) == NextWakeUp(p, m[i + 1..], now, WakeUpAfter(p, m[i].1, now, acc))
  {
    assert m[i..][1..] == m[i + 1..] && m[i..][0] == m[i];
  }

  /** The loop body on values. */
  function ServedAt(p: RetryPolicy, s: Net, i: nat, now: real): (bool, Net)
    requires i < |s.pending|
  {
    var (id, r) := s.pending[i];
    if !Expired(p, r, now) then (false, s)
    else if r.retries >= p.retries then (true, s.(resolved := s.resolved[r.uid := TimedOut(now)]))
    else
      (false, s.(pending := s.pending[i := (id, r.(retries := r.retries + 1, sendDate := now))],
                 sent := s.sent + [r.uid]))
  }

  /** After `i` requests: with the deletions done, the table is where the specification is. */
  predicate Walked(p: RetryPolicy, s0: Net, i: nat, now: real, s: Net, deleted: seq<byte>) {
    i <= |s.pending| == |s0.pending| && Distinct(s.pending)
    && (forall j :: 0 <= j < |s.pending| ==> s.pending[j].0 == s0.pending[j].0)
    && (forall j :: i <= j < |s.pending| ==> s.pending[j] == s0.pending[j] && s.pending[j].0 !in deleted)
    && ServiceAll(p, s0, Keys<byte, Request>(s0.pending)[..i], now) == s.(pending := RemoveAll(s.pending, deleted))
  }

  lemma FutureOpen(p: RetryPolicy, g: Net, id: byte)
    requires Sound(p, g) && Has(g.pending, id)
    ensures Find(g.pending, id).value.uid !in g.resolved
  {
    FindSound(g.pending, id);
    assert PendingOk(p, g, Find(g.pending, id).value);
  }

  /** The request the walk is at is still in the table the specification has reached, and its
      future is open. */
  lemma WalkedOpen(p: RetryPolicy, s0: Net, i: nat, now: real, s: Net, deleted: seq<byte>)
    requires Sound(p, s0) && i < |s.pending| && Walked(p, s0, i, now, s, deleted)
    ensures Find(RemoveAll(s.pending, deleted), s.pending[i].0) == Some(s.pending[i].1)
    ensures s.pending[i].1.uid !in s.resolved
  {
    FindAt(s.pending, i);
    FindRemoveAll(s.pending, deleted, s.pending[i].0);
    ServiceAllSound(p, s0, Keys<byte, Request>(s0.pending)[..i], now);
    FutureOpen(p, s.(pending := RemoveAll(s.pending, deleted)), s.pending[i].0);
  }

  lemma ServiceIsServedAt(p: RetryPolicy, s: Net, i: nat, now: real, deleted: seq<byte>)
    requires i < |s.pending| && Distinct(s.pending) && s.pending[i].0 !in deleted
    requires Find(RemoveAll(s.pending, deleted), s.pending[i].0) == Some(s.pending[i].1)
    ensures var (exhausted, s') := ServedAt(p, s, i, now);
            Service(p, s.(pending := RemoveAll(s.pending, deleted)), s.pending[i].0, now) ==
            s'.(pending := RemoveAll(s'.pending, if exhausted then deleted + [s.pending[i].0] else deleted))
  {
    var (id, r) := s.pending[i];
    RemoveAllSnoc(s.pending, deleted, id);
    var r' := r.(retries := r.retries + 1, sendDate := now);
    PutRemoveAllCommute(s.pending, id, r', deleted);
    PutIsUpdate(s.pending, i, r');
  }

  lemma WalkedStep(p: RetryPolicy, s0: Net, i: nat, now: real, s: Net, deleted: seq<byte>)
    requires Sound(p, s0) && i < |s.pending| && Walked(p, s0, i, now, s, deleted)
    ensures var (exhausted, s') := ServedAt(p, s, i, now);
            Walked(p, s0, i + 1, now, s', if exhausted then deleted + [s.pending[i].0] else deleted)
  {
    var id := s.pending[i].0;
    WalkedOpen(p, s0, i, now, s, deleted);
    ServiceIsServedAt(p, s, i, now, deleted);
    assert ServiceAll(p, s0, Keys<byte, Request>(s0.pending)[..i + 1], now) ==
           Service(p, s.(pending := RemoveAll(s.pending, deleted)), id, now) by {
      assert Keys<byte, Request>(s0.pending)[..i + 1] == Keys<byte, Request>(s0.pending)[..i] + [id];
      ServiceAllSnoc(p, s0, Keys<byte, Request>(s0.pending)[..i], id, now);
    }
  }
}
