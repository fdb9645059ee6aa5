/** The cache and the dispatch code as objects updated in place. */
module DedupObject {
  import opened Wrappers
  import opened Bytes
  import opened OrderedMaps
  import opened DedupCache
  import DedupServer

  class ResponseCache {
    const ttl: real
    const maxEntries: nat
    var inFlight: set<DedupKey>
    var cached: seq<(DedupKey, Reply)>

    function State(): Cache
      reads this
    {
      Cache(cached, inFlight)
    }

    /** The source raises ValueError unless both arguments are positive. */
    constructor (ttl: real, maxEntries: nat)
      requires ttl > 0.0 && maxEntries > 0
      ensures State() == EMPTY_CACHE && this.ttl == ttl && this.maxEntries == maxEntries
    {
      this.ttl, this.maxEntries := ttl, maxEntries;
      inFlight, cached := {}, [];
    }

    method LookupReply(key: DedupKey, now: real) returns (found: Found)
      modifies this`cached
      ensures (State(), found) == Lookup(old(State()), key, now)
    {
      var entry := Find(cached, key);
      if entry.Some? {
        if now < entry.value.expiresAt {
          cached := Remove(cached, key) + [(key, entry.value)];
          return Hit(entry.value.raw);
        }
        cached := Remove(cached, key);
      }
      if key in inFlight { return InFlight; }
      return Miss;
    }

    method MarkInFlight(key: DedupKey)
      modifies this`inFlight
      ensures inFlight == old(inFlight) + {key}
    {
      inFlight := inFlight + {key};
    }

    method DropInFlight(key: DedupKey)
      modifies this`inFlight
      ensures inFlight == old(inFlight) - {key}
    {
      inFlight := inFlight - {key};
    }

    /** `_evict_locked`. */
    method EvictLocked(now: real)
      modifies this`cached
      ensures cached == Evict(old(cached), maxEntries, now)
    {
      while cached != []
        invariant DropExpired(cached, now) == DropExpired(old(cached), now)
        decreases |cached|
      {
        if cached[0].1.expiresAt > now { break; }
        cached := cached[1..];
      }
      assert DropExpired(cached, now) == cached;
      while |cached| > maxEntries
        invariant DropOldest(cached, maxEntries) == Evict(old(cached), maxEntries, now)
      {
        cached := cached[1..];
      }
    }

    /** `record_reply`; `ttl` overrides the cache's own. */
    method RecordReply(key: DedupKey, raw: bytes, ttlOverride: Option<real>, recordedAt: real, evictedAt: real)
      modifies this`inFlight, this`cached
      ensures State() == Record(old(State()), maxEntries, key, raw,
                                if ttlOverride.Some? then ttlOverride.value else ttl, recordedAt, evictedAt)
    {
      var expiresAt := recordedAt + (if ttlOverride.Some? then ttlOverride.value else ttl);
      inFlight := inFlight - {key};
      cached := Remove(cached, key) + [(key, Reply(raw, expiresAt))];
      EvictLocked(evictedAt);
    }

    method Clear()
      modifies this`inFlight, this`cached
      ensures State() == EMPTY_CACHE
    {
      cached := [];
      inFlight := {};
    }
  }

  /** The server's side: an optional cache, and the datagrams sent. */
  class Dispatcher {
    const cache: ResponseCache?
    var sent: seq<bytes>

    constructor (cache: ResponseCache?)
      ensures this.cache == cache && sent == []
    {
      this.cache := cache;
      sent := [];
    }

    /** `consult_cache`: without a cache or a key every request is processed. */
    method ConsultCache(key: Option<DedupKey>, now: real) returns (action: Action)
      modifies this`sent, cache
      ensures cache == null || key.None? ==>
                action == Process && sent == old(sent) && (cache != null ==> cache.State() == old(cache.State()))
      ensures cache != null && key.Some? ==> (cache.State(), action) == Consult(old(cache.State()), key.value, now)
      ensures sent == if action.Resent? then old(sent) + [action.raw] else old(sent)
    {
      if cache == null || key.None? { return Process; }
      var entry := cache.LookupReply(key.value, now);
      match entry
      case InFlight => return Drop;
      case Hit(raw) =>
        sent := sent + [raw];
        return Resent(raw);
      case Miss =>
        cache.MarkInFlight(key.value);
        return Process;
    }

    /** `send_reply_packet` and `send_response`: the bytes sent are the bytes recorded. */
    method SendReply(key: Option<DedupKey>, raw: bytes, recordedAt: real, evictedAt: real)
      modifies this`sent, cache
      ensures sent == old(sent) + [raw]
      ensures cache != null ==>
                cache.State() == (if key.Some?
                                  then Record(old(cache.State()), cache.maxEntries, key.value, raw, cache.ttl,
                                              recordedAt, evictedAt)
                                  else old(cache.State()))
    {
      sent := sent + [raw];
      if key.Some? && cache != null {
        cache.RecordReply(key.value, raw, None, recordedAt, evictedAt);
      }
    }

    /** `_dedup_dispatch` around a handler that replies with `raw`, or returns without a reply. */
    method DedupDispatch(key: Option<DedupKey>, now: real, reply: Option<bytes>, recordedAt: real, evictedAt: real)
        returns (action: Action)
      modifies this`sent, cache
      ensures cache != null && key.Some? ==>
                var (consulted, verdict) := Consult(old(cache.State()), key.value, now);
                action == verdict
                && cache.State() == (if !verdict.Process? then consulted
                                     else Handled(consulted, cache.maxEntries, cache.ttl, key.value, reply,
                                                  recordedAt, evictedAt))
      ensures sent == old(sent) + (match action
                                   case Drop => []
                                   case Resent(raw) => [raw]
                                   case Process => if reply.Some? then [reply.value] else [])
    {
      action := ConsultCache(key, now);
      if action.Process? {
        if reply.Some? {
          SendReply(key, reply.value, recordedAt, evictedAt);
        }
        if key.Some? && cache != null {
          cache.DropInFlight(key.value);
        }
      }
    }
  }

  /** Request after request: the cache and the datagrams of the specification. */
  method DispatchAll(server: Dispatcher, calls: seq<Call>)
    requires server.cache != null
    modifies server`sent, server.cache
    ensures (server.cache.State(), server.sent) ==
            ServedAll(DedupServer.Config(server.cache.ttl, server.cache.maxEntries), old(server.cache.State()),
                      old(server.sent), calls)
  {
    ghost var cfg := DedupServer.Config(server.cache.ttl, server.cache.maxEntries);
    assert calls[0..] == calls;
    for i := 0 to |calls|
      invariant ServedAll(cfg, server.cache.State(), server.sent, calls[i..]) ==
                ServedAll(cfg, old(server.cache.State()), old(server.sent), calls)
    {
      assert calls[i..][1..] == calls[i + 1..];
      var call := calls[i];
      ghost var before := server.sent;
      var action := server.DedupDispatch(Some(call.key), call.now, call.reply, call.recordedAt, call.evictedAt);
      assert action.Drop? ==> before + [] == before;
    }
    assert calls[|calls|..] == [];
  }

  /** The cache after the handler and the finally clause. */
  function Handled(c: Cache, max: nat, ttl: real, key: DedupKey, reply: Option<bytes>, recordedAt: real,
                   evictedAt: real): Cache
  {
    var c' := if reply.Some? then Record(c, max, key, reply.value, ttl, recordedAt, evictedAt) else c;
    c'.(inFlight := c'.inFlight - {key})
  }

  // --- The runs of the code are runs of the protocol ----------------------------------------------

  /** One keyed request as the code meets it: its arrival, and the reply and clock readings of its
      handler should it be run. */
  datatype Call = Call(key: DedupKey, now: real, reply: Option<bytes>, recordedAt: real, evictedAt: real)

  /** What one dispatch makes of cache and datagrams. */
  function Served(cfg: DedupServer.Config, c: Cache, sent: seq<bytes>, call: Call): (Cache, seq<bytes>) {
    var (consulted, action) := Consult(c, call.key, call.now);
    match action
    case Drop => (consulted, sent)
    case Resent(raw) => (consulted, sent + [raw])
    case Process =>
      (Handled(consulted, cfg.maxEntries, cfg.ttl, call.key, call.reply, call.recordedAt, call.evictedAt),
       sent + if call.reply.Some? then [call.reply.value] else [])
  }

  function ServedAll(cfg: DedupServer.Config, c: Cache, sent: seq<bytes>, calls: seq<Call>): (Cache, seq<bytes>)
    decreases |calls|
  {
    if calls == [] then (c, sent)
    else
      var (c', sent') := Served(cfg, c, sent, calls[0]);
      ServedAll(cfg, c', sent', calls[1..])
  }

  /** The protocol steps of one dispatch. */
  function EventsOf(s: DedupServer.Server, call: Call): seq<DedupServer.Event> {
    [DedupServer.Arrive(call.key, call.now)]
    + if !DedupServer.Dispatch(s, call.key, call.now).1.Process? then []
      else if call.reply.Some? then
        [DedupServer.Finish(call.key, call.reply.value, call.recordedAt, call.evictedAt)]
      else [DedupServer.Abandon(call.key)]
  }

  function AllEvents(cfg: DedupServer.Config, s: DedupServer.Server, calls: seq<Call>): seq<DedupServer.Event>
    decreases |calls|
  {
    if calls == [] then []
    else
      var events := EventsOf(s, calls[0]);
      events + AllEvents(cfg, DedupServer.Run(cfg, s, events), calls[1..])
  }

  /** The clock does not run backwards from `from` on. */
  predicate InOrder(from: real, calls: seq<Call>)
    decreases |calls|
  {
    calls == []
    || (from <= calls[0].now <= calls[0].recordedAt <= calls[0].evictedAt && InOrder(calls[0].evictedAt, calls[1..]))
  }

  function Payloads(sent: seq<(DedupKey, bytes)>): seq<bytes> {
    seq(|sent|, i requires 0 <= i < |sent| => sent[i].1)
  }

  lemma {:induction false} RunAppend(cfg: DedupServer.Config, s: DedupServer.Server, a: seq<DedupServer.Event>,
                                     b: seq<DedupServer.Event>)
    ensures DedupServer.Run(cfg, s, a + b) == DedupServer.Run(cfg, DedupServer.Run(cfg, s, a), b)
    ensures DedupServer.AllPossible(cfg, s, a) && DedupServer.AllPossible(cfg, DedupServer.Run(cfg, s, a), b) ==>
              DedupServer.AllPossible(cfg, s, a + b)
    decreases |a|
  {
    if a == [] {
      assert a + b == b;
    } else {
      assert (a + b)[0] == a[0] && (a + b)[1..] == a[1..] + b;
      RunAppend(cfg, DedupServer.Step(cfg, s, a[0]), a[1..], b);
    }
  }

  /** One dispatch is an arrival and, when the handler runs, its end. */
  lemma DispatchIsSteps(cfg: DedupServer.Config, s: DedupServer.Server, call: Call)
    requires s.trace.time <= call.now <= call.recordedAt <= call.evictedAt
    ensures var s' := DedupServer.Run(cfg, s, EventsOf(s, call));
            && (s'.trace.cache, Payloads(s'.sent)) == Served(cfg, s.trace.cache, Payloads(s.sent), call)
            && s'.trace.time <= call.evictedAt
    ensures DedupServer.AllPossible(cfg, s, EventsOf(s, call))
  {
    var (s1, action) := DedupServer.Dispatch(s, call.key, call.now);
    var arrive := DedupServer.Arrive(call.key, call.now);
    RunOne(cfg, s, arrive);
    if action.Process? {
      var last := if call.reply.Some? then
                    DedupServer.Finish(call.key, call.reply.value, call.recordedAt, call.evictedAt)
                  else DedupServer.Abandon(call.key);
      RunOne(cfg, s1, last);
      RunAppend(cfg, s, [arrive], [last]);
      assert EventsOf(s, call) == [arrive] + [last];
      var s2 := DedupServer.Step(cfg, s1, last);
      assert Payloads(s2.sent) == Payloads(s.sent) + if call.reply.Some? then [call.reply.value] else [];
    } else {
      assert EventsOf(s, call) == [arrive] + [] == [arrive];
      assert Payloads(s1.sent) == Payloads(s.sent) + match action case Resent(raw) => [raw] case _ => [];
    }
  }

  lemma RunOne(cfg: DedupServer.Config, s: DedupServer.Server, e: DedupServer.Event)
    ensures DedupServer.Run(cfg, s, [e]) == DedupServer.Step(cfg, s, e)
    ensures DedupServer.AllPossible(cfg, s, [e]) <==> DedupServer.Possible(s, e)
  {
    var one := [e];
    assert one[1..] == [];
  }

  /** Any sequence of dispatches is a run of the protocol, with the same cache and the same datagrams:
      what is proved of every run holds of this code. */
  lemma {:induction false} DispatchesAreRuns(cfg: DedupServer.Config, s: DedupServer.Server, calls: seq<Call>)
    requires InOrder(s.trace.time, calls)
    ensures var s' := DedupServer.Run(cfg, s, AllEvents(cfg, s, calls));
            (s'.trace.cache, Payloads(s'.sent)) == ServedAll(cfg, s.trace.cache, Payloads(s.sent), calls)
    ensures DedupServer.AllPossible(cfg, s, AllEvents(cfg, s, calls))
    decreases |calls|
  {
    if calls != [] {
      var events := EventsOf(s, calls[0]);
      var s1 := DedupServer.Run(cfg, s, events);
      DispatchIsSteps(cfg, s, calls[0]);
      Earlier(s1.trace.time, calls[0].evictedAt, calls[1..]);
      DispatchesAreRuns(cfg, s1, calls[1..]);
      RunAppend(cfg, s, events, AllEvents(cfg, s1, calls[1..]));
    }
  }

  lemma Earlier(from: real, later: real, calls: seq<Call>)
    requires InOrder(later, calls) && from <= later
    ensures InOrder(from, calls)
  {
  }
}
