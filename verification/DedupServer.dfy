/** The servers' dispatch around the cache: at-most-once handling and faithful replay. */
module DedupServer {
  import opened Wrappers
  import opened Bytes
  import opened OrderedMaps
  import opened DedupCache

  /** `sent` is every datagram sent for a key, by a handler or as a replay. */
  datatype Server = Server(trace: Trace, running: set<DedupKey>, sent: seq<(DedupKey, bytes)>)

  /** A request arrives and is dispatched; a handler sends its reply and returns; a handler returns
      (or raises) without having replied. */
  datatype Event =
    | Arrive(key: DedupKey, now: real)
    | Finish(key: DedupKey, raw: bytes, recordedAt: real, evictedAt: real)
    | Abandon(key: DedupKey)

  datatype Config = Config(ttl: real, maxEntries: nat)

  /** The first half of `_dedup_dispatch`: what is done with the request, and the state in which
      its handler, if any, runs. */
  function Dispatch(s: Server, key: DedupKey, now: real): (Server, Action) {
    var (t', found) := TraceLookup(s.trace, key, now);
    match found
    case InFlight => (s.(trace := t'), Drop)
    case Hit(raw) => (s.(trace := t', sent := s.sent + [(key, raw)]), Resent(raw))
    case Miss =>
      (s.(trace := t'.(cache := t'.cache.(inFlight := t'.cache.inFlight + {key})), running := s.running + {key}),
       Process)
  }

  function Step(cfg: Config, s: Server, e: Event): Server {
    match e
    case Arrive(key, now) => Dispatch(s, key, now).0
    case Finish(key, raw, recordedAt, evictedAt) =>
      // send_reply_packet or send_response, then the finally clause of _dedup_dispatch
      var t' := TraceRecord(s.trace, cfg.maxEntries, key, raw, cfg.ttl, recordedAt, evictedAt);
      Server(t'.(cache := t'.cache.(inFlight := t'.cache.inFlight - {key})), s.running - {key},
             s.sent + [(key, raw)])
    case Abandon(key) =>
      s.(trace := s.trace.(cache := s.trace.cache.(inFlight := s.trace.cache.inFlight - {key})),
         running := s.running - {key})
  }

  /** Only running handlers finish, and time does not run backwards. */
  predicate Possible(s: Server, e: Event) {
    match e
    case Arrive(_, now) => now >= s.trace.time
    case Finish(key, _, recordedAt, evictedAt) => key in s.running && s.trace.time <= recordedAt <= evictedAt
    case Abandon(key) => key in s.running
  }

  predicate AllPossible(cfg: Config, s: Server, events: seq<Event>)
    decreases |events|
  {
    events == [] || (Possible(s, events[0]) && AllPossible(cfg, Step(cfg, s, events[0]), events[1..]))
  }

  function Run(cfg: Config, s: Server, events: seq<Event>): Server
    decreases |events|
  {
    if events == [] then s else Run(cfg, Step(cfg, s, events[0]), events[1..])
  }

  /** The bytes last sent for a key. */
  function LastSent(sent: seq<(DedupKey, bytes)>, key: DedupKey): Option<bytes> {
    if sent == [] then None
    else if sent[|sent| - 1].0 == key then Some(sent[|sent| - 1].1)
    else LastSent(sent[..|sent| - 1], key)
  }

  lemma LastSentStep(sent: seq<(DedupKey, bytes)>, x: (DedupKey, bytes), q: DedupKey)
    ensures LastSent(sent + [x], q) == if x.0 == q then Some(x.1) else LastSent(sent, q)
  {
    assert (sent + [x])[..|sent|] == sent;
  }

  predicate ServerOk(cfg: Config, s: Server) {
    Faithful(cfg.maxEntries, s.trace)
    && s.trace.cache.inFlight == s.running
    && (forall k :: k in s.running ==> !Has(s.trace.cache.cached, k))
    && (forall k :: k in s.trace.last ==> LastSent(s.sent, k) == Some(s.trace.last[k].raw))
  }

  lemma DroppedHas(m: seq<(DedupKey, Reply)>, max: nat, now: real, q: DedupKey)
    requires Distinct(m)
    ensures Has(Evict(m, max, now), q) ==> Has(m, q)
  {
    ExpiredHas(m, now, q);
    OldestHas(DropExpired(m, now), max, q);
  }

  lemma {:induction false} ExpiredHas(m: seq<(DedupKey, Reply)>, now: real, q: DedupKey)
    requires Distinct(m)
    ensures Has(DropExpired(m, now), q) ==> Has(m, q)
    ensures Distinct(DropExpired(m, now))
  {
    if m != [] && m[0].1.expiresAt <= now {
      assert Distinct(m[1..]);
      HasTail(m, q);
      ExpiredHas(m[1..], now, q);
    }
  }

  lemma {:induction false} OldestHas(m: seq<(DedupKey, Reply)>, max: nat, q: DedupKey)
    requires Distinct(m)
    ensures Has(DropOldest(m, max), q) ==> Has(m, q)
  {
    if |m| > max {
      assert Distinct(m[1..]);
      HasTail(m, q);
      OldestHas(m[1..], max, q);
    }
  }

  lemma LookupHas(t: Trace, key: DedupKey, now: real, q: DedupKey)
    requires Distinct(t.cache.cached)
    ensures Has(TraceLookup(t, key, now).0.cache.cached, q) ==> Has(t.cache.cached, q)
    ensures TraceLookup(t, key, now).1.Miss? ==> !Has(TraceLookup(t, key, now).0.cache.cached, key)
  {
    FindRemove(t.cache.cached, key, q);
    FindRemove(t.cache.cached, key, key);
    if Has(t.cache.cached, key) {
      MovedHas(t.cache.cached, key, Find(t.cache.cached, key).value, q);
    }
  }

  lemma ArriveOk(cfg: Config, s: Server, key: DedupKey, now: real)
    requires ServerOk(cfg, s) && now >= s.trace.time
    ensures ServerOk(cfg, Dispatch(s, key, now).0)
  {
    var s' := Dispatch(s, key, now).0;
    LookupFaithful(cfg.maxEntries, s.trace, key, now);
    LookupAgrees(cfg.maxEntries, s.trace, key, now);
    forall k | k in s'.running ensures !Has(s'.trace.cache.cached, k) {
      LookupHas(s.trace, key, now, k);
    }
    forall k | k in s'.trace.last ensures LastSent(s'.sent, k) == Some(s'.trace.last[k].raw) {
      if TraceLookup(s.trace, key, now).1.Hit? {
        LastSentStep(s.sent, (key, s.trace.last[key].raw), k);
      }
    }
  }

  lemma FinishOk(cfg: Config, s: Server, key: DedupKey, raw: bytes, recordedAt: real, evictedAt: real)
    requires ServerOk(cfg, s) && key in s.running && s.trace.time <= recordedAt <= evictedAt
    ensures ServerOk(cfg, Step(cfg, s, Finish(key, raw, recordedAt, evictedAt)))
  {
    var s' := Step(cfg, s, Finish(key, raw, recordedAt, evictedAt));
    RecordFaithful(cfg.maxEntries, s.trace, key, raw, cfg.ttl, recordedAt, evictedAt);
    var r := DedupCache.Reply(raw, recordedAt + cfg.ttl);
    var moved := MoveToEnd(s.trace.cache.cached, key, r);
    MovedOrdered(s.trace.cache.cached, s.trace.touches, key, r);
    forall k | k in s'.running ensures !Has(s'.trace.cache.cached, k) {
      MovedHas(s.trace.cache.cached, key, r, k);
      DroppedHas(moved, cfg.maxEntries, evictedAt, k);
    }
    forall k | k in s'.trace.last ensures LastSent(s'.sent, k) == Some(s'.trace.last[k].raw) {
      LastSentStep(s.sent, (key, raw), k);
    }
  }

  lemma StepOk(cfg: Config, s: Server, e: Event)
    requires ServerOk(cfg, s) && Possible(s, e)
    ensures ServerOk(cfg, Step(cfg, s, e))
  {
    match e
    case Arrive(key, now) => ArriveOk(cfg, s, key, now);
    case Finish(key, raw, recordedAt, evictedAt) => FinishOk(cfg, s, key, raw, recordedAt, evictedAt);
    case Abandon(_) =>
  }

  /** On every run in-flight and cached keys stay disjoint, and the keys in flight are those whose
      handler runs. */
  lemma {:induction false} RunOk(cfg: Config, s: Server, events: seq<Event>)
    requires ServerOk(cfg, s) && AllPossible(cfg, s, events)
    ensures ServerOk(cfg, Run(cfg, s, events))
    decreases |events|
  {
    if events != [] {
      StepOk(cfg, s, events[0]);
      RunOk(cfg, Step(cfg, s, events[0]), events[1..]);
    }
  }

  const IDLE := Server(Trace(EMPTY_CACHE, map[], [], 0.0), {}, [])

  /** The reply of the key is in the record, has not expired, and fewer than the cap of other keys
      were touched since. */
  predicate Live(cfg: Config, s: Server, key: DedupKey, now: real) {
    key in s.trace.last && now < s.trace.last[key].expiresAt
    && |Since(s.trace.touches, key)| < cfg.maxEntries
  }

  /** After any run from an idle server: a request whose handler is running is dropped; a request
      whose reply is live is answered with exactly the bytes last sent for it; neither starts a
      handler.  A replay never carries anything but the bytes last sent. */
  lemma AtMostOnce(cfg: Config, events: seq<Event>, key: DedupKey, now: real)
    requires AllPossible(cfg, IDLE, events) && now >= Run(cfg, IDLE, events).trace.time
    ensures var s := Run(cfg, IDLE, events);
            var action := Dispatch(s, key, now).1;
            (key in s.running <==> action == Drop)
            && (key !in s.running && Live(cfg, s, key, now) ==>
                  LastSent(s.sent, key).Some? && action == Resent(LastSent(s.sent, key).value))
            && (action.Resent? ==> LastSent(s.sent, key) == Some(action.raw))
            && (action.Process? ==> key !in s.running && !Live(cfg, s, key, now))
  {
    assert ServerOk(cfg, IDLE);
    RunOk(cfg, IDLE, events);
    var s := Run(cfg, IDLE, events);
    LookupAgrees(cfg.maxEntries, s.trace, key, now);
    FindSound(s.trace.cache.cached, key);
  }
}
