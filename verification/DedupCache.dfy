/** The duplicate-detection cache: replies by key, bounded in number and in age, and the keys
    whose handler is still running. */
module DedupCache {
  import opened Wrappers
  import opened Bytes
  import opened OrderedMaps

  datatype DedupKey = DedupKey(sourceIp: string, sourcePort: nat, code: byte, identifier: byte, correlator: bytes)

  datatype Reply = Reply(raw: bytes, expiresAt: real)

  /** Cached replies, least recently touched first, and the keys in flight. */
  datatype Cache = Cache(cached: seq<(DedupKey, Reply)>, inFlight: set<DedupKey>)

  const EMPTY_CACHE := Cache([], {})

  datatype Found = Hit(raw: bytes) | InFlight | Miss

  function MoveToEnd(m: seq<(DedupKey, Reply)>, k: DedupKey, r: Reply): seq<(DedupKey, Reply)> {
    Remove(m, k) + [(k, r)]
  }

  /** `lookup`: a live reply is returned and becomes the most recent, an expired one is deleted. */
  function Lookup(c: Cache, key: DedupKey, now: real): (Cache, Found) {
    match Find(c.cached, key)
    case Some(r) =>
      if now < r.expiresAt then (c.(cached := MoveToEnd(c.cached, key, r)), Hit(r.raw))
      else (c.(cached := Remove(c.cached, key)), if key in c.inFlight then InFlight else Miss)
    case None => (c, if key in c.inFlight then InFlight else Miss)
  }

  function DropExpired(m: seq<(DedupKey, Reply)>, now: real): seq<(DedupKey, Reply)> {
    if m == [] || m[0].1.expiresAt > now then m else DropExpired(m[1..], now)
  }

  function DropOldest(m: seq<(DedupKey, Reply)>, max: nat): seq<(DedupKey, Reply)> {
    if |m| <= max then m else DropOldest(m[1..], max)
  }

  /** `_evict_locked`: expired entries are dropped from the front only, then the oldest beyond
      the cap. */
  function Evict(m: seq<(DedupKey, Reply)>, max: nat, now: real): seq<(DedupKey, Reply)> {
    DropOldest(DropExpired(m, now), max)
  }

  /** `record_reply`; the clock is read once for the expiry and once for the eviction. */
  function Record(c: Cache, max: nat, key: DedupKey, raw: bytes, ttl: real, recordedAt: real, evictedAt: real): Cache {
    Cache(Evict(MoveToEnd(c.cached, key, Reply(raw, recordedAt + ttl)), max, evictedAt), c.inFlight - {key})
  }

  datatype Action = Process | Drop | Resent(raw: bytes)

  /** `consult_cache`. */
  function Consult(c: Cache, key: DedupKey, now: real): (Cache, Action) {
    var (c', found) := Lookup(c, key, now);
    match found
    case InFlight => (c', Drop)
    case Hit(raw) => (c', Resent(raw))
    case Miss => (c'.(inFlight := c'.inFlight + {key}), Process)
  }

  // --- The reference: everything ever recorded, and every touch -----------------------------

  /** The cache beside an unbounded record of the last reply of every key and the sequence of
      touches (recordings and hits). */
  datatype Trace = Trace(cache: Cache, last: map<DedupKey, Reply>, touches: seq<DedupKey>, time: real)

  /** The keys touched since `k` was last touched. */
  function Since(touches: seq<DedupKey>, k: DedupKey): set<DedupKey> {
    if touches == [] || touches[|touches| - 1] == k then {}
    else {touches[|touches| - 1]} + Since(touches[..|touches| - 1], k)
  }

  lemma SinceTouch(touches: seq<DedupKey>, k: DedupKey, q: DedupKey)
    ensures Since(touches + [k], q) == if q == k then {} else {k} + Since(touches, q)
  {
    assert (touches + [k])[..|touches|] == touches;
  }

  function KeySet(m: seq<(DedupKey, Reply)>): set<DedupKey> {
    set i | 0 <= i < |m| :: m[i].0
  }

  /** Cached entries are the last recorded ones. */
  predicate Current(m: seq<(DedupKey, Reply)>, last: map<DedupKey, Reply>) {
    forall i :: 0 <= i < |m| ==> m[i].0 in last && last[m[i].0] == m[i].1
  }

  /** The order of the cache is the order of last touches. */
  predicate Ordered(m: seq<(DedupKey, Reply)>, touches: seq<DedupKey>) {
    forall i, j :: 0 <= i < j < |m| ==> m[j].0 in Since(touches, m[i].0)
  }

  /** A live reply that is missing was pushed out by `max` other keys. */
  predicate Retains(max: nat, m: seq<(DedupKey, Reply)>, last: map<DedupKey, Reply>, touches: seq<DedupKey>,
                    now: real)
  {
    forall k :: k in last && last[k].expiresAt > now && !Has(m, k) ==> |Since(touches, k)| >= max
  }

  predicate Faithful(max: nat, t: Trace) {
    Distinct(t.cache.cached) && |t.cache.cached| <= max
    && Current(t.cache.cached, t.last)
    && Ordered(t.cache.cached, t.touches)
    && Retains(max, t.cache.cached, t.last, t.touches, t.time)
  }

  // --- Touching -----------------------------------------------------------------------------

  lemma {:induction false} DistinctKeys(m: seq<(DedupKey, Reply)>)
    requires Distinct(m)
    ensures |KeySet(m)| == |m|
  {
    if m != [] {
      var tail := m[1..];
      assert forall i :: 0 <= i < |tail| ==> tail[i] == m[i + 1];
      DistinctKeys(tail);
      assert KeySet(m) == {m[0].0} + KeySet(tail) by {
        forall k | k in KeySet(m) ensures k in {m[0].0} + KeySet(tail) {
          var i :| 0 <= i < |m| && m[i].0 == k;
          if i > 0 { assert tail[i - 1].0 == k; }
        }
        forall k | k in KeySet(tail) ensures k in KeySet(m) {
          var i :| 0 <= i < |tail| && tail[i].0 == k;
          assert m[i + 1].0 == k;
        }
      }
      assert m[0].0 !in KeySet(tail);
    }
  }

  lemma SinceGrows(touches: seq<DedupKey>, k: DedupKey, q: DedupKey)
    requires q != k
    ensures Since(touches, q) <= Since(touches + [k], q)
    ensures |Since(touches, q)| <= |Since(touches + [k], q)|
  {
    SinceTouch(touches, k, q);
    SubsetSize(Since(touches, q), Since(touches + [k], q));
  }

  lemma {:induction false} SubsetSize<T>(a: set<T>, b: set<T>)
    requires a <= b
    ensures |a| <= |b|
  {
    if a != {} {
      var x :| x in a;
      SubsetSize(a - {x}, b - {x});
    }
  }

  lemma CutOrdered(m: seq<(DedupKey, Reply)>, touches: seq<DedupKey>, at: nat)
    requires Ordered(m, touches) && at < |m|
    ensures Ordered(m[..at] + m[at + 1..], touches)
  {
    var rest := m[..at] + m[at + 1..];
    forall i, j | 0 <= i < j < |rest| ensures rest[j].0 in Since(touches, rest[i].0) {
      var i', j' := if i < at then i else i + 1, if j < at then j else j + 1;
      assert rest[i] == m[i'] && rest[j] == m[j'];
    }
  }

  lemma RemovedOrdered(m: seq<(DedupKey, Reply)>, touches: seq<DedupKey>, k: DedupKey)
    requires Distinct(m) && Ordered(m, touches)
    ensures Distinct(Remove(m, k)) && Ordered(Remove(m, k), touches) && |Remove(m, k)| <= |m|
    ensures forall i :: 0 <= i < |Remove(m, k)| ==> Remove(m, k)[i].0 != k
  {
    RemoveDistinct(m, k);
    if Has(m, k) {
      var at := RemoveAt(m, k);
      CutOrdered(m, touches, at);
    } else {
      RemoveEntries(m, k);
    }
  }

  lemma RemovedCurrent(m: seq<(DedupKey, Reply)>, last: map<DedupKey, Reply>, k: DedupKey)
    requires Current(m, last)
    ensures Current(Remove(m, k), last)
  {
    RemoveEntries(m, k);
    var rest := Remove(m, k);
    forall i | 0 <= i < |rest| ensures rest[i].0 in last && last[rest[i].0] == rest[i].1 {
      assert rest[i] in m;
    }
  }

  /** Moving a key to the end together with a touch keeps the cache in touch order. */
  lemma MovedOrdered(m: seq<(DedupKey, Reply)>, touches: seq<DedupKey>, k: DedupKey, r: Reply)
    requires Distinct(m) && Ordered(m, touches)
    ensures Distinct(MoveToEnd(m, k, r)) && Ordered(MoveToEnd(m, k, r), touches + [k])
  {
    RemovedOrdered(m, touches, k);
    var m' := MoveToEnd(m, k, r);
    forall i, j | 0 <= i < j < |m'| ensures m'[j].0 in Since(touches + [k], m'[i].0) {
      SinceTouch(touches, k, m'[i].0);
    }
  }

  lemma MovedCurrent(m: seq<(DedupKey, Reply)>, last: map<DedupKey, Reply>, k: DedupKey, r: Reply)
    requires Current(m, last) && Distinct(m)
    ensures Current(MoveToEnd(m, k, r), last[k := r])
  {
    RemovedCurrent(m, last, k);
    RemoveDistinct(m, k);
  }

  lemma MovedHas(m: seq<(DedupKey, Reply)>, k: DedupKey, r: Reply, q: DedupKey)
    requires Distinct(m)
    ensures Has(MoveToEnd(m, k, r), q) <==> q == k || Has(m, q)
    ensures Find(MoveToEnd(m, k, r), k) == Some(r)
  {
    FindRemove(m, k, q);
    FindRemove(m, k, k);
    FindAppend(Remove(m, k), [(k, r)], q);
    FindAppend(Remove(m, k), [(k, r)], k);
  }

  lemma MovedRetains(max: nat, m: seq<(DedupKey, Reply)>, last: map<DedupKey, Reply>, touches: seq<DedupKey>,
                     now: real, k: DedupKey, r: Reply)
    requires Distinct(m) && Retains(max, m, last, touches, now)
    ensures Retains(max, MoveToEnd(m, k, r), last[k := r], touches + [k], now)
  {
    forall q | q in last[k := r] && last[k := r][q].expiresAt > now && !Has(MoveToEnd(m, k, r), q)
      ensures |Since(touches + [k], q)| >= max
    {
      MovedHas(m, k, r, q);
      SinceGrows(touches, k, q);
    }
  }

  // --- Dropping -----------------------------------------------------------------------------

  lemma HasTail(m: seq<(DedupKey, Reply)>, q: DedupKey)
    requires m != [] && Distinct(m)
    ensures Has(m[1..], q) <==> Has(m, q) && q != m[0].0
  {
    FindSound(m[1..], q);
    assert forall i :: 0 <= i < |m[1..]| ==> m[1..][i] == m[i + 1];
  }

  lemma TailKeeps(m: seq<(DedupKey, Reply)>, last: map<DedupKey, Reply>, touches: seq<DedupKey>)
    requires m != [] && Distinct(m) && Current(m, last) && Ordered(m, touches)
    ensures Distinct(m[1..]) && Current(m[1..], last) && Ordered(m[1..], touches)
  {
    assert forall i :: 0 <= i < |m[1..]| ==> m[1..][i] == m[i + 1];
  }

  lemma {:induction false} DropExpiredKeeps(max: nat, m: seq<(DedupKey, Reply)>, last: map<DedupKey, Reply>,
                                            touches: seq<DedupKey>, now: real)
    requires Distinct(m) && Current(m, last) && Ordered(m, touches) && Retains(max, m, last, touches, now)
    ensures var r := DropExpired(m, now);
            Distinct(r) && Current(r, last) && Ordered(r, touches) && Retains(max, r, last, touches, now)
    ensures |DropExpired(m, now)| <= |m|
  {
    if m != [] && m[0].1.expiresAt <= now {
      TailKeeps(m, last, touches);
      forall q | q in last && last[q].expiresAt > now && !Has(m[1..], q) ensures |Since(touches, q)| >= max {
        HasTail(m, q);
      }
      DropExpiredKeeps(max, m[1..], last, touches, now);
    }
  }

  /** Everything behind an entry was touched after it. */
  lemma OldestSince(m: seq<(DedupKey, Reply)>, touches: seq<DedupKey>)
    requires m != [] && Distinct(m) && Ordered(m, touches)
    ensures |Since(touches, m[0].0)| >= |m| - 1
  {
    var tail := m[1..];
    assert forall i :: 0 <= i < |tail| ==> tail[i] == m[i + 1];
    DistinctKeys(tail);
    assert KeySet(tail) <= Since(touches, m[0].0);
    SubsetSize(KeySet(tail), Since(touches, m[0].0));
  }

  lemma {:induction false} DropOldestKeeps(max: nat, m: seq<(DedupKey, Reply)>, last: map<DedupKey, Reply>,
                                           touches: seq<DedupKey>, now: real)
    requires Distinct(m) && Current(m, last) && Ordered(m, touches) && Retains(max, m, last, touches, now)
    ensures var r := DropOldest(m, max);
            Distinct(r) && Current(r, last) && Ordered(r, touches) && Retains(max, r, last, touches, now)
            && |r| <= max
  {
    if |m| > max {
      TailKeeps(m, last, touches);
      OldestSince(m, touches);
      forall q | q in last && last[q].expiresAt > now && !Has(m[1..], q) ensures |Since(touches, q)| >= max {
        HasTail(m, q);
      }
      DropOldestKeeps(max, m[1..], last, touches, now);
    }
  }

  // --- Operations on traces -----------------------------------------------------------------

  function TraceLookup(t: Trace, key: DedupKey, now: real): (Trace, Found) {
    var (c', found) := Lookup(t.cache, key, now);
    (Trace(c', t.last, if found.Hit? then t.touches + [key] else t.touches, now), found)
  }

  function TraceRecord(t: Trace, max: nat, key: DedupKey, raw: bytes, ttl: real, recordedAt: real, evictedAt: real):
      Trace
  {
    Trace(Record(t.cache, max, key, raw, ttl, recordedAt, evictedAt),
          t.last[key := Reply(raw, recordedAt + ttl)], t.touches + [key], evictedAt)
  }

  lemma LaterRetains(max: nat, m: seq<(DedupKey, Reply)>, last: map<DedupKey, Reply>, touches: seq<DedupKey>,
                     now: real, later: real)
    requires Retains(max, m, last, touches, now) && later >= now
    ensures Retains(max, m, last, touches, later)
  {
  }

  lemma LookupFaithful(max: nat, t: Trace, key: DedupKey, now: real)
    requires Faithful(max, t) && now >= t.time
    ensures Faithful(max, TraceLookup(t, key, now).0)
  {
    var m := t.cache.cached;
    LaterRetains(max, m, t.last, t.touches, t.time, now);
    if Has(m, key) {
      var r := Find(m, key).value;
      FindSound(m, key);
      assert t.last[key := r] == t.last;
      RemoveEntries(m, key);
      if now < r.expiresAt {
        MovedOrdered(m, t.touches, key, r);
        MovedCurrent(m, t.last, key, r);
        MovedRetains(max, m, t.last, t.touches, now, key, r);
      } else {
        ExpiredRemoved(max, t, key, now);
      }
    }
  }

  lemma ExpiredRemoved(max: nat, t: Trace, key: DedupKey, now: real)
    requires Faithful(max, t) && now >= t.time && Has(t.cache.cached, key)
    requires Find(t.cache.cached, key).value.expiresAt <= now
    ensures var rest := Remove(t.cache.cached, key);
            Distinct(rest) && |rest| <= max && Current(rest, t.last) && Ordered(rest, t.touches)
            && Retains(max, rest, t.last, t.touches, now)
  {
    var m, rest := t.cache.cached, Remove(t.cache.cached, key);
    RemovedOrdered(m, t.touches, key);
    RemovedCurrent(m, t.last, key);
    FindSound(m, key);
    assert t.last[key].expiresAt <= now;
    forall q | q in t.last && t.last[q].expiresAt > now && !Has(rest, q) ensures |Since(t.touches, q)| >= max {
      FindRemove(m, key, q);
    }
  }

  lemma RecordFaithful(max: nat, t: Trace, key: DedupKey, raw: bytes, ttl: real, recordedAt: real, evictedAt: real)
    requires Faithful(max, t) && t.time <= recordedAt <= evictedAt
    ensures Faithful(max, TraceRecord(t, max, key, raw, ttl, recordedAt, evictedAt))
  {
    var m := t.cache.cached;
    var r := Reply(raw, recordedAt + ttl);
    LaterRetains(max, m, t.last, t.touches, t.time, evictedAt);
    MovedOrdered(m, t.touches, key, r);
    MovedCurrent(m, t.last, key, r);
    MovedRetains(max, m, t.last, t.touches, evictedAt, key, r);
    var moved := MoveToEnd(m, key, r);
    DropExpiredKeeps(max, moved, t.last[key := r], t.touches + [key], evictedAt);
    DropOldestKeeps(max, DropExpired(moved, evictedAt), t.last[key := r], t.touches + [key], evictedAt);
  }

  /** A hit returns the bytes last recorded for the key, and only before they expire; a live reply
      since whose last touch fewer than `max` other keys were touched is always found. */
  lemma LookupAgrees(max: nat, t: Trace, key: DedupKey, now: real)
    requires Faithful(max, t) && now >= t.time
    ensures var found := TraceLookup(t, key, now).1;
            (found.Hit? ==> key in t.last && found.raw == t.last[key].raw && now < t.last[key].expiresAt)
            && (key in t.last && now < t.last[key].expiresAt && |Since(t.touches, key)| < max ==>
                  found == Hit(t.last[key].raw))
  {
    FindSound(t.cache.cached, key);
    LaterRetains(max, t.cache.cached, t.last, t.touches, t.time, now);
  }

  // --- Runs ---------------------------------------------------------------------------------

  datatype Op =
    | LookupOp(key: DedupKey, now: real)
    | RecordOp(key: DedupKey, raw: bytes, ttl: real, recordedAt: real, evictedAt: real)
    | MarkOp(key: DedupKey)
    | DropOp(key: DedupKey)
    | ClearOp

  function TraceStep(max: nat, t: Trace, op: Op): Trace {
    match op
    case LookupOp(key, now) => TraceLookup(t, key, now).0
    case RecordOp(key, raw, ttl, recordedAt, evictedAt) => TraceRecord(t, max, key, raw, ttl, recordedAt, evictedAt)
    case MarkOp(key) => t.(cache := t.cache.(inFlight := t.cache.inFlight + {key}))
    case DropOp(key) => t.(cache := t.cache.(inFlight := t.cache.inFlight - {key}))
    case ClearOp => Trace(EMPTY_CACHE, map[], [], t.time)
  }

  /** The clock does not run backwards. */
  predicate InTime(t: Trace, op: Op) {
    match op
    case LookupOp(_, now) => now >= t.time
    case RecordOp(_, _, _, recordedAt, evictedAt) => t.time <= recordedAt <= evictedAt
    case _ => true
  }

  predicate AllInTime(max: nat, t: Trace, ops: seq<Op>)
    decreases |ops|
  {
    ops == [] || (InTime(t, ops[0]) && AllInTime(max, TraceStep(max, t, ops[0]), ops[1..]))
  }

  function TraceRun(max: nat, t: Trace, ops: seq<Op>): Trace
    decreases |ops|
  {
    if ops == [] then t else TraceRun(max, TraceStep(max, t, ops[0]), ops[1..])
  }

  lemma StepFaithful(max: nat, t: Trace, op: Op)
    requires Faithful(max, t) && InTime(t, op)
    ensures Faithful(max, TraceStep(max, t, op))
  {
    match op
    case LookupOp(key, now) => LookupFaithful(max, t, key, now);
    case RecordOp(key, raw, ttl, recordedAt, evictedAt) =>
      RecordFaithful(max, t, key, raw, ttl, recordedAt, evictedAt);
    case MarkOp(_) =>
    case DropOp(_) =>
    case ClearOp =>
  }

  /** On every run from any faithful state, in particular from an empty cache, the cache stays within
      its bound and agrees with the record. */
  lemma {:induction false} RunFaithful(max: nat, t: Trace, ops: seq<Op>)
    requires Faithful(max, t) && AllInTime(max, t, ops)
    ensures Faithful(max, TraceRun(max, t, ops))
    decreases |ops|
  {
    if ops != [] {
      StepFaithful(max, t, ops[0]);
      RunFaithful(max, TraceStep(max, t, ops[0]), ops[1..]);
    }
  }

  /** The same from an empty cache, whatever the clock says at the start. */
  lemma RunFromEmpty(max: nat, start: real, ops: seq<Op>)
    requires AllInTime(max, Trace(EMPTY_CACHE, map[], [], start), ops)
    ensures Faithful(max, TraceRun(max, Trace(EMPTY_CACHE, map[], [], start), ops))
  {
    RunFaithful(max, Trace(EMPTY_CACHE, map[], [], start), ops);
  }

  // --- What the sweep removes -------------------------------------------------------------------

  predicate Stale(m: seq<(DedupKey, Reply)>, i: nat, now: real)
    requires i < |m|
  {
    m[i].1.expiresAt <= now
  }

  /** The number of expired entries at the front. */
  function StaleFront(m: seq<(DedupKey, Reply)>, now: real): (n: nat)
    ensures n <= |m|
  {
    if m == [] || m[0].1.expiresAt > now then 0 else 1 + StaleFront(m[1..], now)
  }

  lemma {:induction false} StaleFrontStops(m: seq<(DedupKey, Reply)>, now: real)
    ensures forall i :: 0 <= i < StaleFront(m, now) ==> Stale(m, i, now)
    ensures StaleFront(m, now) < |m| ==> !Stale(m, StaleFront(m, now), now)
  {
    if m != [] && m[0].1.expiresAt <= now {
      StaleFrontStops(m[1..], now);
      forall i | 0 <= i < StaleFront(m, now) ensures Stale(m, i, now) {
        if i > 0 { assert Stale(m[1..], i - 1, now); }
      }
    }
  }

  lemma {:induction false} DropExpiredIsTail(m: seq<(DedupKey, Reply)>, now: real)
    ensures DropExpired(m, now) == m[StaleFront(m, now)..]
  {
    if m != [] && m[0].1.expiresAt <= now {
      DropExpiredIsTail(m[1..], now);
    }
  }

  lemma {:induction false} DropOldestIsTail(m: seq<(DedupKey, Reply)>, max: nat)
    ensures DropOldest(m, max) == if |m| <= max then m else m[|m| - max..]
  {
    if |m| > max {
      DropOldestIsTail(m[1..], max);
    }
  }

  lemma StaleInTail(m: seq<(DedupKey, Reply)>, k: nat, j: nat, now: real)
    requires k <= j < |m|
    ensures Stale(m[k..], j - k, now) <==> Stale(m, j, now)
  {
  }

  ghost predicate AllLive(m: seq<(DedupKey, Reply)>, now: real) {
    forall i :: 0 <= i < |m| ==> !Stale(m, i, now)
  }

  /** Whatever is expired and not cut by the cap has only expired entries before it. */
  ghost predicate StaleFirst(m: seq<(DedupKey, Reply)>, max: nat, now: real) {
    forall i, j :: 0 <= i < j < |m| && |m| - max <= j && Stale(m, j, now) ==> Stale(m, i, now)
  }

  /** A sweep leaves only live entries exactly when no expired entry within the cap stands behind a
      live one. */
  lemma EvictExact(m: seq<(DedupKey, Reply)>, max: nat, now: real)
    ensures AllLive(Evict(m, max, now), now) <==> StaleFirst(m, max, now)
  {
    var e := StaleFront(m, now);
    StaleFrontStops(m, now);
    DropExpiredIsTail(m, now);
    DropOldestIsTail(m[e..], max);
    var k := if |m| - e <= max then e else |m| - max;
    assert Evict(m, max, now) == m[k..];
    if AllLive(m[k..], now) {
      forall i, j | 0 <= i < j < |m| && |m| - max <= j && Stale(m, j, now) ensures Stale(m, i, now) {
        if j >= k {
          StaleInTail(m, k, j, now);
          assert false;
        }
      }
    }
    if StaleFirst(m, max, now) {
      forall j | 0 <= j < |m[k..]| ensures !Stale(m[k..], j, now) {
        LiveBehindFront(m, max, now, k + j);
        StaleInTail(m, k, k + j, now);
      }
    }
  }

  lemma LiveBehindFront(m: seq<(DedupKey, Reply)>, max: nat, now: real, j: nat)
    requires StaleFirst(m, max, now) && StaleFront(m, now) <= j < |m| && |m| - max <= j
    ensures !Stale(m, j, now)
  {
    StaleFrontStops(m, now);
  }

  /** A run that ends in the other case: a hit has moved an older reply behind a younger one, and the
      sweep leaves it there after it has expired. */
  lemma ExpiredEntryStays(a: DedupKey, b: DedupKey, raw: bytes)
    requires a != b
    ensures var c1 := Record(EMPTY_CACHE, 8, a, raw, 10.0, 0.0, 0.0);
            var c2 := Record(c1, 8, b, raw, 10.0, 5.0, 5.0);
            var c3 := Lookup(c2, a, 6.0).0;
            !StaleFirst(c3.cached, 8, 12.0)
            && Evict(c3.cached, 8, 12.0) == [(b, Reply(raw, 15.0)), (a, Reply(raw, 10.0))]
  {
    var c1 := Record(EMPTY_CACHE, 8, a, raw, 10.0, 0.0, 0.0);
    assert c1.cached == [(a, Reply(raw, 10.0))];
    var c2 := Record(c1, 8, b, raw, 10.0, 5.0, 5.0);
    assert Remove(c1.cached, b) == [(a, Reply(raw, 10.0))] + Remove([], b);
    assert c2.cached == [(a, Reply(raw, 10.0)), (b, Reply(raw, 15.0))];
    assert c2.cached[1..] == [(b, Reply(raw, 15.0))];
    var c3 := MoveToEnd(c2.cached, a, Reply(raw, 10.0));
    assert c3 == [(b, Reply(raw, 15.0)), (a, Reply(raw, 10.0))];
    assert Stale(c3, 1, 12.0) && !Stale(c3, 0, 12.0);
  }
}
