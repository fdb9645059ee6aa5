/** The codec's central law, for whole packets: decoding undoes encoding. */
module CodecTheorems {
  import opened Wrappers
  import opened Bytes
  import opened OrderedMaps
  import opened Dictionaries
  import opened Wire
  import opened Trees
  import opened Decoding
  import opened Encoding
  import opened RoundTrip
  import opened Finishing

  /** The entry is of the kind its key calls for, stores something under every code, and, where
      the dictionary is involved in both directions, the dictionary agrees with itself. */
  predicate Restorable(d: Dictionary, v11: bool, key: Key, s: Stored) {
    EntryShaped(d, key, s)
    && match s
       case Values(vals) => vals != [] && ListLive(d, v11, key) && ListKept(d, key, vals)
       case Node(m) =>
         m != [] && Full(m)
         && if d.IsKind(key, Tlv) then TlvLive(d, key)
            else key.Plain? && forall i :: 0 <= i < |m| ==> !d.IsEvsSlot(key.code, m[i].0)
  }

  predicate AllRestorable(d: Dictionary, v11: bool, store: Store) {
    Distinct(store) && forall i :: 0 <= i < |store| ==> Restorable(d, v11, store[i].0, store[i].1)
  }

  /** An entry as the main loop leaves it, before the concat and array passes. */
  function Arrived(d: Dictionary, key: Key, s: Stored): Stored {
    match s case Values(vals) => Values(Arriving(d, key, vals)) case Node(_) => s
  }

  function ArrivedStore(d: Dictionary, store: Store): Store {
    seq(|store|, i requires 0 <= i < |store| => (store[i].0, Arrived(d, store[i].0, store[i].1)))
  }

  lemma ArrivingSome(d: Dictionary, key: Key, vals: seq<bytes>)
    requires vals != []
    ensures Arriving(d, key, vals) != []
  {
    ManyConcatPieces(vals);
  }

  /** The attributes of one entry add exactly that entry to the store, and leave every reassembly
      buffer empty. */
  lemma GroupRestored(d: Dictionary, v11: bool, st: State, key: Key, s: Stored)
    requires Restorable(d, v11, key, s) && Encodable(d, key, s)
    requires st.buffers == map[] && !Has(st.store, key)
    ensures Fold(d, v11, st, GroupAvps(d, key, s)) ==
            Flagged(st, key).(store := st.store + [(key, Arrived(d, key, s))])
  {
    match s
    case Values(vals) =>
      ArrivingSome(d, key, vals);
      ListGroup(d, v11, st, key, Arriving(d, key, vals));
    case Node(m) =>
      if d.IsKind(key, Tlv) {
        TlvGroup(d, v11, st, key, m);
      } else {
        ExtendedGroup(d, v11, st, key.code, m);
      }
  }

  predicate KeysApart(a: Store, b: Store) {
    forall i :: 0 <= i < |b| ==> !Has(a, b[i].0)
  }

  lemma TailRestorable(d: Dictionary, v11: bool, store: Store)
    requires store != [] && AllRestorable(d, v11, store) && AllEncodable(d, store)
    ensures AllRestorable(d, v11, store[1..]) && AllEncodable(d, store[1..])
  {
    assert forall i :: 0 <= i < |store[1..]| ==> store[1..][i] == store[i + 1];
  }

  lemma KeysApartStep(a: Store, now: (Key, Stored), store: Store)
    requires store != [] && Distinct(store) && KeysApart(a, store) && now.0 == store[0].0
    ensures KeysApart(a + [now], store[1..])
  {
    forall i | 0 <= i < |store[1..]| ensures !Has(a + [now], store[1..][i].0) {
      FindAppend(a, [now], store[1..][i].0);
      assert store[1..][i] == store[i + 1];
    }
  }

  /** `st` with a message-authenticator flag raised if the store holds code 80. */
  function Arrives(d: Dictionary, st: State, store: Store): State {
    State(st.store + ArrivedStore(d, store), st.buffers,
          st.hasMessageAuthenticator || Has(store, Plain(80)))
  }

  lemma ArrivesStep(d: Dictionary, st: State, store: Store)
    requires store != []
    ensures var now := (store[0].0, Arrived(d, store[0].0, store[0].1));
            Arrives(d, Flagged(st, store[0].0).(store := st.store + [now]), store[1..]) == Arrives(d, st, store)
  {
    var now := (store[0].0, Arrived(d, store[0].0, store[0].1));
    assert st.store + [now] + ArrivedStore(d, store[1..]) == st.store + ArrivedStore(d, store);
  }

  lemma {:induction false} StoreRestored(d: Dictionary, v11: bool, st: State, store: Store)
    requires AllRestorable(d, v11, store) && AllEncodable(d, store)
    requires st.buffers == map[] && KeysApart(st.store, store)
    ensures Fold(d, v11, st, StoreAvps(d, store)) == Arrives(d, st, store)
    decreases |store|
  {
    if store == [] {
      assert st.store + ArrivedStore(d, store) == st.store;
    } else {
      var (key, s) := store[0];
      var now := (key, Arrived(d, key, s));
      var st' := Flagged(st, key).(store := st.store + [now]);
      TailRestorable(d, v11, store);
      assert Fold(d, v11, st, GroupAvps(d, key, s)) == st' by { GroupRestored(d, v11, st, key, s); }
      FoldAppend(d, v11, st, GroupAvps(d, key, s), StoreAvps(d, store[1..]));
      KeysApartStep(st.store, now, store);
      StoreRestored(d, v11, st', store[1..]);
      ArrivesStep(d, st, store);
    }
  }

  lemma FinishRestores(d: Dictionary, v11: bool, store: Store)
    requires AllRestorable(d, v11, store)
    ensures Finish(d, ArrivedStore(d, store)) == store
  {
    var r := Finish(d, ArrivedStore(d, store));
    forall i | 0 <= i < |store| ensures r[i] == store[i] {
      var (key, s) := store[i];
      match s
      case Values(vals) => ListKeptExactly(d, key, vals);
      case Node(_) =>
    }
  }

  /** `decode_packet` of a header and the encoded attributes gives back the same ordered store,
      without the virtual attributes; nothing stays in a reassembly buffer. */
  lemma DecodeUndoesEncode(d: Dictionary, v11: bool, code: byte, id: byte, authenticator: bytes, store: Store)
    requires AllRestorable(d, v11, Visible(d, store))
    requires EncodeStore(d, store).Ok? && |authenticator| == 16
    requires 20 + |EncodeStore(d, store).value| <= 8192
    ensures var attributes := EncodeStore(d, store).value;
            var raw := Header(code, id, authenticator, attributes) + attributes;
            DecodeMessage(d, v11, raw) == Ok(Message(
              code,
              if v11 then 0 else id,
              if v11 then None else Some(authenticator),
              if v11 then Some(authenticator[..4]) else None,
              State(Visible(d, store), map[], Has(Visible(d, store), Plain(80)))))
  {
    var visible := Visible(d, store);
    var attributes := EncodeStore(d, store).value;
    var head := Header(code, id, authenticator, attributes);
    var raw := head + attributes;
    HeaderReadsBack(code, id, authenticator, attributes);
    FramesOfFlatten(StoreAvps(d, visible));
    StoreRestored(d, v11, EMPTY, visible);
    assert [] + ArrivedStore(d, visible) == ArrivedStore(d, visible);
    FinishRestores(d, v11, visible);
  }

  lemma HeaderReadsBack(code: byte, id: byte, authenticator: bytes, attributes: bytes)
    requires |authenticator| == 16 && |attributes| <= 65515
    ensures var raw := Header(code, id, authenticator, attributes) + attributes;
            raw[0] == code && raw[1] == id && raw[4..20] == authenticator && raw[4..8] == authenticator[..4]
            && raw[20..] == attributes && FromBigEndian(raw[2..4]) == |raw| == 20 + |attributes|
  {
    var raw := Header(code, id, authenticator, attributes) + attributes;
    SmallPowers();
    var n := 20 + |attributes|;
    assert raw == [code, id] + BigEndian(n, 2) + authenticator + attributes;
    assert raw[2..4] == BigEndian(n, 2);
    assert raw[4..20] == authenticator;
    BigEndianRoundTrip(n, 2);
  }
}
