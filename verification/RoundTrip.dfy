/** Encoding a store and decoding the packet gives the store back. */
module RoundTrip {
  import opened Wrappers
  import opened Bytes
  import opened OrderedMaps
  import opened Dictionaries
  import opened Wire
  import opened Trees
  import opened TlvSplit
  import opened Decoding
  import opened Encoding

  // --- Fragments ----------------------------------------------------------------------------

  /** The dictionary routes attributes of this slot to its reassembly buffer. */
  predicate SlotLive(d: Dictionary, slot: Slot) {
    SlotPacks(d, slot)
    && match slot
       case LongSlot(p, e) => p !in {26, 80} && d.IsKind(Plain(p), LongExtended) && !d.IsEvsSlot(p, e)
       case EvsSlot(p, e, _, _) => p !in {26, 80} && d.IsKind(Plain(p), LongExtended) && d.IsEvsSlot(p, e)
       case VsaSlot(v, _) => d.FormatOf(v).continuation
  }

  lemma ThreeParts(a: bytes, b: bytes, c: bytes)
    ensures var s := a + b + c; s[..|a|] == a && s[|a|..|a| + |b|] == b && s[|a| + |b|..] == c
  {
  }

  lemma LengthReadsBack(lenLen: nat, total: nat)
    requires 1 <= lenLen <= 2 && total < 256
    ensures LengthField(lenLen, total) == BigEndian(total, lenLen)
    ensures FromBigEndian(LengthField(lenLen, total)) == total
  {
    SmallPowers();
    BigEndianRoundTrip(total, lenLen);
  }

  /** The inner header of a vendor attribute reads back as it was written. */
  lemma InnerHeader(f: LegalFormat, vtype: nat, body: bytes)
    requires vtype < Pow256(f.typeLen) && f.typeLen + f.lenLen + |body| < 256
    ensures var rest := PackInner(f, vtype, body);
            FromBigEndian(rest[..f.typeLen]) == vtype
            && SubEnd(f, rest) == Some(|rest|)
            && rest[f.typeLen + f.lenLen..] == body
  {
    var total := f.typeLen + f.lenLen + |body|;
    ThreeParts(BigEndian(vtype, f.typeLen), LengthField(f.lenLen, total), body);
    BigEndianRoundTrip(vtype, f.typeLen);
    if f.lenLen > 0 { LengthReadsBack(f.lenLen, total); }
  }

  lemma VendorEnvelope(d: Dictionary, st: State, vendor: nat, rest: bytes)
    requires vendor < Pow256(4) && |rest| >= d.FormatOf(vendor).typeLen + d.FormatOf(vendor).lenLen
    ensures var data := BigEndian(vendor, 4) + rest;
            var (st', items) := VendorLoop(d, vendor, d.FormatOf(vendor), rest, st, []);
            DecodeVendor(d, st, data) == (st', if items.Some? then items.value else [(Plain(26), data)])
  {
    var data := BigEndian(vendor, 4) + rest;
    assert data[..4] == BigEndian(vendor, 4) && data[4..] == rest;
    BigEndianRoundTrip(vendor, 4);
  }

  lemma AppendOne(store: Store, key: Key, v: bytes)
    ensures AppendAll(store, [(key, v)]) == Append(store, key, v)
  {
    assert [(key, v)][1..] == [];
  }

  lemma LoopUnrolled(d: Dictionary, vendor: nat, f: LegalFormat, rest: bytes, st: State)
    requires f.continuation && f.typeLen + f.lenLen < |rest| && SubEnd(f, rest) == Some(|rest|)
    ensures var header := f.typeLen + f.lenLen;
            var vtype := FromBigEndian(rest[..f.typeLen]);
            var (buffers, done) :=
              Reassemble(st.buffers, VsaSlot(vendor, vtype), rest[header] >= MORE_FLAG, rest[header + 1..]);
            var st' := st.(buffers := buffers);
            VendorLoop(d, vendor, f, rest, st, []) ==
            if done.None? then (st', Some([]))
            else var (st'', items) := Emit(d, st', Vsa(vendor, vtype), done.value, []); (st'', Some(items))
  {
    assert rest[f.typeLen + f.lenLen + 1..|rest|] == rest[f.typeLen + f.lenLen + 1..] && rest[|rest|..] == [];
  }

  /** A completed value is delivered, absorbed on the way or collected. */
  lemma EmitDelivers(d: Dictionary, st: State, vendor: nat, vtype: nat, v: bytes)
    ensures var (st', items) := Emit(d, st, Vsa(vendor, vtype), v, []);
            st'.(store := AppendAll(st'.store, items)) == st.(store := Deliver(d, st.store, VsaSlot(vendor, vtype), v))
  {
    var key := Vsa(vendor, vtype);
    if !d.IsKind(key, Tlv) {
      assert [] + [(key, v)] == [(key, v)];
      AppendOne(st.store, key, v);
    }
  }

  /** A payload holding exactly one fragment. */
  lemma LoopOnce(d: Dictionary, vendor: nat, f: LegalFormat, rest: bytes, st: State)
    requires f.continuation && f.typeLen + f.lenLen < |rest| && SubEnd(f, rest) == Some(|rest|)
    ensures var slot := VsaSlot(vendor, FromBigEndian(rest[..f.typeLen]));
            var header := f.typeLen + f.lenLen;
            var (st', items) := VendorLoop(d, vendor, f, rest, st, []);
            items.Some? && st'.(store := AppendAll(st'.store, items.value)) ==
                           Receive(d, st, slot, rest[header] >= MORE_FLAG, rest[header + 1..])
  {
    var header := f.typeLen + f.lenLen;
    var vtype := FromBigEndian(rest[..f.typeLen]);
    LoopUnrolled(d, vendor, f, rest, st);
    var (buffers, done) :=
      Reassemble(st.buffers, VsaSlot(vendor, vtype), rest[header] >= MORE_FLAG, rest[header + 1..]);
    if done.Some? { EmitDelivers(d, st.(buffers := buffers), vendor, vtype, done.value); }
  }

  lemma VsaFragmentStep(d: Dictionary, v11: bool, st: State, vendor: nat, vtype: nat, more: bool, chunk: bytes)
    requires SlotLive(d, VsaSlot(vendor, vtype)) && |chunk| <= FragmentRoom(d, VsaSlot(vendor, vtype))
    ensures DecodeAvp(d, v11, st, FragmentAvp(d, VsaSlot(vendor, vtype), more, chunk)) ==
            Receive(d, st, VsaSlot(vendor, vtype), more, chunk)
  {
    var f := d.FormatOf(vendor);
    var header := f.typeLen + f.lenLen;
    var body := [if more then MORE_FLAG else 0] + chunk;
    var rest := PackInner(f, vtype, body);
    InnerHeader(f, vtype, body);
    assert rest[header] == body[0] && rest[header + 1..] == body[1..] == chunk by {
      HeadAndTail(rest, header);
    }
    LoopOnce(d, vendor, f, rest, st);
    VendorEnvelope(d, st, vendor, rest);
  }

  lemma HeadAndTail(s: bytes, n: nat)
    requires n < |s|
    ensures s[n] == s[n..][0] && s[n + 1..] == s[n..][1..]
  {
  }

  lemma LongFragmentStep(d: Dictionary, v11: bool, st: State, p: byte, e: byte, more: bool, chunk: bytes)
    requires SlotLive(d, LongSlot(p, e)) && |chunk| <= LONG_CHUNK
    ensures DecodeAvp(d, v11, st, FragmentAvp(d, LongSlot(p, e), more, chunk)) ==
            Receive(d, st, LongSlot(p, e), more, chunk)
  {
    assert FragmentAvp(d, LongSlot(p, e), more, chunk).value[2..] == chunk;
  }

  lemma EvsHeader(vendor: nat, vtype: byte, v: bytes)
    requires vendor < Pow256(4)
    ensures var payload := BigEndian(vendor, 4) + [vtype] + v;
            FromBigEndian(payload[..4]) == vendor && payload[4] == vtype && payload[5..] == v
  {
    var payload := BigEndian(vendor, 4) + [vtype] + v;
    ThreeParts(BigEndian(vendor, 4), [vtype], v);
    BigEndianRoundTrip(vendor, 4);
  }

  lemma EvsFragmentStep(d: Dictionary, v11: bool, st: State, p: byte, e: byte, vendor: nat, vtype: byte, more: bool,
                        chunk: bytes)
    requires SlotLive(d, EvsSlot(p, e, vendor, vtype)) && |chunk| <= EVS_CHUNK
    ensures DecodeAvp(d, v11, st, FragmentAvp(d, EvsSlot(p, e, vendor, vtype), more, chunk)) ==
            Receive(d, st, EvsSlot(p, e, vendor, vtype), more, chunk)
  {
    var payload := BigEndian(vendor, 4) + [vtype] + chunk;
    assert FragmentAvp(d, EvsSlot(p, e, vendor, vtype), more, chunk).value[2..] == payload;
    EvsHeader(vendor, vtype, chunk);
  }

  /** Decoding one encoded fragment is one step of the reassembly buffer. */
  lemma FragmentStep(d: Dictionary, v11: bool, st: State, slot: Slot, more: bool, chunk: bytes)
    requires SlotLive(d, slot) && |chunk| <= FragmentRoom(d, slot)
    ensures DecodeAvp(d, v11, st, FragmentAvp(d, slot, more, chunk)) == Receive(d, st, slot, more, chunk)
  {
    match slot
    case LongSlot(p, e) => LongFragmentStep(d, v11, st, p, e, more, chunk);
    case EvsSlot(p, e, vendor, vtype) => EvsFragmentStep(d, v11, st, p, e, vendor, vtype, more, chunk);
    case VsaSlot(vendor, vtype) => VsaFragmentStep(d, v11, st, vendor, vtype, more, chunk);
  }

  /** What the buffer of a slot holds. */
  function Held(buffers: map<Slot, bytes>, slot: Slot): bytes {
    if slot in buffers then buffers[slot] else []
  }

  /** A run of fragments of one value: all but the last carry the More flag. */
  function ReceiveAll(d: Dictionary, st: State, slot: Slot, chunks: seq<bytes>): State
    decreases |chunks|
  {
    if chunks == [] then st
    else ReceiveAll(d, Receive(d, st, slot, |chunks| > 1, chunks[0]), slot, chunks[1..])
  }

  lemma FragmentsNext(d: Dictionary, slot: Slot, chunks: seq<bytes>)
    requires SlotLive(d, slot) && chunks != []
    requires forall i :: 0 <= i < |chunks| ==> |chunks[i]| <= FragmentRoom(d, slot)
    ensures FragmentAvps(d, slot, chunks) ==
            [FragmentAvp(d, slot, |chunks| > 1, chunks[0])] + FragmentAvps(d, slot, chunks[1..])
  {
  }

  lemma {:induction false} FragmentsReceived(d: Dictionary, v11: bool, st: State, slot: Slot, chunks: seq<bytes>)
    requires SlotLive(d, slot) && forall i :: 0 <= i < |chunks| ==> |chunks[i]| <= FragmentRoom(d, slot)
    ensures Fold(d, v11, st, FragmentAvps(d, slot, chunks)) == ReceiveAll(d, st, slot, chunks)
    decreases |chunks|
  {
    if chunks != [] {
      var a := FragmentAvp(d, slot, |chunks| > 1, chunks[0]);
      FragmentStep(d, v11, st, slot, |chunks| > 1, chunks[0]);
      FragmentsNext(d, slot, chunks);
      FragmentsReceived(d, v11, DecodeAvp(d, v11, st, a), slot, chunks[1..]);
      FoldAppend(d, v11, st, [a], FragmentAvps(d, slot, chunks[1..]));
      FoldOne(d, v11, st, a);
    }
  }

  lemma ReceiveMore(d: Dictionary, st: State, slot: Slot, chunk: bytes)
    ensures Receive(d, st, slot, true, chunk) == st.(buffers := st.buffers[slot := Held(st.buffers, slot) + chunk])
  {
  }

  lemma ReceiveLast(d: Dictionary, st: State, slot: Slot, chunk: bytes)
    ensures Receive(d, st, slot, false, chunk) ==
            st.(buffers := st.buffers - {slot}, store := Deliver(d, st.store, slot, Held(st.buffers, slot) + chunk))
  {
  }

  /** The last fragment delivers everything held, and empties the buffer. */
  lemma {:induction false} ChainDelivered(d: Dictionary, st: State, slot: Slot, chunks: seq<bytes>)
    requires chunks != []
    ensures ReceiveAll(d, st, slot, chunks) ==
            st.(buffers := st.buffers - {slot},
                store := Deliver(d, st.store, slot, Held(st.buffers, slot) + Join(chunks)))
    decreases |chunks|
  {
    if |chunks| == 1 {
      assert chunks == [chunks[0]] && chunks[1..] == [];
      JoinOne(chunks[0]);
      ReceiveLast(d, st, slot, chunks[0]);
    } else {
      var held := Held(st.buffers, slot);
      var st' := st.(buffers := st.buffers[slot := held + chunks[0]]);
      ReceiveMore(d, st, slot, chunks[0]);
      ChainDelivered(d, st', slot, chunks[1..]);
      assert st'.buffers - {slot} == st.buffers - {slot};
      assert held + chunks[0] + Join(chunks[1..]) == held + Join(chunks);
    }
  }

  lemma WholeDelivered(d: Dictionary, st: State, slot: Slot, value: bytes, room: nat)
    requires slot !in st.buffers && room > 0
    ensures ReceiveAll(d, st, slot, Chunks(value, room)) == st.(store := Deliver(d, st.store, slot, value))
  {
    ChunksPartition(value, room);
    ChainDelivered(d, st, slot, Chunks(value, room));
    assert st.buffers - {slot} == st.buffers;
    assert Held(st.buffers, slot) + value == value;
  }

  lemma FragmentedValue(d: Dictionary, v11: bool, st: State, slot: Slot, value: bytes)
    requires SlotLive(d, slot) && slot !in st.buffers
    ensures Fold(d, v11, st, Fragmented(d, slot, value)) == st.(store := Deliver(d, st.store, slot, value))
  {
    var room := FragmentRoom(d, slot);
    var chunks := Chunks(value, room);
    ChunksPartition(value, room);
    WholeDelivered(d, st, slot, value, room);
    FragmentsReceived(d, v11, st, slot, chunks);
    assert Fragmented(d, slot, value) == FragmentAvps(d, slot, chunks);
  }

  // --- Lists --------------------------------------------------------------------------------

  /** The dictionary stores values of this key as list elements. */
  predicate ListLive(d: Dictionary, v11: bool, key: Key) {
    match key
    case Plain(c) => c != 26 && (v11 ==> c != 80) && !HoldsTree(d, key)
    case Vsa(_, _) => !d.IsKind(key, Tlv)
    case Evs(p, slot, _, _) =>
      p !in {26, 80} && d.IsEvsSlot(p, slot)
      && d.IsKind(Plain(p), if p in {245, 246} then LongExtended else Extended)
  }

  function Flagged(st: State, key: Key): State {
    st.(hasMessageAuthenticator := st.hasMessageAuthenticator || key == Plain(80))
  }

  /** A payload holding exactly one value. */
  lemma LoopWhole(d: Dictionary, vendor: nat, f: LegalFormat, rest: bytes, st: State)
    requires !f.continuation && f.typeLen + f.lenLen <= |rest| && SubEnd(f, rest) == Some(|rest|)
    requires !d.IsKind(Vsa(vendor, FromBigEndian(rest[..f.typeLen])), Tlv)
    ensures VendorLoop(d, vendor, f, rest, st, []) ==
            (st, Some([(Vsa(vendor, FromBigEndian(rest[..f.typeLen])), rest[f.typeLen + f.lenLen..])]))
  {
    var header := f.typeLen + f.lenLen;
    var item := (Vsa(vendor, FromBigEndian(rest[..f.typeLen])), rest[header..]);
    assert rest[header..|rest|] == rest[header..] && rest[|rest|..] == [];
    assert [] + [item] == [item];
    assert VendorLoop(d, vendor, f, [], st, [item]) == (st, Some([item]));
  }

  lemma VsaValue(d: Dictionary, v11: bool, st: State, vendor: nat, vtype: nat, v: bytes)
    requires ListLive(d, v11, Vsa(vendor, vtype)) && ValuePacks(d, Vsa(vendor, vtype), v)
    requires !d.FormatOf(vendor).continuation
    ensures Fold(d, v11, st, ValueToAvps(d, Vsa(vendor, vtype), v)) ==
            st.(store := Append(st.store, Vsa(vendor, vtype), v))
  {
    var f := d.FormatOf(vendor);
    var rest := PackInner(f, vtype, v);
    InnerHeader(f, vtype, v);
    LoopWhole(d, vendor, f, rest, st);
    VendorEnvelope(d, st, vendor, rest);
    AppendOne(st.store, Vsa(vendor, vtype), v);
    FoldOne(d, v11, st, Avp(26, BigEndian(vendor, 4) + rest));
  }

  lemma FoldOne(d: Dictionary, v11: bool, st: State, a: Avp)
    ensures Fold(d, v11, st, [a]) == DecodeAvp(d, v11, st, a)
  {
    assert [a][1..] == [];
  }

  lemma EvsValue(d: Dictionary, v11: bool, st: State, key: Key, v: bytes)
    requires key.Evs? && ListLive(d, v11, key) && ValuePacks(d, key, v)
    requires key.parent !in {245, 246}
    ensures Fold(d, v11, st, ValueToAvps(d, key, v)) == st.(store := Append(st.store, key, v))
  {
    var a := ValueToAvps(d, key, v)[0];
    var payload := BigEndian(key.vendorId, 4) + [key.vendorType] + v;
    assert a.value[1..] == payload;
    EvsHeader(key.vendorId, key.vendorType, v);
    FoldOne(d, v11, st, a);
  }

  /** One value of a list, in whatever form it travels, is appended to the list of its key. */
  lemma ListValue(d: Dictionary, v11: bool, st: State, key: Key, v: bytes)
    requires ListLive(d, v11, key) && ValuePacks(d, key, v) && st.buffers == map[]
    ensures Fold(d, v11, st, ValueToAvps(d, key, v)) == Flagged(st, key).(store := Append(st.store, key, v))
  {
    match key
    case Plain(c) =>
      assert ValueToAvps(d, key, v)[1..] == [];
    case Vsa(vendor, vtype) =>
      if d.FormatOf(vendor).continuation {
        FragmentedValue(d, v11, st, VsaSlot(vendor, vtype), v);
      } else {
        VsaValue(d, v11, st, vendor, vtype, v);
      }
    case Evs(p, slot, vendor, vtype) =>
      if p in {245, 246} {
        FragmentedValue(d, v11, st, EvsSlot(p, slot, vendor, vtype), v);
      } else {
        EvsValue(d, v11, st, key, v);
      }
  }

  lemma AppendBehind(before: Store, key: Key, done: seq<bytes>, v: bytes)
    requires !Has(before, key)
    ensures Append(before + [(key, Values(done))], key, v) == before + [(key, Values(done + [v]))]
  {
    assert before + [(key, Values(done))] == before + [(key, Values(done))] + [];
    PutMiddle(before, key, Values(done), [], Values(done + [v]));
    assert before + [(key, Values(done + [v]))] + [] == before + [(key, Values(done + [v]))];
  }

  /** Folding over a list starts with its first value. */
  lemma ListHead(d: Dictionary, v11: bool, st: State, key: Key, vals: seq<bytes>)
    requires ListLive(d, v11, key) && ListPacks(d, key, vals) && vals != [] && st.buffers == map[]
    ensures ListPacks(d, key, vals[1..])
    ensures Fold(d, v11, st, ListToAvps(d, key, vals)) ==
            Fold(d, v11, Flagged(st, key).(store := Append(st.store, key, vals[0])), ListToAvps(d, key, vals[1..]))
  {
    ListValue(d, v11, st, key, vals[0]);
    FoldAppend(d, v11, st, ValueToAvps(d, key, vals[0]), ListToAvps(d, key, vals[1..]));
  }

  /** The state with a list of the key at the end of the store. */
  function Behind(st: State, before: Store, key: Key, vals: seq<bytes>): State {
    Flagged(st, key).(store := before + [(key, Values(vals))])
  }

  lemma BehindStep(d: Dictionary, v11: bool, st: State, before: Store, key: Key, done: seq<bytes>, vals: seq<bytes>)
    requires ListLive(d, v11, key) && ListPacks(d, key, vals) && st.buffers == map[] && vals != [] && !Has(before, key)
    ensures ListPacks(d, key, vals[1..])
    ensures Fold(d, v11, Behind(st, before, key, done), ListToAvps(d, key, vals)) ==
            Fold(d, v11, Behind(st, before, key, done + [vals[0]]), ListToAvps(d, key, vals[1..]))
  {
    ListHead(d, v11, Behind(st, before, key, done), key, vals);
    AppendBehind(before, key, done, vals[0]);
  }

  lemma HeadMoves(done: seq<bytes>, vals: seq<bytes>)
    requires vals != []
    ensures done + [vals[0]] + vals[1..] == done + vals
  {
  }

  lemma {:induction false} ListBehind(d: Dictionary, v11: bool, st: State, before: Store, key: Key,
                                      done: seq<bytes>, vals: seq<bytes>)
    requires ListLive(d, v11, key) && ListPacks(d, key, vals) && st.buffers == map[] && !Has(before, key)
    ensures Fold(d, v11, Behind(st, before, key, done), ListToAvps(d, key, vals)) ==
            Behind(st, before, key, done + vals)
    decreases |vals|
  {
    if vals == [] {
      assert done + vals == done;
    } else {
      HeadMoves(done, vals);
      BehindStep(d, v11, st, before, key, done, vals);
      ListBehind(d, v11, st, before, key, done + [vals[0]], vals[1..]);
    }
  }

  lemma AppendFirst(before: Store, key: Key, v: bytes)
    requires !Has(before, key)
    ensures Append(before, key, v) == before + [(key, Values([v]))]
  {
    assert [] + [v] == [v];
    PutAbsent(before, key, Values([v]));
  }

  /** A whole list arrives as one new entry at the end of the store. */
  lemma ListGroup(d: Dictionary, v11: bool, st: State, key: Key, vals: seq<bytes>)
    requires ListLive(d, v11, key) && ListPacks(d, key, vals) && vals != [] && st.buffers == map[]
    requires !Has(st.store, key)
    ensures Fold(d, v11, st, ListToAvps(d, key, vals)) ==
            Flagged(st, key).(store := st.store + [(key, Values(vals))])
  {
    ListHead(d, v11, st, key, vals);
    AppendFirst(st.store, key, vals[0]);
    ListBehind(d, v11, st, st.store, key, [vals[0]], vals[1..]);
    assert [vals[0]] + vals[1..] == vals;
  }

  // --- TLV maps -----------------------------------------------------------------------------

  /** The dictionary's own description of a TLV container agrees with the key it is filed under,
      and a vendor container uses the default vendor format. */
  predicate TlvLive(d: Dictionary, key: Key) {
    d.IsKind(key, Tlv)
    && match key
       case Plain(c) => c !in {26, 80} && d.AttrOf(key).value.code == c && d.AttrOf(key).value.vendor == None
       case Vsa(v, t) =>
         v < Pow256(4) && d.AttrOf(key).value.code == t && d.AttrOf(key).value.vendor == Some(v)
         && d.FormatOf(v) == DEFAULT_FORMAT
       case Evs(_, _, _, _) => false
  }

  /** With the default vendor format the inner header is that of an attribute. */
  lemma DefaultInner(vtype: byte, body: bytes)
    requires |body| <= 247
    ensures PackInner(DEFAULT_FORMAT, vtype, body) == Frame(Avp(vtype, body))
  {
    SmallPowers();
    var size := 2 + |body|;
    assert BigEndian(vtype, 1) == [vtype] by { assert BigEndian(vtype / 256, 0) == []; }
    assert LengthField(1, size) == [size] by { assert BigEndian(size / 256, 0) == []; }
  }

  /** A payload holding exactly one TLV sub-attribute of a vendor with the default format. */
  lemma TlvLoop(d: Dictionary, st: State, vendor: nat, vtype: byte, body: bytes)
    requires |body| <= 247 && d.IsKind(Vsa(vendor, vtype), Tlv)
    ensures VendorLoop(d, vendor, DEFAULT_FORMAT, Frame(Avp(vtype, body)), st, []) ==
            (st.(store := TlvInto(d, st.store, Vsa(vendor, vtype), body)), Some([]))
  {
    SmallPowers();
    var rest := Frame(Avp(vtype, body));
    DefaultInner(vtype, body);
    InnerHeader(DEFAULT_FORMAT, vtype, body);
    assert rest[2..|rest|] == body && rest[|rest|..] == [];
    var st' := st.(store := TlvInto(d, st.store, Vsa(vendor, vtype), body));
    assert VendorLoop(d, vendor, DEFAULT_FORMAT, [], st', []) == (st', Some([]));
  }

  lemma TlvStep(d: Dictionary, v11: bool, st: State, key: Key, piece: seq<Avp>)
    requires TlvLive(d, key) && d.AttrOf(key).value.code < 256
    requires AllFit(piece) && Size(piece) <= TlvCap(d.AttrOf(key).value)
    ensures DecodeAvp(d, v11, st, TlvAvp(d.AttrOf(key).value, piece)) ==
            st.(store := TlvInto(d, st.store, key, Flatten(piece)))
  {
    if key.Vsa? {
      FlattenSize(piece);
      TlvLoop(d, st, key.vendor, key.vtype, Flatten(piece));
      VendorEnvelope(d, st, key.vendor, Frame(Avp(key.vtype, Flatten(piece))));
    }
  }

  lemma {:induction false} TlvBehind(d: Dictionary, v11: bool, st: State, before: Store, key: Key, t: Tree,
                                     pieces: seq<seq<Avp>>)
    requires TlvLive(d, key) && d.AttrOf(key).value.code < 256
    requires (forall k :: 0 <= k < |pieces| ==> AllFit(pieces[k])) && Longest(pieces) <= TlvCap(d.AttrOf(key).value)
    requires !Has(before, key) && st.store == before + [(key, Node(t))]
    ensures Fold(d, v11, st, TlvAvps(d.AttrOf(key).value, pieces)) ==
            st.(store := before + [(key, Node(Merge(d, d.AttrOf(key), t, pieces)))])
    decreases |pieces|
  {
    if pieces != [] {
      var attr := d.AttrOf(key).value;
      TlvStep(d, v11, st, key, pieces[0]);
      var t' := DecodeChain(d, d.AttrOf(key), t, Flatten(pieces[0]));
      assert st.store == before + [(key, Node(t))] + [];
      PutMiddle(before, key, Node(t), [], Node(t'));
      var store' := before + [(key, Node(t'))];
      assert store' + [] == store';
      TlvBehind(d, v11, st.(store := store'), before, key, t', pieces[1..]);
      assert TlvAvps(attr, pieces)[1..] == TlvAvps(attr, pieces[1..]);
    }
  }

  lemma TlvGroup(d: Dictionary, v11: bool, st: State, key: Key, m: Tree)
    requires TlvLive(d, key) && Shaped(d, d.AttrOf(key), m) && Full(m)
    requires Encodable(d, key, Node(m)) && !Has(st.store, key)
    ensures Fold(d, v11, st, GroupAvps(d, key, Node(m))) == st.(store := st.store + [(key, Node(m))])
  {
    var attr := d.AttrOf(key).value;
    var pieces := Pieces(m);
    CutExact(m, 0, MaxInstances(m), [], TlvCap(attr));
    var avps := TlvAvps(attr, pieces);
    TlvStep(d, v11, st, key, pieces[0]);
    var t := DecodeChain(d, d.AttrOf(key), [], Flatten(pieces[0]));
    PutAbsent(st.store, key, Node(t));
    var st' := st.(store := st.store + [(key, Node(t))]);
    assert avps[1..] == TlvAvps(attr, pieces[1..]);
    TlvBehind(d, v11, st', st.store, key, t, pieces[1..]);
    SplitThenMerge(d, d.AttrOf(key), m);
  }

  // --- Extended and long-extended maps ------------------------------------------------------

  predicate SubsLive(d: Dictionary, parent: byte, subs: seq<Avp>) {
    forall i :: 0 <= i < |subs| ==> !d.IsEvsSlot(parent, subs[i].key)
  }

  function SlotsInto(d: Dictionary, store: Store, parent: byte, subs: seq<Avp>): Store
    decreases |subs|
  {
    if subs == [] then store else SlotsInto(d, SlotInto(d, store, parent, subs[0]), parent, subs[1..])
  }

  lemma {:induction false} ExtendedFold(d: Dictionary, v11: bool, st: State, parent: byte, subs: seq<Avp>)
    requires parent !in {26, 80} && d.IsKind(Plain(parent), Extended)
    requires SubsWithin(subs, 252) && SubsLive(d, parent, subs)
    ensures Fold(d, v11, st, ExtendedAvps(parent, subs)) == st.(store := SlotsInto(d, st.store, parent, subs))
    decreases |subs|
  {
    if subs != [] {
      var a := Avp(parent, [subs[0].key] + subs[0].value);
      assert a.value[1..] == subs[0].value;
      assert DecodeAvp(d, v11, st, a) == st.(store := SlotInto(d, st.store, parent, subs[0]));
      assert ExtendedAvps(parent, subs)[1..] == ExtendedAvps(parent, subs[1..]);
      ExtendedFold(d, v11, st.(store := SlotInto(d, st.store, parent, subs[0])), parent, subs[1..]);
    }
  }

  lemma {:induction false} LongFold(d: Dictionary, v11: bool, st: State, parent: byte, subs: seq<Avp>)
    requires parent !in {26, 80} && d.IsKind(Plain(parent), LongExtended)
    requires SubsLive(d, parent, subs) && st.buffers == map[]
    ensures Fold(d, v11, st, LongAvps(d, parent, subs)) == st.(store := SlotsInto(d, st.store, parent, subs))
    decreases |subs|
  {
    if subs != [] {
      var slot := LongSlot(parent, subs[0].key);
      FragmentedValue(d, v11, st, slot, subs[0].value);
      FoldAppend(d, v11, st, Fragmented(d, slot, subs[0].value), LongAvps(d, parent, subs[1..]));
      LongFold(d, v11, st.(store := SlotInto(d, st.store, parent, subs[0])), parent, subs[1..]);
    }
  }

  lemma {:induction false} SlotsBehind(d: Dictionary, before: Store, parent: byte, t: Tree, subs: seq<Avp>)
    requires !Has(before, Plain(parent))
    ensures SlotsInto(d, before + [(Plain(parent), Node(t))], parent, subs) ==
            before + [(Plain(parent), Node(AbsorbAll(d, d.AttrOf(Plain(parent)), t, subs)))]
    decreases |subs|
  {
    if subs != [] {
      var key := Plain(parent);
      var t' := Absorb(d, d.AttrOf(key), t, subs[0]);
      assert before + [(key, Node(t))] + [] == before + [(key, Node(t))];
      assert before + [(key, Node(t'))] + [] == before + [(key, Node(t'))];
      PutMiddle(before, key, Node(t), [], Node(t'));
      SlotsBehind(d, before, parent, t', subs[1..]);
    }
  }

  lemma SlotsGroup(d: Dictionary, store: Store, parent: byte, m: Tree)
    requires !Has(store, Plain(parent)) && m != []
    requires Shaped(d, d.AttrOf(Plain(parent)), m) && Full(m) && AllInnerFit(m)
    ensures SlotsInto(d, store, parent, TreeAvps(m)) == store + [(Plain(parent), Node(m))]
  {
    var key := Plain(parent);
    var subs := TreeAvps(m);
    assert subs != [] by {
      assert m[0].1.Values? ==> m[0].1.vals != [];
      assert EntryAvps(m[0].0, m[0].1) != [];
    }
    var t := Absorb(d, d.AttrOf(key), [], subs[0]);
    PutAbsent(store, key, Node(t));
    SlotsBehind(d, store, parent, t, subs[1..]);
    AbsorbTree(d, d.AttrOf(key), [], m);
    assert [] + m == m;
  }

  lemma {:induction false} TreeAvpsLive(d: Dictionary, parent: byte, m: Tree)
    requires AllInnerFit(m) && forall i :: 0 <= i < |m| ==> !d.IsEvsSlot(parent, m[i].0)
    ensures SubsLive(d, parent, TreeAvps(m))
  {
    if m != [] {
      TreeAvpsLive(d, parent, m[1..]);
    }
  }

  lemma ExtendedGroup(d: Dictionary, v11: bool, st: State, parent: byte, m: Tree)
    requires parent !in {26, 80} && st.buffers == map[] && !Has(st.store, Plain(parent))
    requires d.IsKind(Plain(parent), Extended) || d.IsKind(Plain(parent), LongExtended)
    requires Encodable(d, Plain(parent), Node(m))
    requires m != [] && Shaped(d, d.AttrOf(Plain(parent)), m) && Full(m)
    requires forall i :: 0 <= i < |m| ==> !d.IsEvsSlot(parent, m[i].0)
    ensures Fold(d, v11, st, GroupAvps(d, Plain(parent), Node(m))) ==
            st.(store := st.store + [(Plain(parent), Node(m))])
  {
    if d.IsKind(Plain(parent), Extended) {
      ExtendedFitsSubs(m);
      TreeAvpsLive(d, parent, m);
      ExtendedFold(d, v11, st, parent, TreeAvps(m));
    } else {
      TreeAvpsLive(d, parent, m);
      LongFold(d, v11, st, parent, TreeAvps(m));
    }
    SlotsGroup(d, st.store, parent, m);
  }
}
