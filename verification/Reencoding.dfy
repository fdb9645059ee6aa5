/** When a client can encode again what it decoded, told from the octets and the client's dictionary. */
module Reencoding {
  import opened Wrappers
  import opened Bytes
  import opened OrderedMaps
  import opened Dictionaries
  import opened Wire
  import opened Trees
  import opened TlvSplit
  import opened Decoding
  import opened Encoding
  import opened Finishing
  import opened CodecTheorems
  import opened Projection
  import opened Overlay
  import opened Signing
  import opened SigningWire
  import opened SigningTheorems
  import opened Reception

  // --- Lists that always fit --------------------------------------------------------------------

  /** Long-extended attributes are declared at the two codes reserved for them. */
  predicate LongParents(d: Dictionary) {
    forall c: byte :: d.IsKind(Plain(c), LongExtended) ==> c in {245, 246}
  }

  /** Every list holds values that fit an attribute of its key one by one. */
  predicate ListsPack(d: Dictionary, store: Store) {
    forall i :: 0 <= i < |store| && store[i].1.Values? ==> ListPacks(d, store[i].0, store[i].1.vals)
  }

  lemma PutPacks(d: Dictionary, store: Store, key: Key, s: Stored)
    requires ListsPack(d, store) && (s.Values? ==> ListPacks(d, key, s.vals))
    ensures ListsPack(d, Put(store, key, s))
  {
    PutEntries(store, key, s);
  }

  lemma AppendPacks(d: Dictionary, store: Store, key: Key, v: bytes)
    requires ListsPack(d, store) && ValuePacks(d, key, v)
    ensures ListsPack(d, Append(store, key, v))
  {
    FindSound(store, key);
    var here := AsValues(Find(store, key));
    assert ListPacks(d, key, here);
    PutPacks(d, store, key, Values(here + [v]));
  }

  predicate ItemsPack(d: Dictionary, items: Items) {
    forall i :: 0 <= i < |items| ==> ValuePacks(d, items[i].0, items[i].1)
  }

  lemma {:induction false} AppendAllPacks(d: Dictionary, store: Store, items: Items)
    requires ListsPack(d, store) && ItemsPack(d, items)
    ensures ListsPack(d, AppendAll(store, items))
    decreases |items|
  {
    if items != [] {
      AppendPacks(d, store, items[0].0, items[0].1);
      AppendAllPacks(d, Append(store, items[0].0, items[0].1), items[1..]);
    }
  }

  lemma DeliverPacks(d: Dictionary, store: Store, slot: Slot, v: bytes)
    requires ListsPack(d, store) && (!slot.LongSlot? ==> ValuePacks(d, SlotKey(slot), v))
    ensures ListsPack(d, Deliver(d, store, slot, v))
  {
    match slot
    case LongSlot(parent, ext) =>
      DeliverIsPut(d, store, slot, v);
      PutPacks(d, store, Plain(parent), Delivered(d, slot, Find(store, Plain(parent)), v));
    case EvsSlot(parent, ext, vendor, vtype) => AppendPacks(d, store, Evs(parent, ext, vendor, vtype), v);
    case VsaSlot(vendor, vtype) =>
      if d.IsKind(Vsa(vendor, vtype), Tlv) {
        DeliverIsPut(d, store, slot, v);
        PutPacks(d, store, Vsa(vendor, vtype), Delivered(d, slot, Find(store, Vsa(vendor, vtype)), v));
      } else {
        AppendPacks(d, store, Vsa(vendor, vtype), v);
      }
  }

  lemma EmitPacks(d: Dictionary, st: State, key: Key, v: bytes, items: Items)
    requires key.Vsa? && ListsPack(d, st.store) && ItemsPack(d, items) && ValuePacks(d, key, v)
    ensures var (st', items') := Emit(d, st, key, v, items); ListsPack(d, st'.store) && ItemsPack(d, items')
  {
    if d.IsKind(key, Tlv) { PutPacks(d, st.store, key, Emitted(d, key, Find(st.store, key), v)); }
  }

  lemma SubPacks(d: Dictionary, vendor: nat, rest: bytes, st: State, items: Items)
    requires vendor < Pow256(4) && |rest| <= 249 && ListsPack(d, st.store) && ItemsPack(d, items)
    requires |rest| >= d.FormatOf(vendor).typeLen + d.FormatOf(vendor).lenLen
    ensures var next := SubStep(d, vendor, d.FormatOf(vendor), rest, st, items);
            next.Some? ==> ListsPack(d, next.value.0.store) && ItemsPack(d, next.value.1)
  {
    var f := d.FormatOf(vendor);
    if SubEnd(f, rest).Some? {
      var header, end, vtype := f.typeLen + f.lenLen, SubEnd(f, rest).value, FromBigEndian(rest[..f.typeLen]);
      if !f.continuation {
        EmitPacks(d, st, Vsa(vendor, vtype), rest[header..end], items);
      } else if header < end {
        var (buffers, done) :=
          Reassemble(st.buffers, VsaSlot(vendor, vtype), rest[header] >= MORE_FLAG, rest[header + 1..end]);
        if done.Some? { EmitPacks(d, st.(buffers := buffers), Vsa(vendor, vtype), done.value, items); }
      }
    }
  }

  lemma {:induction false} VendorLoopPacks(d: Dictionary, vendor: nat, rest: bytes, st: State, items: Items)
    requires vendor < Pow256(4) && |rest| <= 249 && ListsPack(d, st.store) && ItemsPack(d, items)
    ensures var (st', items') := VendorLoop(d, vendor, d.FormatOf(vendor), rest, st, items);
            ListsPack(d, st'.store) && (items'.Some? ==> ItemsPack(d, items'.value))
    decreases |rest|
  {
    var f := d.FormatOf(vendor);
    LoopSteps(d, vendor, f, rest, st, items);
    if |rest| >= f.typeLen + f.lenLen {
      SubPacks(d, vendor, rest, st, items);
      var next := SubStep(d, vendor, f, rest, st, items);
      if next.Some? { VendorLoopPacks(d, vendor, next.value.2, next.value.0, next.value.1); }
    }
  }

  lemma VendorPacks(d: Dictionary, st: State, data: bytes)
    requires |data| <= 253 && ListsPack(d, st.store)
    ensures var (st', items) := DecodeVendor(d, st, data); ListsPack(d, AppendAll(st'.store, items))
  {
    if |data| >= 4 {
      var vendor := FromBigEndian(data[..4]);
      VendorLoopPacks(d, vendor, data[4..], st, []);
    }
    var (st', items) := DecodeVendor(d, st, data);
    AppendAllPacks(d, st'.store, items);
  }

  lemma ExtendedPacks(d: Dictionary, store: Store, parent: byte, value: bytes)
    requires |value| <= 253 && ListsPack(d, store)
    ensures ListsPack(d, DecodeExtended(d, store, parent, value))
  {
    if value != [] {
      var payload := value[1..];
      if |payload| >= 5 && d.IsEvsSlot(parent, value[0]) {
        AppendPacks(d, store, Evs(parent, value[0], FromBigEndian(payload[..4]), payload[4]), payload[5..]);
      } else {
        PutPacks(d, store, Plain(parent),
                 Node(Absorb(d, d.AttrOf(Plain(parent)), AsTree(Find(store, Plain(parent))), Avp(value[0], payload))));
      }
    }
  }

  lemma LongExtendedPacks(d: Dictionary, st: State, parent: byte, value: bytes)
    requires parent in {245, 246} && ListsPack(d, st.store)
    ensures ListsPack(d, DecodeLongExtended(d, st, parent, value).store)
  {
    if |value| >= 2 {
      var more, payload := value[1] >= MORE_FLAG, value[2..];
      var slot, chunk := LongSlot(parent, value[0]), payload;
      if |payload| >= 5 && d.IsEvsSlot(parent, value[0]) {
        slot, chunk := EvsSlot(parent, value[0], FromBigEndian(payload[..4]), payload[4]), payload[5..];
      }
      var (buffers, done) := Reassemble(st.buffers, slot, more, chunk);
      if done.Some? { DeliverPacks(d, st.store, slot, done.value); }
    }
  }

  lemma AvpPacks(d: Dictionary, st: State, a: Avp)
    requires LongParents(d) && Fits(a) && ListsPack(d, st.store)
    ensures ListsPack(d, DecodeAvp(d, false, st, a).store)
  {
    var key := Plain(a.key);
    if a.key == 26 {
      VendorPacks(d, st, a.value);
    } else if a.key == 80 {
      AppendPacks(d, st.store, key, a.value);
    } else if d.IsKind(key, Tlv) {
      PutPacks(d, st.store, key, Emitted(d, key, Find(st.store, key), a.value));
    } else if d.IsKind(key, Extended) {
      ExtendedPacks(d, st.store, a.key, a.value);
    } else if d.IsKind(key, LongExtended) {
      LongExtendedPacks(d, st, a.key, a.value);
    } else {
      AppendPacks(d, st.store, key, a.value);
    }
  }

  lemma {:induction false} FoldPacks(d: Dictionary, st: State, avps: seq<Avp>)
    requires LongParents(d) && AllFit(avps) && ListsPack(d, st.store)
    ensures ListsPack(d, Fold(d, false, st, avps).store)
    decreases |avps|
  {
    if avps != [] {
      AvpPacks(d, st, avps[0]);
      FoldPacks(d, DecodeAvp(d, false, st, avps[0]), avps[1..]);
    }
  }

  /** The dictionary files the key as a plain list: no container, nothing packed, nothing chunked. */
  predicate PlainList(d: Dictionary, k: Key) {
    !d.IsArray(k) && !d.IsConcat(k) && (k.Evs? || Listed(d, k))
  }

  /** Whatever octets arrive, only containers and array and concat attributes can keep a client from
      encoding them again: every other list fits the attributes it came in. */
  lemma ReencodesExactly(d: Dictionary, avps: seq<Avp>)
    requires LongParents(d) && AllFit(avps)
    ensures Reencodes(d, d, avps) <==>
            forall k :: PlainList(d, k) || EncodableAt(d, DecodedStore(d, avps), k)
  {
    ReencodesByKey(d, d, avps);
    FoldPacks(d, EMPTY, avps);
    FoldShaped(d, false, EMPTY, avps);
    var store := Fold(d, false, EMPTY, avps).store;
    forall k | PlainList(d, k) ensures EncodableAt(d, DecodedStore(d, avps), k) {
      FinishFind(d, store, k);
      FindSound(store, k);
      if Has(store, k) { assert EntryShaped(d, k, Find(store, k).value); }
    }
  }

  // --- One code ---------------------------------------------------------------------------------

  function ValuesOf(avps: seq<Avp>): seq<bytes> {
    if avps == [] then [] else [avps[0].value] + ValuesOf(avps[1..])
  }

  /** Code 80, or a code that is neither a container nor that of the vendor attributes. */
  predicate ListCode(d: Dictionary, c: byte) {
    c == 80 || (c != 26 && Listed(d, Plain(c)))
  }

  lemma {:induction false} FoldList(d: Dictionary, c: byte, done: seq<bytes>, flag: bool, avps: seq<Avp>)
    requires ListCode(d, c) && AllOfCode(avps, c)
    ensures Fold(d, false, State([(Plain(c), Values(done))], map[], flag), avps).store ==
            [(Plain(c), Values(done + ValuesOf(avps)))]
    decreases |avps|
  {
    if avps == [] {
      assert done + [] == done;
    } else {
      var v := avps[0].value;
      assert [(Plain(c), Values(done))][1..] == [];
      assert Append([(Plain(c), Values(done))], Plain(c), v) == [(Plain(c), Values(done + [v]))];
      assert AllOfCode(avps[1..], c) by { assert forall i :: 0 <= i < |avps[1..]| ==> avps[1..][i] == avps[i + 1]; }
      FoldList(d, c, done + [v], flag || c == 80, avps[1..]);
      assert done + [v] + ValuesOf(avps[1..]) == done + ([v] + ValuesOf(avps[1..]));
    }
  }

  lemma ListDecoded(d: Dictionary, c: byte, avps: seq<Avp>)
    requires ListCode(d, c) && AllOfCode(avps, c) && avps != []
    ensures DecodedStore(d, avps) == [(Plain(c), FinishEntry(d, Plain(c), Values(ValuesOf(avps))))]
  {
    var v := avps[0].value;
    assert [] + [v] == [v];
    assert AllOfCode(avps[1..], c) by { assert forall i :: 0 <= i < |avps[1..]| ==> avps[1..][i] == avps[i + 1]; }
    FoldList(d, c, [v], c == 80, avps[1..]);
  }

  /** What the two passes leave of a list. */
  function Finished(d: Dictionary, c: byte, vals: seq<bytes>): seq<bytes> {
    AsValues(Some(FinishEntry(d, Plain(c), Values(vals))))
  }

  lemma {:induction false} SplitKeeps(vals: seq<bytes>, size: nat)
    requires size >= 1
    ensures Join(SplitValues(vals, size)) == Join(vals) && |SplitValues(vals, size)| >= |vals|
    ensures AllWithin(vals, 253) ==> AllWithin(SplitValues(vals, size), 253)
  {
    if vals != [] {
      var head := if vals[0] == [] || |vals[0]| % size != 0 then [vals[0]] else Chunks(vals[0], size);
      SplitKeeps(vals[1..], size);
      JoinAppend(head, SplitValues(vals[1..], size));
      JoinOne(vals[0]);
      ChunksPartition(vals[0], size);
      ChunkNoLonger(vals[0], size);
      assert AllWithin(vals, 253) ==> AllWithin(vals[1..], 253) by {
        assert forall i :: 0 <= i < |vals[1..]| ==> vals[1..][i] == vals[i + 1];
      }
    }
  }

  /** The passes lose nothing, and leave values of one attribute each unless they merge. */
  lemma FinishedKeeps(d: Dictionary, c: byte, vals: seq<bytes>)
    requires AllWithin(vals, 253)
    ensures FinishEntry(d, Plain(c), Values(vals)) == Values(Finished(d, c, vals))
    ensures Join(Finished(d, c, vals)) == Join(vals)
    ensures !d.IsConcat(Plain(c)) ==> AllWithin(Finished(d, c, vals), 253)
  {
    var merged := MergedEntry(d, Plain(c), Values(vals)).vals;
    JoinOne(Join(vals));
    if d.IsArray(Plain(c)) && ArraySize(d.AttrOf(Plain(c)).value.kind).Some? {
      SplitKeeps(merged, ArraySize(d.AttrOf(Plain(c)).value.kind).value);
    }
  }

  lemma {:induction false} PiecesFit(vals: seq<bytes>)
    ensures AllWithin(AllConcatPieces(vals), 253)
  {
    if vals != [] {
      PiecesFit(vals[1..]);
      ChunksPartition(vals[0], CONCAT_CHUNK);
    }
  }

  /** The octets under a code all told. */
  function Total(avps: seq<Avp>): nat {
    |Join(ValuesOf(avps))|
  }

  lemma ListEncodable(d: Dictionary, c: byte, vals: seq<bytes>)
    requires AllWithin(vals, 253) && Listed(d, Plain(c))
    ensures Encodable(d, Plain(c), FinishEntry(d, Plain(c), Values(vals))) <==>
            (d.IsArray(Plain(c)) && |Finished(d, c, vals)| > 1 ==> |Join(vals)| <= 253)
  {
    var left := Finished(d, c, vals);
    FinishedKeeps(d, c, vals);
    PiecesFit(left);
    if d.IsArray(Plain(c)) && |left| > 1 {
      assert WireValues(d, Plain(c), left) == [Join(left)] && [Join(left)][0] == Join(vals);
    }
  }

  lemma {:induction false} ValuesFit(avps: seq<Avp>)
    requires AllFit(avps)
    ensures AllWithin(ValuesOf(avps), 253)
  {
    if avps != [] { ValuesFit(avps[1..]); }
  }

  lemma OneEntry(d: Dictionary, k: Key, s: Stored)
    ensures EncodeStore(d, [(k, s)]).Ok? <==> d.IsVirtual(k) || Encodable(d, k, s)
  {
    assert [(k, s)][1..] == [];
    assert Visible(d, [(k, s)]) == if d.IsVirtual(k) then [] else [(k, s)] + [];
  }

  /** The attributes of a list code can be encoded again exactly when they are not packed into one that
      is too small for them. */
  lemma ListReencodes(d: Dictionary, c: byte, avps: seq<Avp>)
    requires ListCode(d, c) && AllOfCode(avps, c) && AllFit(avps) && avps != []
    ensures Reencodes(d, d, avps) <==>
            d.IsVirtual(Plain(c))
            || (Listed(d, Plain(c))
                && (d.IsArray(Plain(c)) && |Finished(d, c, ValuesOf(avps))| > 1 ==> Total(avps) <= 253))
  {
    ListDecoded(d, c, avps);
    ValuesFit(avps);
    FinishedKeeps(d, c, ValuesOf(avps));
    OneEntry(d, Plain(c), FinishEntry(d, Plain(c), Values(ValuesOf(avps))));
    if Listed(d, Plain(c)) { ListEncodable(d, c, ValuesOf(avps)); }
  }

  // --- TLV attributes ---------------------------------------------------------------------------

  predicate TlvContainer(d: Dictionary, c: byte) {
    c !in {26, 80} && d.IsKind(Plain(c), Tlv)
  }

  /** The map that the values of a container are parsed into. */
  function ParsedAll(d: Dictionary, c: byte, m: Tree, vals: seq<bytes>): Tree
    decreases |vals|
  {
    if vals == [] then m else ParsedAll(d, c, DecodeChain(d, d.AttrOf(Plain(c)), m, vals[0]), vals[1..])
  }

  lemma {:induction false} FoldTlv(d: Dictionary, c: byte, m: Tree, avps: seq<Avp>)
    requires TlvContainer(d, c) && AllOfCode(avps, c)
    ensures Fold(d, false, State([(Plain(c), Node(m))], map[], false), avps).store ==
            [(Plain(c), Node(ParsedAll(d, c, m, ValuesOf(avps))))]
    decreases |avps|
  {
    if avps != [] {
      var next := DecodeChain(d, d.AttrOf(Plain(c)), m, avps[0].value);
      assert [(Plain(c), Node(m))][1..] == [];
      assert TlvInto(d, [(Plain(c), Node(m))], Plain(c), avps[0].value) == [(Plain(c), Node(next))];
      assert AllOfCode(avps[1..], c) by { assert forall i :: 0 <= i < |avps[1..]| ==> avps[1..][i] == avps[i + 1]; }
      FoldTlv(d, c, next, avps[1..]);
      assert ([avps[0].value] + ValuesOf(avps[1..]))[1..] == ValuesOf(avps[1..]);
    }
  }

  lemma TlvDecoded(d: Dictionary, c: byte, avps: seq<Avp>)
    requires TlvContainer(d, c) && AllOfCode(avps, c) && avps != []
    ensures DecodedStore(d, avps) == [(Plain(c), Node(ParsedAll(d, c, [], ValuesOf(avps))))]
  {
    var next := DecodeChain(d, d.AttrOf(Plain(c)), [], avps[0].value);
    assert AllOfCode(avps[1..], c) by { assert forall i :: 0 <= i < |avps[1..]| ==> avps[1..][i] == avps[i + 1]; }
    assert TlvInto(d, [], Plain(c), avps[0].value) == [(Plain(c), Node(next))];
    FoldTlv(d, c, next, avps[1..]);
    assert ([avps[0].value] + ValuesOf(avps[1..]))[1..] == ValuesOf(avps[1..]);
  }

  /** The attributes of a TLV container can be encoded again exactly when the map they are parsed into
      has an entry and none of its rounds is too long. */
  lemma TlvReencodes(d: Dictionary, c: byte, avps: seq<Avp>)
    requires TlvContainer(d, c) && AllOfCode(avps, c) && avps != []
    ensures var attr := d.AttrOf(Plain(c)).value;
            Reencodes(d, d, avps) <==>
            d.IsVirtual(Plain(c))
            || (attr.code < 256 && (attr.vendor.Some? ==> attr.vendor.value < Pow256(4))
                && TlvFits(ParsedAll(d, c, [], ValuesOf(avps)), TlvCap(attr)))
  {
    TlvDecoded(d, c, avps);
    OneEntry(d, Plain(c), Node(ParsedAll(d, c, [], ValuesOf(avps))));
  }

  lemma {:induction false} NothingParsed(d: Dictionary, c: byte, m: Tree, vals: seq<bytes>)
    requires AllWithin(vals, 1)
    ensures ParsedAll(d, c, m, vals) == m
    decreases |vals|
  {
    if vals != [] {
      assert AllWithin(vals[1..], 1) by { assert forall i :: 0 <= i < |vals[1..]| ==> vals[1..][i] == vals[i + 1]; }
      NothingParsed(d, c, m, vals[1..]);
    }
  }

  /** A TLV attribute without an element is stored as an empty map, which cannot be encoded: such a packet
      cannot be encoded again, whatever else it carries. */
  lemma EmptyTlvFails(d: Dictionary, c: byte, avps: seq<Avp>)
    requires TlvContainer(d, c) && !d.IsVirtual(Plain(c))
    requires OfCode(avps, c) != [] && AllWithin(ValuesOf(OfCode(avps, c)), 1)
    ensures !Reencodes(d, d, avps)
  {
    var own := OfCode(avps, c);
    OfCodeIs(avps, c);
    NothingParsed(d, c, [], ValuesOf(own));
    TlvReencodes(d, c, own);
    ReencodesByCode(d, d, avps);
  }

  lemma {:induction false} OfCodeIs(avps: seq<Avp>, c: byte)
    ensures AllOfCode(OfCode(avps, c), c)
  {
    if avps != [] { OfCodeIs(avps[1..], c); }
  }

  // --- Replies ----------------------------------------------------------------------------------

  /** A client drops every reply in which a TLV attribute arrives without an element, however well it is
      signed. */
  lemma EmptyTlvDropped(d: Dictionary, client: Dictionary, enforceMa: bool, hmac: Hmac, md5: Md5, a: Answer, c: byte)
    requires SixteenOctets(hmac, md5) && Answerable(d, a) && TlvContainer(client, c) && !client.IsVirtual(Plain(c))
    requires Frames(AnswerWire(d, a)).Ok?
    requires var own := OfCode(Frames(AnswerWire(d, a)).value, c); own != [] && AllWithin(ValuesOf(own), 1)
    ensures !ReplyAccepted(d, Reader(client, client, enforceMa), hmac, md5, a)
  {
    EmptyTlvFails(client, c, Frames(AnswerWire(d, a)).value);
    ReplyExactly(d, Reader(client, client, enforceMa), hmac, md5, a);
  }

  /** A dictionary without attributes: every key holds a list. */
  const BARE := Dictionary(map[], map[], map[])

  /** Such a reply, from a server to which the code is no container: Response Authenticator and digest are
      right, and it is dropped. */
  lemma EmptyTlvWitness(client: Dictionary, enforceMa: bool, c: byte, authenticator: bytes) returns (a: Answer)
    requires TlvContainer(client, c) && !client.IsVirtual(Plain(c)) && |authenticator| == 16
    ensures Answerable(BARE, a) && SameOctets(BARE, a) && OneDigest(BARE, a.store, a.second)
    ensures forall hmac: Hmac, md5: Md5 :: SixteenOctets(hmac, md5) ==>
              !ReplyAccepted(BARE, Reader(client, client, enforceMa), hmac, md5, a)
  {
    var store: Store := [(Plain(c), Values([[]]))];
    a := Answer(ACCESS_ACCEPT, 0, ACCESS_REQUEST, [], authenticator, store, [], []);
    BareWire(c);
    FramesOfFlatten([Avp(c, []), Avp(80, ZEROS)]);
    forall hmac: Hmac, md5: Md5 | SixteenOctets(hmac, md5)
      ensures !ReplyAccepted(BARE, Reader(client, client, enforceMa), hmac, md5, a)
    {
      EmptyTlvDropped(BARE, client, enforceMa, hmac, md5, a, c);
    }
  }

  lemma BareWire(c: byte)
    requires c !in {26, 80}
    ensures var store: Store, avps := [(Plain(c), Values([[]]))], [Avp(c, []), Avp(80, ZEROS)];
            && Signable(BARE, store, []) && ZeroedWire(BARE, store, []) == Flatten(avps)
            && OneDigest(BARE, store, [])
            && OfCode(avps, c) == [Avp(c, [])] && ValuesOf(OfCode(avps, c)) == [[]]
  {
    var store: Store, avps := [(Plain(c), Values([[]]))], [Avp(c, []), Avp(80, ZEROS)];
    var all: Store := [(Plain(c), Values([[]])), (MA, Values([ZEROS]))];
    assert WithMa(store, ZEROS) == all by {
      FindSound(store, MA);
      assert store[0].0 != MA;
      PutAbsent(store, MA, Values([ZEROS]));
    }
    BareAvps(Plain(c), []);
    BareAvps(MA, ZEROS);
    StoreAvpsHead(BARE, all[1], []);
    StoreAvpsHead(BARE, all[0], [all[1]]);
    assert [all[0]] + [all[1]] == all && [all[1]] + [] == [all[1]];
    assert StoreAvps(BARE, all) == avps;
    VisibleAll(BARE, all);
    EmptySidecar(BARE, all);
    EncodeWithEffective(BARE, all, []);
    FlattenSize(avps);
    assert avps[1..] == [Avp(80, ZEROS)] && [Avp(80, ZEROS)][1..] == [];
    ZeroesExactly([Avp(c, [])], ZEROS, []);
    assert [Avp(c, [])] + [Avp(80, ZEROS)] + [] == avps;
    assert ValuesOf([Avp(c, [])]) == [[]] + ValuesOf([]);
    assert OfCode(avps, c) == [Avp(c, [])] + ([] + OfCode([], c));
  }

  lemma BareAvps(k: Key, v: bytes)
    requires k.Plain? && |v| <= 253
    ensures Encodable(BARE, k, Values([v])) && GroupAvps(BARE, k, Values([v])) == [Avp(k.code, v)]
  {
    assert ListToAvps(BARE, k, [v]) == [Avp(k.code, v)] + ListToAvps(BARE, k, []);
  }

  // --- One dictionary, everything restorable ----------------------------------------------------

  lemma RestorableCode(d: Dictionary, k: Key, s: Stored)
    requires Restorable(d, false, k, s) && k != MA
    ensures SentCode(d, k) != 80
  {
  }

  lemma RestorableDecoded(d: Dictionary, store: Store)
    requires AllRestorable(d, false, store) && AllEncodable(d, store)
    ensures DecodedStore(d, StoreAvps(d, store)) == store
  {
    StoreRestored(d, false, EMPTY, store);
    assert [] + ArrivedStore(d, store) == ArrivedStore(d, store);
    FinishRestores(d, false, store);
  }

  /** Between parties of one dictionary, a packet whose attributes all survive decoding has one digest, and
      its receiver keeps it whole and can encode the packet again. */
  lemma RestorableReadable(d: Dictionary, store: Store, side: Sidecar, enforceMa: bool)
    requires Signable(d, store, side) && NoneVirtual(d, Pending(d, store, side))
    requires AllRestorable(d, false, Visible(d, Effective(d, WithMa(store, ZEROS), side)))
    ensures OneDigest(d, store, side) && DigestWhole(d)
    ensures Readable(Reader(d, d, enforceMa), ZeroedWire(d, store, side))
  {
    var visible := Visible(d, Effective(d, WithMa(store, ZEROS), side));
    PendingWithMa(d, store, ZEROS, side);
    EncodeWithEffective(d, WithMa(store, ZEROS), side);
    RestorableParts(d, store, side);
    OneDigestByCode(d, store, side);
    FramesOfFlatten(StoreAvps(d, visible));
    RestorableDecoded(d, visible);
    VisibleIdempotent(d, Effective(d, WithMa(store, ZEROS), side));
  }

  lemma RestorableParts(d: Dictionary, store: Store, side: Sidecar)
    requires SendsDigest(d, side) && NoneVirtual(d, Pending(d, store, side))
    requires AllRestorable(d, false, Visible(d, Effective(d, WithMa(store, ZEROS), side)))
    ensures DigestWhole(d)
    ensures forall i :: 0 <= i < |SentAhead(d, store, side)| ==> SentCode(d, SentAhead(d, store, side)[i].0) != 80
    ensures forall i :: 0 <= i < |SentBehind(d, store, side)| ==> SentCode(d, SentBehind(d, store, side)[i].0) != 80
  {
    var ahead, behind, e := SentAhead(d, store, side), SentBehind(d, store, side), (MA, Values([ZEROS]));
    var visible := Visible(d, Effective(d, WithMa(store, ZEROS), side));
    assert visible == ahead + [e] + behind by {
      PendingWithMa(d, store, ZEROS, side);
      KeptAround(d, store, ZEROS, side);
      VisibleAppend(d, Kept(WithMa(store, ZEROS), side), Pending(d, store, side));
      VisibleAll(d, Pending(d, store, side));
    }
    assert visible[|ahead|] == e;
    WholeDigest(d);
    forall i | 0 <= i < |ahead| ensures SentCode(d, ahead[i].0) != 80 {
      assert visible[i] == ahead[i];
      RestorableCode(d, ahead[i].0, ahead[i].1);
    }
    forall i | 0 <= i < |behind| ensures SentCode(d, behind[i].0) != 80 {
      assert visible[|ahead| + 1 + i] == behind[i];
      RestorableCode(d, behind[i].0, behind[i].1);
    }
  }

  lemma WholeDigest(d: Dictionary)
    requires Restorable(d, false, MA, Values([ZEROS]))
    ensures DigestWhole(d)
  {
    var size := SizeOf(d, MA);
    if size.Some? { assert Unsplit([ZEROS][0], size.value); }
  }

  lemma {:induction false} VisibleIdempotent(d: Dictionary, store: Store)
    ensures Visible(d, Visible(d, store)) == Visible(d, store)
  {
    if store != [] {
      VisibleIdempotent(d, store[1..]);
      assert !d.IsVirtual(store[0].0) ==> ([store[0]] + Visible(d, store[1..]))[1..] == Visible(d, store[1..]);
    }
  }
}
