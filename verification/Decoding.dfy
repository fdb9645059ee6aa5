/** Decoding of attributes as a fold over the packet state: the store being built and the
    reassembly buffers. */
module Decoding {
  import opened Wrappers
  import opened Bytes
  import opened OrderedMaps
  import opened Dictionaries
  import opened Wire
  import opened Trees

  type Store = seq<(Key, Stored)>

  /** Keys of the two reassembly dictionaries: long-extended fragments (plain and EVS) and
      vendor attributes with a continuation octet. */
  datatype Slot =
    | LongSlot(parent: byte, ext: byte)
    | EvsSlot(parent: byte, ext: byte, vendorId: nat, vendorType: byte)
    | VsaSlot(vendor: nat, vtype: nat)

  datatype State = State(store: Store, buffers: map<Slot, bytes>, hasMessageAuthenticator: bool)

  const EMPTY := State([], map[], false)

  const MORE_FLAG: byte := 0x80

  /** `setdefault(key, []).append(value)`. */
  function Append(store: Store, key: Key, value: bytes): Store {
    Put(store, key, Values(AsValues(Find(store, key)) + [value]))
  }

  /** `_pkt_decode_tlv_attribute`. */
  function TlvInto(d: Dictionary, store: Store, key: Key, data: bytes): Store {
    Put(store, key, Node(DecodeChain(d, d.AttrOf(key), AsTree(Find(store, key)), data)))
  }

  /** One sub-attribute of an extended or long-extended container: a nested chain when the slot
      is declared `tlv`, a list element otherwise. */
  function SlotInto(d: Dictionary, store: Store, parent: byte, a: Avp): Store {
    Put(store, Plain(parent), Node(Absorb(d, d.AttrOf(Plain(parent)), AsTree(Find(store, Plain(parent))), a)))
  }

  /** A fragment joins its buffer; the value is released when the More flag is clear. */
  function Reassemble(buffers: map<Slot, bytes>, slot: Slot, more: bool, chunk: bytes):
      (map<Slot, bytes>, Option<bytes>)
  {
    var joined := (if slot in buffers then buffers[slot] else []) + chunk;
    if more then (buffers[slot := joined], None) else (buffers - {slot}, Some(joined))
  }

  /** `_pkt_decode_extended`. */
  function DecodeExtended(d: Dictionary, store: Store, parent: byte, value: bytes): Store {
    if value == [] then store
    else
      var payload := value[1..];
      if |payload| >= 5 && d.IsEvsSlot(parent, value[0]) then
        Append(store, Evs(parent, value[0], FromBigEndian(payload[..4]), payload[4]), payload[5..])
      else
        SlotInto(d, store, parent, Avp(value[0], payload))
  }

  /** `_pkt_decode_long_extended_fragment`. */
  function DecodeLongExtended(d: Dictionary, st: State, parent: byte, value: bytes): State {
    if |value| < 2 then st
    else
      var more := value[1] >= MORE_FLAG;
      var payload := value[2..];
      if |payload| >= 5 && d.IsEvsSlot(parent, value[0]) then
        Receive(d, st, EvsSlot(parent, value[0], FromBigEndian(payload[..4]), payload[4]), more, payload[5..])
      else
        Receive(d, st, LongSlot(parent, value[0]), more, payload)
  }

  /** Where a completed value goes. */
  function Deliver(d: Dictionary, store: Store, slot: Slot, value: bytes): Store {
    match slot
    case LongSlot(parent, ext) => SlotInto(d, store, parent, Avp(ext, value))
    case EvsSlot(parent, ext, vendor, vtype) => Append(store, Evs(parent, ext, vendor, vtype), value)
    case VsaSlot(vendor, vtype) =>
      if d.IsKind(Vsa(vendor, vtype), Tlv) then TlvInto(d, store, Vsa(vendor, vtype), value)
      else Append(store, Vsa(vendor, vtype), value)
  }

  function Receive(d: Dictionary, st: State, slot: Slot, more: bool, chunk: bytes): State {
    var (buffers, done) := Reassemble(st.buffers, slot, more, chunk);
    var store := if done.Some? then Deliver(d, st.store, slot, done.value) else st.store;
    st.(buffers := buffers, store := store)
  }

  // --- Vendor-Specific ----------------------------------------------------------------------

  type Items = seq<(Key, bytes)>

  /** The end of the current sub-attribute inside `rest`; None when its length field is bad. */
  function SubEnd(f: LegalFormat, rest: bytes): (end: Option<nat>)
    requires |rest| >= f.typeLen + f.lenLen
    ensures end.Some? ==> f.typeLen + f.lenLen <= end.value <= |rest|
  {
    if f.lenLen == 0 then Some(|rest|)
    else
      var n := FromBigEndian(rest[f.typeLen..f.typeLen + f.lenLen]);
      if n < f.typeLen + f.lenLen || n > |rest| then None else Some(n)
  }

  /** The loop of `_pkt_decode_vendor_attribute`.  TLV sub-attributes and fragments are absorbed
      on the way; the other sub-attributes are collected.  None stands for a malformed payload. */
  function VendorLoop(d: Dictionary, vendor: nat, f: LegalFormat, rest: bytes, st: State, items: Items):
      (State, Option<Items>)
    decreases |rest|
  {
    var header := f.typeLen + f.lenLen;
    if |rest| < header then (st, if rest == [] then Some(items) else None)
    else
      var vtype := FromBigEndian(rest[..f.typeLen]);
      match SubEnd(f, rest)
      case None => (st, None)
      case Some(end) =>
        if f.continuation then
          if header >= end then (st, None)
          else
            var (buffers, done) :=
              Reassemble(st.buffers, VsaSlot(vendor, vtype), rest[header] >= MORE_FLAG, rest[header + 1..end]);
            var st' := st.(buffers := buffers);
            if done.None? then VendorLoop(d, vendor, f, rest[end..], st', items)
            else
              var (st'', items') := Emit(d, st', Vsa(vendor, vtype), done.value, items);
              VendorLoop(d, vendor, f, rest[end..], st'', items')
        else
          var (st', items') := Emit(d, st, Vsa(vendor, vtype), rest[header..end], items);
          VendorLoop(d, vendor, f, rest[end..], st', items')
  }

  function Emit(d: Dictionary, st: State, key: Key, payload: bytes, items: Items): (State, Items) {
    if d.IsKind(key, Tlv) then (st.(store := TlvInto(d, st.store, key, payload)), items)
    else (st, items + [(key, payload)])
  }

  /** `_pkt_decode_vendor_attribute`: a malformed payload comes back whole under code 26. */
  function DecodeVendor(d: Dictionary, st: State, data: bytes): (State, Items) {
    if |data| < 4 then (st, [(Plain(26), data)])
    else
      var vendor := FromBigEndian(data[..4]);
      var f := d.FormatOf(vendor);
      if |data| - 4 < f.typeLen + f.lenLen then (st, [(Plain(26), data)])
      else
        var (st', items) := VendorLoop(d, vendor, f, data[4..], st, []);
        (st', if items.Some? then items.value else [(Plain(26), data)])
  }

  function AppendAll(store: Store, items: Items): Store
    decreases |items|
  {
    if items == [] then store else AppendAll(Append(store, items[0].0, items[0].1), items[1..])
  }

  // --- One attribute, all attributes --------------------------------------------------------

  /** One turn of the main loop.  `v11` is the RADIUS/1.1 profile, which discards code 80. */
  function DecodeAvp(d: Dictionary, v11: bool, st: State, a: Avp): State {
    if a.key == 26 then
      var (st', items) := DecodeVendor(d, st, a.value);
      st'.(store := AppendAll(st'.store, items))
    else if a.key == 80 then
      if v11 then st
      else st.(store := Append(st.store, Plain(80), a.value), hasMessageAuthenticator := true)
    else if d.IsKind(Plain(a.key), Tlv) then st.(store := TlvInto(d, st.store, Plain(a.key), a.value))
    else if d.IsKind(Plain(a.key), Extended) then
      st.(store := DecodeExtended(d, st.store, a.key, a.value))
    else if d.IsKind(Plain(a.key), LongExtended) then DecodeLongExtended(d, st, a.key, a.value)
    else st.(store := Append(st.store, Plain(a.key), a.value))
  }

  function Fold(d: Dictionary, v11: bool, st: State, avps: seq<Avp>): State
    decreases |avps|
  {
    if avps == [] then st else Fold(d, v11, DecodeAvp(d, v11, st, avps[0]), avps[1..])
  }

  lemma {:induction false} FoldAppend(d: Dictionary, v11: bool, st: State, a: seq<Avp>, b: seq<Avp>)
    ensures Fold(d, v11, st, a + b) == Fold(d, v11, Fold(d, v11, st, a), b)
    decreases |a|
  {
    if a == [] {
      assert a + b == b;
    } else {
      assert (a + b)[1..] == a[1..] + b;
      FoldAppend(d, v11, DecodeAvp(d, v11, st, a[0]), a[1..], b);
    }
  }

  // --- The flag is only ever set ----------------------------------------------------------------

  function WithEarlierFlag(st: State, before: bool): State {
    st.(hasMessageAuthenticator := st.hasMessageAuthenticator || before)
  }

  lemma {:induction false} VendorLoopFlag(d: Dictionary, vendor: nat, f: LegalFormat, rest: bytes, st: State,
                                          items: Items, before: bool)
    ensures var (st', items') := VendorLoop(d, vendor, f, rest, st, items);
            VendorLoop(d, vendor, f, rest, WithEarlierFlag(st, before), items) == (WithEarlierFlag(st', before), items')
    decreases |rest|
  {
    var header := f.typeLen + f.lenLen;
    if |rest| >= header && SubEnd(f, rest).Some? {
      var vtype := FromBigEndian(rest[..f.typeLen]);
      var end := SubEnd(f, rest).value;
      var key := Vsa(vendor, vtype);
      if f.continuation {
        if header < end {
          var (buffers, done) :=
            Reassemble(st.buffers, VsaSlot(vendor, vtype), rest[header] >= MORE_FLAG, rest[header + 1..end]);
          var st' := st.(buffers := buffers);
          if done.None? {
            VendorLoopFlag(d, vendor, f, rest[end..], st', items, before);
          } else {
            var (st'', items') := Emit(d, st', key, done.value, items);
            VendorLoopFlag(d, vendor, f, rest[end..], st'', items', before);
          }
        }
      } else {
        var (st', items') := Emit(d, st, key, rest[header..end], items);
        VendorLoopFlag(d, vendor, f, rest[end..], st', items', before);
      }
    }
  }

  lemma DecodeAvpFlag(d: Dictionary, v11: bool, st: State, a: Avp, before: bool)
    ensures DecodeAvp(d, v11, WithEarlierFlag(st, before), a) == WithEarlierFlag(DecodeAvp(d, v11, st, a), before)
  {
    if a.key == 26 && |a.value| >= 4 {
      var vendor := FromBigEndian(a.value[..4]);
      VendorLoopFlag(d, vendor, d.FormatOf(vendor), a.value[4..], st, [], before);
    }
  }

  lemma {:induction false} FoldFlag(d: Dictionary, v11: bool, st: State, avps: seq<Avp>, before: bool)
    ensures Fold(d, v11, WithEarlierFlag(st, before), avps) == WithEarlierFlag(Fold(d, v11, st, avps), before)
    decreases |avps|
  {
    if avps != [] {
      DecodeAvpFlag(d, v11, st, avps[0], before);
      FoldFlag(d, v11, DecodeAvp(d, v11, st, avps[0]), avps[1..], before);
    }
  }

  // --- After the loop -----------------------------------------------------------------------

  /** `_merge_concat_attributes` for one entry. */
  function MergedEntry(d: Dictionary, key: Key, s: Stored): Stored {
    if d.IsConcat(key) && s.Values? && |s.vals| > 1 then Values([Join(s.vals)]) else s
  }

  function SplitValues(vals: seq<bytes>, size: nat): seq<bytes>
    requires size >= 1
  {
    if vals == [] then []
    else
      (if vals[0] == [] || |vals[0]| % size != 0 then [vals[0]] else Chunks(vals[0], size))
      + SplitValues(vals[1..], size)
  }

  /** `_split_array_attributes` for one entry. */
  function SplitEntry(d: Dictionary, key: Key, s: Stored): Stored {
    if d.IsArray(key) && ArraySize(d.AttrOf(key).value.kind).Some? && s.Values?
    then Values(SplitValues(s.vals, ArraySize(d.AttrOf(key).value.kind).value))
    else s
  }

  function FinishEntry(d: Dictionary, key: Key, s: Stored): Stored {
    SplitEntry(d, key, MergedEntry(d, key, s))
  }

  function Finish(d: Dictionary, store: Store): (r: Store)
    ensures |r| == |store| && forall i :: 0 <= i < |store| ==> r[i].0 == store[i].0
  {
    seq(|store|, i requires 0 <= i < |store| => (store[i].0, FinishEntry(d, store[i].0, store[i].1)))
  }

  // --- The whole packet ---------------------------------------------------------------------

  datatype Message = Message(
    code: byte,
    id: byte,
    authenticator: Option<bytes>,
    token: Option<bytes>,
    state: State)

  /** `decode_packet`.  Err is PacketError: short header, wrong or excessive length, bad framing. */
  function DecodeMessage(d: Dictionary, v11: bool, raw: bytes): Result<Message> {
    if |raw| < 20 then Err
    else
      var length := FromBigEndian(raw[2..4]);
      if |raw| != length || length > 8192 then Err
      else
        var avps :- Frames(raw[20..]);
        var st := Fold(d, v11, EMPTY, avps);
        Ok(Message(
          raw[0],
          if v11 then 0 else raw[1],
          if v11 then None else Some(raw[4..20]),
          if v11 then Some(raw[4..8]) else None,
          st.(store := Finish(d, st.store))))
  }

  // --- Shape of the store -------------------------------------------------------------------

  /** The keys whose stored value is a map. */
  predicate HoldsTree(d: Dictionary, key: Key) {
    match key
    case Plain(c) =>
      c !in {26, 80} && (d.IsKind(key, Tlv) || d.IsKind(key, Extended) || d.IsKind(key, LongExtended))
    case Vsa(_, _) => d.IsKind(key, Tlv)
    case Evs(_, _, _, _) => false
  }

  predicate EntryShaped(d: Dictionary, key: Key, s: Stored) {
    (s.Node? <==> HoldsTree(d, key)) && (s.Node? ==> Shaped(d, d.AttrOf(key), s.items))
  }

  /** No key twice, and lists and maps exactly where the dictionary says. */
  predicate StoreShaped(d: Dictionary, store: Store) {
    Distinct(store) && forall i :: 0 <= i < |store| ==> EntryShaped(d, store[i].0, store[i].1)
  }

  lemma PutStoreShaped(d: Dictionary, store: Store, key: Key, s: Stored)
    requires StoreShaped(d, store) && EntryShaped(d, key, s)
    ensures StoreShaped(d, Put(store, key, s))
  {
    PutDistinct(store, key, s);
    PutEntries(store, key, s);
  }

  lemma FindShaped(d: Dictionary, store: Store, key: Key)
    requires StoreShaped(d, store)
    ensures Has(store, key) ==> EntryShaped(d, key, Find(store, key).value)
  {
    FindSound(store, key);
  }

  lemma AppendShaped(d: Dictionary, store: Store, key: Key, value: bytes)
    requires StoreShaped(d, store) && !HoldsTree(d, key)
    ensures StoreShaped(d, Append(store, key, value))
  {
    PutStoreShaped(d, store, key, Values(AsValues(Find(store, key)) + [value]));
  }

  lemma TlvIntoShaped(d: Dictionary, store: Store, key: Key, data: bytes)
    requires StoreShaped(d, store) && HoldsTree(d, key)
    ensures StoreShaped(d, TlvInto(d, store, key, data))
  {
    FindShaped(d, store, key);
    DecodeChainShaped(d, d.AttrOf(key), AsTree(Find(store, key)), data);
    PutStoreShaped(d, store, key, Node(DecodeChain(d, d.AttrOf(key), AsTree(Find(store, key)), data)));
  }

  lemma SlotIntoShaped(d: Dictionary, store: Store, parent: byte, a: Avp)
    requires StoreShaped(d, store) && HoldsTree(d, Plain(parent))
    ensures StoreShaped(d, SlotInto(d, store, parent, a))
  {
    var key := Plain(parent);
    FindShaped(d, store, key);
    AbsorbShaped(d, d.AttrOf(key), AsTree(Find(store, key)), a);
    PutStoreShaped(d, store, key, Node(Absorb(d, d.AttrOf(key), AsTree(Find(store, key)), a)));
  }

  lemma {:induction false} AppendAllShaped(d: Dictionary, store: Store, items: Items)
    requires StoreShaped(d, store)
    requires forall i :: 0 <= i < |items| ==> !HoldsTree(d, items[i].0)
    ensures StoreShaped(d, AppendAll(store, items))
    decreases |items|
  {
    if items != [] {
      AppendShaped(d, store, items[0].0, items[0].1);
      AppendAllShaped(d, Append(store, items[0].0, items[0].1), items[1..]);
    }
  }

  lemma EmitShaped(d: Dictionary, st: State, key: Key, payload: bytes, items: Items)
    requires StoreShaped(d, st.store) && key.Vsa?
    requires forall i :: 0 <= i < |items| ==> !HoldsTree(d, items[i].0)
    ensures var (st', items') := Emit(d, st, key, payload, items);
            StoreShaped(d, st'.store) && forall i :: 0 <= i < |items'| ==> !HoldsTree(d, items'[i].0)
  {
    if d.IsKind(key, Tlv) { TlvIntoShaped(d, st.store, key, payload); }
  }

  lemma {:induction false} VendorLoopShaped(d: Dictionary, vendor: nat, f: LegalFormat, rest: bytes, st: State,
                                            items: Items)
    requires StoreShaped(d, st.store)
    requires forall i :: 0 <= i < |items| ==> !HoldsTree(d, items[i].0)
    ensures var (st', items') := VendorLoop(d, vendor, f, rest, st, items);
            StoreShaped(d, st'.store)
            && (items'.Some? ==> forall i :: 0 <= i < |items'.value| ==> !HoldsTree(d, items'.value[i].0))
    decreases |rest|
  {
    var header := f.typeLen + f.lenLen;
    if |rest| >= header && SubEnd(f, rest).Some? {
      var vtype := FromBigEndian(rest[..f.typeLen]);
      var end := SubEnd(f, rest).value;
      var key := Vsa(vendor, vtype);
      if f.continuation {
        if header < end {
          var (buffers, done) :=
            Reassemble(st.buffers, VsaSlot(vendor, vtype), rest[header] >= MORE_FLAG, rest[header + 1..end]);
          var st' := st.(buffers := buffers);
          if done.None? {
            VendorLoopShaped(d, vendor, f, rest[end..], st', items);
          } else {
            EmitShaped(d, st', key, done.value, items);
            var (st'', items') := Emit(d, st', key, done.value, items);
            VendorLoopShaped(d, vendor, f, rest[end..], st'', items');
          }
        }
      } else {
        EmitShaped(d, st, key, rest[header..end], items);
        var (st', items') := Emit(d, st, key, rest[header..end], items);
        VendorLoopShaped(d, vendor, f, rest[end..], st', items');
      }
    }
  }

  lemma ReceiveShaped(d: Dictionary, st: State, slot: Slot, more: bool, chunk: bytes)
    requires StoreShaped(d, st.store)
    requires slot.LongSlot? ==> HoldsTree(d, Plain(slot.parent))
    ensures StoreShaped(d, Receive(d, st, slot, more, chunk).store)
  {
    var (buffers, done) := Reassemble(st.buffers, slot, more, chunk);
    if done.Some? {
      match slot
      case LongSlot(parent, ext) => SlotIntoShaped(d, st.store, parent, Avp(ext, done.value));
      case EvsSlot(parent, ext, vendor, vtype) =>
        AppendShaped(d, st.store, Evs(parent, ext, vendor, vtype), done.value);
      case VsaSlot(vendor, vtype) =>
        if d.IsKind(Vsa(vendor, vtype), Tlv) {
          TlvIntoShaped(d, st.store, Vsa(vendor, vtype), done.value);
        } else {
          AppendShaped(d, st.store, Vsa(vendor, vtype), done.value);
        }
    }
  }

  /** Every attribute keeps the shape, so no append ever meets a map and no map lookup a list. */
  lemma DecodeVendorShaped(d: Dictionary, st: State, data: bytes)
    requires StoreShaped(d, st.store)
    ensures var (st', items) := DecodeVendor(d, st, data); StoreShaped(d, AppendAll(st'.store, items))
  {
    if |data| >= 4 {
      var vendor := FromBigEndian(data[..4]);
      VendorLoopShaped(d, vendor, d.FormatOf(vendor), data[4..], st, []);
    }
    var (st', items) := DecodeVendor(d, st, data);
    AppendAllShaped(d, st'.store, items);
  }

  lemma DecodeExtendedShaped(d: Dictionary, store: Store, parent: byte, value: bytes)
    requires StoreShaped(d, store) && parent !in {26, 80} && d.IsKind(Plain(parent), Extended)
    ensures StoreShaped(d, DecodeExtended(d, store, parent, value))
  {
    if value != [] {
      var payload := value[1..];
      if |payload| >= 5 && d.IsEvsSlot(parent, value[0]) {
        AppendShaped(d, store, Evs(parent, value[0], FromBigEndian(payload[..4]), payload[4]), payload[5..]);
      } else {
        SlotIntoShaped(d, store, parent, Avp(value[0], payload));
      }
    }
  }

  lemma DecodeLongExtendedShaped(d: Dictionary, st: State, parent: byte, value: bytes)
    requires StoreShaped(d, st.store) && parent !in {26, 80} && d.IsKind(Plain(parent), LongExtended)
    ensures StoreShaped(d, DecodeLongExtended(d, st, parent, value).store)
  {
    if |value| >= 2 {
      var more, payload := value[1] >= MORE_FLAG, value[2..];
      if |payload| >= 5 && d.IsEvsSlot(parent, value[0]) {
        ReceiveShaped(d, st, EvsSlot(parent, value[0], FromBigEndian(payload[..4]), payload[4]), more, payload[5..]);
      } else {
        ReceiveShaped(d, st, LongSlot(parent, value[0]), more, payload);
      }
    }
  }

  lemma DecodeAvpShaped(d: Dictionary, v11: bool, st: State, a: Avp)
    requires StoreShaped(d, st.store)
    ensures StoreShaped(d, DecodeAvp(d, v11, st, a).store)
  {
    var key := Plain(a.key);
    if a.key == 26 {
      DecodeVendorShaped(d, st, a.value);
    } else if a.key == 80 {
      AppendShaped(d, st.store, key, a.value);
    } else if d.IsKind(key, Tlv) {
      TlvIntoShaped(d, st.store, key, a.value);
    } else if d.IsKind(key, Extended) {
      DecodeExtendedShaped(d, st.store, a.key, a.value);
    } else if d.IsKind(key, LongExtended) {
      DecodeLongExtendedShaped(d, st, a.key, a.value);
    } else {
      AppendShaped(d, st.store, key, a.value);
    }
  }

  lemma {:induction false} FoldShaped(d: Dictionary, v11: bool, st: State, avps: seq<Avp>)
    requires StoreShaped(d, st.store)
    ensures StoreShaped(d, Fold(d, v11, st, avps).store)
    decreases |avps|
  {
    if avps != [] {
      DecodeAvpShaped(d, v11, st, avps[0]);
      FoldShaped(d, v11, DecodeAvp(d, v11, st, avps[0]), avps[1..]);
    }
  }
}
