/** The packet object of `packet.py`: a store, two reassembly dictionaries and header fields, all
    updated in place by the decoder. */
module PacketObject {
  import opened Wrappers
  import opened Bytes
  import opened OrderedMaps
  import opened Dictionaries
  import opened Wire
  import opened Trees
  import opened Decoding

  /** The two reassembly dictionaries hold different kinds of keys. */
  ghost predicate Separate(long: map<Slot, bytes>, vsa: map<Slot, bytes>) {
    (forall s :: s in long ==> !s.VsaSlot?) && (forall s :: s in vsa ==> s.VsaSlot?)
  }

  lemma LongReassembly(long: map<Slot, bytes>, vsa: map<Slot, bytes>, slot: Slot, more: bool, chunk: bytes)
    requires Separate(long, vsa) && !slot.VsaSlot?
    ensures var (b, done) := Reassemble(long, slot, more, chunk);
            Separate(b, vsa) && Reassemble(long + vsa, slot, more, chunk) == (b + vsa, done)
  {
    var (b, done) := Reassemble(long, slot, more, chunk);
    assert b + vsa == Reassemble(long + vsa, slot, more, chunk).0;
  }

  lemma VsaReassembly(long: map<Slot, bytes>, vsa: map<Slot, bytes>, slot: Slot, more: bool, chunk: bytes)
    requires Separate(long, vsa) && slot.VsaSlot?
    ensures var (b, done) := Reassemble(vsa, slot, more, chunk);
            Separate(long, b) && Reassemble(long + vsa, slot, more, chunk) == (long + b, done)
  {
    var (b, done) := Reassemble(vsa, slot, more, chunk);
    assert long + b == Reassemble(long + vsa, slot, more, chunk).0;
  }

  /** One turn of the chain parser, in terms of offsets. */
  lemma ChainTurn(d: Dictionary, parent: Option<Attribute>, t: Tree, data: bytes, loc: nat)
    requires loc + 2 <= |data| && data[loc + 1] >= 2
    ensures var end := if loc + data[loc + 1] <= |data| then loc + data[loc + 1] else |data|;
            DecodeChain(d, parent, t, data[loc..]) ==
            DecodeChain(d, parent, Absorb(d, parent, t, Avp(data[loc], data[loc + 2..end])), data[end..])
  {
    var end := if loc + data[loc + 1] <= |data| then loc + data[loc + 1] else |data|;
    Slices(data, loc, 2, end - loc);
  }

  /** The chain parser's loop, recursing into nested containers. */
  method ParseChain(d: Dictionary, parent: Option<Attribute>, target: Tree, data: bytes) returns (t: Tree)
    ensures t == DecodeChain(d, parent, target, data)
    decreases |data|, 0
  {
    t := target;
    var loc := 0;
    assert data[0..] == data;
    while loc < |data|
      invariant 0 <= loc
      invariant loc <= |data| ==> DecodeChain(d, parent, t, data[loc..]) == DecodeChain(d, parent, target, data)
      invariant loc > |data| ==> t == DecodeChain(d, parent, target, data)
      decreases |data| - loc
    {
      if loc + 2 > |data| { break; }
      var atype: byte, length: nat := data[loc], data[loc + 1];
      if length < 2 { break; }
      ChainTurn(d, parent, t, data, loc);
      var end := if loc + length <= |data| then loc + length else |data|;
      t := ParseElement(d, parent, t, atype, data[loc + 2..end]);
      loc := loc + length;
    }
  }

  /** The body of the loop: a nested container is parsed in place, anything else is listed. */
  method ParseElement(d: Dictionary, parent: Option<Attribute>, target: Tree, atype: byte, inner: bytes)
    returns (t: Tree)
    ensures t == Absorb(d, parent, target, Avp(atype, inner))
    decreases |inner|, 1
  {
    var here := Find(target, atype);
    if d.IsNested(parent, atype) {
      var nested := if here.Some? && here.value.Node? then here.value.items else [];
      nested := ParseChain(d, d.Child(parent, atype), nested, inner);
      t := Put(target, atype, Node(nested));
    } else {
      var values := if here.Some? && here.value.Values? then here.value.vals else [];
      t := Put(target, atype, Values(values + [inner]));
    }
  }

  class Packet {
    const dict: Dictionary
    const v11: bool
    var code: byte
    var id: byte
    var authenticator: Option<bytes>
    var token: Option<bytes>
    var store: Store
    var longExtBuf: map<Slot, bytes>
    var continuationBuf: map<Slot, bytes>
    var messageAuthenticator: bool

    ghost predicate Valid()
      reads this
    {
      StoreShaped(dict, store) && Separate(longExtBuf, continuationBuf)
    }

    /** What the specification folds over. */
    ghost function Contents(): State
      reads this
    {
      State(store, longExtBuf + continuationBuf, messageAuthenticator)
    }

    constructor (dict: Dictionary, v11: bool, code: byte, id: byte, authenticator: Option<bytes>)
      ensures Valid() && Contents() == EMPTY
      ensures this.dict == dict && this.v11 == v11
      ensures this.code == code && this.id == id && this.authenticator == authenticator && token == None
    {
      this.dict := dict;
      this.v11 := v11;
      this.code := code;
      this.id := id;
      this.authenticator := authenticator;
      token := None;
      store := [];
      longExtBuf := map[];
      continuationBuf := map[];
      messageAuthenticator := false;
    }

    // --- Storing one value --------------------------------------------------------------------

    /** `self.setdefault(key, []).append(value)`: never meets a map. */
    method AppendValue(key: Key, value: bytes)
      requires Valid() && !HoldsTree(dict, key)
      modifies this`store
      ensures Valid() && store == Append(old(store), key, value)
    {
      AppendShaped(dict, store, key, value);
      FindShaped(dict, store, key);
      var here := Find(store, key);
      if here.Some? {
        assert here.value.Values?;
        store := Put(store, key, Values(here.value.vals + [value]));
      } else {
        store := Put(store, key, Values([value]));
        assert [] + [value] == [value];
      }
    }

    /** `_pkt_decode_tlv_attribute`: never meets a list. */
    method DecodeTlvAttribute(key: Key, data: bytes)
      requires Valid() && HoldsTree(dict, key)
      modifies this`store
      ensures Valid() && store == TlvInto(dict, old(store), key, data)
    {
      TlvIntoShaped(dict, store, key, data);
      FindShaped(dict, store, key);
      var here := Find(store, key);
      var sub := if here.Some? then here.value.items else [];
      sub := ParseChain(dict, dict.AttrOf(key), sub, data);
      store := Put(store, key, Node(sub));
    }

    /** One sub-attribute value of an extended or long-extended container. */
    method StoreSlot(parent: byte, ext: byte, payload: bytes)
      requires Valid() && HoldsTree(dict, Plain(parent))
      modifies this`store
      ensures Valid() && store == SlotInto(dict, old(store), parent, Avp(ext, payload))
    {
      SlotIntoShaped(dict, store, parent, Avp(ext, payload));
      FindShaped(dict, store, Plain(parent));
      var here := Find(store, Plain(parent));
      var sub := if here.Some? then here.value.items else [];
      sub := ParseElement(dict, dict.AttrOf(Plain(parent)), sub, ext, payload);
      store := Put(store, Plain(parent), Node(sub));
    }

    // --- Extended attributes ------------------------------------------------------------------

    /** `_pkt_decode_extended`. */
    method DecodeExtendedValue(parent: byte, value: bytes)
      requires Valid() && HoldsTree(dict, Plain(parent))
      modifies this`store
      ensures Valid() && store == DecodeExtended(dict, old(store), parent, value)
    {
      if value == [] { return; }
      var ext, payload := value[0], value[1..];
      if |payload| >= 5 && dict.IsEvsSlot(parent, ext) {
        AppendValue(Evs(parent, ext, FromBigEndian(payload[..4]), payload[4]), payload[5..]);
      } else {
        StoreSlot(parent, ext, payload);
      }
    }

    /** `_pkt_decode_long_extended_fragment`. */
    method DecodeLongExtendedFragment(parent: byte, value: bytes)
      requires Valid() && HoldsTree(dict, Plain(parent))
      modifies this`store, this`longExtBuf
      ensures Valid() && Contents() == DecodeLongExtended(dict, old(Contents()), parent, value)
    {
      if |value| < 2 { return; }
      var ext, flags, payload := value[0], value[1], value[2..];
      if |payload| >= 5 && dict.IsEvsSlot(parent, ext) {
        var vendor, vtype := FromBigEndian(payload[..4]), payload[4];
        var done := Extend(EvsSlot(parent, ext, vendor, vtype), flags, payload[5..]);
        if done.Some? { AppendValue(Evs(parent, ext, vendor, vtype), done.value); }
      } else {
        var done := Extend(LongSlot(parent, ext), flags, payload);
        if done.Some? { StoreSlot(parent, ext, done.value); }
      }
    }

    /** A fragment joins its buffer, which is taken out once complete. */
    method Extend(slot: Slot, flags: byte, chunk: bytes) returns (done: Option<bytes>)
      requires Valid() && !slot.VsaSlot?
      modifies this`longExtBuf
      ensures Valid()
      ensures (Contents().buffers, done) == Reassemble(old(Contents().buffers), slot, flags >= MORE_FLAG, chunk)
    {
      LongReassembly(longExtBuf, continuationBuf, slot, flags >= MORE_FLAG, chunk);
      var buf := (if slot in longExtBuf then longExtBuf[slot] else []) + chunk;
      longExtBuf := longExtBuf[slot := buf];
      if flags >= MORE_FLAG { return None; }
      longExtBuf := longExtBuf - {slot};
      assert longExtBuf == old(longExtBuf) - {slot};
      return Some(buf);
    }

    // --- Vendor-Specific ----------------------------------------------------------------------

    method ExtendVsa(slot: Slot, flags: byte, chunk: bytes) returns (done: Option<bytes>)
      requires Valid() && slot.VsaSlot?
      modifies this`continuationBuf
      ensures Valid()
      ensures (Contents().buffers, done) == Reassemble(old(Contents().buffers), slot, flags >= MORE_FLAG, chunk)
    {
      VsaReassembly(longExtBuf, continuationBuf, slot, flags >= MORE_FLAG, chunk);
      var buf := (if slot in continuationBuf then continuationBuf[slot] else []) + chunk;
      continuationBuf := continuationBuf[slot := buf];
      if flags >= MORE_FLAG { return None; }
      continuationBuf := continuationBuf - {slot};
      assert continuationBuf == old(continuationBuf) - {slot};
      return Some(buf);
    }

    /** A complete sub-attribute is parsed in place or collected. */
    method EmitSub(key: Key, payload: bytes, collected: Items) returns (items: Items)
      requires Valid() && key.Vsa?
      requires forall i :: 0 <= i < |collected| ==> !HoldsTree(dict, collected[i].0)
      modifies this`store
      ensures Valid() && (Contents(), items) == Emit(dict, old(Contents()), key, payload, collected)
      ensures forall i :: 0 <= i < |items| ==> !HoldsTree(dict, items[i].0)
    {
      if dict.IsKind(key, Tlv) {
        DecodeTlvAttribute(key, payload);
        items := collected;
      } else {
        items := collected + [(key, payload)];
      }
    }

    /** `_pkt_decode_vendor_attribute`. */
    method DecodeVendorAttribute(data: bytes) returns (items: Items)
      requires Valid()
      modifies this`store, this`continuationBuf
      ensures Valid() && (Contents(), items) == DecodeVendor(dict, old(Contents()), data)
      ensures forall i :: 0 <= i < |items| ==> !HoldsTree(dict, items[i].0)
    {
      if |data| < 4 { return [(Plain(26), data)]; }
      var vendor := FromBigEndian(data[..4]);
      var f := dict.FormatOf(vendor);
      var inner := data[4..];
      if |inner| < f.typeLen + f.lenLen { return [(Plain(26), data)]; }
      var ok, tlvs := DecodeSubs(vendor, f, inner);
      return if ok then tlvs else [(Plain(26), data)];
    }

    /** The sub-attribute loop; not ok stands for its early returns. */
    method DecodeSubs(vendor: nat, f: LegalFormat, inner: bytes) returns (ok: bool, tlvs: Items)
      requires Valid()
      modifies this`store, this`continuationBuf
      ensures Valid()
      ensures (Contents(), if ok then Some(tlvs) else None) == VendorLoop(dict, vendor, f, inner, old(Contents()), [])
      ensures forall i :: 0 <= i < |tlvs| ==> !HoldsTree(dict, tlvs[i].0)
    {
      tlvs := [];
      var rest := inner;
      while |rest| >= f.typeLen + f.lenLen
        invariant Valid() && forall i :: 0 <= i < |tlvs| ==> !HoldsTree(dict, tlvs[i].0)
        invariant VendorLoop(dict, vendor, f, rest, Contents(), tlvs) ==
                  VendorLoop(dict, vendor, f, inner, old(Contents()), [])
        decreases |rest|
      {
        var fine, length := SubLength(f, rest);
        if !fine { return false, tlvs; }
        fine, tlvs := DecodeSub(vendor, f, rest, length, tlvs);
        if !fine { return false, tlvs; }
        rest := rest[length..];
        if f.lenLen == 0 { break; }
      }
      return rest == [], tlvs;
    }

    /** The octets the sub-attribute at the start of `rest` takes, header included. */
    method SubLength(f: LegalFormat, rest: bytes) returns (ok: bool, length: nat)
      requires f.typeLen + f.lenLen <= |rest|
      ensures SubEnd(f, rest) == if ok then Some(length) else None
      ensures f.lenLen == 0 ==> ok && length == |rest|
    {
      if f.lenLen == 0 { return true, |rest|; }
      length := FromBigEndian(rest[f.typeLen..f.typeLen + f.lenLen]);
      ok := f.typeLen + f.lenLen <= length <= |rest|;
    }

    /** The value of one sub-attribute: a fragment, a nested map, or a plain value. */
    method DecodeSub(vendor: nat, f: LegalFormat, rest: bytes, end: nat, collected: Items)
      returns (ok: bool, tlvs: Items)
      requires Valid() && f.typeLen + f.lenLen <= |rest| && SubEnd(f, rest) == Some(end)
      requires forall i :: 0 <= i < |collected| ==> !HoldsTree(dict, collected[i].0)
      modifies this`store, this`continuationBuf
      ensures Valid() && forall i :: 0 <= i < |tlvs| ==> !HoldsTree(dict, tlvs[i].0)
      ensures !ok ==> VendorLoop(dict, vendor, f, rest, old(Contents()), collected) == (Contents(), None)
      ensures ok ==> VendorLoop(dict, vendor, f, rest, old(Contents()), collected) ==
                     VendorLoop(dict, vendor, f, rest[end..], Contents(), tlvs)
    {
      var vtype := FromBigEndian(rest[..f.typeLen]);
      var start := f.typeLen + f.lenLen;
      tlvs := collected;
      if f.continuation {
        if start >= end { return false, tlvs; }
        var done := ExtendVsa(VsaSlot(vendor, vtype), rest[start], rest[start + 1..end]);
        if done.Some? { tlvs := EmitSub(Vsa(vendor, vtype), done.value, tlvs); }
      } else {
        tlvs := EmitSub(Vsa(vendor, vtype), rest[start..end], tlvs);
      }
      return true, tlvs;
    }

    // --- The attribute loop -------------------------------------------------------------------

    /** One turn of the main loop. */
    method DecodeAttribute(key: byte, value: bytes)
      requires Valid()
      modifies this`store, this`longExtBuf, this`continuationBuf, this`messageAuthenticator
      ensures Valid() && Contents() == DecodeAvp(dict, v11, old(Contents()), Avp(key, value))
    {
      if key == 26 {
        var items := DecodeVendorAttribute(value);
        StoreItems(items);
      } else if key == 80 {
        if !v11 {
          messageAuthenticator := true;
          AppendValue(Plain(80), value);
        }
      } else if dict.IsKind(Plain(key), Tlv) {
        DecodeTlvAttribute(Plain(key), value);
      } else if dict.IsKind(Plain(key), Extended) {
        DecodeExtendedValue(key, value);
      } else if dict.IsKind(Plain(key), LongExtended) {
        DecodeLongExtendedFragment(key, value);
      } else {
        AppendValue(Plain(key), value);
      }
    }

    method StoreItems(items: Items)
      requires Valid() && forall i :: 0 <= i < |items| ==> !HoldsTree(dict, items[i].0)
      modifies this`store
      ensures Valid() && store == AppendAll(old(store), items)
    {
      assert items[0..] == items;
      for i := 0 to |items|
        invariant Valid() && AppendAll(store, items[i..]) == AppendAll(old(store), items)
      {
        assert items[i..][1..] == items[i + 1..];
        AppendValue(items[i].0, items[i].1);
      }
    }

    /** `decode_packet`; not ok is PacketError.  A packet refused for its header leaves the
        attributes alone, one refused for its framing may have absorbed some. */
    method DecodePacket(raw: bytes) returns (ok: bool)
      requires Valid()
      modifies this`code, this`id, this`authenticator, this`token, this`store, this`longExtBuf,
               this`continuationBuf, this`messageAuthenticator
      ensures Valid()
      ensures ok <==> WithFlag(DecodeMessage(dict, v11, raw), old(messageAuthenticator)).Ok?
      ensures ok ==>
                WithFlag(DecodeMessage(dict, v11, raw), old(messageAuthenticator)) ==
                Ok(Message(code, id, authenticator, if v11 then token else None, Contents()))
      ensures |raw| < 20 ==> code == old(code) && id == old(id) && authenticator == old(authenticator)
      ensures |raw| < 20 || |raw| != FromBigEndian(raw[2..4]) || |raw| > 8192 ==> !ok && Contents() == old(Contents())
    {
      if |raw| < 20 { return false; }
      code, id, authenticator := raw[0], raw[1], Some(raw[4..20]);
      var length := FromBigEndian(raw[2..4]);
      if v11 {
        token, authenticator, id := Some(raw[4..8]), None, 0;
      }
      if |raw| != length || length > 8192 { return false; }
      store, longExtBuf, continuationBuf := [], map[], map[];
      assert Contents() == WithEarlierFlag(EMPTY, old(messageAuthenticator));
      var framed := DecodeAttributes(raw[20..]);
      if !framed { return false; }
      FoldFlag(dict, v11, EMPTY, Frames(raw[20..]).value, old(messageAuthenticator));
      ghost var folded := store;
      MergeConcatAttributes();
      SplitArrayAttributes();
      assert store == Finish(dict, folded);
      return true;
    }

    method DecodeAttributes(data: bytes) returns (ok: bool)
      requires Valid()
      modifies this`store, this`longExtBuf, this`continuationBuf, this`messageAuthenticator
      ensures Valid()
      ensures (if ok then Ok(Contents()) else Err) == Decoded(dict, v11, old(Contents()), data)
    {
      var packet := data;
      while packet != []
        invariant Valid()
        invariant Decoded(dict, v11, Contents(), packet) == Decoded(dict, v11, old(Contents()), data)
        decreases |packet|
      {
        if |packet| < 2 { return false; }
        var length: nat := packet[1];
        if length < 2 { return false; }
        var end := if length <= |packet| then length else |packet|;
        DecodedNext(dict, v11, Contents(), packet, end);
        DecodeAttribute(packet[0], packet[2..end]);
        packet := packet[end..];
      }
      return true;
    }

    // --- After the loop -----------------------------------------------------------------------

    /** `_merge_concat_attributes`. */
    method MergeConcatAttributes()
      requires Valid()
      modifies this`store
      ensures Valid() && store == Mapped(old(store), (k, s) => MergedEntry(dict, k, s))
    {
      var keys := Keys(store);
      ghost var f := (k, s) => MergedEntry(dict, k, s);
      for i := 0 to |keys|
        invariant Valid() && Partly(old(store), store, f, i)
      {
        FindAt(store, i);
        var chunks := store[i].1;
        if dict.IsConcat(keys[i]) && chunks.Values? && |chunks.vals| > 1 {
          SetAt(store, i, Values([Join(chunks.vals)]));
          store := Put(store, keys[i], Values([Join(chunks.vals)]));
        }
      }
    }

    /** `_split_array_attributes`. */
    method SplitArrayAttributes()
      requires Valid()
      modifies this`store
      ensures Valid() && store == Mapped(old(store), (k, s) => SplitEntry(dict, k, s))
    {
      var keys := Keys(store);
      ghost var f := (k, s) => SplitEntry(dict, k, s);
      for i := 0 to |keys|
        invariant Valid() && Partly(old(store), store, f, i)
      {
        FindAt(store, i);
        var stored := store[i].1;
        if dict.IsArray(keys[i]) && stored.Values? {
          var size := ArraySize(dict.AttrOf(keys[i]).value.kind);
          if size.Some? {
            var split := SplitList(stored.vals, size.value);
            SetAt(store, i, Values(split));
            store := Put(store, keys[i], Values(split));
          }
        }
      }
    }
  }

  /** Every entry rewritten in place. */
  ghost function Mapped(m: Store, f: (Key, Stored) -> Stored): (r: Store)
    ensures |r| == |m|
  {
    seq(|m|, i requires 0 <= i < |m| => (m[i].0, f(m[i].0, m[i].1)))
  }

  ghost predicate Partly(m: Store, now: Store, f: (Key, Stored) -> Stored, n: nat) {
    && |now| == |m| && n <= |m|
    && (forall i :: 0 <= i < n ==> now[i] == (m[i].0, f(m[i].0, m[i].1)))
    && (forall i :: n <= i < |m| ==> now[i] == m[i])
  }

  lemma SetAt(m: Store, i: nat, s: Stored)
    requires Distinct(m) && i < |m|
    ensures Put(m, m[i].0, s) == m[i := (m[i].0, s)]
  {
    FindAt(m, i);
    var j := PutAt(m, m[i].0, s);
    assert j == i;
  }

  /** Framing and folding together. */
  function Decoded(d: Dictionary, v11: bool, st: State, data: bytes): Result<State> {
    match Frames(data)
    case Ok(avps) => Ok(Fold(d, v11, st, avps))
    case Err => Err
  }

  lemma DecodedNext(d: Dictionary, v11: bool, st: State, data: bytes, end: nat)
    requires |data| >= 2 && data[1] >= 2 && end == if data[1] <= |data| then data[1] else |data|
    ensures Decoded(d, v11, st, data) == Decoded(d, v11, DecodeAvp(d, v11, st, Avp(data[0], data[2..end])), data[end..])
  {
    var avp := Avp(data[0], data[2..end]);
    if Frames(data[end..]).Ok? {
      var rest := Frames(data[end..]).value;
      assert ([avp] + rest)[0] == avp && ([avp] + rest)[1..] == rest;
      assert Frames(data) == Ok([avp] + rest);
    }
  }

  /** One value of an array attribute as its elements. */
  function Elements(packed: bytes, size: nat): seq<bytes>
    requires size >= 1
  {
    if packed == [] || |packed| % size != 0 then [packed] else Chunks(packed, size)
  }

  lemma SplitNext(stored: seq<bytes>, size: nat, i: nat, done: seq<bytes>)
    requires size >= 1 && i < |stored|
    ensures done + SplitValues(stored[i..], size) ==
            done + Elements(stored[i], size) + SplitValues(stored[i + 1..], size)
  {
    assert stored[i..][1..] == stored[i + 1..];
  }

  method SplitList(stored: seq<bytes>, size: nat) returns (split: seq<bytes>)
    requires size >= 1
    ensures split == SplitValues(stored, size)
  {
    split := [];
    assert stored[0..] == stored;
    for i := 0 to |stored|
      invariant split + SplitValues(stored[i..], size) == SplitValues(stored, size)
    {
      SplitNext(stored, size, i, split);
      var packed := stored[i];
      if packed == [] || |packed| % size != 0 {
        split := split + [packed];
      } else {
        split := split + Chunks(packed, size);
      }
    }
  }

  /** A second decode into the same object keeps an earlier Message-Authenticator flag. */
  function WithFlag(m: Result<Message>, before: bool): Result<Message> {
    match m
    case Ok(x) => Ok(x.(state := WithEarlierFlag(x.state, before)))
    case Err => Err
  }
}
