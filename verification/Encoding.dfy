/** Encoding of a stored entry as attributes, and exactly when it succeeds. */
module Encoding {
  import opened Wrappers
  import opened Sequences
  import opened Bytes
  import opened Dictionaries
  import opened Wire
  import opened Trees
  import opened TlvSplit
  import opened Decoding

  const CONCAT_CHUNK := 253
  const LONG_CHUNK := 251
  const EVS_CHUNK := 246

  // --- Fragment chains ----------------------------------------------------------------------

  /** Octets of payload one fragment of this kind can carry. */
  function FragmentRoom(d: Dictionary, slot: Slot): (n: nat)
    ensures n > 0
  {
    match slot
    case LongSlot(_, _) => LONG_CHUNK
    case EvsSlot(_, _, _, _) => EVS_CHUNK
    case VsaSlot(vendor, _) => 255 - 2 - 4 - d.FormatOf(vendor).typeLen - d.FormatOf(vendor).lenLen - 1
  }

  /** The vendor fields fit the widths they are packed into. */
  predicate SlotPacks(d: Dictionary, slot: Slot) {
    match slot
    case LongSlot(_, _) => true
    case EvsSlot(_, _, vendor, _) => vendor < Pow256(4)
    case VsaSlot(vendor, vtype) => vendor < Pow256(4) && vtype < Pow256(d.FormatOf(vendor).typeLen)
  }

  /** The length field of a vendor sub-attribute; absent when the format has none. */
  function LengthField(lenLen: nat, total: nat): (r: bytes)
    requires lenLen <= 2 && total < 256
    ensures |r| == lenLen
  {
    SmallPowers();
    if lenLen == 0 then [] else BigEndian(total, lenLen)
  }

  /** `_pack_vsa_inner`; `body` is the value, behind its continuation octet if there is one. */
  function PackInner(f: LegalFormat, vtype: nat, body: bytes): (r: bytes)
    requires vtype < Pow256(f.typeLen) && f.typeLen + f.lenLen + |body| < 256
    ensures |r| == f.typeLen + f.lenLen + |body|
  {
    BigEndian(vtype, f.typeLen) + LengthField(f.lenLen, f.typeLen + f.lenLen + |body|) + body
  }

  function FragmentAvp(d: Dictionary, slot: Slot, more: bool, chunk: bytes): (a: Avp)
    requires SlotPacks(d, slot) && |chunk| <= FragmentRoom(d, slot)
    ensures Fits(a)
  {
    var flag: byte := if more then MORE_FLAG else 0;
    match slot
    case LongSlot(parent, ext) => Avp(parent, [ext, flag] + chunk)
    case EvsSlot(parent, ext, vendor, vtype) =>
      Avp(parent, [ext, flag] + (BigEndian(vendor, 4) + [vtype] + chunk))
    case VsaSlot(vendor, vtype) =>
      Avp(26, BigEndian(vendor, 4) + PackInner(d.FormatOf(vendor), vtype, [flag] + chunk))
  }

  /** All but the last fragment carry the More flag. */
  function FragmentAvps(d: Dictionary, slot: Slot, chunks: seq<bytes>): (r: seq<Avp>)
    requires SlotPacks(d, slot)
    requires forall i :: 0 <= i < |chunks| ==> |chunks[i]| <= FragmentRoom(d, slot)
    ensures |r| == |chunks| && AllFit(r)
  {
    seq(|chunks|, i requires 0 <= i < |chunks| => FragmentAvp(d, slot, i < |chunks| - 1, chunks[i]))
  }

  function Fragmented(d: Dictionary, slot: Slot, value: bytes): (r: seq<Avp>)
    requires SlotPacks(d, slot)
    ensures AllFit(r)
  {
    ChunksPartition(value, FragmentRoom(d, slot));
    FragmentAvps(d, slot, Chunks(value, FragmentRoom(d, slot)))
  }

  // --- Lists --------------------------------------------------------------------------------

  /** One value of a concat attribute as the values that travel. */
  function ConcatPieces(v: bytes): seq<bytes> {
    if |v| > CONCAT_CHUNK then Chunks(v, CONCAT_CHUNK) else [v]
  }

  function AllConcatPieces(vals: seq<bytes>): seq<bytes> {
    if vals == [] then [] else ConcatPieces(vals[0]) + AllConcatPieces(vals[1..])
  }

  /** The values that travel: several array elements packed into one, long concat values split. */
  function WireValues(d: Dictionary, key: Key, vals: seq<bytes>): seq<bytes> {
    if d.IsArray(key) && |vals| > 1 then [Join(vals)]
    else if d.IsConcat(key) then AllConcatPieces(vals)
    else vals
  }

  predicate ValuePacks(d: Dictionary, key: Key, v: bytes) {
    match key
    case Plain(_) => |v| <= 253
    case Vsa(vendor, vtype) =>
      SlotPacks(d, VsaSlot(vendor, vtype))
      && (d.FormatOf(vendor).continuation
          || 4 + d.FormatOf(vendor).typeLen + d.FormatOf(vendor).lenLen + |v| <= 253)
    case Evs(parent, _, vendor, _) => vendor < Pow256(4) && (parent in {245, 246} || |v| <= 247)
  }

  /** `_pkt_encode_attribute` and `_pkt_encode_evs`. */
  function ValueToAvps(d: Dictionary, key: Key, v: bytes): (r: seq<Avp>)
    requires ValuePacks(d, key, v)
    ensures AllFit(r)
  {
    match key
    case Plain(c) => [Avp(c, v)]
    case Vsa(vendor, vtype) =>
      var f := d.FormatOf(vendor);
      if f.continuation then Fragmented(d, VsaSlot(vendor, vtype), v)
      else
        [Avp(26, BigEndian(vendor, 4) + PackInner(f, vtype, v))]
    case Evs(parent, slot, vendor, vtype) =>
      if parent in {245, 246} then Fragmented(d, EvsSlot(parent, slot, vendor, vtype), v)
      else [Avp(parent, [slot] + (BigEndian(vendor, 4) + [vtype] + v))]
  }

  predicate ListPacks(d: Dictionary, key: Key, vals: seq<bytes>) {
    forall i :: 0 <= i < |vals| ==> ValuePacks(d, key, vals[i])
  }

  function ListToAvps(d: Dictionary, key: Key, vals: seq<bytes>): (r: seq<Avp>)
    requires ListPacks(d, key, vals)
    ensures AllFit(r)
  {
    if vals == [] then [] else ValueToAvps(d, key, vals[0]) + ListToAvps(d, key, vals[1..])
  }

  // --- Maps ---------------------------------------------------------------------------------

  /** Octets of TLV elements one attribute can carry, with or without the vendor wrapper. */
  function TlvCap(attr: Attribute): nat {
    if attr.vendor.Some? then 247 else 253
  }

  function TlvAvp(attr: Attribute, piece: seq<Avp>): (a: Avp)
    requires attr.code < 256 && AllFit(piece) && Size(piece) <= TlvCap(attr)
    requires attr.vendor.Some? ==> attr.vendor.value < Pow256(4)
    ensures Fits(a)
  {
    FlattenSize(piece);
    if attr.vendor.Some? then
      Avp(26, BigEndian(attr.vendor.value, 4) + Frame(Avp(attr.code, Flatten(piece))))
    else Avp(attr.code, Flatten(piece))
  }

  function TlvAvps(attr: Attribute, pieces: seq<seq<Avp>>): (r: seq<Avp>)
    requires attr.code < 256 && (attr.vendor.Some? ==> attr.vendor.value < Pow256(4))
    requires (forall k :: 0 <= k < |pieces| ==> AllFit(pieces[k])) && Longest(pieces) <= TlvCap(attr)
    ensures AllFit(r)
  {
    if pieces == [] then [] else [TlvAvp(attr, pieces[0])] + TlvAvps(attr, pieces[1..])
  }

  /** The value fits the extended wrapper, capped at 252 octets, nested chains included. */
  predicate CapFits(s: Stored) {
    match s
    case Values(vs) => forall j :: 0 <= j < |vs| ==> |vs[j]| <= 252
    case Node(items) => ChainFits(items) && ChainSize(items) <= 252
  }

  predicate ExtendedFits(m: Tree) {
    forall i :: 0 <= i < |m| ==> CapFits(m[i].1)
  }

  lemma ExtendedFitsInner(m: Tree)
    requires ExtendedFits(m)
    ensures AllInnerFit(m) && ChainFits(m)
  {
    forall i | 0 <= i < |m| ensures InnerFits(m[i].1) && EntryFits(m[i].1) {
      match m[i].1 case Values(vs) => case Node(items) =>
    }
  }

  predicate SubsWithin(avps: seq<Avp>, cap: nat) {
    forall i :: 0 <= i < |avps| ==> |avps[i].value| <= cap
  }

  lemma {:induction false} ExtendedFitsSubs(m: Tree)
    requires ExtendedFits(m)
    ensures AllInnerFit(m) && SubsWithin(TreeAvps(m), 252)
  {
    ExtendedFitsInner(m);
    if m != [] {
      ExtendedFitsSubs(m[1..]);
      assert match m[0].1
        case Values(vs) => forall j :: 0 <= j < |vs| ==> |vs[j]| <= 252
        case Node(items) => ChainSize(items) <= 252;
    }
  }

  function ExtendedAvps(parent: byte, subs: seq<Avp>): (r: seq<Avp>)
    requires SubsWithin(subs, 252)
    ensures |r| == |subs| && AllFit(r)
  {
    seq(|subs|, i requires 0 <= i < |subs| => Avp(parent, [subs[i].key] + subs[i].value))
  }

  function LongAvps(d: Dictionary, parent: byte, subs: seq<Avp>): (r: seq<Avp>)
    ensures AllFit(r)
  {
    if subs == [] then []
    else Fragmented(d, LongSlot(parent, subs[0].key), subs[0].value) + LongAvps(d, parent, subs[1..])
  }

  // --- One stored entry, the whole store ----------------------------------------------------

  /** Encoding the entry succeeds: `_encode_avp_group` raises nothing. */
  predicate Encodable(d: Dictionary, key: Key, s: Stored) {
    if key.Evs? then s.Values? && ListPacks(d, key, s.vals)
    else if d.IsKind(key, Tlv) then
      var attr := d.AttrOf(key).value;
      s.Node? && attr.code < 256 && (attr.vendor.Some? ==> attr.vendor.value < Pow256(4))
      && TlvFits(s.items, TlvCap(attr))
    else if d.IsKind(key, Extended) then key.Plain? && s.Node? && ExtendedFits(s.items)
    else if d.IsKind(key, LongExtended) then key.Plain? && s.Node? && AllInnerFit(s.items)
    else s.Values? && ListPacks(d, key, WireValues(d, key, s.vals))
  }

  /** `_encode_avp_group`. */
  function GroupAvps(d: Dictionary, key: Key, s: Stored): (r: seq<Avp>)
    requires Encodable(d, key, s)
    ensures AllFit(r)
  {
    if key.Evs? then ListToAvps(d, key, s.vals)
    else if d.IsKind(key, Tlv) then
      var attr := d.AttrOf(key).value;
      CutExact(s.items, 0, MaxInstances(s.items), [], TlvCap(attr));
      TlvAvps(attr, Pieces(s.items))
    else if d.IsKind(key, Extended) then
      ExtendedFitsSubs(s.items);
      ExtendedAvps(key.code, TreeAvps(s.items))
    else if d.IsKind(key, LongExtended) then LongAvps(d, key.code, TreeAvps(s.items))
    else ListToAvps(d, key, WireValues(d, key, s.vals))
  }

  /** Server-internal attributes stay off the wire. */
  function Visible(d: Dictionary, store: Store): Store {
    if store == [] then []
    else if d.IsVirtual(store[0].0) then Visible(d, store[1..])
    else [store[0]] + Visible(d, store[1..])
  }

  predicate AllEncodable(d: Dictionary, store: Store) {
    forall i :: 0 <= i < |store| ==> Encodable(d, store[i].0, store[i].1)
  }

  function StoreAvps(d: Dictionary, store: Store): (r: seq<Avp>)
    requires AllEncodable(d, store)
    ensures AllFit(r)
  {
    if store == [] then []
    else GroupAvps(d, store[0].0, store[0].1) + StoreAvps(d, store[1..])
  }

  lemma {:induction false} VisibleAppend(d: Dictionary, a: Store, b: Store)
    ensures Visible(d, a + b) == Visible(d, a) + Visible(d, b)
  {
    if a == [] {
      assert a + b == b;
    } else {
      assert (a + b)[1..] == a[1..] + b;
      VisibleAppend(d, a[1..], b);
    }
  }

  lemma EncodableTail(d: Dictionary, a: Store)
    requires a != []
    ensures AllEncodable(d, a) <==> Encodable(d, a[0].0, a[0].1) && AllEncodable(d, a[1..])
  {
    assert forall i :: 0 <= i < |a[1..]| ==> a[1..][i] == a[i + 1];
    if Encodable(d, a[0].0, a[0].1) && AllEncodable(d, a[1..]) {
      forall i | 0 <= i < |a| ensures Encodable(d, a[i].0, a[i].1) {
        if i > 0 { assert a[i] == a[1..][i - 1]; }
      }
    }
  }

  lemma EncodableAppend(d: Dictionary, a: Store, b: Store)
    requires AllEncodable(d, a) && AllEncodable(d, b)
    ensures AllEncodable(d, a + b)
  {
  }

  /** The attributes of a store are those of its first entry and those of the rest. */
  lemma StoreAvpsHead(d: Dictionary, first: (Key, Stored), rest: Store)
    requires Encodable(d, first.0, first.1) && AllEncodable(d, rest)
    ensures AllEncodable(d, [first] + rest)
    ensures StoreAvps(d, [first] + rest) == GroupAvps(d, first.0, first.1) + StoreAvps(d, rest)
  {
    assert ([first] + rest)[1..] == rest;
  }

  lemma StoreAvpsStep(d: Dictionary, first: (Key, Stored), rest: Store, b: Store)
    requires Encodable(d, first.0, first.1) && AllEncodable(d, rest) && AllEncodable(d, b) && AllEncodable(d, rest + b)
    requires StoreAvps(d, rest + b) == StoreAvps(d, rest) + StoreAvps(d, b)
    ensures AllEncodable(d, [first] + rest) && AllEncodable(d, [first] + rest + b)
    ensures StoreAvps(d, [first] + rest + b) == StoreAvps(d, [first] + rest) + StoreAvps(d, b)
  {
    Regroup([first], rest, b);
    StoreAvpsHead(d, first, rest);
    StoreAvpsHead(d, first, rest + b);
    Regroup(GroupAvps(d, first.0, first.1), StoreAvps(d, rest), StoreAvps(d, b));
  }

  lemma {:induction false} StoreAvpsAppend(d: Dictionary, a: Store, b: Store)
    requires AllEncodable(d, a) && AllEncodable(d, b)
    ensures AllEncodable(d, a + b) && StoreAvps(d, a + b) == StoreAvps(d, a) + StoreAvps(d, b)
  {
    EncodableAppend(d, a, b);
    if a == [] {
      assert a + b == b && [] + StoreAvps(d, b) == StoreAvps(d, b);
    } else {
      EncodableTail(d, a);
      assert AllEncodable(d, a[1..] + b) && StoreAvps(d, a[1..] + b) == StoreAvps(d, a[1..]) + StoreAvps(d, b) by {
        StoreAvpsAppend(d, a[1..], b);
      }
      StoreAvpsStep(d, a[0], a[1..], b);
      assert [a[0]] + a[1..] == a;
    }
  }

  /** `_pkt_encode_attributes` without a deferred sidecar. */
  function EncodeStore(d: Dictionary, store: Store): Result<bytes> {
    if AllEncodable(d, Visible(d, store)) then Ok(Flatten(StoreAvps(d, Visible(d, store)))) else Err
  }

  /** The 20-octet header in front of the attributes. */
  function Header(code: byte, id: byte, authenticator: bytes, attributes: bytes): (r: bytes)
    requires |attributes| <= 65515 && |authenticator| == 16
    ensures |r| == 20
  {
    SmallPowers();
    [code, id] + BigEndian(20 + |attributes|, 2) + authenticator
  }
}
