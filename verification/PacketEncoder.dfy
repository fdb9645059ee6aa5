/** The encoding loops of `packet.py`, proved against the specification: the same octets, and an
    exception exactly where the specification has none. */
module PacketEncoder {
  import opened Wrappers
  import opened Bytes
  import opened OrderedMaps
  import opened Dictionaries
  import opened Wire
  import opened Trees
  import opened TlvSplit
  import opened Decoding
  import opened Encoding
  import opened Overlay

  /** One output after another, unless one fails. */
  function Both(a: Result<bytes>, b: Result<bytes>): Result<bytes> {
    if a.Ok? && b.Ok? then Ok(a.value + b.value) else Err
  }

  lemma BothAssociates(a: Result<bytes>, b: Result<bytes>, c: Result<bytes>)
    ensures Both(Both(a, b), c) == Both(a, Both(b, c))
  {
    if a.Ok? && b.Ok? && c.Ok? {
      assert a.value + b.value + c.value == a.value + (b.value + c.value);
    }
  }

  lemma NothingAfter(a: Result<bytes>)
    ensures Both(a, Ok([])) == a && Both(Ok([]), a) == a
  {
    if a.Ok? { assert a.value + [] == a.value && [] + a.value == a.value; }
  }

  /** `struct.pack("!BB", key, len(value) + 2) + value`. */
  method PackAvp(key: nat, value: bytes) returns (r: Result<bytes>)
    ensures r.Ok? <==> key < 256 && |value| <= 253
    ensures r.Ok? ==> r.value == Frame(Avp(key, value))
  {
    if key >= 256 || |value| + 2 >= 256 { return Err; }
    return Ok([key, |value| + 2] + value);
  }

  lemma FlattenOne(a: Avp)
    requires Fits(a)
    ensures Flatten([a]) == Frame(a)
  {
    assert [a][1..] == [];
    assert Frame(a) + [] == Frame(a);
  }

  lemma FlattenUpTo(avps: seq<Avp>, i: nat)
    requires AllFit(avps) && i < |avps|
    ensures Flatten(avps[..i + 1]) == Flatten(avps[..i]) + Frame(avps[i])
  {
    FlattenAppend(avps[..i], [avps[i]]);
    FlattenOne(avps[i]);
    assert avps[..i] + [avps[i]] == avps[..i + 1];
  }

  // --- Fragments ------------------------------------------------------------------------------

  /** The three fragment loops: long-extended values, their vendor-specific form, and vendor
      attributes with a continuation octet. */
  method EncodeFragments(d: Dictionary, slot: Slot, value: bytes) returns (r: bytes)
    requires SlotPacks(d, slot)
    ensures r == Flatten(Fragmented(d, slot, value))
  {
    ChunksPartition(value, FragmentRoom(d, slot));
    var chunks := Chunks(value, FragmentRoom(d, slot));
    ghost var avps := FragmentAvps(d, slot, chunks);
    r := [];
    for index := 0 to |chunks|
      invariant r == Flatten(avps[..index])
    {
      var more: byte := if index < |chunks| - 1 then 0x80 else 0;
      var one := FragmentBytes(d, slot, more, chunks[index]);
      FlattenUpTo(avps, index);
      r := r + one;
    }
    assert avps[..|chunks|] == avps;
  }

  method FragmentBytes(d: Dictionary, slot: Slot, more: byte, chunk: bytes) returns (r: bytes)
    requires SlotPacks(d, slot) && |chunk| <= FragmentRoom(d, slot) && more in {0x80, 0}
    ensures r == Frame(FragmentAvp(d, slot, more == 0x80, chunk))
  {
    match slot
    case LongSlot(parent, ext) =>
      r := [parent, 4 + |chunk|, ext, more] + chunk;
    case EvsSlot(parent, ext, vendor, vtype) =>
      r := [parent, 9 + |chunk|, ext, more] + (BigEndian(vendor, 4) + [vtype]) + chunk;
    case VsaSlot(vendor, vtype) =>
      var value := BigEndian(vendor, 4) + PackInner(d.FormatOf(vendor), vtype, [more] + chunk);
      r := [26, |value| + 2] + value;
  }

  // --- One value, a list of values --------------------------------------------------------------

  ghost function ValueSpec(d: Dictionary, key: Key, v: bytes): Result<bytes> {
    if ValuePacks(d, key, v) then Ok(Flatten(ValueToAvps(d, key, v))) else Err
  }

  ghost function ListSpec(d: Dictionary, key: Key, vals: seq<bytes>): Result<bytes> {
    if ListPacks(d, key, vals) then Ok(Flatten(ListToAvps(d, key, vals))) else Err
  }

  lemma ListNext(d: Dictionary, key: Key, vals: seq<bytes>)
    requires vals != []
    ensures ListSpec(d, key, vals) == Both(ValueSpec(d, key, vals[0]), ListSpec(d, key, vals[1..]))
  {
    assert forall i :: 0 <= i < |vals[1..]| ==> vals[1..][i] == vals[i + 1];
    if ListPacks(d, key, vals) {
      FlattenAppend(ValueToAvps(d, key, vals[0]), ListToAvps(d, key, vals[1..]));
    } else if ValuePacks(d, key, vals[0]) {
      var i :| 0 <= i < |vals| && !ValuePacks(d, key, vals[i]);
      assert vals[1..][i - 1] == vals[i];
    }
  }

  lemma ListOne(d: Dictionary, key: Key, v: bytes)
    ensures ListSpec(d, key, [v]) == ValueSpec(d, key, v)
  {
    var one: seq<bytes> := [v];
    ListNext(d, key, one);
    assert one[1..] == [];
    NothingAfter(ValueSpec(d, key, v));
  }

  lemma {:induction false} ListAppend(d: Dictionary, key: Key, a: seq<bytes>, b: seq<bytes>)
    ensures ListSpec(d, key, a + b) == Both(ListSpec(d, key, a), ListSpec(d, key, b))
  {
    if a == [] {
      assert a + b == b;
      NothingAfter(ListSpec(d, key, b));
    } else {
      assert (a + b)[1..] == a[1..] + b;
      ListAppend(d, key, a[1..], b);
      ListNext(d, key, a);
      ListNext(d, key, a + b);
      BothAssociates(ValueSpec(d, key, a[0]), ListSpec(d, key, a[1..]), ListSpec(d, key, b));
    }
  }

  /** `_pkt_encode_attribute` and `_pkt_encode_evs`. */
  method EncodeValue(d: Dictionary, key: Key, value: bytes) returns (r: Result<bytes>)
    ensures r == ValueSpec(d, key, value)
  {
    SmallPowers();
    match key
    case Plain(c) =>
      r := PackAvp(c, value);
      if r.Ok? { FlattenOne(Avp(c, value)); }
    case Vsa(vendor, vtype) => r := EncodeVsa(d, vendor, vtype, value);
    case Evs(parent, slot, vendor, vtype) =>
      if vendor >= Pow256(4) { return Err; }
      if parent in {245, 246} {
        var all := EncodeFragments(d, EvsSlot(parent, slot, vendor, vtype), value);
        return Ok(all);
      }
      if |value| > 247 { return Err; }
      var header := BigEndian(vendor, 4) + [vtype];
      var whole := Avp(parent, [slot] + (header + value));
      FlattenOne(whole);
      assert [parent, 8 + |value|, slot] + header + value == Frame(whole);
      return Ok([parent, 8 + |value|, slot] + header + value);
  }

  method EncodeVsa(d: Dictionary, vendor: nat, vtype: nat, value: bytes) returns (r: Result<bytes>)
    ensures r == ValueSpec(d, Vsa(vendor, vtype), value)
  {
    SmallPowers();
    var f := d.FormatOf(vendor);
    if vtype >= Pow256(f.typeLen) || vendor >= Pow256(4) { return Err; }
    if f.continuation {
      var all := EncodeFragments(d, VsaSlot(vendor, vtype), value);
      return Ok(all);
    }
    var inner := BigEndian(vtype, f.typeLen);
    if f.lenLen != 0 {
      var total := f.typeLen + f.lenLen + |value|;
      if total >= Pow256(f.lenLen) { return Err; }
      inner := inner + BigEndian(total, f.lenLen);
    }
    inner := inner + value;
    var whole := BigEndian(vendor, 4) + inner;
    r := PackAvp(26, whole);
    if r.Ok? {
      assert inner == PackInner(f, vtype, value);
      FlattenOne(Avp(26, whole));
    }
  }

  method EncodeList(d: Dictionary, key: Key, vals: seq<bytes>) returns (r: Result<bytes>)
    ensures r == ListSpec(d, key, vals)
  {
    var out: bytes := [];
    assert vals[0..] == vals;
    NothingAfter(ListSpec(d, key, vals));
    for i := 0 to |vals|
      invariant Both(Ok(out), ListSpec(d, key, vals[i..])) == ListSpec(d, key, vals)
    {
      ListNext(d, key, vals[i..]);
      assert vals[i..][1..] == vals[i + 1..];
      var one := EncodeValue(d, key, vals[i]);
      BothAssociates(Ok(out), one, ListSpec(d, key, vals[i + 1..]));
      if one.Err? { return Err; }
      out := out + one.value;
    }
    NothingAfter(Ok(out));
    return Ok(out);
  }

  /** What one value of the list contributes to the values that travel. */
  function Travels(d: Dictionary, key: Key, v: bytes): seq<bytes> {
    if d.IsConcat(key) then ConcatPieces(v) else [v]
  }

  function AllTravel(d: Dictionary, key: Key, vals: seq<bytes>): seq<bytes> {
    if d.IsConcat(key) then AllConcatPieces(vals) else vals
  }

  /** The tail of `_encode_avp_group`: array packing and concat chunking. */
  method EncodeValues(d: Dictionary, key: Key, vals: seq<bytes>) returns (r: Result<bytes>)
    ensures r == ListSpec(d, key, WireValues(d, key, vals))
  {
    if d.IsArray(key) && |vals| > 1 {
      ListOne(d, key, Join(vals));
      r := EncodeValue(d, key, Join(vals));
      return;
    }
    var out: bytes := [];
    assert vals[0..] == vals;
    NothingAfter(ListSpec(d, key, AllTravel(d, key, vals)));
    for i := 0 to |vals|
      invariant Both(Ok(out), ListSpec(d, key, AllTravel(d, key, vals[i..]))) ==
                ListSpec(d, key, AllTravel(d, key, vals))
    {
      TravelNext(d, key, vals, i);
      var one := EncodeTravelling(d, key, vals[i]);
      BothAssociates(Ok(out), one, ListSpec(d, key, AllTravel(d, key, vals[i + 1..])));
      if one.Err? { return Err; }
      out := out + one.value;
    }
    NothingAfter(Ok(out));
    return Ok(out);
  }

  lemma TravelNext(d: Dictionary, key: Key, vals: seq<bytes>, i: nat)
    requires i < |vals|
    ensures ListSpec(d, key, AllTravel(d, key, vals[i..])) ==
            Both(ListSpec(d, key, Travels(d, key, vals[i])), ListSpec(d, key, AllTravel(d, key, vals[i + 1..])))
  {
    assert vals[i..][1..] == vals[i + 1..];
    assert AllTravel(d, key, vals[i..]) == Travels(d, key, vals[i]) + AllTravel(d, key, vals[i + 1..]);
    ListAppend(d, key, Travels(d, key, vals[i]), AllTravel(d, key, vals[i + 1..]));
  }

  /** One value, cut into chunks if it is a long one of a concat attribute. */
  method EncodeTravelling(d: Dictionary, key: Key, value: bytes) returns (r: Result<bytes>)
    ensures r == ListSpec(d, key, Travels(d, key, value))
  {
    if d.IsConcat(key) && |value| > 253 {
      r := EncodeList(d, key, Chunks(value, 253));
    } else {
      ListOne(d, key, value);
      r := EncodeValue(d, key, value);
    }
  }

  // --- TLV chains -------------------------------------------------------------------------------

  ghost function EntrySpec(code: byte, s: Stored): Result<bytes> {
    if EntryFits(s) then Ok(Flatten(EntryAvps(code, s))) else Err
  }

  ghost function ChainSpec(m: Tree): Result<bytes> {
    if ChainFits(m) then Ok(EncodeChain(m)) else Err
  }

  lemma ChainNext(m: Tree)
    requires m != []
    ensures ChainSpec(m) == Both(EntrySpec(m[0].0, m[0].1), ChainSpec(m[1..]))
  {
    ChainFitsNext(m);
    if ChainFits(m) {
      assert TreeAvps(m) == EntryAvps(m[0].0, m[0].1) + TreeAvps(m[1..]);
      FlattenAppend(EntryAvps(m[0].0, m[0].1), TreeAvps(m[1..]));
    }
  }

  lemma ChainFitsNext(m: Tree)
    requires m != []
    ensures ChainFits(m) <==> EntryFits(m[0].1) && ChainFits(m[1..])
    ensures ChainFits(m) ==> InnerFits(m[0].1) && AllInnerFit(m) && AllInnerFit(m[1..])
  {
    assert forall i :: 0 <= i < |m[1..]| ==> m[1..][i] == m[i + 1];
    assert ChainFits(m) <==> forall i :: 0 <= i < |m| ==> EntryFits(m[i].1);
    assert ChainFits(m[1..]) <==> forall i :: 0 <= i < |m[1..]| ==> EntryFits(m[1..][i].1);
    if EntryFits(m[0].1) && ChainFits(m[1..]) {
      forall i | 0 <= i < |m| ensures EntryFits(m[i].1) {
        if i > 0 { assert m[1..][i - 1] == m[i]; }
      }
    }
    assert forall i :: 0 <= i < |m| && EntryFits(m[i].1) ==> InnerFits(m[i].1);
  }

  ghost function PackSpec(code: byte, v: bytes): Result<bytes> {
    if |v| <= 253 then Ok(Frame(Avp(code, v))) else Err
  }

  lemma ValuesNext(code: byte, vs: seq<bytes>)
    requires vs != []
    ensures EntrySpec(code, Values(vs)) == Both(PackSpec(code, vs[0]), EntrySpec(code, Values(vs[1..])))
  {
    assert forall i :: 0 <= i < |vs[1..]| ==> vs[1..][i] == vs[i + 1];
    if EntryFits(Values(vs)) {
      assert ValueAvps(code, vs)[1..] == ValueAvps(code, vs[1..]);
    } else if |vs[0]| <= 253 {
      var i :| 0 <= i < |vs| && |vs[i]| > 253;
      assert vs[1..][i - 1] == vs[i];
    }
  }

  method FrameAll(code: byte, vs: seq<bytes>) returns (r: Result<bytes>)
    ensures r == EntrySpec(code, Values(vs))
  {
    var out: bytes := [];
    assert vs[0..] == vs;
    NothingAfter(EntrySpec(code, Values(vs)));
    for i := 0 to |vs|
      invariant Both(Ok(out), EntrySpec(code, Values(vs[i..]))) == EntrySpec(code, Values(vs))
    {
      ValuesNext(code, vs[i..]);
      assert vs[i..][1..] == vs[i + 1..];
      var one := PackAvp(code, vs[i]);
      BothAssociates(Ok(out), one, EntrySpec(code, Values(vs[i + 1..])));
      if one.Err? { return Err; }
      out := out + one.value;
    }
    NothingAfter(Ok(out));
    return Ok(out);
  }

  /** `_encode_tlv_chain`. */
  method EncodeTlvChain(m: Tree) returns (r: Result<bytes>)
    ensures r == ChainSpec(m)
    decreases m
  {
    var out: bytes := [];
    assert m[0..] == m;
    NothingAfter(ChainSpec(m));
    for i := 0 to |m|
      invariant Both(Ok(out), ChainSpec(m[i..])) == ChainSpec(m)
    {
      ChainNext(m[i..]);
      assert m[i..][1..] == m[i + 1..];
      var one: Result<bytes>;
      match m[i].1 {
        case Node(items) =>
          assert m[i].1 < m[i];
          one := EncodeTlvChain(items);
          if one.Ok? { one := WrapChain(m[i].0, items, one.value); }
        case Values(vs) => one := FrameAll(m[i].0, vs);
      }
      BothAssociates(Ok(out), one, ChainSpec(m[i + 1..]));
      if one.Err? { return Err; }
      out := out + one.value;
    }
    NothingAfter(Ok(out));
    return Ok(out);
  }

  /** A nested chain behind its own type and length octets. */
  method WrapChain(code: byte, ghost items: Tree, inner: bytes) returns (r: Result<bytes>)
    requires ChainSpec(items) == Ok(inner)
    ensures r == EntrySpec(code, Node(items))
  {
    r := PackAvp(code, inner);
    if r.Ok? { FlattenOne(Avp(code, inner)); }
  }

  // --- Extended attributes ----------------------------------------------------------------------

  ghost function CapSpec(parent: byte, code: byte, s: Stored): Result<bytes> {
    if CapFits(s) then
      assert SubsWithin(EntryAvps(code, s), 252);
      Ok(Flatten(ExtendedAvps(parent, EntryAvps(code, s))))
    else Err
  }

  ghost function ExtendedSpec(parent: byte, m: Tree): Result<bytes> {
    if ExtendedFits(m) then
      ExtendedFitsSubs(m);
      Ok(Flatten(ExtendedAvps(parent, TreeAvps(m))))
    else Err
  }

  lemma ExtendedAppend(parent: byte, a: seq<Avp>, b: seq<Avp>)
    requires SubsWithin(a, 252) && SubsWithin(b, 252)
    ensures SubsWithin(a + b, 252)
    ensures Flatten(ExtendedAvps(parent, a + b)) == Flatten(ExtendedAvps(parent, a)) + Flatten(ExtendedAvps(parent, b))
  {
    assert ExtendedAvps(parent, a + b) == ExtendedAvps(parent, a) + ExtendedAvps(parent, b);
    FlattenAppend(ExtendedAvps(parent, a), ExtendedAvps(parent, b));
  }

  lemma ExtendedNext(parent: byte, m: Tree)
    requires m != []
    ensures ExtendedSpec(parent, m) == Both(CapSpec(parent, m[0].0, m[0].1), ExtendedSpec(parent, m[1..]))
  {
    ExtendedFitsNext(m);
    if ExtendedFits(m) {
      ExtendedFitsSubs(m);
      ExtendedFitsSubs(m[1..]);
      CapSubs(m[0].0, m[0].1);
      ExtendedAppend(parent, EntryAvps(m[0].0, m[0].1), TreeAvps(m[1..]));
    }
  }

  lemma CapSubs(code: byte, s: Stored)
    requires CapFits(s)
    ensures InnerFits(s) && SubsWithin(EntryAvps(code, s), 252)
  {
  }

  lemma ExtendedFitsNext(m: Tree)
    requires m != []
    ensures ExtendedFits(m) <==> CapFits(m[0].1) && ExtendedFits(m[1..])
  {
    assert forall i :: 0 <= i < |m[1..]| ==> m[1..][i] == m[i + 1];
    if CapFits(m[0].1) && ExtendedFits(m[1..]) {
      forall i | 0 <= i < |m| ensures CapFits(m[i].1) {
        if i > 0 { assert m[1..][i - 1] == m[i]; }
      }
    }
  }

  method WrapExtended(parent: byte, ext: byte, value: bytes) returns (r: Result<bytes>)
    ensures r == CapSpec(parent, ext, Values([value]))
  {
    if |value| > 252 {
      assert !CapFits(Values([value])) by { assert [value][0] == value; }
      return Err;
    }
    r := Ok([parent, 3 + |value|, ext] + value);
    ghost var avp := Avp(parent, [ext] + value);
    assert ExtendedAvps(parent, EntryAvps(ext, Values([value]))) == [avp];
    FlattenOne(avp);
    assert r.value == Frame(avp);
  }

  lemma CapNext(parent: byte, code: byte, vs: seq<bytes>)
    requires vs != []
    ensures CapSpec(parent, code, Values(vs)) ==
            Both(CapSpec(parent, code, Values([vs[0]])), CapSpec(parent, code, Values(vs[1..])))
  {
    assert forall i :: 0 <= i < |vs[1..]| ==> vs[1..][i] == vs[i + 1];
    if CapFits(Values(vs)) {
      var a, b := ValueAvps(code, [vs[0]]), ValueAvps(code, vs[1..]);
      assert ValueAvps(code, vs) == a + b;
      assert ExtendedAvps(parent, a + b) == ExtendedAvps(parent, a) + ExtendedAvps(parent, b);
      FlattenAppend(ExtendedAvps(parent, a), ExtendedAvps(parent, b));
    } else {
      var i :| 0 <= i < |vs| && |vs[i]| > 252;
      if i > 0 { assert vs[1..][i - 1] == vs[i]; } else { assert [vs[0]][0] == vs[0]; }
    }
  }

  method WrapAll(parent: byte, ext: byte, vs: seq<bytes>) returns (r: Result<bytes>)
    ensures r == CapSpec(parent, ext, Values(vs))
  {
    var out: bytes := [];
    assert vs[0..] == vs;
    NothingAfter(CapSpec(parent, ext, Values(vs)));
    for i := 0 to |vs|
      invariant Both(Ok(out), CapSpec(parent, ext, Values(vs[i..]))) == CapSpec(parent, ext, Values(vs))
    {
      CapNext(parent, ext, vs[i..]);
      assert vs[i..][1..] == vs[i + 1..];
      var one := WrapExtended(parent, ext, vs[i]);
      BothAssociates(Ok(out), one, CapSpec(parent, ext, Values(vs[i + 1..])));
      if one.Err? { return Err; }
      out := out + one.value;
    }
    assert CapSpec(parent, ext, Values(vs[|vs|..])) == Ok([]);
    NothingAfter(Ok(out));
    return Ok(out);
  }

  /** `_pkt_encode_extended`. */
  method EncodeExtended(parent: byte, m: Tree) returns (r: Result<bytes>)
    ensures r == ExtendedSpec(parent, m)
  {
    var out: bytes := [];
    assert m[0..] == m;
    NothingAfter(ExtendedSpec(parent, m));
    for i := 0 to |m|
      invariant Both(Ok(out), ExtendedSpec(parent, m[i..])) == ExtendedSpec(parent, m)
    {
      ExtendedNext(parent, m[i..]);
      assert m[i..][1..] == m[i + 1..];
      var one: Result<bytes>;
      match m[i].1 {
        case Node(items) =>
          one := EncodeTlvChain(items);
          if one.Ok? { one := WrapExtendedChain(parent, m[i].0, items, one.value); }
        case Values(vs) => one := WrapAll(parent, m[i].0, vs);
      }
      BothAssociates(Ok(out), one, ExtendedSpec(parent, m[i + 1..]));
      if one.Err? { return Err; }
      out := out + one.value;
    }
    assert ExtendedSpec(parent, m[|m|..]) == Ok([]);
    NothingAfter(Ok(out));
    return Ok(out);
  }

  method WrapExtendedChain(parent: byte, ext: byte, ghost items: Tree, chain: bytes) returns (r: Result<bytes>)
    requires ChainSpec(items) == Ok(chain)
    ensures r == CapSpec(parent, ext, Node(items))
  {
    r := WrapExtended(parent, ext, chain);
    if r.Ok? {
      assert ExtendedAvps(parent, EntryAvps(ext, Node(items))) == ExtendedAvps(parent, EntryAvps(ext, Values([chain])));
    } else {
      assert [chain][0] == chain;
    }
  }

  // --- Long-extended attributes -----------------------------------------------------------------

  ghost function LongEntrySpec(d: Dictionary, parent: byte, code: byte, s: Stored): Result<bytes> {
    if InnerFits(s) then Ok(Flatten(LongAvps(d, parent, EntryAvps(code, s)))) else Err
  }

  ghost function LongSpec(d: Dictionary, parent: byte, m: Tree): Result<bytes> {
    if AllInnerFit(m) then Ok(Flatten(LongAvps(d, parent, TreeAvps(m)))) else Err
  }

  lemma {:induction false} LongAppend(d: Dictionary, parent: byte, a: seq<Avp>, b: seq<Avp>)
    ensures LongAvps(d, parent, a + b) == LongAvps(d, parent, a) + LongAvps(d, parent, b)
  {
    if a == [] {
      assert a + b == b;
    } else {
      assert (a + b)[1..] == a[1..] + b;
      LongAppend(d, parent, a[1..], b);
    }
  }

  lemma LongNext(d: Dictionary, parent: byte, m: Tree)
    requires m != []
    ensures LongSpec(d, parent, m) == Both(LongEntrySpec(d, parent, m[0].0, m[0].1), LongSpec(d, parent, m[1..]))
  {
    assert forall i :: 0 <= i < |m[1..]| ==> m[1..][i] == m[i + 1];
    if AllInnerFit(m) {
      var a, b := EntryAvps(m[0].0, m[0].1), TreeAvps(m[1..]);
      LongAppend(d, parent, a, b);
      FlattenAppend(LongAvps(d, parent, a), LongAvps(d, parent, b));
    } else if InnerFits(m[0].1) {
      var i :| 0 <= i < |m| && !InnerFits(m[i].1);
      assert m[1..][i - 1] == m[i];
    }
  }

  /** The values of one slot, each fragmented on its own. */
  method FragmentAll(d: Dictionary, parent: byte, ext: byte, vs: seq<bytes>) returns (r: bytes)
    ensures r == Flatten(LongAvps(d, parent, ValueAvps(ext, vs)))
  {
    ghost var avps := ValueAvps(ext, vs);
    r := [];
    for i := 0 to |vs|
      invariant r == Flatten(LongAvps(d, parent, avps[..i]))
    {
      var one := EncodeFragments(d, LongSlot(parent, ext), vs[i]);
      LongUpTo(d, parent, avps, i);
      r := r + one;
    }
    assert avps[..|vs|] == avps;
  }

  lemma LongUpTo(d: Dictionary, parent: byte, avps: seq<Avp>, i: nat)
    requires i < |avps|
    ensures Flatten(LongAvps(d, parent, avps[..i + 1])) ==
            Flatten(LongAvps(d, parent, avps[..i]))
            + Flatten(Fragmented(d, LongSlot(parent, avps[i].key), avps[i].value))
  {
    var one: seq<Avp> := [avps[i]];
    assert avps[..i] + one == avps[..i + 1];
    LongAppend(d, parent, avps[..i], one);
    assert one[1..] == [];
    var last := Fragmented(d, LongSlot(parent, avps[i].key), avps[i].value);
    assert LongAvps(d, parent, one) == last + [] == last;
    FlattenAppend(LongAvps(d, parent, avps[..i]), last);
  }

  /** `_pkt_encode_long_extended`. */
  method EncodeLongExtended(d: Dictionary, parent: byte, m: Tree) returns (r: Result<bytes>)
    ensures r == LongSpec(d, parent, m)
  {
    var out: bytes := [];
    assert m[0..] == m;
    NothingAfter(LongSpec(d, parent, m));
    for i := 0 to |m|
      invariant Both(Ok(out), LongSpec(d, parent, m[i..])) == LongSpec(d, parent, m)
    {
      LongNext(d, parent, m[i..]);
      assert m[i..][1..] == m[i + 1..];
      var values: seq<bytes>;
      match m[i].1 {
        case Node(items) =>
          var chain := EncodeTlvChain(items);
          if chain.Err? { return Err; }
          values := [chain.value];
          assert EntryAvps(m[i].0, m[i].1) == ValueAvps(m[i].0, values);
        case Values(vs) => values := vs;
      }
      var one := FragmentAll(d, parent, m[i].0, values);
      BothAssociates(Ok(out), Ok(one), LongSpec(d, parent, m[i + 1..]));
      out := out + one;
    }
    NothingAfter(Ok(out));
    return Ok(out);
  }

  // --- TLV attributes ---------------------------------------------------------------------------

  ghost function InstanceSpec(code: byte, s: Stored, i: nat): Result<bytes> {
    match s
    case Values(vs) => if i < |vs| then PackSpec(code, vs[i]) else Ok([])
    case Node(_) => if i == 0 then EntrySpec(code, s) else Ok([])
  }

  ghost function RoundSpec(m: Tree, i: nat): Result<bytes> {
    if m == [] then Ok([]) else Both(InstanceSpec(m[0].0, m[0].1, i), RoundSpec(m[1..], i))
  }

  lemma {:induction false} RoundFlat(m: Tree, i: nat)
    requires ChainFits(m)
    ensures RoundSpec(m, i) == Ok(Flatten(Round(m, i)))
  {
    if m != [] {
      ChainFitsNext(m);
      RoundFlat(m[1..], i);
      var (code, s) := m[0];
      assert Round(m, i) == InstanceAvps(code, s, i) + Round(m[1..], i);
      FlattenAppend(InstanceAvps(code, s, i), Round(m[1..], i));
      if s.Values? && i < |s.vals| { FlattenOne(Avp(code, s.vals[i])); }
    }
  }

  lemma {:induction false} RoundEntry(m: Tree, i: nat, j: nat)
    requires RoundSpec(m, i).Ok? && j < |m|
    ensures InstanceSpec(m[j].0, m[j].1, i).Ok?
  {
    if j > 0 { RoundEntry(m[1..], i, j - 1); }
  }

  /** The first `n` rounds go through. */
  ghost predicate RoundsPass(m: Tree, n: nat) {
    forall i :: 0 <= i < n ==> RoundSpec(m, i).Ok?
  }

  /** Every instance is emitted in some round, so the rounds fail exactly when some element does. */
  lemma RoundsCover(m: Tree)
    ensures ChainFits(m) <==> RoundsPass(m, MaxInstances(m))
  {
    var n := MaxInstances(m);
    if ChainFits(m) {
      forall i | 0 <= i < n ensures RoundSpec(m, i).Ok? { RoundFlat(m, i); }
    }
    if RoundsPass(m, n) {
      forall j | 0 <= j < |m| ensures EntryFits(m[j].1) {
        assert Instances(m[j].1) <= n;
        match m[j].1
        case Values(vs) =>
          forall k | 0 <= k < |vs| ensures |vs[k]| <= 253 { RoundEntry(m, k, j); }
        case Node(_) => RoundEntry(m, 0, j);
      }
      assert ChainFits(m);
    }
  }

  /** One instance of every sub-attribute that has one left. */
  method EncodeRound(m: Tree, i: nat) returns (r: Result<bytes>)
    ensures r == RoundSpec(m, i)
  {
    var out: bytes := [];
    assert m[0..] == m;
    NothingAfter(RoundSpec(m, i));
    for j := 0 to |m|
      invariant Both(Ok(out), RoundSpec(m[j..], i)) == RoundSpec(m, i)
    {
      assert m[j..][1..] == m[j + 1..];
      var one: Result<bytes> := Ok([]);
      match m[j].1 {
        case Node(items) =>
          if i == 0 {
            one := EncodeTlvChain(items);
            if one.Ok? { one := WrapChain(m[j].0, items, one.value); }
          }
        case Values(vs) =>
          if i < |vs| { one := PackAvp(m[j].0, vs[i]); }
      }
      BothAssociates(Ok(out), one, RoundSpec(m[j + 1..], i));
      if one.Err? { return Err; }
      out := out + one.value;
    }
    NothingAfter(Ok(out));
    return Ok(out);
  }

  ghost predicate Flattened(avps: seq<bytes>, pieces: seq<seq<Avp>>) {
    |avps| == |pieces| && forall k :: 0 <= k < |pieces| ==> AllFit(pieces[k]) && avps[k] == Flatten(pieces[k])
  }

  /** The octets collected so far are those of `done` and `now`, and rounds `i` on complete them. */
  ghost predicate Splitting(m: Tree, i: nat, n: nat, avps: seq<bytes>, curr: bytes, done: seq<seq<Avp>>, now: seq<Avp>)
  {
    ChainFits(m) && i <= n ==>
      AllFit(now) && curr == Flatten(now) && Flattened(avps, done) && done + Cut(m, i, n, now) == Cut(m, 0, n, [])
  }

  /** The greedy cut: rounds are packed until 245 octets would be reached. */
  method SplitRounds(m: Tree) returns (ok: bool, avps: seq<bytes>)
    ensures ok <==> ChainFits(m)
    ensures ok ==> Flattened(avps, Pieces(m))
  {
    var n := MaxInstances(m);
    var curr: bytes := [];
    avps := [];
    ghost var now: seq<Avp> := [];
    ghost var done: seq<seq<Avp>> := [];
    RoundsCover(m);
    for i := 0 to n
      invariant RoundsPass(m, i)
      invariant Splitting(m, i, n, avps, curr, done, now)
    {
      var round := EncodeRound(m, i);
      if round.Err? {
        assert !RoundsPass(m, n);
        return false, [];
      }
      ghost var now', done' := SplitTurn(m, i, n, avps, curr, done, now, round.value);
      if |round.value| + |curr| < 245 {
        curr := curr + round.value;
      } else {
        avps := avps + [curr];
        curr := round.value;
      }
      now, done := now', done';
    }
    SplitEnd(m, avps, curr, done, now);
    avps := avps + [curr];
    return true, avps;
  }

  lemma SplitEnd(m: Tree, avps: seq<bytes>, curr: bytes, done: seq<seq<Avp>>, now: seq<Avp>)
    requires ChainFits(m) && Splitting(m, MaxInstances(m), MaxInstances(m), avps, curr, done, now)
    ensures Flattened(avps + [curr], Pieces(m))
  {
    assert Pieces(m) == done + [now];
  }

  lemma SplitTurn(m: Tree, i: nat, n: nat, avps: seq<bytes>, curr: bytes, done: seq<seq<Avp>>, now: seq<Avp>,
                  round: bytes)
    returns (now': seq<Avp>, done': seq<seq<Avp>>)
    requires Splitting(m, i, n, avps, curr, done, now) && i < n && RoundSpec(m, i) == Ok(round)
    ensures if |round| + |curr| < 245 then Splitting(m, i + 1, n, avps, curr + round, done', now')
            else Splitting(m, i + 1, n, avps + [curr], round, done', now')
  {
    now', done' := now, done;
    if ChainFits(m) {
      var more := Round(m, i);
      RoundFlat(m, i);
      FlattenSize(now);
      FlattenSize(more);
      if |round| + |curr| < 245 {
        FlattenAppend(now, more);
        now' := now + more;
      } else {
        assert done + ([now] + Cut(m, i + 1, n, more)) == done + [now] + Cut(m, i + 1, n, more);
        now', done' := more, done + [now];
      }
    }
  }

  predicate HeaderPacks(attr: Attribute) {
    attr.code < 256 && (attr.vendor.Some? ==> attr.vendor.value < Pow256(4))
  }

  ghost function PieceSpec(attr: Attribute, piece: seq<Avp>): Result<bytes>
    requires AllFit(piece)
  {
    if HeaderPacks(attr) && Size(piece) <= TlvCap(attr) then Ok(Frame(TlvAvp(attr, piece))) else Err
  }

  ghost function PiecesSpec(attr: Attribute, pieces: seq<seq<Avp>>): Result<bytes>
    requires forall k :: 0 <= k < |pieces| ==> AllFit(pieces[k])
  {
    if pieces == [] then Ok([])
    else if HeaderPacks(attr) && Longest(pieces) <= TlvCap(attr) then Ok(Flatten(TlvAvps(attr, pieces)))
    else Err
  }

  lemma PiecesNext(attr: Attribute, pieces: seq<seq<Avp>>)
    requires pieces != [] && forall k :: 0 <= k < |pieces| ==> AllFit(pieces[k])
    ensures PiecesSpec(attr, pieces) == Both(PieceSpec(attr, pieces[0]), PiecesSpec(attr, pieces[1..]))
  {
    if HeaderPacks(attr) && Longest(pieces) <= TlvCap(attr) {
      var all := TlvAvps(attr, pieces);
      assert Longest(pieces[1..]) <= Longest(pieces) && Size(pieces[0]) <= Longest(pieces);
      assert all == [TlvAvp(attr, pieces[0])] + TlvAvps(attr, pieces[1..]);
      assert all[1..] == TlvAvps(attr, pieces[1..]);
      assert Flatten(all) == Frame(all[0]) + Flatten(all[1..]);
      assert pieces[1..] == [] ==> TlvAvps(attr, pieces[1..]) == [];
    } else if HeaderPacks(attr) && Size(pieces[0]) <= TlvCap(attr) {
      assert Longest(pieces[1..]) > TlvCap(attr);
    }
  }

  /** The type and length octets, and the vendor wrapper if the attribute has a vendor. */
  method WrapPiece(attr: Attribute, ghost piece: seq<Avp>, avp: bytes) returns (r: Result<bytes>)
    requires AllFit(piece) && avp == Flatten(piece)
    ensures r == PieceSpec(attr, piece)
  {
    FlattenSize(piece);
    r := PackAvp(attr.code, avp);
    if r.Err? { return; }
    if attr.vendor.Some? {
      if attr.vendor.value >= Pow256(4) { return Err; }
      var whole := BigEndian(attr.vendor.value, 4) + r.value;
      r := PackAvp(26, whole);
    }
  }

  ghost function TlvSpec(attr: Attribute, m: Tree): Result<bytes> {
    if HeaderPacks(attr) && TlvFits(m, TlvCap(attr)) then
      CutExact(m, 0, MaxInstances(m), [], TlvCap(attr));
      Ok(Flatten(TlvAvps(attr, Pieces(m))))
    else Err
  }

  /** `_pkt_encode_tlv`. */
  method EncodeTlv(attr: Attribute, m: Tree) returns (r: Result<bytes>)
    ensures r == TlvSpec(attr, m)
  {
    if m == [] { return Err; }
    var ok, avps := SplitRounds(m);
    if !ok { return Err; }
    ghost var pieces := Pieces(m);
    CutExact(m, 0, MaxInstances(m), [], TlvCap(attr));
    assert TlvSpec(attr, m) == PiecesSpec(attr, pieces);
    r := WrapPieces(attr, pieces, avps);
  }

  method WrapPieces(attr: Attribute, ghost pieces: seq<seq<Avp>>, avps: seq<bytes>) returns (r: Result<bytes>)
    requires Flattened(avps, pieces)
    ensures r == PiecesSpec(attr, pieces)
  {
    var out: bytes := [];
    assert pieces[0..] == pieces;
    NothingAfter(PiecesSpec(attr, pieces));
    for k := 0 to |avps|
      invariant Both(Ok(out), PiecesSpec(attr, pieces[k..])) == PiecesSpec(attr, pieces)
    {
      PiecesNext(attr, pieces[k..]);
      assert pieces[k..][1..] == pieces[k + 1..];
      var one := WrapPiece(attr, pieces[k], avps[k]);
      BothAssociates(Ok(out), one, PiecesSpec(attr, pieces[k + 1..]));
      if one.Err? { return Err; }
      out := out + one.value;
    }
    NothingAfter(Ok(out));
    return Ok(out);
  }

  // --- One entry, all entries -------------------------------------------------------------------

  ghost function GroupSpec(d: Dictionary, key: Key, s: Stored): Result<bytes> {
    if Encodable(d, key, s) then Ok(Flatten(GroupAvps(d, key, s))) else Err
  }

  /** `_encode_avp_group`. */
  method EncodeGroup(d: Dictionary, key: Key, s: Stored) returns (r: Result<bytes>)
    requires s.Node? <==> HoldsTree(d, key)
    ensures r == GroupSpec(d, key, s)
  {
    if key.Evs? {
      r := EncodeList(d, key, s.vals);
    } else if d.IsKind(key, Tlv) {
      if s.Values? { return Err; }
      r := EncodeTlv(d.AttrOf(key).value, s.items);
    } else if d.IsKind(key, Extended) {
      if s.Values? { return Err; }
      r := EncodeExtended(key.code, s.items);
    } else if d.IsKind(key, LongExtended) {
      if s.Values? { return Err; }
      r := EncodeLongExtended(d, key.code, s.items);
    } else {
      r := EncodeValues(d, key, s.vals);
    }
  }

  ghost function StoreSpec(d: Dictionary, m: Store): Result<bytes> {
    if AllEncodable(d, m) then Ok(Flatten(StoreAvps(d, m))) else Err
  }

  lemma StoreNext(d: Dictionary, m: Store)
    requires m != []
    ensures StoreSpec(d, m) == Both(GroupSpec(d, m[0].0, m[0].1), StoreSpec(d, m[1..]))
  {
    assert forall i :: 0 <= i < |m[1..]| ==> m[1..][i] == m[i + 1];
    if AllEncodable(d, m) {
      FlattenAppend(GroupAvps(d, m[0].0, m[0].1), StoreAvps(d, m[1..]));
    } else if Encodable(d, m[0].0, m[0].1) {
      var i :| 0 <= i < |m| && !Encodable(d, m[i].0, m[i].1);
      assert m[1..][i - 1] == m[i];
    }
  }

  /** The stored entries that go on the wire. */
  function Sent(d: Dictionary, store: Store, side: Sidecar): Store {
    Visible(d, Kept(store, side))
  }

  lemma SentNext(d: Dictionary, store: Store, side: Sidecar)
    requires store != []
    ensures Sent(d, store, side) ==
            (if Claimed(side, store[0].0) || d.IsVirtual(store[0].0) then [] else [store[0]])
            + Sent(d, store[1..], side)
  {
    var head := if Claimed(side, store[0].0) then [] else [store[0]];
    VisibleAppend(d, head, Kept(store[1..], side));
    if !Claimed(side, store[0].0) { assert Visible(d, head[1..]) == []; }
  }

  /** `_pkt_encode_attributes`: nothing in the packet changes. */
  method EncodeAttributes(d: Dictionary, store: Store, side: Sidecar) returns (r: Result<bytes>)
    requires StoreShaped(d, store) && AllLeaves(d, side)
    ensures r == EncodeWith(d, store, side)
  {
    var stored := EncodeStored(d, store, side);
    if stored.Err? { return Err; }
    var deferred := EncodeDeferred(d, store, side);
    if deferred.Err? { return Err; }
    return Ok(stored.value + deferred.value);
  }

  method EncodeStored(d: Dictionary, store: Store, side: Sidecar) returns (r: Result<bytes>)
    requires StoreShaped(d, store)
    ensures r == StoreSpec(d, Sent(d, store, side))
  {
    var out: bytes := [];
    assert store[0..] == store;
    NothingAfter(StoreSpec(d, Sent(d, store, side)));
    for i := 0 to |store|
      invariant Both(Ok(out), StoreSpec(d, Sent(d, store[i..], side))) == StoreSpec(d, Sent(d, store, side))
    {
      SentNext(d, store[i..], side);
      assert store[i..][1..] == store[i + 1..];
      ghost var rest := Sent(d, store[i + 1..], side);
      if Claimed(side, store[i].0) || d.IsVirtual(store[i].0) {
        assert Sent(d, store[i..], side) == rest;
        continue;
      }
      var one := EncodeGroup(d, store[i].0, store[i].1);
      assert Sent(d, store[i..], side)[1..] == rest;
      StoreNext(d, Sent(d, store[i..], side));
      BothAssociates(Ok(out), one, StoreSpec(d, rest));
      if one.Err? { return Err; }
      out := out + one.value;
    }
    NothingAfter(Ok(out));
    return Ok(out);
  }

  /** `_encode_deferred_obfuscated`. */
  method EncodeDeferred(d: Dictionary, store: Store, side: Sidecar) returns (r: Result<bytes>)
    requires StoreShaped(d, store) && AllLeaves(d, side)
    ensures r == if SiblingsCopy(d, store, side) then StoreSpec(d, Pending(d, store, side)) else Err
  {
    if side == [] { return Ok([]); }
    var seeds := SeedPending(d, store, side);
    if seeds.Err? { return Err; }
    var pending := OverlayPending(seeds.value, side);
    ShapedKinded(d, store);
    PendingKinded(d, store, side);
    var out: bytes := [];
    assert pending[0..] == pending;
    NothingAfter(StoreSpec(d, pending));
    for i := 0 to |pending|
      invariant Both(Ok(out), StoreSpec(d, pending[i..])) == StoreSpec(d, pending)
    {
      StoreNext(d, pending[i..]);
      assert pending[i..][1..] == pending[i + 1..];
      assert KindOk(d, pending[i].0, pending[i].1);
      var one := EncodeGroup(d, pending[i].0, pending[i].1);
      BothAssociates(Ok(out), one, StoreSpec(d, pending[i + 1..]));
      if one.Err? { return Err; }
      out := out + one.value;
    }
    NothingAfter(Ok(out));
    return Ok(out);
  }

  /** The rest of the scan completes the containers, and what was seeded so far could be copied. */
  ghost predicate Seeding(d: Dictionary, store: Store, side: Sidecar, i: nat, pending: Store) {
    && i <= |side|
    && Seeded(d, store, side, side[i..], pending) == Seeded(d, store, side, side, [])
    && (forall k :: Has(pending, k) ==> AllCopy(d, AsTree(Find(store, k)), side, k))
    && (forall j :: 0 <= j < i && side[j].0.Sub? ==> Has(pending, side[j].0.parent))
  }

  lemma SeedingNext(d: Dictionary, store: Store, side: Sidecar, i: nat, pending: Store, siblings: Tree)
    requires Seeding(d, store, side, i, pending) && i < |side|
    requires side[i].0.Sub? && !Has(pending, side[i].0.parent)
    requires AllCopy(d, AsTree(Find(store, side[i].0.parent)), side, side[i].0.parent)
    requires siblings == Siblings(d, AsTree(Find(store, side[i].0.parent)), side, side[i].0.parent)
    ensures Seeding(d, store, side, i + 1, pending + [(side[i].0.parent, Node(siblings))])
  {
    var seed := [(side[i].0.parent, Node(siblings))];
    assert side[i..][1..] == side[i + 1..];
    forall k ensures Has(pending + seed, k) <==> Has(pending, k) || k == side[i].0.parent {
      FindAppend(pending, seed, k);
    }
  }

  /** The containers the sidecar reaches into, each with its stored siblings.  Err stands for a list
      of numbers in place of octets, on which no container can be encoded. */
  method SeedPending(d: Dictionary, store: Store, side: Sidecar) returns (r: Result<Store>)
    ensures r == if SiblingsCopy(d, store, side) then Ok(Seeded(d, store, side, side, [])) else Err
  {
    var pending: Store := [];
    assert side[0..] == side;
    for i := 0 to |side|
      invariant Seeding(d, store, side, i, pending)
    {
      assert side[i..][1..] == side[i + 1..];
      var path := side[i].0;
      if path.Sub? && !Has(pending, path.parent) {
        var siblings := SeedParent(d, AsTree(Find(store, path.parent)), side, path.parent);
        if siblings.Err? { return Err; }
        SeedingNext(d, store, side, i, pending, siblings.value);
        pending := pending + [(path.parent, Node(siblings.value))];
      }
    }
    return Ok(pending);
  }

  /** `_seed_parent_from_stored_siblings`. */
  method SeedParent(d: Dictionary, stored: Tree, side: Sidecar, parent: Key) returns (r: Result<Tree>)
    ensures r == if AllCopy(d, stored, side, parent) then Ok(Siblings(d, stored, side, parent)) else Err
  {
    var siblings: Tree := [];
    assert stored[0..] == stored;
    for i := 0 to |stored|
      invariant siblings + Siblings(d, stored[i..], side, parent) == Siblings(d, stored, side, parent)
      invariant AllCopy(d, stored[..i], side, parent)
    {
      SiblingsNext(d, stored, side, parent, i, siblings);
      if !Deferred(side, Sub(parent, stored[i].0)) {
        var values := Copied(d, parent, stored[i].1);
        if values.None? { return Err; }
        siblings := siblings + [(stored[i].0, Values(values.value))];
      }
    }
    assert stored[..|stored|] == stored && siblings + [] == siblings;
    return Ok(siblings);
  }

  lemma SiblingsNext(d: Dictionary, stored: Tree, side: Sidecar, parent: Key, i: nat, done: Tree)
    requires i < |stored|
    ensures done + Siblings(d, stored[i..], side, parent) ==
            done
            + (if Deferred(side, Sub(parent, stored[i].0)) then [] else [(stored[i].0, Copy(d, parent, stored[i].1))])
            + Siblings(d, stored[i + 1..], side, parent)
    ensures Deferred(side, Sub(parent, stored[i].0)) ==>
              done + Siblings(d, stored[i..], side, parent) == done + Siblings(d, stored[i + 1..], side, parent)
  {
    assert stored[i..][1..] == stored[i + 1..];
  }

  method OverlayPending(seeds: Store, side: Sidecar) returns (pending: Store)
    ensures pending == Overlaid(seeds, side)
  {
    pending := seeds;
    assert side[0..] == side;
    for i := 0 to |side|
      invariant Overlaid(pending, side[i..]) == Overlaid(seeds, side)
    {
      assert side[i..][1..] == side[i + 1..];
      var (path, values) := side[i];
      match path {
        case Flat(k) =>
          pending := Put(pending, k, Values(AsValues(Find(pending, k)) + values));
        case Sub(parent, c) =>
          var m := AsTree(Find(pending, parent));
          pending := Put(pending, parent, Node(Put(m, c, Values(AsValues(Find(m, c)) + values))));
      }
    }
  }
}
