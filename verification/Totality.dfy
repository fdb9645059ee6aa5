/** The decoder is total: it refuses exactly the octet strings that are no packet, and a vendor
    payload it cannot read is kept whole. */
module Totality {
  import opened Wrappers
  import opened Bytes
  import opened OrderedMaps
  import opened Dictionaries
  import opened Wire
  import opened Trees
  import opened Decoding

  /** `data` is a list of attributes whose last value may be cut short. */
  ghost predicate CutShort(data: bytes, avps: seq<Avp>, missing: bytes) {
    && AllFit(avps) && Flatten(avps) == data + missing
    && |missing| <= if avps == [] then 0 else |avps[|avps| - 1].value|
  }

  ghost predicate IsFramed(data: bytes) {
    exists avps, missing :: CutShort(data, avps, missing)
  }

  /** The framing accepts exactly such strings, so accepting means that no octet was skipped. */
  lemma {:induction false} FramingExact(data: bytes)
    ensures Frames(data).Ok? <==> IsFramed(data)
    decreases |data|
  {
    if Frames(data).Ok? {
      var avps, missing := FramedBy(data);
    } else if IsFramed(data) {
      var avps, missing :| CutShort(data, avps, missing);
      FramedAccepted(data, avps, missing);
      assert false;
    }
  }

  lemma {:induction false} FramedBy(data: bytes) returns (avps: seq<Avp>, missing: bytes)
    requires Frames(data).Ok?
    ensures CutShort(data, avps, missing)
    decreases |data|
  {
    if data == [] {
      avps, missing := [], [];
    } else if data[1] > |data| {
      missing := Zeros(data[1] - |data|);
      avps := [Avp(data[0], data[2..] + missing)];
      FramedLast(data, missing);
    } else {
      var rest := data[data[1]..];
      var tail: seq<Avp>;
      tail, missing := FramedBy(rest);
      var head := Avp(data[0], data[2..data[1]]);
      avps := [head] + tail;
      assert data == Frame(head) + rest;
      FramedCons(head, rest, tail, missing);
    }
  }

  lemma FramedLast(data: bytes, missing: bytes)
    requires |data| >= 2 && |missing| == data[1] - |data|
    ensures CutShort(data, [Avp(data[0], data[2..] + missing)], missing)
  {
    var avps: seq<Avp> := [Avp(data[0], data[2..] + missing)];
    assert avps[1..] == [];
    assert Flatten(avps) == Frame(avps[0]) + [] == data + missing;
  }

  lemma FramedCons(head: Avp, rest: bytes, tail: seq<Avp>, missing: bytes)
    requires Fits(head) && CutShort(rest, tail, missing)
    ensures CutShort(Frame(head) + rest, [head] + tail, missing)
  {
    var avps := [head] + tail;
    assert avps[1..] == tail;
    assert Flatten(avps) == Frame(head) + (rest + missing) == Frame(head) + rest + missing;
    assert tail != [] ==> avps[|avps| - 1] == tail[|tail| - 1];
  }

  lemma {:induction false} FramedAccepted(data: bytes, avps: seq<Avp>, missing: bytes)
    requires CutShort(data, avps, missing)
    ensures Frames(data).Ok?
    decreases |avps|
  {
    if avps != [] {
      var head := Frame(avps[0]);
      assert (data + missing)[0] == head[0] && (data + missing)[1] == head[1];
      if |avps| == 1 {
        assert avps[1..] == [];
        assert |data| >= 2;
        assert data[1] >= |data|;
        assert Frames([]) == Ok([]);
      } else {
        assert |missing| <= |Flatten(avps[1..])| by { LastValueInside(avps[1..]); }
        assert data + missing == head + Flatten(avps[1..]);
        assert |head| <= |data|;
        var rest := data[|head|..];
        assert rest + missing == (data + missing)[|head|..] == Flatten(avps[1..]);
        assert avps[1..][|avps| - 2] == avps[|avps| - 1];
        FramedAccepted(rest, avps[1..], missing);
      }
    }
  }

  lemma {:induction false} LastValueInside(avps: seq<Avp>)
    requires avps != [] && AllFit(avps)
    ensures |avps[|avps| - 1].value| <= |Flatten(avps)|
  {
    if |avps| > 1 { LastValueInside(avps[1..]); }
  }

  /** `decode_packet` raises PacketError for everything but a header whose length is that of the
      datagram, followed by attributes.  The vendor format and the dictionary do not matter. */
  lemma DecodesExactly(d: Dictionary, v11: bool, raw: bytes)
    ensures DecodeMessage(d, v11, raw).Ok? <==>
            20 <= |raw| <= 8192 && FromBigEndian(raw[2..4]) == |raw| && IsFramed(raw[20..])
  {
    if |raw| >= 20 { FramingExact(raw[20..]); }
  }

  // --- Vendor payloads --------------------------------------------------------------------------

  /** Absorbing a payload touches only keys of its vendor that hold maps. */
  predicate ListsKept(d: Dictionary, before: Store, after: Store, key: Key) {
    !HoldsTree(d, key) ==> Find(after, key) == Find(before, key)
  }

  lemma {:induction false} VendorLoopKeepsLists(d: Dictionary, vendor: nat, f: LegalFormat, rest: bytes, st: State,
                                                items: Items, key: Key)
    ensures ListsKept(d, st.store, VendorLoop(d, vendor, f, rest, st, items).0.store, key)
    decreases |rest|
  {
    var header := f.typeLen + f.lenLen;
    if |rest| >= header && SubEnd(f, rest).Some? {
      var vtype := FromBigEndian(rest[..f.typeLen]);
      var end := SubEnd(f, rest).value;
      var here := Vsa(vendor, vtype);
      if f.continuation {
        if header < end {
          var (buffers, done) :=
            Reassemble(st.buffers, VsaSlot(vendor, vtype), rest[header] >= MORE_FLAG, rest[header + 1..end]);
          var st' := st.(buffers := buffers);
          if done.None? {
            VendorLoopKeepsLists(d, vendor, f, rest[end..], st', items, key);
          } else {
            EmitKeepsLists(d, st', here, done.value, items, key);
            var (st'', items') := Emit(d, st', here, done.value, items);
            VendorLoopKeepsLists(d, vendor, f, rest[end..], st'', items', key);
          }
        }
      } else {
        EmitKeepsLists(d, st, here, rest[header..end], items, key);
        var (st', items') := Emit(d, st, here, rest[header..end], items);
        VendorLoopKeepsLists(d, vendor, f, rest[end..], st', items', key);
      }
    }
  }

  lemma EmitKeepsLists(d: Dictionary, st: State, here: Key, payload: bytes, items: Items, key: Key)
    requires here.Vsa?
    ensures ListsKept(d, st.store, Emit(d, st, here, payload, items).0.store, key)
  {
    if d.IsKind(here, Tlv) {
      FindPut(st.store, here, Node(DecodeChain(d, d.AttrOf(here), AsTree(Find(st.store, here)), payload)), key);
    }
  }

  /** The payload cannot be read as sub-attributes of the vendor's format. */
  predicate Malformed(d: Dictionary, st: State, data: bytes) {
    |data| < 4
    || var vendor := FromBigEndian(data[..4]);
       var f := d.FormatOf(vendor);
       |data| - 4 < f.typeLen + f.lenLen || VendorLoop(d, vendor, f, data[4..], st, []).1.None?
  }

  /** A malformed vendor payload is stored whole under code 26, behind the values already there; no
      other list of the packet changes. */
  lemma MalformedKeptWhole(d: Dictionary, v11: bool, st: State, data: bytes, key: Key)
    requires Malformed(d, st, data)
    ensures var after := DecodeAvp(d, v11, st, Avp(26, data)).store;
            && Find(after, Plain(26)) == Some(Values(AsValues(Find(st.store, Plain(26))) + [data]))
            && (!HoldsTree(d, key) && key != Plain(26) ==> Find(after, key) == Find(st.store, key))
  {
    var (st', items) := DecodeVendor(d, st, data);
    assert items == [(Plain(26), data)];
    if |data| >= 4 {
      var vendor := FromBigEndian(data[..4]);
      VendorLoopKeepsLists(d, vendor, d.FormatOf(vendor), data[4..], st, [], key);
      VendorLoopKeepsLists(d, vendor, d.FormatOf(vendor), data[4..], st, [], Plain(26));
    }
    assert AppendAll(st'.store, items) == Append(st'.store, Plain(26), data) by {
      assert items[1..] == [];
    }
    var vals := Values(AsValues(Find(st'.store, Plain(26))) + [data]);
    FindPut(st'.store, Plain(26), vals, Plain(26));
    FindPut(st'.store, Plain(26), vals, key);
  }

  /** Sub-attributes and their headers account for every octet of a readable payload: the walk of
      the vendor format ends exactly at the end. */
  ghost predicate Walks(f: LegalFormat, rest: bytes)
    decreases |rest|
  {
    rest == []
    || (|rest| >= f.typeLen + f.lenLen
        && SubEnd(f, rest).Some?
        && (f.continuation ==> f.typeLen + f.lenLen < SubEnd(f, rest).value)
        && Walks(f, rest[SubEnd(f, rest).value..]))
  }

  lemma {:induction false} WalksExactly(d: Dictionary, vendor: nat, f: LegalFormat, rest: bytes, st: State,
                                        items: Items)
    ensures VendorLoop(d, vendor, f, rest, st, items).1.Some? <==> Walks(f, rest)
    decreases |rest|
  {
    var header := f.typeLen + f.lenLen;
    if |rest| >= header && SubEnd(f, rest).Some? {
      var vtype := FromBigEndian(rest[..f.typeLen]);
      var end := SubEnd(f, rest).value;
      var here := Vsa(vendor, vtype);
      if f.continuation {
        if header < end {
          var (buffers, done) :=
            Reassemble(st.buffers, VsaSlot(vendor, vtype), rest[header] >= MORE_FLAG, rest[header + 1..end]);
          var st' := st.(buffers := buffers);
          if done.None? {
            WalksExactly(d, vendor, f, rest[end..], st', items);
          } else {
            var (st'', items') := Emit(d, st', here, done.value, items);
            WalksExactly(d, vendor, f, rest[end..], st'', items');
          }
        }
      } else {
        var (st', items') := Emit(d, st, here, rest[header..end], items);
        WalksExactly(d, vendor, f, rest[end..], st', items');
      }
    }
  }
}
