/** Decoding is per code: what is stored under the keys of one attribute code depends on the attributes
    of that code alone. */
module Projection {
  import opened Wrappers
  import opened Bytes
  import opened OrderedMaps
  import opened Dictionaries
  import opened Wire
  import opened Trees
  import opened Decoding

  /** The code of the attributes that write to a key. */
  function Owner(k: Key): byte {
    match k
    case Plain(c) => c
    case Vsa(_, _) => 26
    case Evs(parent, _, _, _) => parent
  }

  function SlotOwner(s: Slot): byte {
    match s
    case LongSlot(parent, _) => parent
    case EvsSlot(parent, _, _, _) => parent
    case VsaSlot(_, _) => 26
  }

  ghost predicate SameStored(c: byte, a: Store, b: Store) {
    forall k :: Owner(k) == c ==> Find(a, k) == Find(b, k)
  }

  ghost predicate SameBuffers(c: byte, a: map<Slot, bytes>, b: map<Slot, bytes>) {
    forall s :: SlotOwner(s) == c ==> (s in a <==> s in b) && (s in a ==> a[s] == b[s])
  }

  /** The two states cannot be told apart at code `c`. */
  ghost predicate Agree(c: byte, a: State, b: State) {
    SameStored(c, a.store, b.store) && SameBuffers(c, a.buffers, b.buffers)
  }

  function OfCode(avps: seq<Avp>, c: byte): seq<Avp> {
    if avps == [] then [] else (if avps[0].key == c then [avps[0]] else []) + OfCode(avps[1..], c)
  }

  // --- Writing elsewhere ------------------------------------------------------------------------

  lemma PutElsewhere(store: Store, key: Key, s: Stored, c: byte)
    requires Owner(key) != c
    ensures SameStored(c, store, Put(store, key, s))
  {
    forall k | Owner(k) == c ensures Find(store, k) == Find(Put(store, key, s), k) { FindPut(store, key, s, k); }
  }

  lemma PutAlike(a: Store, b: Store, key: Key, s: Stored, c: byte)
    requires SameStored(c, a, b)
    ensures SameStored(c, Put(a, key, s), Put(b, key, s))
  {
    forall k | Owner(k) == c ensures Find(Put(a, key, s), k) == Find(Put(b, key, s), k) {
      FindPut(a, key, s, k);
      FindPut(b, key, s, k);
    }
  }

  predicate OwnedBy(items: Items, c: byte) {
    forall i :: 0 <= i < |items| ==> Owner(items[i].0) == c
  }

  lemma {:induction false} AppendAllElsewhere(store: Store, items: Items, c: byte, owner: byte)
    requires OwnedBy(items, owner) && owner != c
    ensures SameStored(c, store, AppendAll(store, items))
    decreases |items|
  {
    if items != [] {
      var next := Append(store, items[0].0, items[0].1);
      PutElsewhere(store, items[0].0, Values(AsValues(Find(store, items[0].0)) + [items[0].1]), c);
      AppendAllElsewhere(next, items[1..], c, owner);
    }
  }

  lemma AppendAlike(a: Store, b: Store, key: Key, v: bytes, c: byte)
    requires SameStored(c, a, b) && Owner(key) == c
    ensures SameStored(c, Append(a, key, v), Append(b, key, v))
  {
    PutAlike(a, b, key, Values(AsValues(Find(a, key)) + [v]), c);
  }

  lemma {:induction false} AppendAllAlike(a: Store, b: Store, items: Items, c: byte)
    requires SameStored(c, a, b) && OwnedBy(items, c)
    ensures SameStored(c, AppendAll(a, items), AppendAll(b, items))
    decreases |items|
  {
    if items != [] {
      AppendAlike(a, b, items[0].0, items[0].1, c);
      AppendAllAlike(Append(a, items[0].0, items[0].1), Append(b, items[0].0, items[0].1), items[1..], c);
    }
  }

  /** The key a completed value goes to. */
  function SlotKey(s: Slot): (k: Key)
    ensures Owner(k) == SlotOwner(s)
  {
    match s
    case LongSlot(parent, _) => Plain(parent)
    case EvsSlot(parent, ext, vendor, vtype) => Evs(parent, ext, vendor, vtype)
    case VsaSlot(vendor, vtype) => Vsa(vendor, vtype)
  }

  /** What the key holds afterwards, given what it held before. */
  function Delivered(d: Dictionary, slot: Slot, here: Option<Stored>, v: bytes): Stored {
    match slot
    case LongSlot(parent, ext) => Node(Absorb(d, d.AttrOf(Plain(parent)), AsTree(here), Avp(ext, v)))
    case EvsSlot(_, _, _, _) => Values(AsValues(here) + [v])
    case VsaSlot(vendor, vtype) => Emitted(d, Vsa(vendor, vtype), here, v)
  }

  function Emitted(d: Dictionary, key: Key, here: Option<Stored>, v: bytes): Stored {
    if d.IsKind(key, Tlv) then Node(DecodeChain(d, d.AttrOf(key), AsTree(here), v)) else Values(AsValues(here) + [v])
  }

  lemma DeliverIsPut(d: Dictionary, store: Store, slot: Slot, v: bytes)
    ensures Deliver(d, store, slot, v) == Put(store, SlotKey(slot), Delivered(d, slot, Find(store, SlotKey(slot)), v))
  {
  }

  lemma ReceiveElsewhere(d: Dictionary, st: State, slot: Slot, more: bool, chunk: bytes, c: byte)
    requires SlotOwner(slot) != c
    ensures Agree(c, st, Receive(d, st, slot, more, chunk))
  {
    var (buffers, done) := Reassemble(st.buffers, slot, more, chunk);
    if done.Some? {
      DeliverIsPut(d, st.store, slot, done.value);
      PutElsewhere(st.store, SlotKey(slot), Delivered(d, slot, Find(st.store, SlotKey(slot)), done.value), c);
    }
  }

  lemma ReassembleAlike(a: map<Slot, bytes>, b: map<Slot, bytes>, slot: Slot, more: bool, chunk: bytes, c: byte)
    requires SameBuffers(c, a, b) && SlotOwner(slot) == c
    ensures SameBuffers(c, Reassemble(a, slot, more, chunk).0, Reassemble(b, slot, more, chunk).0)
    ensures Reassemble(a, slot, more, chunk).1 == Reassemble(b, slot, more, chunk).1
  {
  }

  lemma ReceiveAlike(d: Dictionary, a: State, b: State, slot: Slot, more: bool, chunk: bytes, c: byte)
    requires Agree(c, a, b) && SlotOwner(slot) == c
    ensures Agree(c, Receive(d, a, slot, more, chunk), Receive(d, b, slot, more, chunk))
  {
    ReassembleAlike(a.buffers, b.buffers, slot, more, chunk, c);
    var done := Reassemble(a.buffers, slot, more, chunk).1;
    if done.Some? {
      DeliverIsPut(d, a.store, slot, done.value);
      DeliverIsPut(d, b.store, slot, done.value);
      PutAlike(a.store, b.store, SlotKey(slot), Delivered(d, slot, Find(a.store, SlotKey(slot)), done.value), c);
    }
  }

  // --- Vendor payloads --------------------------------------------------------------------------

  /** One turn of the vendor loop: the state, the values collected, and what is left of the payload.  None
      stops the loop. */
  function SubStep(d: Dictionary, vendor: nat, f: LegalFormat, rest: bytes, st: State, items: Items):
      (r: Option<(State, Items, bytes)>)
    requires |rest| >= f.typeLen + f.lenLen
    ensures r.Some? ==> |r.value.2| < |rest|
  {
    var header, vtype := f.typeLen + f.lenLen, FromBigEndian(rest[..f.typeLen]);
    match SubEnd(f, rest)
    case None => None
    case Some(end) =>
      if !f.continuation then
        var (st', items') := Emit(d, st, Vsa(vendor, vtype), rest[header..end], items);
        Some((st', items', rest[end..]))
      else if header >= end then None
      else
        var (buffers, done) :=
          Reassemble(st.buffers, VsaSlot(vendor, vtype), rest[header] >= MORE_FLAG, rest[header + 1..end]);
        var st' := st.(buffers := buffers);
        if done.None? then Some((st', items, rest[end..]))
        else
          var (st'', items') := Emit(d, st', Vsa(vendor, vtype), done.value, items);
          Some((st'', items', rest[end..]))
  }

  lemma {:induction false} LoopSteps(d: Dictionary, vendor: nat, f: LegalFormat, rest: bytes, st: State,
                                     items: Items)
    ensures VendorLoop(d, vendor, f, rest, st, items) ==
            if |rest| < f.typeLen + f.lenLen then (st, if rest == [] then Some(items) else None)
            else
              match SubStep(d, vendor, f, rest, st, items)
              case None => (st, None)
              case Some(next) => VendorLoop(d, vendor, f, next.2, next.0, next.1)
  {
  }

  lemma EmitElsewhere(d: Dictionary, st: State, key: Key, payload: bytes, items: Items, c: byte)
    requires key.Vsa? && c != 26 && OwnedBy(items, 26)
    ensures var (st', items') := Emit(d, st, key, payload, items); Agree(c, st, st') && OwnedBy(items', 26)
  {
    if d.IsKind(key, Tlv) { PutElsewhere(st.store, key, Emitted(d, key, Find(st.store, key), payload), c); }
  }

  lemma SubElsewhere(d: Dictionary, vendor: nat, f: LegalFormat, rest: bytes, st: State, items: Items, c: byte)
    requires c != 26 && OwnedBy(items, 26) && |rest| >= f.typeLen + f.lenLen
    ensures var next := SubStep(d, vendor, f, rest, st, items);
            next.Some? ==> Agree(c, st, next.value.0) && OwnedBy(next.value.1, 26)
  {
    if SubEnd(f, rest).Some? {
      var header, end, vtype := f.typeLen + f.lenLen, SubEnd(f, rest).value, FromBigEndian(rest[..f.typeLen]);
      if !f.continuation {
        EmitElsewhere(d, st, Vsa(vendor, vtype), rest[header..end], items, c);
      } else if header < end {
        var (buffers, done) :=
          Reassemble(st.buffers, VsaSlot(vendor, vtype), rest[header] >= MORE_FLAG, rest[header + 1..end]);
        if done.Some? { EmitElsewhere(d, st.(buffers := buffers), Vsa(vendor, vtype), done.value, items, c); }
      }
    }
  }

  lemma {:induction false} VendorLoopElsewhere(d: Dictionary, vendor: nat, f: LegalFormat, rest: bytes, st: State,
                                               items: Items, c: byte)
    requires c != 26 && OwnedBy(items, 26)
    ensures var (st', items') := VendorLoop(d, vendor, f, rest, st, items);
            Agree(c, st, st') && (items'.Some? ==> OwnedBy(items'.value, 26))
    decreases |rest|
  {
    LoopSteps(d, vendor, f, rest, st, items);
    if |rest| >= f.typeLen + f.lenLen {
      SubElsewhere(d, vendor, f, rest, st, items, c);
      var next := SubStep(d, vendor, f, rest, st, items);
      if next.Some? { VendorLoopElsewhere(d, vendor, f, next.value.2, next.value.0, next.value.1, c); }
    }
  }

  lemma EmitAlike(d: Dictionary, a: State, b: State, key: Key, payload: bytes, items: Items)
    requires key.Vsa? && Agree(26, a, b) && OwnedBy(items, 26)
    ensures var (a', items') := Emit(d, a, key, payload, items);
            var (b', other) := Emit(d, b, key, payload, items);
            Agree(26, a', b') && items' == other && OwnedBy(items', 26)
  {
    if d.IsKind(key, Tlv) { PutAlike(a.store, b.store, key, Emitted(d, key, Find(a.store, key), payload), 26); }
  }

  ghost predicate StepsAlike(x: Option<(State, Items, bytes)>, y: Option<(State, Items, bytes)>) {
    (x.Some? <==> y.Some?)
    && (x.Some? ==> Agree(26, x.value.0, y.value.0) && x.value.1 == y.value.1 && x.value.2 == y.value.2
                    && OwnedBy(x.value.1, 26))
  }

  lemma SubAlike(d: Dictionary, vendor: nat, f: LegalFormat, rest: bytes, a: State, b: State, items: Items)
    requires Agree(26, a, b) && OwnedBy(items, 26) && |rest| >= f.typeLen + f.lenLen
    ensures StepsAlike(SubStep(d, vendor, f, rest, a, items), SubStep(d, vendor, f, rest, b, items))
  {
    if SubEnd(f, rest).Some? {
      var header, end, vtype := f.typeLen + f.lenLen, SubEnd(f, rest).value, FromBigEndian(rest[..f.typeLen]);
      var key, slot := Vsa(vendor, vtype), VsaSlot(vendor, vtype);
      if !f.continuation {
        EmitAlike(d, a, b, key, rest[header..end], items);
      } else if header < end {
        var more, chunk := rest[header] >= MORE_FLAG, rest[header + 1..end];
        ReassembleAlike(a.buffers, b.buffers, slot, more, chunk, 26);
        var (x, done) := Reassemble(a.buffers, slot, more, chunk);
        var (y, _) := Reassemble(b.buffers, slot, more, chunk);
        if done.Some? { EmitAlike(d, a.(buffers := x), b.(buffers := y), key, done.value, items); }
      }
    }
  }

  lemma {:induction false} VendorLoopAlike(d: Dictionary, vendor: nat, f: LegalFormat, rest: bytes, a: State, b: State,
                                           items: Items)
    requires Agree(26, a, b) && OwnedBy(items, 26)
    ensures var (a', items') := VendorLoop(d, vendor, f, rest, a, items);
            var (b', other) := VendorLoop(d, vendor, f, rest, b, items);
            Agree(26, a', b') && items' == other && (items'.Some? ==> OwnedBy(items'.value, 26))
    decreases |rest|
  {
    LoopSteps(d, vendor, f, rest, a, items);
    LoopSteps(d, vendor, f, rest, b, items);
    if |rest| >= f.typeLen + f.lenLen {
      SubAlike(d, vendor, f, rest, a, b, items);
      var x, y := SubStep(d, vendor, f, rest, a, items), SubStep(d, vendor, f, rest, b, items);
      if x.Some? { VendorLoopAlike(d, vendor, f, x.value.2, x.value.0, y.value.0, x.value.1); }
    }
  }

  lemma VendorElsewhere(d: Dictionary, st: State, data: bytes, c: byte)
    requires c != 26
    ensures var (st', items) := DecodeVendor(d, st, data); Agree(c, st, st'.(store := AppendAll(st'.store, items)))
  {
    if |data| >= 4 {
      var vendor := FromBigEndian(data[..4]);
      VendorLoopElsewhere(d, vendor, d.FormatOf(vendor), data[4..], st, [], c);
    }
    var (st', items) := DecodeVendor(d, st, data);
    AppendAllElsewhere(st'.store, items, c, 26);
  }

  lemma VendorAlike(d: Dictionary, a: State, b: State, data: bytes)
    requires Agree(26, a, b)
    ensures var (a', items) := DecodeVendor(d, a, data);
            var (b', other) := DecodeVendor(d, b, data);
            Agree(26, a'.(store := AppendAll(a'.store, items)), b'.(store := AppendAll(b'.store, other)))
  {
    if |data| >= 4 {
      var vendor := FromBigEndian(data[..4]);
      VendorLoopAlike(d, vendor, d.FormatOf(vendor), data[4..], a, b, []);
    }
    var (a', items) := DecodeVendor(d, a, data);
    AppendAllAlike(a'.store, DecodeVendor(d, b, data).0.store, items, 26);
  }

  // --- One attribute, all attributes ------------------------------------------------------------

  lemma ExtendedElsewhere(d: Dictionary, store: Store, parent: byte, value: bytes, c: byte)
    requires parent != c
    ensures SameStored(c, store, DecodeExtended(d, store, parent, value))
  {
    if value != [] {
      var payload := value[1..];
      if |payload| >= 5 && d.IsEvsSlot(parent, value[0]) {
        var key := Evs(parent, value[0], FromBigEndian(payload[..4]), payload[4]);
        PutElsewhere(store, key, Values(AsValues(Find(store, key)) + [payload[5..]]), c);
      } else {
        var key := Plain(parent);
        PutElsewhere(store, key, Node(Absorb(d, d.AttrOf(key), AsTree(Find(store, key)), Avp(value[0], payload))), c);
      }
    }
  }

  lemma ExtendedAlike(d: Dictionary, a: Store, b: Store, parent: byte, value: bytes)
    requires SameStored(parent, a, b)
    ensures SameStored(parent, DecodeExtended(d, a, parent, value), DecodeExtended(d, b, parent, value))
  {
    if value != [] {
      var payload := value[1..];
      if |payload| >= 5 && d.IsEvsSlot(parent, value[0]) {
        AppendAlike(a, b, Evs(parent, value[0], FromBigEndian(payload[..4]), payload[4]), payload[5..], parent);
      } else {
        var key := Plain(parent);
        PutAlike(a, b, key, Node(Absorb(d, d.AttrOf(key), AsTree(Find(a, key)), Avp(value[0], payload))), parent);
      }
    }
  }

  lemma LongExtendedElsewhere(d: Dictionary, st: State, parent: byte, value: bytes, c: byte)
    requires parent != c
    ensures Agree(c, st, DecodeLongExtended(d, st, parent, value))
  {
    if |value| >= 2 {
      var more, payload := value[1] >= MORE_FLAG, value[2..];
      if |payload| >= 5 && d.IsEvsSlot(parent, value[0]) {
        ReceiveElsewhere(d, st, EvsSlot(parent, value[0], FromBigEndian(payload[..4]), payload[4]), more, payload[5..],
                         c);
      } else {
        ReceiveElsewhere(d, st, LongSlot(parent, value[0]), more, payload, c);
      }
    }
  }

  lemma LongExtendedAlike(d: Dictionary, a: State, b: State, parent: byte, value: bytes)
    requires Agree(parent, a, b)
    ensures Agree(parent, DecodeLongExtended(d, a, parent, value), DecodeLongExtended(d, b, parent, value))
  {
    if |value| >= 2 {
      var more, payload := value[1] >= MORE_FLAG, value[2..];
      if |payload| >= 5 && d.IsEvsSlot(parent, value[0]) {
        var slot := EvsSlot(parent, value[0], FromBigEndian(payload[..4]), payload[4]);
        ReceiveAlike(d, a, b, slot, more, payload[5..], parent);
      } else {
        ReceiveAlike(d, a, b, LongSlot(parent, value[0]), more, payload, parent);
      }
    }
  }

  /** An attribute of another code leaves no trace at code `c`. */
  lemma AvpElsewhere(d: Dictionary, v11: bool, st: State, a: Avp, c: byte)
    requires a.key != c
    ensures Agree(c, st, DecodeAvp(d, v11, st, a))
  {
    var key := Plain(a.key);
    if a.key == 26 {
      VendorElsewhere(d, st, a.value, c);
    } else if a.key == 80 {
      PutElsewhere(st.store, key, Values(AsValues(Find(st.store, key)) + [a.value]), c);
    } else if d.IsKind(key, Tlv) {
      PutElsewhere(st.store, key, Emitted(d, key, Find(st.store, key), a.value), c);
    } else if d.IsKind(key, Extended) {
      ExtendedElsewhere(d, st.store, a.key, a.value, c);
    } else if d.IsKind(key, LongExtended) {
      LongExtendedElsewhere(d, st, a.key, a.value, c);
    } else {
      PutElsewhere(st.store, key, Values(AsValues(Find(st.store, key)) + [a.value]), c);
    }
  }

  /** An attribute of code `c` does the same to states that agree there. */
  lemma AvpAlike(d: Dictionary, v11: bool, x: State, y: State, a: Avp)
    requires Agree(a.key, x, y)
    ensures Agree(a.key, DecodeAvp(d, v11, x, a), DecodeAvp(d, v11, y, a))
  {
    var key := Plain(a.key);
    if a.key == 26 {
      VendorAlike(d, x, y, a.value);
    } else if a.key == 80 {
      AppendAlike(x.store, y.store, key, a.value, a.key);
    } else if d.IsKind(key, Tlv) {
      PutAlike(x.store, y.store, key, Emitted(d, key, Find(x.store, key), a.value), a.key);
    } else if d.IsKind(key, Extended) {
      ExtendedAlike(d, x.store, y.store, a.key, a.value);
    } else if d.IsKind(key, LongExtended) {
      LongExtendedAlike(d, x, y, a.key, a.value);
    } else {
      AppendAlike(x.store, y.store, key, a.value, a.key);
    }
  }

  /** What any attributes leave at code `c` is what those of code `c` alone leave. */
  lemma {:induction false} FoldProjects(d: Dictionary, v11: bool, x: State, y: State, avps: seq<Avp>, c: byte)
    requires Agree(c, x, y)
    ensures Agree(c, Fold(d, v11, x, avps), Fold(d, v11, y, OfCode(avps, c)))
    decreases |avps|
  {
    if avps != [] {
      var a := avps[0];
      var x' := DecodeAvp(d, v11, x, a);
      if a.key == c {
        AvpAlike(d, v11, x, y, a);
        var y' := DecodeAvp(d, v11, y, a);
        assert OfCode(avps, c) == [a] + OfCode(avps[1..], c);
        assert ([a] + OfCode(avps[1..], c))[1..] == OfCode(avps[1..], c);
        FoldProjects(d, v11, x', y', avps[1..], c);
      } else {
        AvpElsewhere(d, v11, x, a, c);
        assert OfCode(avps, c) == OfCode(avps[1..], c);
        FoldProjects(d, v11, x', y, avps[1..], c);
      }
    }
  }
}
