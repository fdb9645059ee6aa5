/** Fragment chains of different slots may be interleaved freely: each slot sees only its own
    fragments, in order. */
module Fragments {
  import opened Wrappers
  import opened Sequences
  import opened Bytes
  import opened OrderedMaps
  import opened Dictionaries
  import opened Wire
  import opened Trees
  import opened Decoding
  import opened Encoding
  import opened RoundTrip

  datatype Piece = Piece(slot: Slot, more: bool, chunk: bytes)

  predicate PieceLive(d: Dictionary, p: Piece) {
    SlotLive(d, p.slot) && |p.chunk| <= FragmentRoom(d, p.slot)
  }

  predicate AllLive(d: Dictionary, pieces: seq<Piece>) {
    forall i :: 0 <= i < |pieces| ==> PieceLive(d, pieces[i])
  }

  function PieceAvps(d: Dictionary, pieces: seq<Piece>): (r: seq<Avp>)
    requires AllLive(d, pieces)
    ensures |r| == |pieces| && AllFit(r)
  {
    seq(|pieces|, i requires 0 <= i < |pieces| => FragmentAvp(d, pieces[i].slot, pieces[i].more, pieces[i].chunk))
  }

  // --- What one slot can see ----------------------------------------------------------------

  datatype SlotView = SlotView(buffer: Option<bytes>, value: Option<Stored>)

  function ValueAt(store: Store, slot: Slot): Option<Stored> {
    match slot
    case LongSlot(p, e) => Find(AsTree(Find(store, Plain(p))), e)
    case EvsSlot(p, e, vendor, vtype) => Find(store, Evs(p, e, vendor, vtype))
    case VsaSlot(vendor, vtype) => Find(store, Vsa(vendor, vtype))
  }

  function View(st: State, slot: Slot): SlotView {
    SlotView(if slot in st.buffers then Some(st.buffers[slot]) else None, ValueAt(st.store, slot))
  }

  /** The attribute whose nested chain a completed value is, if it is one. */
  function ChainOwner(d: Dictionary, slot: Slot): Option<Attribute> {
    match slot
    case LongSlot(p, e) =>
      if d.IsNested(d.AttrOf(Plain(p)), e) then d.Child(d.AttrOf(Plain(p)), e) else None
    case EvsSlot(_, _, _, _) => None
    case VsaSlot(vendor, vtype) =>
      if d.IsKind(Vsa(vendor, vtype), Tlv) then d.AttrOf(Vsa(vendor, vtype)) else None
  }

  function WithValue(d: Dictionary, slot: Slot, old_: Option<Stored>, v: bytes): Stored {
    if ChainOwner(d, slot).Some? then Node(DecodeChain(d, ChainOwner(d, slot), AsTree(old_), v))
    else Values(AsValues(old_) + [v])
  }

  function ViewStep(d: Dictionary, slot: Slot, view: SlotView, more: bool, chunk: bytes): SlotView {
    var joined := (if view.buffer.Some? then view.buffer.value else []) + chunk;
    if more then SlotView(Some(joined), view.value)
    else SlotView(None, Some(WithValue(d, slot, view.value, joined)))
  }

  /** A fragment changes the view of its own slot in the expected way, and no other view. */
  lemma FragmentIsLocal(d: Dictionary, st: State, slot: Slot, more: bool, chunk: bytes, q: Slot)
    ensures View(Receive(d, st, slot, more, chunk), q) ==
            if q == slot then ViewStep(d, slot, View(st, slot), more, chunk) else View(st, q)
  {
    var (buffers, done) := Reassemble(st.buffers, slot, more, chunk);
    if done.Some? {
      DeliverIsLocal(d, st.store, slot, done.value, q);
    }
  }

  lemma DeliverIsLocal(d: Dictionary, store: Store, slot: Slot, v: bytes, q: Slot)
    ensures ValueAt(Deliver(d, store, slot, v), q) ==
            if q == slot then Some(WithValue(d, slot, ValueAt(store, slot), v)) else ValueAt(store, q)
  {
    match slot
    case LongSlot(p, e) =>
      var t := AsTree(Find(store, Plain(p)));
      SlotIsLocal(d, store, p, Avp(e, v), q);
    case EvsSlot(p, e, vendor, vtype) =>
      KeyIsLocal(store, Evs(p, e, vendor, vtype),
                 Values(AsValues(Find(store, Evs(p, e, vendor, vtype))) + [v]), q);
    case VsaSlot(vendor, vtype) =>
      KeyIsLocal(store, Vsa(vendor, vtype), WithValue(d, slot, ValueAt(store, slot), v), q);
  }

  lemma KeyIsLocal(store: Store, key: Key, s: Stored, q: Slot)
    requires !key.Plain?
    ensures ValueAt(Put(store, key, s), q) ==
            match q
            case LongSlot(_, _) => ValueAt(store, q)
            case EvsSlot(p, e, vendor, vtype) => if key == Evs(p, e, vendor, vtype) then Some(s) else ValueAt(store, q)
            case VsaSlot(vendor, vtype) => if key == Vsa(vendor, vtype) then Some(s) else ValueAt(store, q)
  {
    match q
    case LongSlot(p, _) => FindPut(store, key, s, Plain(p));
    case EvsSlot(p, e, vendor, vtype) => FindPut(store, key, s, Evs(p, e, vendor, vtype));
    case VsaSlot(vendor, vtype) => FindPut(store, key, s, Vsa(vendor, vtype));
  }

  lemma SlotIsLocal(d: Dictionary, store: Store, p: byte, a: Avp, q: Slot)
    ensures ValueAt(SlotInto(d, store, p, a), q) ==
            if q == LongSlot(p, a.key)
            then Some(WithValue(d, LongSlot(p, a.key), ValueAt(store, LongSlot(p, a.key)), a.value))
            else ValueAt(store, q)
  {
    var attr := d.AttrOf(Plain(p));
    var t := AsTree(Find(store, Plain(p)));
    var s := Node(Absorb(d, attr, t, a));
    match q
    case LongSlot(p', e) =>
      FindPut(store, Plain(p), s, Plain(p'));
      var here := Find(t, a.key);
      var entry := if d.IsNested(attr, a.key)
                   then Node(DecodeChain(d, d.Child(attr, a.key), AsTree(here), a.value))
                   else Values(AsValues(here) + [a.value]);
      FindPut(t, a.key, entry, e);
    case EvsSlot(p', e, vendor, vtype) => FindPut(store, Plain(p), s, Evs(p', e, vendor, vtype));
    case VsaSlot(vendor, vtype) => FindPut(store, Plain(p), s, Vsa(vendor, vtype));
  }

  // --- Projection ---------------------------------------------------------------------------

  /** The fragments of one slot, in their order. */
  function Only(pieces: seq<Piece>, slot: Slot): seq<Piece> {
    if pieces == [] then []
    else (if pieces[0].slot == slot then [pieces[0]] else []) + Only(pieces[1..], slot)
  }

  function ViewRun(d: Dictionary, slot: Slot, view: SlotView, pieces: seq<Piece>): SlotView
    decreases |pieces|
  {
    if pieces == [] then view
    else ViewRun(d, slot, ViewStep(d, slot, view, pieces[0].more, pieces[0].chunk), pieces[1..])
  }

  lemma PiecesNext(d: Dictionary, pieces: seq<Piece>)
    requires AllLive(d, pieces) && pieces != []
    ensures AllLive(d, pieces[1..])
    ensures PieceAvps(d, pieces) ==
            [FragmentAvp(d, pieces[0].slot, pieces[0].more, pieces[0].chunk)] + PieceAvps(d, pieces[1..])
  {
  }

  lemma FoldFirst(d: Dictionary, v11: bool, st: State, pieces: seq<Piece>)
    requires AllLive(d, pieces) && pieces != []
    ensures AllLive(d, pieces[1..])
    ensures var p := pieces[0];
            Fold(d, v11, st, PieceAvps(d, pieces)) ==
            Fold(d, v11, Receive(d, st, p.slot, p.more, p.chunk), PieceAvps(d, pieces[1..]))
  {
    var p := pieces[0];
    assert PieceLive(d, p);
    var a := FragmentAvp(d, p.slot, p.more, p.chunk);
    FragmentStep(d, v11, st, p.slot, p.more, p.chunk);
    PiecesNext(d, pieces);
    FoldAppend(d, v11, st, [a], PieceAvps(d, pieces[1..]));
    FoldOne(d, v11, st, a);
  }

  /** One fragment seen through one slot. */
  lemma ProjectionStep(d: Dictionary, st: State, pieces: seq<Piece>, slot: Slot)
    requires pieces != []
    ensures var p := pieces[0];
            ViewRun(d, slot, View(Receive(d, st, p.slot, p.more, p.chunk), slot), Only(pieces[1..], slot)) ==
            ViewRun(d, slot, View(st, slot), Only(pieces, slot))
  {
    var p := pieces[0];
    FragmentIsLocal(d, st, p.slot, p.more, p.chunk, slot);
    if p.slot == slot {
      assert Only(pieces, slot)[1..] == Only(pieces[1..], slot);
    } else {
      assert Only(pieces, slot) == Only(pieces[1..], slot);
    }
  }

  /** Decoding any sequence of fragment attributes shows each slot the run of its own fragments. */
  lemma {:induction false} Projection(d: Dictionary, v11: bool, st: State, pieces: seq<Piece>, slot: Slot)
    requires AllLive(d, pieces)
    ensures View(Fold(d, v11, st, PieceAvps(d, pieces)), slot) ==
            ViewRun(d, slot, View(st, slot), Only(pieces, slot))
    decreases |pieces|
  {
    if pieces != [] {
      var p := pieces[0];
      FoldFirst(d, v11, st, pieces);
      Projection(d, v11, Receive(d, st, p.slot, p.more, p.chunk), pieces[1..], slot);
      ProjectionStep(d, st, pieces, slot);
    }
  }

  // --- Interleavings of chains --------------------------------------------------------------

  /** Chains of pairwise different slots. */
  predicate Chains(slots: seq<Slot>, chains: seq<seq<Piece>>) {
    |slots| == |chains|
    && (forall i, j :: 0 <= i < j < |slots| ==> slots[i] != slots[j])
    && forall i :: 0 <= i < |chains| ==> OfSlot(chains[i], slots[i])
  }

  predicate OfSlot(chain: seq<Piece>, slot: Slot) {
    forall k :: 0 <= k < |chain| ==> chain[k].slot == slot
  }

  /** `mixed` consists of the chains' fragments, each chain's own order being kept. */
  predicate Interleaves(mixed: seq<Piece>, slots: seq<Slot>, chains: seq<seq<Piece>>)
    requires |slots| == |chains|
  {
    (forall k :: 0 <= k < |mixed| ==> mixed[k].slot in slots)
    && forall i :: 0 <= i < |chains| ==> Only(mixed, slots[i]) == chains[i]
  }

  function Sequentially(chains: seq<seq<Piece>>): seq<Piece> {
    if chains == [] then [] else chains[0] + Sequentially(chains[1..])
  }

  lemma {:induction false} OnlyAppend(a: seq<Piece>, b: seq<Piece>, slot: Slot)
    ensures Only(a + b, slot) == Only(a, slot) + Only(b, slot)
  {
    if a == [] {
      assert a + b == b;
    } else {
      assert (a + b)[0] == a[0] && (a + b)[1..] == a[1..] + b;
      OnlyAppend(a[1..], b, slot);
      var head := if a[0].slot == slot then [a[0]] else [];
      Regroup(head, Only(a[1..], slot), Only(b, slot));
    }
  }

  lemma {:induction false} OnlyOfSlot(chain: seq<Piece>, slot: Slot, q: Slot)
    requires OfSlot(chain, slot)
    ensures Only(chain, q) == if q == slot then chain else []
  {
    if chain != [] {
      OnlyOfSlot(chain[1..], slot, q);
    }
  }

  lemma {:induction false} OnlyForeign(mixed: seq<Piece>, slots: seq<Slot>, q: Slot)
    requires q !in slots && forall k :: 0 <= k < |mixed| ==> mixed[k].slot in slots
    ensures Only(mixed, q) == []
  {
    if mixed != [] {
      OnlyForeign(mixed[1..], slots, q);
    }
  }

  /** One chain after another is itself an interleaving. */
  lemma {:induction false} SequentiallyOnly(slots: seq<Slot>, chains: seq<seq<Piece>>, q: Slot)
    requires Chains(slots, chains)
    ensures q !in slots ==> Only(Sequentially(chains), q) == []
    ensures forall i :: 0 <= i < |slots| && slots[i] == q ==> Only(Sequentially(chains), q) == chains[i]
  {
    if chains != [] {
      assert forall i :: 0 <= i < |slots[1..]| ==> slots[1..][i] == slots[i + 1] && chains[1..][i] == chains[i + 1];
      SequentiallyOnly(slots[1..], chains[1..], q);
      OnlyAppend(chains[0], Sequentially(chains[1..]), q);
      OnlyOfSlot(chains[0], slots[0], q);
      if q == slots[0] {
        assert q !in slots[1..];
        assert chains[0] + [] == chains[0];
      }
    }
  }

  /** Any interleaving of the chains leaves every slot, involved or not, as decoding the chains
      one after another leaves it. */
  lemma InterleavingIrrelevant(d: Dictionary, v11: bool, st: State, slots: seq<Slot>, chains: seq<seq<Piece>>,
                               mixed: seq<Piece>, q: Slot)
    requires Chains(slots, chains) && Interleaves(mixed, slots, chains)
    requires AllLive(d, mixed) && AllLive(d, Sequentially(chains))
    ensures View(Fold(d, v11, st, PieceAvps(d, mixed)), q) ==
            View(Fold(d, v11, st, PieceAvps(d, Sequentially(chains))), q)
  {
    Projection(d, v11, st, mixed, q);
    Projection(d, v11, st, Sequentially(chains), q);
    SequentiallyOnly(slots, chains, q);
    if q !in slots {
      OnlyForeign(mixed, slots, q);
    }
  }

  // --- What a chain contributes -------------------------------------------------------------

  /** The values a run of fragments completes, given what the buffer holds. */
  function Completed(held: bytes, pieces: seq<Piece>): seq<bytes>
    decreases |pieces|
  {
    if pieces == [] then []
    else if pieces[0].more then Completed(held + pieces[0].chunk, pieces[1..])
    else [held + pieces[0].chunk] + Completed([], pieces[1..])
  }

  /** A list slot gains exactly the completed values, in order. */
  lemma {:induction false} ListSlotGains(d: Dictionary, slot: Slot, view: SlotView, pieces: seq<Piece>)
    requires ChainOwner(d, slot).None?
    ensures AsValues(ViewRun(d, slot, view, pieces).value) ==
            AsValues(view.value) + Completed(if view.buffer.Some? then view.buffer.value else [], pieces)
    decreases |pieces|
  {
    if pieces == [] {
      assert AsValues(view.value) + [] == AsValues(view.value);
    } else {
      var next := ViewStep(d, slot, view, pieces[0].more, pieces[0].chunk);
      ListSlotGains(d, slot, next, pieces[1..]);
      if !pieces[0].more {
        var v := (if view.buffer.Some? then view.buffer.value else []) + pieces[0].chunk;
        assert AsValues(view.value) + [v] + Completed([], pieces[1..]) ==
               AsValues(view.value) + ([v] + Completed([], pieces[1..]));
      }
    }
  }

  /** A chain whose More flag never clears contributes nothing, whatever it is mixed with. */
  lemma {:induction false} UnfinishedChain(d: Dictionary, slot: Slot, view: SlotView, pieces: seq<Piece>)
    requires forall k :: 0 <= k < |pieces| ==> pieces[k].more
    ensures ViewRun(d, slot, view, pieces).value == view.value
    decreases |pieces|
  {
    if pieces != [] {
      UnfinishedChain(d, slot, ViewStep(d, slot, view, pieces[0].more, pieces[0].chunk), pieces[1..]);
    }
  }

  /** Fragments of other slots, mixed in anywhere, neither add to nor take from a list slot. */
  lemma MixedListSlot(d: Dictionary, v11: bool, st: State, pieces: seq<Piece>, slot: Slot)
    requires AllLive(d, pieces) && ChainOwner(d, slot).None? && slot !in st.buffers
    ensures AsValues(ValueAt(Fold(d, v11, st, PieceAvps(d, pieces)).store, slot)) ==
            AsValues(ValueAt(st.store, slot)) + Completed([], Only(pieces, slot))
    ensures (forall k :: 0 <= k < |pieces| && pieces[k].slot == slot ==> pieces[k].more) ==>
              ValueAt(Fold(d, v11, st, PieceAvps(d, pieces)).store, slot) == ValueAt(st.store, slot)
  {
    Projection(d, v11, st, pieces, slot);
    ListSlotGains(d, slot, View(st, slot), Only(pieces, slot));
    if forall k :: 0 <= k < |pieces| && pieces[k].slot == slot ==> pieces[k].more {
      OnlyAllMore(pieces, slot);
      UnfinishedChain(d, slot, View(st, slot), Only(pieces, slot));
    }
  }

  lemma {:induction false} OnlyAllMore(pieces: seq<Piece>, slot: Slot)
    requires forall k :: 0 <= k < |pieces| && pieces[k].slot == slot ==> pieces[k].more
    ensures forall k :: 0 <= k < |Only(pieces, slot)| ==> Only(pieces, slot)[k].more
  {
    if pieces != [] {
      OnlyAllMore(pieces[1..], slot);
    }
  }
}
