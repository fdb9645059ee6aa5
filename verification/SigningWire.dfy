/** The octets under a digest: one code-80 attribute among the others, set-aside values included. */
module SigningWire {
  import opened Wrappers
  import opened Sequences
  import opened Bytes
  import opened OrderedMaps
  import opened Dictionaries
  import opened Wire
  import opened Trees
  import opened TlvSplit
  import opened Decoding
  import opened Encoding
  import opened Overlay
  import opened Signing

  // --- Framing ------------------------------------------------------------------------------

  lemma {:induction false} StrictFramesOfFlatten(avps: seq<Avp>)
    requires AllFit(avps)
    ensures StrictFrames(Flatten(avps)) == Ok(avps)
  {
    if avps != [] {
      var data := Flatten(avps);
      StrictFramesOfFlatten(avps[1..]);
      assert data[1] == |avps[0].value| + 2 && data[2..data[1]] == avps[0].value;
      assert data[data[1]..] == Flatten(avps[1..]);
      assert [avps[0]] + avps[1..] == avps;
    }
  }

  predicate No80(avps: seq<Avp>) {
    forall i :: 0 <= i < |avps| ==> avps[i].key != 80
  }

  lemma {:induction false} CountAppend(a: seq<Avp>, b: seq<Avp>)
    ensures Count80(a + b) == Count80(a) + Count80(b)
  {
    if a == [] {
      assert a + b == b;
    } else {
      assert (a + b)[1..] == a[1..] + b;
      CountAppend(a[1..], b);
    }
  }

  lemma {:induction false} CountNone(a: seq<Avp>)
    requires No80(a)
    ensures Count80(a) == 0 && ZeroAvps(a) == a
  {
    if a != [] { CountNone(a[1..]); }
  }

  lemma CountOne(before: seq<Avp>, a: Avp, after: seq<Avp>)
    requires No80(before) && No80(after) && a.key == 80
    ensures Count80(before + [a] + after) == 1
  {
    CountAppend(before + [a], after);
    CountAppend(before, [a]);
    CountNone(before);
    CountNone(after);
  }

  lemma SizeAround(before: seq<Avp>, a: Avp, after: seq<Avp>)
    ensures Size(before + [a] + after) == Size(before) + 2 + |a.value| + Size(after)
  {
    SizeAppend(before + [a], after);
    SizeAppend(before, [a]);
  }

  /** Zeroing the digest of the one code-80 attribute restores the octets around a zero digest. */
  lemma ZeroingRestores(before: seq<Avp>, digest: bytes, after: seq<Avp>)
    requires AllFit(before) && AllFit(after) && No80(before) && No80(after) && |digest| == 16
    ensures AllFit(before + [Avp(80, digest)] + after) && AllFit(before + [Avp(80, ZEROS)] + after)
    ensures ZeroMessageAuthenticator(Flatten(before + [Avp(80, digest)] + after)) ==
            Ok(Flatten(before + [Avp(80, ZEROS)] + after))
    ensures |Flatten(before + [Avp(80, digest)] + after)| == |Flatten(before + [Avp(80, ZEROS)] + after)|
  {
    var avps := before + [Avp(80, digest)] + after;
    var zero := before + [Avp(80, ZEROS)] + after;
    ZeroedMiddle(before, digest, after);
    StrictFramesOfFlatten(avps);
    FlattenSize(avps);
    FlattenSize(zero);
    SizeAround(before, Avp(80, digest), after);
    SizeAround(before, Avp(80, ZEROS), after);
  }

  lemma ZeroedMiddle(before: seq<Avp>, digest: bytes, after: seq<Avp>)
    requires AllFit(before) && AllFit(after) && No80(before) && No80(after) && |digest| == 16
    ensures var avps := before + [Avp(80, digest)] + after;
            && AllFit(avps) && AllFit(before + [Avp(80, ZEROS)] + after)
            && Count80(avps) == 1 && ZeroAvps(avps) == before + [Avp(80, ZEROS)] + after
            && forall i :: 0 <= i < |avps| && avps[i].key == 80 ==> |avps[i].value| == 16
  {
    CountOne(before, Avp(80, digest), after);
    CountNone(before);
    CountNone(after);
    assert ZeroAvps(before + [Avp(80, digest)] + after) == ZeroAvps(before) + [Avp(80, ZEROS)] + ZeroAvps(after);
  }

  // --- Which code an entry is sent under ----------------------------------------------------

  /** The code of the attributes an entry is encoded as. */
  function SentCode(d: Dictionary, key: Key): nat {
    match key
    case Evs(parent, _, _, _) => parent
    case Plain(c) => if d.IsKind(key, Tlv) then TlvCode(d.AttrOf(key).value) else c
    case Vsa(_, _) => if d.IsKind(key, Tlv) then TlvCode(d.AttrOf(key).value) else 26
  }

  function TlvCode(attr: Attribute): nat {
    if attr.vendor.Some? then 26 else attr.code
  }

  predicate AllOfCode(avps: seq<Avp>, c: nat) {
    forall i :: 0 <= i < |avps| ==> avps[i].key == c
  }

  lemma {:induction false} ListCode(d: Dictionary, key: Key, vals: seq<bytes>)
    requires ListPacks(d, key, vals)
    ensures AllOfCode(ListToAvps(d, key, vals),
                      match key case Plain(c) => c case Vsa(_, _) => 26 case Evs(p, _, _, _) => p)
  {
    if vals != [] { ListCode(d, key, vals[1..]); }
  }

  lemma {:induction false} TlvCodes(attr: Attribute, pieces: seq<seq<Avp>>)
    requires attr.code < 256 && (attr.vendor.Some? ==> attr.vendor.value < Pow256(4))
    requires (forall k :: 0 <= k < |pieces| ==> AllFit(pieces[k])) && Longest(pieces) <= TlvCap(attr)
    ensures AllOfCode(TlvAvps(attr, pieces), TlvCode(attr))
  {
    if pieces != [] { TlvCodes(attr, pieces[1..]); }
  }

  lemma {:induction false} LongCodes(d: Dictionary, parent: byte, subs: seq<Avp>)
    ensures AllOfCode(LongAvps(d, parent, subs), parent)
  {
    if subs != [] { LongCodes(d, parent, subs[1..]); }
  }

  /** Every attribute of an entry carries its code. */
  lemma GroupCode(d: Dictionary, key: Key, s: Stored)
    requires Encodable(d, key, s)
    ensures AllOfCode(GroupAvps(d, key, s), SentCode(d, key))
  {
    if key.Evs? {
      ListCode(d, key, s.vals);
    } else if d.IsKind(key, Tlv) {
      var attr := d.AttrOf(key).value;
      CutExact(s.items, 0, MaxInstances(s.items), [], TlvCap(attr));
      TlvCodes(attr, Pieces(s.items));
    } else if d.IsKind(key, Extended) {
      ExtendedFitsSubs(s.items);
    } else if d.IsKind(key, LongExtended) {
      LongCodes(d, key.code, TreeAvps(s.items));
    } else {
      ListCode(d, key, WireValues(d, key, s.vals));
    }
  }

  /** Entries that are sent under other codes leave code 80 to the digest. */
  lemma {:induction false} StoreNo80(d: Dictionary, store: Store)
    requires AllEncodable(d, store) && forall i :: 0 <= i < |store| ==> SentCode(d, store[i].0) != 80
    ensures No80(StoreAvps(d, store))
  {
    if store != [] {
      GroupCode(d, store[0].0, store[0].1);
      StoreNo80(d, store[1..]);
    }
  }

  // --- The store around the digest ----------------------------------------------------------

  function Before<V>(m: seq<(Key, V)>, k: Key): seq<(Key, V)> {
    if m == [] || m[0].0 == k then [] else [m[0]] + Before(m[1..], k)
  }

  function After<V>(m: seq<(Key, V)>, k: Key): seq<(Key, V)> {
    if m == [] then [] else if m[0].0 == k then m[1..] else After(m[1..], k)
  }

  lemma {:induction false} PutSplits<V>(m: seq<(Key, V)>, k: Key, v: V)
    ensures Put(m, k, v) == Before(m, k) + [(k, v)] + After(m, k)
  {
    if m != [] && m[0].0 != k { PutSplits(m[1..], k, v); }
  }

  /** The part of the wire before and after Message-Authenticator does not depend on its value. */
  lemma VisibleSplits(d: Dictionary, store: Store, v: bytes)
    requires !d.IsVirtual(MA)
    ensures Visible(d, WithMa(store, v)) ==
            Visible(d, Before(store, MA)) + [(MA, Values([v]))] + Visible(d, After(store, MA))
  {
    var e := [(MA, Values([v]))];
    PutSplits(store, MA, Values([v]));
    VisibleAppend(d, Before(store, MA) + e, After(store, MA));
    VisibleAppend(d, Before(store, MA), e);
  }

  /** The digest is neither packed nor chunked. */
  lemma MaTravels(d: Dictionary, v: bytes)
    requires |v| <= 16
    ensures WireValues(d, MA, [v]) == [v]
  {
    if d.IsConcat(MA) { assert AllConcatPieces([v]) == [v] + AllConcatPieces([]); }
  }

  lemma MaAvps(d: Dictionary, v: bytes)
    requires |v| <= 16 && Encodable(d, MA, Values([v]))
    ensures GroupAvps(d, MA, Values([v])) == [Avp(80, v)]
  {
    MaTravels(d, v);
    assert ListToAvps(d, MA, [v]) == [Avp(80, v)] + ListToAvps(d, MA, []);
  }

  /** One code-80 attribute, between the attributes of the parts of the store around it. */
  lemma SplitWire(d: Dictionary, before: Store, v: bytes, after: Store)
    requires AllEncodable(d, before) && AllEncodable(d, after) && Encodable(d, MA, Values([v]))
    requires |v| <= 16
    ensures AllEncodable(d, before + [(MA, Values([v]))] + after)
    ensures StoreAvps(d, before + [(MA, Values([v]))] + after) ==
            StoreAvps(d, before) + [Avp(80, v)] + StoreAvps(d, after)
  {
    var e := (MA, Values([v]));
    StoreAvpsHead(d, e, after);
    MaAvps(d, v);
    StoreAvpsAppend(d, before, [e] + after);
    Regroup(before, [e], after);
    Regroup(StoreAvps(d, before), [Avp(80, v)], StoreAvps(d, after));
  }

  // --- Set-aside values ---------------------------------------------------------------------

  lemma {:induction false} KeptWithMa(store: Store, v: bytes, side: Sidecar)
    requires !Claimed(side, MA)
    ensures Kept(WithMa(store, v), side) == WithMa(Kept(store, side), v)
  {
    if store == [] {
      assert [(MA, Values([v]))][1..] == [];
    } else if store[0].0 == MA {
      assert WithMa(store, v)[1..] == store[1..];
    } else {
      KeptWithMa(store[1..], v, side);
      assert WithMa(store, v)[1..] == WithMa(store[1..], v);
      var rest := Kept(store[1..], side);
      assert [] + rest == rest && [] + WithMa(rest, v) == WithMa(rest, v);
      assert ([store[0]] + rest)[1..] == rest;
      assert WithMa([store[0]] + rest, v) == [store[0]] + WithMa(rest, v);
    }
  }

  lemma {:induction false} SeededWithMa(d: Dictionary, store: Store, v: bytes, side: Sidecar, rest: Sidecar,
                                        pending: Store)
    requires !Claimed(rest, MA)
    ensures Seeded(d, WithMa(store, v), side, rest, pending) == Seeded(d, store, side, rest, pending)
    decreases |rest|
  {
    if rest != [] {
      var p := rest[0].0;
      if p.Sub? && !Has(pending, p.parent) {
        FindPut(store, MA, Values([v]), p.parent);
        var seed := (p.parent, Node(Siblings(d, AsTree(Find(store, p.parent)), side, p.parent)));
        SeededWithMa(d, store, v, side, rest[1..], pending + [seed]);
      } else {
        SeededWithMa(d, store, v, side, rest[1..], pending);
      }
    }
  }

  lemma {:induction false} NotClaimedAt(side: Sidecar, i: nat)
    requires !Claimed(side, MA) && i < |side|
    ensures side[i].0.StorageKey() != MA
  {
    if i > 0 { NotClaimedAt(side[1..], i - 1); }
  }

  lemma CopyWithMa(d: Dictionary, store: Store, v: bytes, side: Sidecar)
    requires !Claimed(side, MA)
    ensures SiblingsCopy(d, WithMa(store, v), side) <==> SiblingsCopy(d, store, side)
  {
    forall i | 0 <= i < |side| && side[i].0.Sub?
      ensures Find(WithMa(store, v), side[i].0.parent) == Find(store, side[i].0.parent)
    {
      NotClaimedAt(side, i);
      FindPut(store, MA, Values([v]), side[i].0.parent);
    }
  }

  lemma PendingWithMa(d: Dictionary, store: Store, v: bytes, side: Sidecar)
    requires !Claimed(side, MA)
    ensures Pending(d, WithMa(store, v), side) == Pending(d, store, side)
  {
    SeededWithMa(d, store, v, side, side, []);
  }

  /** The entries sent before the digest. */
  function SentAhead(d: Dictionary, store: Store, side: Sidecar): Store {
    Visible(d, Before(Kept(store, side), MA))
  }

  /** The entries sent behind the digest, those built from the sidecar last. */
  function SentBehind(d: Dictionary, store: Store, side: Sidecar): Store {
    Visible(d, After(Kept(store, side), MA)) + Pending(d, store, side)
  }

  /** The octets of a packet around a digest. */
  function Around(before: seq<Avp>, v: bytes, after: seq<Avp>): bytes
    requires AllFit(before) && AllFit(after) && |v| <= 253
  {
    Flatten(before + [Avp(80, v)] + after)
  }

  /** Message-Authenticator goes on the wire as stored: neither virtual nor set aside. */
  predicate SendsDigest(d: Dictionary, side: Sidecar) {
    !d.IsVirtual(MA) && !Claimed(side, MA)
  }

  lemma MaEncodable(d: Dictionary, v: bytes, w: bytes)
    requires |v| <= 16 && |w| <= 16 && Encodable(d, MA, Values([v]))
    ensures Encodable(d, MA, Values([w]))
  {
    MaTravels(d, v);
    MaTravels(d, w);
  }

  lemma EncodableParts(d: Dictionary, before: Store, e: (Key, Stored), after: Store)
    ensures AllEncodable(d, before + [e] + after) <==>
            AllEncodable(d, before) && Encodable(d, e.0, e.1) && AllEncodable(d, after)
  {
    var all := before + [e] + after;
    if AllEncodable(d, all) {
      assert all[|before|] == e;
      assert forall i :: 0 <= i < |before| ==> before[i] == all[i];
      assert forall i :: 0 <= i < |after| ==> after[i] == all[|before| + 1 + i];
    }
  }

  /** The stored part of the packet. */
  lemma KeptAround(d: Dictionary, store: Store, v: bytes, side: Sidecar)
    requires SendsDigest(d, side)
    ensures Visible(d, Kept(WithMa(store, v), side)) ==
            SentAhead(d, store, side) + [(MA, Values([v]))] + Visible(d, After(Kept(store, side), MA))
  {
    KeptWithMa(store, v, side);
    VisibleSplits(d, Kept(store, side), v);
  }

  lemma AppendedAround(before: seq<Avp>, v: bytes, after: seq<Avp>, more: seq<Avp>)
    requires AllFit(before) && AllFit(after) && AllFit(more) && |v| <= 253
    ensures Around(before, v, after) + Flatten(more) == Around(before, v, after + more)
  {
    FlattenAppend(before + [Avp(80, v)] + after, more);
    Regroup(before + [Avp(80, v)], after, more);
  }

  /** Whatever digest is stored: the packet encodes as with a zero digest, and its attributes lie around
      the digest as they lie around the zeros. */
  lemma WireAround(d: Dictionary, store: Store, v: bytes, side: Sidecar)
    requires SendsDigest(d, side) && |v| <= 16 && EncodeWith(d, WithMa(store, ZEROS), side).Ok?
    ensures AllEncodable(d, SentAhead(d, store, side)) && AllEncodable(d, SentBehind(d, store, side))
    ensures EncodeWith(d, WithMa(store, v), side) ==
            Ok(Around(StoreAvps(d, SentAhead(d, store, side)), v, StoreAvps(d, SentBehind(d, store, side))))
  {
    var ahead, pending := SentAhead(d, store, side), Pending(d, store, side);
    var rest := Visible(d, After(Kept(store, side), MA));
    PendingWithMa(d, store, ZEROS, side);
    PendingWithMa(d, store, v, side);
    CopyWithMa(d, store, ZEROS, side);
    CopyWithMa(d, store, v, side);
    KeptAround(d, store, ZEROS, side);
    KeptAround(d, store, v, side);
    EncodableParts(d, ahead, (MA, Values([ZEROS])), rest);
    MaEncodable(d, ZEROS, v);
    SplitWire(d, ahead, v, rest);
    StoreAvpsAppend(d, rest, pending);
    AppendedAround(StoreAvps(d, ahead), v, StoreAvps(d, rest), StoreAvps(d, pending));
  }

  /** With a zero digest the packet encodes, within the length limit. */
  predicate Zeroable(d: Dictionary, store: Store, side: Sidecar) {
    var zeroed := EncodeWith(d, WithMa(store, ZEROS), side);
    zeroed.Ok? && 20 + |zeroed.value| <= 8192
  }

  function ZeroedWire(d: Dictionary, store: Store, side: Sidecar): (r: bytes)
    requires Zeroable(d, store, side)
    ensures |r| <= 8172
  {
    EncodeWith(d, WithMa(store, ZEROS), side).value
  }

  /** The packet can be signed and is sent with the digest. */
  predicate Signable(d: Dictionary, store: Store, side: Sidecar) {
    SendsDigest(d, side) && Zeroable(d, store, side)
  }

  /** The digest is the only code-80 attribute of the packet. */
  predicate OneDigest(d: Dictionary, store: Store, side: Sidecar)
    requires Zeroable(d, store, side)
  {
    ZeroMessageAuthenticator(ZeroedWire(d, store, side)).Ok?
  }

  lemma {:induction false} CountSome(a: seq<Avp>)
    requires !No80(a)
    ensures Count80(a) >= 1
  {
    if a[0].key != 80 { CountSome(a[1..]) by { assert forall i :: 0 <= i < |a[1..]| ==> a[1..][i] == a[i + 1]; } }
  }

  lemma CountAround(before: seq<Avp>, a: Avp, after: seq<Avp>)
    requires a.key == 80
    ensures Count80(before + [a] + after) == 1 <==> No80(before) && No80(after)
  {
    CountAppend(before + [a], after);
    CountAppend(before, [a]);
    assert Count80([a]) == 1 by { assert [a][1..] == []; }
    if No80(before) { CountNone(before); } else { CountSome(before); }
    if No80(after) { CountNone(after); } else { CountSome(after); }
  }

  /** The zeroing walk succeeds exactly on one whole digest. */
  lemma ZeroesExactly(before: seq<Avp>, v: bytes, after: seq<Avp>)
    requires AllFit(before) && AllFit(after) && |v| <= 253
    ensures ZeroMessageAuthenticator(Around(before, v, after)).Ok? <==> |v| == 16 && No80(before) && No80(after)
  {
    var avps := before + [Avp(80, v)] + after;
    StrictFramesOfFlatten(avps);
    CountAround(before, Avp(80, v), after);
    assert avps[|before|] == Avp(80, v);
    if |v| == 16 && No80(before) && No80(after) { ZeroingRestores(before, v, after); }
  }

  lemma OneDigestExactly(d: Dictionary, store: Store, side: Sidecar)
    requires Signable(d, store, side)
    ensures AllEncodable(d, SentAhead(d, store, side)) && AllEncodable(d, SentBehind(d, store, side))
    ensures ZeroedWire(d, store, side) ==
            Around(StoreAvps(d, SentAhead(d, store, side)), ZEROS, StoreAvps(d, SentBehind(d, store, side)))
    ensures OneDigest(d, store, side) <==>
            No80(StoreAvps(d, SentAhead(d, store, side))) && No80(StoreAvps(d, SentBehind(d, store, side)))
  {
    WireAround(d, store, ZEROS, side);
    ZeroesExactly(StoreAvps(d, SentAhead(d, store, side)), ZEROS, StoreAvps(d, SentBehind(d, store, side)));
  }

  /** A packet none of whose other entries is sent under code 80 has one digest. */
  lemma OneDigestByCode(d: Dictionary, store: Store, side: Sidecar)
    requires Signable(d, store, side)
    requires forall i :: 0 <= i < |SentAhead(d, store, side)| ==> SentCode(d, SentAhead(d, store, side)[i].0) != 80
    requires forall i :: 0 <= i < |SentBehind(d, store, side)| ==> SentCode(d, SentBehind(d, store, side)[i].0) != 80
    ensures OneDigest(d, store, side)
  {
    OneDigestExactly(d, store, side);
    StoreNo80(d, SentAhead(d, store, side));
    StoreNo80(d, SentBehind(d, store, side));
  }
}
