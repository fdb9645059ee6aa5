/** What a receiver, with a dictionary of its own, makes of the attributes of a packet. */
module Reception {
  import opened Wrappers
  import opened Bytes
  import opened OrderedMaps
  import opened Dictionaries
  import opened Wire
  import opened Trees
  import opened Decoding
  import opened Encoding
  import opened CodecTheorems
  import opened Projection
  import opened Signing
  import opened SigningWire

  /** The store after `decode_packet`. */
  function DecodedStore(e: Dictionary, avps: seq<Avp>): Store {
    Finish(e, Fold(e, false, EMPTY, avps).store)
  }

  // --- The digest found -------------------------------------------------------------------------

  /** The values of the code-80 attributes. */
  function Digests(avps: seq<Avp>): seq<bytes> {
    if avps == [] then [] else (if avps[0].key == 80 then [avps[0].value] else []) + Digests(avps[1..])
  }

  lemma {:induction false} DigestsAppend(a: seq<Avp>, b: seq<Avp>)
    ensures Digests(a + b) == Digests(a) + Digests(b)
  {
    if a == [] {
      assert a + b == b;
    } else {
      assert (a + b)[1..] == a[1..] + b;
      DigestsAppend(a[1..], b);
    }
  }

  lemma {:induction false} DigestsNone(a: seq<Avp>)
    requires No80(a)
    ensures Digests(a) == []
  {
    if a != [] { DigestsNone(a[1..]); }
  }

  lemma DigestsAround(before: seq<Avp>, v: bytes, after: seq<Avp>)
    requires No80(before) && No80(after)
    ensures Digests(before + [Avp(80, v)] + after) == [v]
  {
    DigestsAppend(before + [Avp(80, v)], after);
    DigestsAppend(before, [Avp(80, v)]);
    DigestsNone(before);
    DigestsNone(after);
    assert Digests([Avp(80, v)]) == [v] + Digests([]);
  }

  lemma SomeDigest(before: seq<Avp>, v: bytes, after: seq<Avp>)
    ensures Digests(before + [Avp(80, v)] + after) != []
  {
    DigestsAppend(before + [Avp(80, v)], after);
    DigestsAppend(before, [Avp(80, v)]);
    assert Digests([Avp(80, v)]) == [v] + Digests([]);
  }

  /** What is found under Message-Authenticator after these digests. */
  predicate Gathered(before: Option<Stored>, digests: seq<bytes>, after: Option<Stored>) {
    if digests == [] then after == before else after == Some(Values(AsValues(before) + digests))
  }

  lemma GatheredNext(before: Option<Stored>, v: bytes, digests: seq<bytes>, after: Option<Stored>)
    requires Gathered(Some(Values(AsValues(before) + [v])), digests, after)
    ensures Gathered(before, [v] + digests, after)
  {
    assert AsValues(before) + [v] + digests == AsValues(before) + ([v] + digests);
    if digests == [] { assert AsValues(before) + [v] + [] == AsValues(before) + [v]; }
  }

  /** No attribute of another code writes to Message-Authenticator. */
  lemma {:induction false} FoldDigests(e: Dictionary, st: State, avps: seq<Avp>)
    ensures Gathered(Find(st.store, MA), Digests(avps), Find(Fold(e, false, st, avps).store, MA))
    decreases |avps|
  {
    if avps != [] {
      var a := avps[0];
      var next := DecodeAvp(e, false, st, a);
      FoldDigests(e, next, avps[1..]);
      if a.key == 80 {
        FindPut(st.store, MA, Values(AsValues(Find(st.store, MA)) + [a.value]), MA);
        GatheredNext(Find(st.store, MA), a.value, Digests(avps[1..]), Find(Fold(e, false, st, avps).store, MA));
      } else {
        AvpElsewhere(e, false, st, a, 80);
        assert Owner(MA) == 80 && [] + Digests(avps[1..]) == Digests(avps[1..]);
      }
    }
  }

  lemma {:induction false} FoldOnly80(e: Dictionary, st: State, avps: seq<Avp>, k: Key)
    requires Owner(k) == 80 && k != MA
    ensures Find(Fold(e, false, st, avps).store, k) == Find(st.store, k)
    decreases |avps|
  {
    if avps != [] {
      var a := avps[0];
      FoldOnly80(e, DecodeAvp(e, false, st, a), avps[1..], k);
      if a.key == 80 {
        FindPut(st.store, MA, Values(AsValues(Find(st.store, MA)) + [a.value]), k);
      } else {
        AvpElsewhere(e, false, st, a, 80);
      }
    }
  }

  lemma {:induction false} VendorLoopNoFlag(d: Dictionary, vendor: nat, f: LegalFormat, rest: bytes, st: State,
                                            items: Items)
    ensures VendorLoop(d, vendor, f, rest, st, items).0.hasMessageAuthenticator == st.hasMessageAuthenticator
    decreases |rest|
  {
    LoopSteps(d, vendor, f, rest, st, items);
    if |rest| >= f.typeLen + f.lenLen {
      var next := SubStep(d, vendor, f, rest, st, items);
      if next.Some? { VendorLoopNoFlag(d, vendor, f, next.value.2, next.value.0, next.value.1); }
    }
  }

  lemma AvpFlag(e: Dictionary, st: State, a: Avp)
    ensures DecodeAvp(e, false, st, a).hasMessageAuthenticator <==> st.hasMessageAuthenticator || a.key == 80
  {
    if a.key == 26 && |a.value| >= 4 {
      var vendor := FromBigEndian(a.value[..4]);
      VendorLoopNoFlag(e, vendor, e.FormatOf(vendor), a.value[4..], st, []);
    }
  }

  lemma {:induction false} FoldFlagExactly(e: Dictionary, st: State, avps: seq<Avp>)
    ensures Fold(e, false, st, avps).hasMessageAuthenticator <==> st.hasMessageAuthenticator || Digests(avps) != []
    decreases |avps|
  {
    if avps != [] {
      AvpFlag(e, st, avps[0]);
      FoldFlagExactly(e, DecodeAvp(e, false, st, avps[0]), avps[1..]);
    }
  }

  lemma {:induction false} FinishFind(e: Dictionary, store: Store, k: Key)
    ensures Find(Finish(e, store), k) ==
            if Has(store, k) then Some(FinishEntry(e, k, Find(store, k).value)) else None
  {
    if store != [] {
      FinishFind(e, store[1..], k);
      FinishTail(e, store);
    }
  }

  lemma FinishTail(e: Dictionary, store: Store)
    requires store != []
    ensures Finish(e, store)[1..] == Finish(e, store[1..])
    ensures Finish(e, store)[0] == (store[0].0, FinishEntry(e, store[0].0, store[0].1))
  {
    var whole, tail := Finish(e, store), Finish(e, store[1..]);
    forall i | 0 <= i < |tail| ensures whole[1..][i] == tail[i] {
      assert whole[1..][i] == whole[i + 1] && store[1..][i] == store[i + 1];
    }
  }

  /** The receiver's array pass does not cut sixteen octets. */
  predicate DigestWhole(e: Dictionary) {
    var size := if e.IsArray(MA) then ArraySize(e.AttrOf(MA).value.kind) else None;
    size.Some? ==> size.value >= 16 || 16 % size.value != 0
  }

  lemma FinishedDigest(e: Dictionary, v: bytes)
    requires |v| <= 16
    ensures var found := AsValues(Some(FinishEntry(e, MA, Values([v]))));
            && found != [] && |found[0]| <= |v|
            && (|v| == 16 ==> if DigestWhole(e) then found[0] == v else |found[0]| < 16)
  {
    var s := MergedEntry(e, MA, Values([v]));
    if e.IsArray(MA) && ArraySize(e.AttrOf(MA).value.kind).Some? {
      var size := ArraySize(e.AttrOf(MA).value.kind).value;
      assert SplitValues([v], size) ==
             (if v == [] || |v| % size != 0 then [v] else Chunks(v, size)) + SplitValues([], size);
      if v != [] && |v| % size == 0 { FirstChunk(v, size); }
    }
  }

  lemma FirstChunk(v: bytes, size: nat)
    requires size > 0
    ensures Chunks(v, size)[0] == if |v| <= size then v else v[..size]
  {
  }

  // --- The whole packet -------------------------------------------------------------------------

  lemma PacketDecodes(e: Dictionary, code: byte, id: byte, own: bytes, avps: seq<Avp>)
    requires AllFit(avps) && |own| == 16 && 20 + |Flatten(avps)| <= 8192
    ensures var raw := Header(code, id, own, Flatten(avps)) + Flatten(avps);
            && |raw| >= 20 && raw[20..] == Flatten(avps)
            && var m := DecodeMessage(e, false, raw);
               && m.Ok? && m.value.code == code && m.value.id == id && m.value.authenticator == Some(own)
               && m.value.state.store == DecodedStore(e, avps)
               && (m.value.state.hasMessageAuthenticator <==> Digests(avps) != [])
  {
    HeaderReadsBack(code, id, own, Flatten(avps));
    FramesOfFlatten(avps);
    FoldFlagExactly(e, EMPTY, avps);
  }

  /** What `verify_message_authenticator` finds under Message-Authenticator. */
  lemma DigestFound(e: Dictionary, before: seq<Avp>, v: bytes, after: seq<Avp>)
    requires No80(before) && No80(after)
    ensures Find(DecodedStore(e, before + [Avp(80, v)] + after), MA) == Some(FinishEntry(e, MA, Values([v])))
  {
    var avps := before + [Avp(80, v)] + after;
    DigestsAround(before, v, after);
    FoldDigests(e, EMPTY, avps);
    var st := Fold(e, false, EMPTY, avps);
    assert AsValues(Find(st.store, MA)) == [] + [v] == [v];
    FinishFind(e, st.store, MA);
    assert Find(st.store, MA).value.Values?;
  }

  lemma NoDigestFound(e: Dictionary, avps: seq<Avp>)
    requires No80(avps)
    ensures !Has(DecodedStore(e, avps), MA) && Digests(avps) == []
  {
    DigestsNone(avps);
    FoldDigests(e, EMPTY, avps);
    FinishFind(e, Fold(e, false, EMPTY, avps).store, MA);
  }

  // --- Encoding it again ------------------------------------------------------------------------

  /** `verify_reply` encodes the reply again, under the dictionary of the packet it answers; what it
      encodes was decoded under the client's. */
  predicate Reencodes(e: Dictionary, own: Dictionary, avps: seq<Avp>) {
    EncodeStore(own, DecodedStore(e, avps)).Ok?
  }

  predicate EncodableAt(own: Dictionary, store: Store, k: Key) {
    Has(store, k) && !own.IsVirtual(k) ==> Encodable(own, k, Find(store, k).value)
  }

  lemma {:induction false} EncodesByKey(own: Dictionary, store: Store)
    requires Distinct(store)
    ensures EncodeStore(own, store).Ok? <==> forall k :: EncodableAt(own, store, k)
  {
    VisibleEntries(own, store);
    var visible := Visible(own, store);
    if AllEncodable(own, visible) {
      forall k ensures EncodableAt(own, store, k) {
        if Has(store, k) && !own.IsVirtual(k) {
          FindSound(store, k);
          var i :| 0 <= i < |store| && store[i] == (k, Find(store, k).value);
          assert store[i] in visible;
        }
      }
    } else {
      var i :| 0 <= i < |visible| && !Encodable(own, visible[i].0, visible[i].1);
      assert visible[i] in visible;
      var j :| 0 <= j < |store| && store[j] == visible[i];
      FindAt(store, j);
      assert !EncodableAt(own, store, visible[i].0);
    }
  }

  lemma {:induction false} VisibleEntries(d: Dictionary, store: Store)
    ensures forall x :: x in Visible(d, store) <==> x in store && !d.IsVirtual(x.0)
  {
    if store != [] {
      VisibleEntries(d, store[1..]);
      assert store == [store[0]] + store[1..];
    }
  }

  lemma DecodedDistinct(e: Dictionary, avps: seq<Avp>)
    ensures Distinct(DecodedStore(e, avps))
  {
    FoldShaped(e, false, EMPTY, avps);
  }

  lemma ReencodesByKey(e: Dictionary, own: Dictionary, avps: seq<Avp>)
    ensures Reencodes(e, own, avps) <==> forall k :: EncodableAt(own, DecodedStore(e, avps), k)
  {
    DecodedDistinct(e, avps);
    EncodesByKey(own, DecodedStore(e, avps));
  }

  lemma DecodedProjects(e: Dictionary, avps: seq<Avp>, other: seq<Avp>, k: Key)
    requires OfCode(avps, Owner(k)) == OfCode(other, Owner(k))
    ensures Find(DecodedStore(e, avps), k) == Find(DecodedStore(e, other), k)
  {
    var c := Owner(k);
    FoldProjects(e, false, EMPTY, EMPTY, avps, c);
    FoldProjects(e, false, EMPTY, EMPTY, other, c);
    FinishFind(e, Fold(e, false, EMPTY, avps).store, k);
    FinishFind(e, Fold(e, false, EMPTY, other).store, k);
  }

  lemma {:induction false} OfCodeTwice(avps: seq<Avp>, c: byte, b: byte)
    ensures OfCode(OfCode(avps, c), b) == if b == c then OfCode(avps, c) else []
  {
    if avps != [] {
      OfCodeTwice(avps[1..], c, b);
      var rest := OfCode(avps[1..], c);
      assert [] + rest == rest && [] + OfCode(rest, b) == OfCode(rest, b);
      if avps[0].key == c {
        assert ([avps[0]] + rest)[1..] == rest;
        assert OfCode([avps[0]] + rest, b) == (if b == c then [avps[0]] else []) + OfCode(rest, b);
      }
    }
  }

  lemma NothingDecoded(e: Dictionary, k: Key)
    ensures Find(DecodedStore(e, []), k) == None
  {
  }

  /** A packet can be encoded again exactly when the attributes of each code on their own can. */
  lemma ReencodesByCode(e: Dictionary, own: Dictionary, avps: seq<Avp>)
    ensures Reencodes(e, own, avps) <==> forall c: byte :: Reencodes(e, own, OfCode(avps, c))
  {
    ReencodesByKey(e, own, avps);
    if Reencodes(e, own, avps) {
      forall c: byte ensures Reencodes(e, own, OfCode(avps, c)) {
        ReencodesByKey(e, own, OfCode(avps, c));
        forall k ensures EncodableAt(own, DecodedStore(e, OfCode(avps, c)), k) {
          OfCodeTwice(avps, c, Owner(k));
          if Owner(k) == c {
            DecodedProjects(e, avps, OfCode(avps, c), k);
            assert EncodableAt(own, DecodedStore(e, avps), k);
          } else {
            DecodedProjects(e, OfCode(avps, c), [], k);
            NothingDecoded(e, k);
          }
        }
      }
    } else {
      var k :| !EncodableAt(own, DecodedStore(e, avps), k);
      var c := Owner(k);
      OfCodeTwice(avps, c, c);
      DecodedProjects(e, avps, OfCode(avps, c), k);
      ReencodesByKey(e, own, OfCode(avps, c));
      assert !EncodableAt(own, DecodedStore(e, OfCode(avps, c)), k);
    }
  }

  // --- The digest makes no difference -----------------------------------------------------------

  lemma {:induction false} OfCodeAppend(a: seq<Avp>, b: seq<Avp>, c: byte)
    ensures OfCode(a + b, c) == OfCode(a, c) + OfCode(b, c)
  {
    if a == [] {
      assert a + b == b;
    } else {
      assert (a + b)[0] == a[0] && (a + b)[1..] == a[1..] + b;
      OfCodeAppend(a[1..], b, c);
      var head := if a[0].key == c then [a[0]] else [];
      assert head + (OfCode(a[1..], c) + OfCode(b, c)) == head + OfCode(a[1..], c) + OfCode(b, c);
    }
  }

  lemma OfCodeAround(before: seq<Avp>, v: bytes, w: bytes, after: seq<Avp>, c: byte)
    requires c != 80
    ensures OfCode(before + [Avp(80, v)] + after, c) == OfCode(before + [Avp(80, w)] + after, c)
  {
    OfCodeAppend(before + [Avp(80, v)], after, c);
    OfCodeAppend(before, [Avp(80, v)], c);
    OfCodeAppend(before + [Avp(80, w)], after, c);
    OfCodeAppend(before, [Avp(80, w)], c);
    assert OfCode([Avp(80, v)], c) == [] + OfCode([], c) && OfCode([Avp(80, w)], c) == [] + OfCode([], c);
  }

  /** Message-Authenticator is no container. */
  predicate Listed(d: Dictionary, k: Key) {
    !d.IsKind(k, Tlv) && !d.IsKind(k, Extended) && !d.IsKind(k, LongExtended)
  }

  predicate AllWithin(vals: seq<bytes>, n: nat) {
    forall i :: 0 <= i < |vals| ==> |vals[i]| <= n
  }

  lemma {:induction false} ConcatWithin(vals: seq<bytes>)
    requires AllWithin(vals, 253)
    ensures AllConcatPieces(vals) == vals
  {
    if vals != [] {
      assert AllWithin(vals[1..], 253) by { assert forall i :: 0 <= i < |vals[1..]| ==> vals[1..][i] == vals[i + 1]; }
      ConcatWithin(vals[1..]);
      assert [vals[0]] + vals[1..] == vals;
    }
  }

  /** The digest as found is encodable wherever the dictionary files it as a list. */
  lemma FinishedEncodable(e: Dictionary, own: Dictionary, v: bytes)
    requires |v| <= 16
    ensures Encodable(own, MA, FinishEntry(e, MA, Values([v]))) <==> Listed(own, MA)
  {
    var s := FinishEntry(e, MA, Values([v]));
    assert s.Values? && AllWithin(s.vals, 16) && |Join(s.vals)| <= 16 by { FinishedPieces(e, v); }
    ConcatWithin(s.vals);
  }

  lemma FinishedPieces(e: Dictionary, v: bytes)
    requires |v| <= 16
    ensures var s := FinishEntry(e, MA, Values([v]));
            s.Values? && AllWithin(s.vals, 16) && Join(s.vals) == v
  {
    JoinOne(v);
    if e.IsArray(MA) && ArraySize(e.AttrOf(MA).value.kind).Some? {
      var size := ArraySize(e.AttrOf(MA).value.kind).value;
      assert SplitValues([v], size) ==
             (if v == [] || |v| % size != 0 then [v] else Chunks(v, size)) + SplitValues([], size);
      ChunksPartition(v, size);
      ChunkNoLonger(v, size);
      assert [v] + [] == [v] && Chunks(v, size) + [] == Chunks(v, size);
    }
  }

  lemma {:induction false} ChunkNoLonger(v: bytes, size: nat)
    requires size > 0
    ensures AllWithin(Chunks(v, size), |v|)
    decreases |v|
  {
    if |v| > size { ChunkNoLonger(v[size..], size); }
  }

  /** Whether a reply can be encoded again does not depend on its digest. */
  lemma SameReencoding(e: Dictionary, own: Dictionary, before: seq<Avp>, v: bytes, w: bytes, after: seq<Avp>)
    requires No80(before) && No80(after) && |v| <= 16 && |w| <= 16
    ensures Reencodes(e, own, before + [Avp(80, v)] + after) <==> Reencodes(e, own, before + [Avp(80, w)] + after)
  {
    var x, y := before + [Avp(80, v)] + after, before + [Avp(80, w)] + after;
    ReencodesByKey(e, own, x);
    ReencodesByKey(e, own, y);
    forall k ensures EncodableAt(own, DecodedStore(e, x), k) <==> EncodableAt(own, DecodedStore(e, y), k) {
      if Owner(k) != 80 {
        OfCodeAround(before, v, w, after, Owner(k));
        DecodedProjects(e, x, y, k);
      } else if k != MA {
        FoldOnly80(e, EMPTY, x, k);
        FoldOnly80(e, EMPTY, y, k);
        FinishFind(e, Fold(e, false, EMPTY, x).store, k);
        FinishFind(e, Fold(e, false, EMPTY, y).store, k);
      } else {
        DigestFound(e, before, v, after);
        DigestFound(e, before, w, after);
        FinishedEncodable(e, own, v);
        FinishedEncodable(e, own, w);
      }
    }
  }
}
