/** What a receiver gets from a packet with set-aside values. */
module OverlayTheorems {
  import opened Bytes
  import opened OrderedMaps
  import opened Dictionaries
  import opened Decoding
  import opened Encoding
  import opened CodecTheorems
  import opened Overlay

  /** `r` holds what is expected at every path, and the stored value under every key the sidecar
      does not claim. */
  ghost predicate PathByPath(d: Dictionary, store: Store, side: Sidecar, r: Store) {
    && (forall q :: Addressed(d, q) ==> At(r, q) == Expected(d, store, side, q))
    && (forall k :: !Claimed(side, k) ==> Find(r, k) == Find(store, k))
  }

  lemma EffectivePaths(d: Dictionary, store: Store, side: Sidecar)
    requires AllLeaves(d, side)
    ensures PathByPath(d, store, side, Effective(d, store, side))
  {
    var effective := Effective(d, store, side);
    forall q | Addressed(d, q) ensures At(effective, q) == Expected(d, store, side, q) {
      EffectiveAt(d, store, side, q);
    }
    forall k | !Claimed(side, k) ensures Find(effective, k) == Find(store, k) {
      EffectiveElsewhere(d, store, side, k);
    }
  }

  lemma EffectiveVisible(d: Dictionary, store: Store, side: Sidecar)
    requires Distinct(store) && NoneVirtual(d, store) && NoneVirtual(d, Pending(d, store, side))
    ensures Visible(d, Effective(d, store, side)) == Effective(d, store, side)
  {
    var effective := Effective(d, store, side);
    KeptEntries(store, side);
    forall i | 0 <= i < |effective| ensures !d.IsVirtual(effective[i].0) {
      if i < |Kept(store, side)| {
        assert effective[i] in store;
      } else {
        assert effective[i] == Pending(d, store, side)[i - |Kept(store, side)|];
      }
    }
    VisibleAll(d, effective);
  }

  /** Decoding the serialized packet gives, path by path, the set-aside values where a path has
      some and the stored values everywhere else, no key twice. */
  lemma OverlayArrives(d: Dictionary, v11: bool, code: byte, id: byte, authenticator: bytes,
                       store: Store, side: Sidecar)
    requires StoreShaped(d, store) && AllLeaves(d, side)
    requires NoneVirtual(d, store) && NoneVirtual(d, Pending(d, store, side))
    requires AllRestorable(d, v11, Effective(d, store, side))
    requires EncodeWith(d, store, side).Ok? && |authenticator| == 16
    requires 20 + |EncodeWith(d, store, side).value| <= 8192
    ensures var attributes := EncodeWith(d, store, side).value;
            var received := DecodeMessage(d, v11, Header(code, id, authenticator, attributes) + attributes);
            && received.Ok?
            && StoreShaped(d, received.value.state.store)
            && PathByPath(d, store, side, received.value.state.store)
  {
    var effective := Effective(d, store, side);
    EncodeWithEffective(d, store, side);
    EffectiveVisible(d, store, side);
    DecodeUndoesEncode(d, v11, code, id, authenticator, effective);
    assert forall i :: 0 <= i < |effective| && Restorable(d, v11, effective[i].0, effective[i].1) ==>
             EntryShaped(d, effective[i].0, effective[i].1);
    EffectivePaths(d, store, side);
  }
}
