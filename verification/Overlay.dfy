/** Values set aside with `set_obfuscated`, already obfuscated, laid over the stored attributes when
    the packet is serialized. */
module Overlay {
  import opened Wrappers
  import opened Sequences
  import opened Bytes
  import opened OrderedMaps
  import opened Dictionaries
  import opened Wire
  import opened Trees
  import opened Decoding
  import opened Encoding

  /** Where a set-aside attribute lives: under a key of its own, or inside a container. */
  datatype Path = Flat(key: Key) | Sub(parent: Key, code: byte) {
    /** `_deferred_storage_key`. */
    function StorageKey(): Key {
      match this case Flat(k) => k case Sub(p, _) => p
    }
  }

  /** The sidecar in insertion order.  Names that differ only in their tag share a path. */
  type Sidecar = seq<(Path, seq<bytes>)>

  predicate Deferred(side: Sidecar, p: Path) {
    side != [] && (side[0].0 == p || Deferred(side[1..], p))
  }

  /** `_deferred_attribute_codes`. */
  predicate Claimed(side: Sidecar, key: Key) {
    side != [] && (side[0].0.StorageKey() == key || Claimed(side[1..], key))
  }

  /** All values set aside for a path, in order. */
  function Collected(side: Sidecar, p: Path): seq<bytes> {
    if side == [] then []
    else (if side[0].0 == p then side[0].1 else []) + Collected(side[1..], p)
  }

  /** Stored entries the sidecar leaves alone. */
  function Kept(store: Store, side: Sidecar): Store {
    if store == [] then []
    else (if Claimed(side, store[0].0) then [] else [store[0]]) + Kept(store[1..], side)
  }

  /** `list(values)` of a stored sibling.  Of a nested map it keeps the sub-codes alone, numbers in
      place of octets.  None are left of an empty map; a long-extended container takes the one code 0,
      which is falsy, for an empty value; any other number fails when the container is encoded. */
  function Copied(d: Dictionary, parent: Key, s: Stored): Option<seq<bytes>> {
    match s
    case Values(vals) => Some(vals)
    case Node(items) =>
      if items == [] then Some([])
      else if |items| == 1 && items[0].0 == 0 && d.IsKind(parent, LongExtended) then Some([[]])
      else None
  }

  function Copy(d: Dictionary, parent: Key, s: Stored): Stored {
    Values(if Copied(d, parent, s).Some? then Copied(d, parent, s).value else [])
  }

  /** `_seed_parent_from_stored_siblings`. */
  function Siblings(d: Dictionary, m: Tree, side: Sidecar, parent: Key): Tree {
    if m == [] then []
    else
      (if Deferred(side, Sub(parent, m[0].0)) then [] else [(m[0].0, Copy(d, parent, m[0].1))])
      + Siblings(d, m[1..], side, parent)
  }

  predicate AllCopy(d: Dictionary, m: Tree, side: Sidecar, parent: Key) {
    forall j :: 0 <= j < |m| ==> Deferred(side, Sub(parent, m[j].0)) || Copied(d, parent, m[j].1).Some?
  }

  /** Every stored sibling of a set-aside value survives being copied. */
  predicate SiblingsCopy(d: Dictionary, store: Store, side: Sidecar) {
    forall i :: 0 <= i < |side| && side[i].0.Sub? ==>
      AllCopy(d, AsTree(Find(store, side[i].0.parent)), side, side[i].0.parent)
  }

  /** The containers the sidecar reaches into, in order of first mention, each with the stored
      siblings. `rest` is the part of the sidecar still to be scanned. */
  function Seeded(d: Dictionary, store: Store, side: Sidecar, rest: Sidecar, pending: Store): Store
    decreases |rest|
  {
    if rest == [] then pending
    else
      var p := rest[0].0;
      if p.Sub? && !Has(pending, p.parent) then
        var seed := (p.parent, Node(Siblings(d, AsTree(Find(store, p.parent)), side, p.parent)));
        Seeded(d, store, side, rest[1..], pending + [seed])
      else Seeded(d, store, side, rest[1..], pending)
  }

  /** `setdefault(..., []).extend(values)` at a path. */
  function Extended(pending: Store, p: Path, vals: seq<bytes>): Store {
    match p
    case Flat(k) => Put(pending, k, Values(AsValues(Find(pending, k)) + vals))
    case Sub(parent, c) =>
      var m := AsTree(Find(pending, parent));
      Put(pending, parent, Node(Put(m, c, Values(AsValues(Find(m, c)) + vals))))
  }

  function Overlaid(pending: Store, side: Sidecar): Store
    decreases |side|
  {
    if side == [] then pending else Overlaid(Extended(pending, side[0].0, side[0].1), side[1..])
  }

  function Pending(d: Dictionary, store: Store, side: Sidecar): Store {
    Overlaid(Seeded(d, store, side, side, []), side)
  }

  /** What goes on the wire. */
  function Effective(d: Dictionary, store: Store, side: Sidecar): Store {
    Kept(store, side) + Pending(d, store, side)
  }

  /** The value at a path. */
  function At(store: Store, p: Path): Option<Stored> {
    match p
    case Flat(k) => Find(store, k)
    case Sub(parent, c) => Find(AsTree(Find(store, parent)), c)
  }

  /** The path addresses a key of its own outside the containers, or a slot inside one. */
  predicate Addressed(d: Dictionary, p: Path) {
    match p
    case Flat(k) => !HoldsTree(d, k)
    case Sub(parent, c) => HoldsTree(d, parent)
  }

  /** The path addresses a list. */
  predicate Leaf(d: Dictionary, p: Path) {
    Addressed(d, p) && (p.Sub? ==> !d.IsNested(d.AttrOf(p.parent), p.code))
  }

  predicate AllLeaves(d: Dictionary, side: Sidecar) {
    forall i :: 0 <= i < |side| ==> Leaf(d, side[i].0)
  }

  /** What a path holds when the packet is serialized: the set-aside values if it has some, a copy
      of what is stored if its container has some, and what is stored everywhere else. */
  function Expected(d: Dictionary, store: Store, side: Sidecar, q: Path): Option<Stored> {
    if Deferred(side, q) then Some(Values(Collected(side, q)))
    else if q.Sub? && Reaches(side, q.parent) then Recopied(d, q.parent, At(store, q))
    else At(store, q)
  }

  function Recopied(d: Dictionary, parent: Key, s: Option<Stored>): Option<Stored> {
    if s.Some? then Some(Copy(d, parent, s.value)) else None
  }

  /** No map is nested beside a set-aside value. */
  predicate Shallow(store: Store, side: Sidecar) {
    forall i :: 0 <= i < |side| && side[i].0.Sub? ==> AllLists(AsTree(Find(store, side[i].0.parent)))
  }

  predicate AllLists(m: Tree) {
    forall j :: 0 <= j < |m| ==> m[j].1.Values?
  }

  // --- Path by path -----------------------------------------------------------------------------

  lemma ExtendedAt(d: Dictionary, pending: Store, p: Path, vals: seq<bytes>, q: Path)
    requires Addressed(d, p) && Addressed(d, q)
    ensures At(Extended(pending, p, vals), q) ==
            if q == p then Some(Values(AsValues(At(pending, p)) + vals))
            else At(pending, q)
  {
    match p
    case Flat(k) =>
      FindPut(pending, k, Values(AsValues(Find(pending, k)) + vals), q.StorageKey());
    case Sub(parent, c) =>
      var m := AsTree(Find(pending, parent));
      var m' := Put(m, c, Values(AsValues(Find(m, c)) + vals));
      FindPut(pending, parent, Node(m'), q.StorageKey());
      if q.Sub? { FindPut(m, c, Values(AsValues(Find(m, c)) + vals), q.code); }
  }

  lemma LeavesTail(d: Dictionary, side: Sidecar)
    requires side != [] && AllLeaves(d, side)
    ensures AllLeaves(d, side[1..])
  {
    assert forall i :: 0 <= i < |side[1..]| ==> side[1..][i] == side[i + 1];
  }

  /** What is stored at a path, as a list. */
  function ListAt(store: Store, p: Path): seq<bytes> {
    AsValues(At(store, p))
  }

  lemma {:induction false} OverlaidAt(d: Dictionary, pending: Store, side: Sidecar, q: Path)
    requires AllLeaves(d, side) && Addressed(d, q)
    ensures At(Overlaid(pending, side), q) ==
            if Deferred(side, q) then Some(Values(ListAt(pending, q) + Collected(side, q))) else At(pending, q)
    decreases |side|
  {
    if side != [] {
      var (p, vals) := side[0];
      var next := Extended(pending, p, vals);
      LeavesTail(d, side);
      ExtendedAt(d, pending, p, vals, q);
      OverlaidAt(d, next, side[1..], q);
      CollectedNone(side[1..], q);
      assert Collected(side, q) == (if p == q then vals else []) + Collected(side[1..], q);
      if q == p {
        assert ListAt(next, q) == ListAt(pending, q) + vals;
        Regroup(ListAt(pending, q), vals, Collected(side[1..], q));
      } else {
        assert [] + Collected(side[1..], q) == Collected(side[1..], q);
      }
    }
  }

  lemma {:induction false} CollectedNone(side: Sidecar, q: Path)
    ensures !Deferred(side, q) ==> Collected(side, q) == []
  {
    if side != [] { CollectedNone(side[1..], q); }
  }

  lemma {:induction false} SiblingsAt(d: Dictionary, m: Tree, side: Sidecar, parent: Key, c: byte)
    ensures Find(Siblings(d, m, side, parent), c) ==
            if Deferred(side, Sub(parent, c)) then None else Recopied(d, parent, Find(m, c))
  {
    if m != [] {
      SiblingsAt(d, m[1..], side, parent, c);
      var head := if Deferred(side, Sub(parent, m[0].0)) then [] else [(m[0].0, Copy(d, parent, m[0].1))];
      FindAppend(head, Siblings(d, m[1..], side, parent), c);
    }
  }

  /** A container is seeded exactly when the unscanned part mentions it or it already was. */
  lemma {:induction false} SeededFind(d: Dictionary, store: Store, side: Sidecar, rest: Sidecar, pending: Store, k: Key)
    ensures Find(Seeded(d, store, side, rest, pending), k) ==
            if Has(pending, k) then Find(pending, k)
            else if Reaches(rest, k) then Some(Node(Siblings(d, AsTree(Find(store, k)), side, k)))
            else None
    decreases |rest|
  {
    if rest != [] {
      var p := rest[0].0;
      if p.Sub? && !Has(pending, p.parent) {
        var seed := (p.parent, Node(Siblings(d, AsTree(Find(store, p.parent)), side, p.parent)));
        SeededFind(d, store, side, rest[1..], pending + [seed], k);
        FindAppend(pending, [seed], k);
      } else {
        SeededFind(d, store, side, rest[1..], pending, k);
      }
    }
  }

  /** Some set-aside value lives inside the container. */
  predicate Reaches(side: Sidecar, k: Key) {
    side != [] && ((side[0].0.Sub? && side[0].0.parent == k) || Reaches(side[1..], k))
  }

  lemma {:induction false} ClaimsOf(d: Dictionary, side: Sidecar, q: Path)
    requires AllLeaves(d, side) && Addressed(d, q)
    ensures Deferred(side, q) ==> Claimed(side, q.StorageKey())
    ensures q.Flat? ==> !Reaches(side, q.key) && (Claimed(side, q.key) ==> Deferred(side, q))
    ensures q.Sub? ==> (Claimed(side, q.parent) <==> Reaches(side, q.parent))
  {
    if side != [] {
      LeavesTail(d, side);
      ClaimsOf(d, side[1..], q);
    }
  }

  lemma PendingAt(d: Dictionary, store: Store, side: Sidecar, q: Path)
    requires AllLeaves(d, side) && Addressed(d, q)
    ensures At(Pending(d, store, side), q) ==
            if Deferred(side, q) || (q.Sub? && Reaches(side, q.parent)) then Expected(d, store, side, q) else None
  {
    var seeds := Seeded(d, store, side, side, []);
    SeededFind(d, store, side, side, [], q.StorageKey());
    ClaimsOf(d, side, q);
    if q.Sub? { SiblingsAt(d, AsTree(Find(store, q.parent)), side, q.parent, q.code); }
    OverlaidAt(d, seeds, side, q);
    assert AsValues(At(seeds, q)) == [] || !Deferred(side, q);
    assert [] + Collected(side, q) == Collected(side, q);
  }

  lemma {:induction false} KeptFind(store: Store, side: Sidecar, k: Key)
    ensures Find(Kept(store, side), k) == if Claimed(side, k) then None else Find(store, k)
  {
    if store != [] {
      KeptFind(store[1..], side, k);
      var head := if Claimed(side, store[0].0) then [] else [store[0]];
      FindAppend(head, Kept(store[1..], side), k);
    }
  }

  lemma {:induction false} OverlaidHas(pending: Store, side: Sidecar, k: Key)
    ensures Has(Overlaid(pending, side), k) <==> Has(pending, k) || Claimed(side, k)
    ensures !Claimed(side, k) ==> Find(Overlaid(pending, side), k) == Find(pending, k)
    decreases |side|
  {
    if side != [] {
      var (p, vals) := side[0];
      var next := Extended(pending, p, vals);
      OverlaidHas(next, side[1..], k);
      match p
      case Flat(f) => FindPut(pending, f, Values(AsValues(Find(pending, f)) + vals), k);
      case Sub(parent, c) =>
        var m := AsTree(Find(pending, parent));
        FindPut(pending, parent, Node(Put(m, c, Values(AsValues(Find(m, c)) + vals))), k);
    }
  }

  lemma {:induction false} ReachesClaims(side: Sidecar, k: Key)
    ensures Reaches(side, k) ==> Claimed(side, k)
  {
    if side != [] { ReachesClaims(side[1..], k); }
  }

  lemma PendingHas(d: Dictionary, store: Store, side: Sidecar, k: Key)
    ensures Has(Pending(d, store, side), k) <==> Claimed(side, k)
  {
    SeededFind(d, store, side, side, [], k);
    ReachesClaims(side, k);
    OverlaidHas(Seeded(d, store, side, side, []), side, k);
  }

  /** What travels, path by path. */
  lemma EffectiveAt(d: Dictionary, store: Store, side: Sidecar, q: Path)
    requires AllLeaves(d, side) && Addressed(d, q)
    ensures At(Effective(d, store, side), q) == Expected(d, store, side, q)
  {
    var k := q.StorageKey();
    FindAppend(Kept(store, side), Pending(d, store, side), k);
    KeptFind(store, side, k);
    PendingHas(d, store, side, k);
    ClaimsOf(d, side, q);
    PendingAt(d, store, side, q);
  }

  /** A key the sidecar does not claim keeps its whole value, nested maps included. */
  lemma EffectiveElsewhere(d: Dictionary, store: Store, side: Sidecar, k: Key)
    requires !Claimed(side, k)
    ensures Find(Effective(d, store, side), k) == Find(store, k)
  {
    FindAppend(Kept(store, side), Pending(d, store, side), k);
    KeptFind(store, side, k);
    PendingHas(d, store, side, k);
  }

  // --- Nothing twice ----------------------------------------------------------------------------

  lemma {:induction false} KeptEntries(store: Store, side: Sidecar)
    requires Distinct(store)
    ensures Distinct(Kept(store, side))
    ensures forall i :: 0 <= i < |Kept(store, side)| ==>
              Kept(store, side)[i] in store && !Claimed(side, Kept(store, side)[i].0)
  {
    if store != [] {
      assert Distinct(store[1..]) by { assert forall i :: 0 <= i < |store[1..]| ==> store[1..][i] == store[i + 1]; }
      KeptEntries(store[1..], side);
      var rest := Kept(store[1..], side);
      forall i | 0 <= i < |rest| ensures rest[i] in store && rest[i].0 != store[0].0 {
        var j :| 0 <= j < |store[1..]| && store[1..][j] == rest[i];
        assert store[j + 1] == rest[i];
      }
    }
  }

  /** No key and no sub-code twice, and maps exactly where the dictionary declares containers. */
  predicate Kinded(d: Dictionary, m: Store) {
    Distinct(m) && forall i :: 0 <= i < |m| ==> KindOk(d, m[i].0, m[i].1)
  }

  predicate KindOk(d: Dictionary, key: Key, s: Stored) {
    (s.Node? <==> HoldsTree(d, key)) && (s.Node? ==> Distinct(s.items))
  }

  lemma PutKinded(d: Dictionary, m: Store, key: Key, s: Stored)
    requires Kinded(d, m) && KindOk(d, key, s)
    ensures Kinded(d, Put(m, key, s))
  {
    PutDistinct(m, key, s);
    PutEntries(m, key, s);
  }

  lemma {:induction false} SiblingsDistinct(d: Dictionary, m: Tree, side: Sidecar, parent: Key)
    requires Distinct(m)
    ensures Distinct(Siblings(d, m, side, parent))
    ensures forall i :: 0 <= i < |Siblings(d, m, side, parent)| ==> Has(m, Siblings(d, m, side, parent)[i].0)
  {
    if m != [] {
      assert forall i :: 0 <= i < |m[1..]| ==> m[1..][i] == m[i + 1];
      SiblingsDistinct(d, m[1..], side, parent);
      FindSound(m[1..], m[0].0);
    }
  }

  lemma DistinctTree(d: Dictionary, m: Store, key: Key)
    requires Kinded(d, m)
    ensures Distinct(AsTree(Find(m, key)))
  {
    FindSound(m, key);
  }

  lemma {:induction false} SeededKinded(d: Dictionary, store: Store, side: Sidecar, rest: Sidecar, pending: Store)
    requires Kinded(d, store) && AllLeaves(d, rest) && Kinded(d, pending)
    ensures Kinded(d, Seeded(d, store, side, rest, pending))
    decreases |rest|
  {
    if rest != [] {
      LeavesTail(d, rest);
      var p := rest[0].0;
      if p.Sub? && !Has(pending, p.parent) {
        var tree := AsTree(Find(store, p.parent));
        DistinctTree(d, store, p.parent);
        SiblingsDistinct(d, tree, side, p.parent);
        var seed := Node(Siblings(d, tree, side, p.parent));
        PutAbsent(pending, p.parent, seed);
        PutKinded(d, pending, p.parent, seed);
        SeededKinded(d, store, side, rest[1..], pending + [(p.parent, seed)]);
      } else {
        SeededKinded(d, store, side, rest[1..], pending);
      }
    }
  }

  lemma ExtendedKinded(d: Dictionary, pending: Store, p: Path, vals: seq<bytes>)
    requires Kinded(d, pending) && Leaf(d, p)
    ensures Kinded(d, Extended(pending, p, vals))
  {
    match p
    case Flat(k) => PutKinded(d, pending, k, Values(AsValues(Find(pending, k)) + vals));
    case Sub(parent, c) =>
      DistinctTree(d, pending, parent);
      var m := AsTree(Find(pending, parent));
      var entry := Values(AsValues(Find(m, c)) + vals);
      PutDistinct(m, c, entry);
      PutKinded(d, pending, parent, Node(Put(m, c, entry)));
  }

  lemma {:induction false} OverlaidKinded(d: Dictionary, pending: Store, side: Sidecar)
    requires Kinded(d, pending) && AllLeaves(d, side)
    ensures Kinded(d, Overlaid(pending, side))
    decreases |side|
  {
    if side != [] {
      LeavesTail(d, side);
      ExtendedKinded(d, pending, side[0].0, side[0].1);
      OverlaidKinded(d, Extended(pending, side[0].0, side[0].1), side[1..]);
    }
  }

  lemma PendingKinded(d: Dictionary, store: Store, side: Sidecar)
    requires Kinded(d, store) && AllLeaves(d, side)
    ensures Kinded(d, Pending(d, store, side))
  {
    SeededKinded(d, store, side, side, []);
    OverlaidKinded(d, Seeded(d, store, side, side, []), side);
  }

  lemma ShapedKinded(d: Dictionary, store: Store)
    requires StoreShaped(d, store)
    ensures Kinded(d, store)
  {
    forall i | 0 <= i < |store| ensures KindOk(d, store[i].0, store[i].1) {
      assert EntryShaped(d, store[i].0, store[i].1);
    }
  }

  /** What travels has no key and no sub-code twice, whatever is nested. */
  lemma EffectiveKinded(d: Dictionary, store: Store, side: Sidecar)
    requires StoreShaped(d, store) && AllLeaves(d, side)
    ensures Kinded(d, Effective(d, store, side))
  {
    var kept, pending := Kept(store, side), Pending(d, store, side);
    ShapedKinded(d, store);
    KeptEntries(store, side);
    PendingKinded(d, store, side);
    var all := kept + pending;
    forall i, j | 0 <= i < j < |all| ensures all[i].0 != all[j].0 {
      if i < |kept| && j >= |kept| {
        PendingHas(d, store, side, all[j].0);
        FindAt(pending, j - |kept|);
        assert all[j] == pending[j - |kept|];
        assert !Claimed(side, kept[i].0);
      }
    }
  }

  lemma {:induction false} ReachedBy(side: Sidecar, k: Key) returns (i: nat)
    requires Reaches(side, k)
    ensures i < |side| && side[i].0.Sub? && side[i].0.parent == k
  {
    if side[0].0.Sub? && side[0].0.parent == k {
      i := 0;
    } else {
      i := ReachedBy(side[1..], k);
      i := i + 1;
    }
  }

  lemma {:induction false} ReachesAt(side: Sidecar, i: nat)
    requires i < |side| && side[i].0.Sub?
    ensures Reaches(side, side[i].0.parent)
  {
    if i > 0 { ReachesAt(side[1..], i - 1); }
  }

  lemma {:induction false} DeferredLeaf(d: Dictionary, side: Sidecar, q: Path)
    requires AllLeaves(d, side) && Deferred(side, q)
    ensures Leaf(d, q)
  {
    if side[0].0 != q {
      LeavesTail(d, side);
      DeferredLeaf(d, side[1..], q);
    }
  }

  /** A container the sidecar reaches into is left with lists only, at slots that hold lists when
      nothing is nested in it. */
  lemma ReachedShaped(d: Dictionary, store: Store, side: Sidecar, k: Key, m: Tree)
    requires StoreShaped(d, store) && AllLeaves(d, side) && Reaches(side, k) && AllLists(AsTree(Find(store, k)))
    requires Find(Effective(d, store, side), k) == Some(Node(m)) && Distinct(m)
    ensures Shaped(d, d.AttrOf(k), m)
  {
    var r := ReachedBy(side, k);
    assert HoldsTree(d, k);
    FindShaped(d, store, k);
    forall j | 0 <= j < |m| ensures m[j].1.Values? && !d.IsNested(d.AttrOf(k), m[j].0) {
      var q := Sub(k, m[j].0);
      FindAt(m, j);
      EffectiveAt(d, store, side, q);
      if Deferred(side, q) {
        DeferredLeaf(d, side, q);
      } else {
        FindSound(AsTree(Find(store, k)), m[j].0);
      }
    }
  }

  /** What travels is again a well-formed store exactly when nothing is nested beside a set-aside
      value. */
  lemma EffectiveShaped(d: Dictionary, store: Store, side: Sidecar)
    requires StoreShaped(d, store) && AllLeaves(d, side)
    ensures StoreShaped(d, Effective(d, store, side)) <==> Shallow(store, side)
  {
    var effective := Effective(d, store, side);
    EffectiveKinded(d, store, side);
    if Shallow(store, side) {
      forall i | 0 <= i < |effective| ensures EntryShaped(d, effective[i].0, effective[i].1) {
        var (k, s) := effective[i];
        FindAt(effective, i);
        EntryOfEffective(d, store, side, k, s);
      }
    } else if StoreShaped(d, effective) {
      var i :| 0 <= i < |side| && side[i].0.Sub? && !AllLists(AsTree(Find(store, side[i].0.parent)));
      NestedTorn(d, store, side, i);
    }
  }

  lemma EntryOfEffective(d: Dictionary, store: Store, side: Sidecar, k: Key, s: Stored)
    requires StoreShaped(d, store) && AllLeaves(d, side) && Shallow(store, side)
    requires Find(Effective(d, store, side), k) == Some(s) && KindOk(d, k, s)
    ensures EntryShaped(d, k, s)
  {
    if !Claimed(side, k) {
      EffectiveElsewhere(d, store, side, k);
      FindShaped(d, store, k);
    } else if s.Node? {
      ClaimsOf(d, side, Sub(k, 0));
      var i := ReachedBy(side, k);
      ReachedShaped(d, store, side, k, s.items);
    }
  }

  /** A map nested beside a set-aside value no longer travels as one. */
  lemma NestedTorn(d: Dictionary, store: Store, side: Sidecar, i: nat)
    requires StoreShaped(d, store) && AllLeaves(d, side)
    requires i < |side| && side[i].0.Sub? && !AllLists(AsTree(Find(store, side[i].0.parent)))
    ensures !StoreShaped(d, Effective(d, store, side))
  {
    var k := side[i].0.parent;
    var tree := AsTree(Find(store, k));
    var j :| 0 <= j < |tree| && tree[j].1.Node?;
    var q := Sub(k, tree[j].0);
    FindShaped(d, store, k);
    FindAt(tree, j);
    ReachesAt(side, i);
    if Deferred(side, q) { DeferredLeaf(d, side, q); }
    EffectiveAt(d, store, side, q);
    var m := AsTree(Find(Effective(d, store, side), k));
    assert Find(m, q.code) == Some(Copy(d, k, tree[j].1));
    FindSound(m, q.code);
    FindSound(Effective(d, store, side), k);
  }

  /** A sidecar nobody wrote to changes nothing. */
  lemma {:induction false} EmptySidecar(d: Dictionary, store: Store)
    ensures Effective(d, store, []) == store
  {
    if store != [] {
      EmptySidecar(d, store[1..]);
      assert Effective(d, store, []) == [store[0]] + Effective(d, store[1..], []);
      assert [store[0]] + store[1..] == store;
    }
  }

  // --- On the wire ------------------------------------------------------------------------------

  predicate NoneVirtual(d: Dictionary, m: Store) {
    forall i :: 0 <= i < |m| ==> !d.IsVirtual(m[i].0)
  }

  lemma {:induction false} VisibleAll(d: Dictionary, m: Store)
    requires NoneVirtual(d, m)
    ensures Visible(d, m) == m
  {
    if m != [] {
      assert NoneVirtual(d, m[1..]) by { assert forall i :: 0 <= i < |m[1..]| ==> m[1..][i] == m[i + 1]; }
      VisibleAll(d, m[1..]);
    }
  }

  /** `_pkt_encode_attributes`: the virtual filter applies to the stored part only. */
  function EncodeWith(d: Dictionary, store: Store, side: Sidecar): Result<bytes> {
    var kept, pending := Visible(d, Kept(store, side)), Pending(d, store, side);
    if SiblingsCopy(d, store, side) && AllEncodable(d, kept) && AllEncodable(d, pending) then
      Ok(Flatten(StoreAvps(d, kept)) + Flatten(StoreAvps(d, pending)))
    else Err
  }

  /** Serializing with a sidecar is serializing the effective store, unless a nested sibling cannot
      be copied or something virtual was set aside. */
  lemma EncodeWithEffective(d: Dictionary, store: Store, side: Sidecar)
    requires NoneVirtual(d, Pending(d, store, side))
    ensures EncodeWith(d, store, side) ==
            if SiblingsCopy(d, store, side) then EncodeStore(d, Effective(d, store, side)) else Err
  {
    var kept, pending := Kept(store, side), Pending(d, store, side);
    VisibleAppend(d, kept, pending);
    VisibleAll(d, pending);
    var all := Visible(d, kept) + pending;
    if AllEncodable(d, Visible(d, kept)) && AllEncodable(d, pending) {
      StoreAvpsAppend(d, Visible(d, kept), pending);
      FlattenAppend(StoreAvps(d, Visible(d, kept)), StoreAvps(d, pending));
    } else if AllEncodable(d, all) {
      forall i | 0 <= i < |Visible(d, kept)| ensures Encodable(d, Visible(d, kept)[i].0, Visible(d, kept)[i].1) {
        assert all[i] == Visible(d, kept)[i];
      }
      forall i | 0 <= i < |pending| ensures Encodable(d, pending[i].0, pending[i].1) {
        assert all[|Visible(d, kept)| + i] == pending[i];
      }
      assert false;
    }
  }

  /** A non-empty map nested beside a set-aside value makes serialization fail, but for the sub-code
      0 on its own in a long-extended container. */
  lemma NestedSiblingFails(d: Dictionary, store: Store, side: Sidecar, i: nat, j: nat)
    requires StoreShaped(d, store) && AllLeaves(d, side) && i < |side| && side[i].0.Sub?
    requires var m := AsTree(Find(store, side[i].0.parent));
             && j < |m| && m[j].1.Node? && m[j].1.items != []
             && !(Keys<byte, Stored>(m[j].1.items) == [0] && d.IsKind(side[i].0.parent, LongExtended))
    ensures EncodeWith(d, store, side) == Err
  {
    var k := side[i].0.parent;
    var m := AsTree(Find(store, k));
    FindShaped(d, store, k);
    if Deferred(side, Sub(k, m[j].0)) { DeferredLeaf(d, side, Sub(k, m[j].0)); }
    assert Copied(d, k, m[j].1).None? by {
      if |m[j].1.items| == 1 && m[j].1.items[0].0 == 0 { assert Keys<byte, Stored>(m[j].1.items) == [0]; }
    }
    assert !AllCopy(d, m, side, k);
  }
}
