/** Values as a packet stores them, and the TLV chains nested maps travel in. */
module Trees {
  import opened Wrappers
  import opened Bytes
  import opened OrderedMaps
  import opened Dictionaries
  import opened Wire

  /** A list of octet strings, or a map from sub-code to such a value. */
  datatype Stored = Values(vals: seq<bytes>) | Node(items: seq<(byte, Stored)>)

  type Tree = seq<(byte, Stored)>

  /** `setdefault(key, [])` before an append. */
  function AsValues(s: Option<Stored>): seq<bytes> {
    if s.Some? && s.value.Values? then s.value.vals else []
  }

  /** `setdefault(key, {})`, a value that is no map being replaced by an empty one. */
  function AsTree(s: Option<Stored>): Tree {
    if s.Some? && s.value.Node? then s.value.items else []
  }

  /** Distinct codes, and nested maps exactly at the sub-codes declared `tlv`. */
  predicate Shaped(d: Dictionary, parent: Option<Attribute>, m: Tree)
    decreases m
  {
    Distinct(m)
    && forall i :: 0 <= i < |m| ==>
         (m[i].1.Node? <==> d.IsNested(parent, m[i].0))
         && (m[i].1.Node? ==> assert m[i].1 < m[i]; Shaped(d, d.Child(parent, m[i].0), m[i].1.items))
  }

  /** Every stored list has an element, at every depth. */
  predicate Full(m: Tree)
    decreases m
  {
    forall i :: 0 <= i < |m| ==>
      assert m[i].1 < m[i];
      match m[i].1 case Values(vs) => vs != [] case Node(items) => Full(items)
  }

  // --- Encoding -----------------------------------------------------------------------------

  function ValuesSize(vs: seq<bytes>): nat {
    if vs == [] then 0 else 2 + |vs[0]| + ValuesSize(vs[1..])
  }

  function EntrySize(s: Stored): nat
    decreases s, 1
  {
    match s
    case Values(vs) => ValuesSize(vs)
    case Node(items) => 2 + ChainSize(items)
  }

  function ChainSize(m: Tree): nat
    decreases m, 0
  {
    if m == [] then 0 else assert m[0].1 < m[0]; EntrySize(m[0].1) + ChainSize(m[1..])
  }

  /** Every element of the chain, nested chains included, fits its length octet. */
  predicate ChainFits(m: Tree)
    decreases m, 0
  {
    forall i :: 0 <= i < |m| ==> assert m[i].1 < m[i]; EntryFits(m[i].1)
  }

  predicate EntryFits(s: Stored)
    decreases s, 1
  {
    match s
    case Values(vs) => forall j :: 0 <= j < |vs| ==> |vs[j]| <= 253
    case Node(items) => ChainFits(items) && ChainSize(items) <= 253
  }

  function ValueAvps(code: byte, vs: seq<bytes>): (r: seq<Avp>)
    ensures |r| == |vs|
  {
    seq(|vs|, j requires 0 <= j < |vs| => Avp(code, vs[j]))
  }

  /** Nested chains can be built; the entry itself may be of any length. */
  predicate InnerFits(s: Stored) {
    s.Node? ==> ChainFits(s.items)
  }

  predicate AllInnerFit(m: Tree) {
    forall i :: 0 <= i < |m| ==> InnerFits(m[i].1)
  }

  /** The entries of a map in emission order, every value of a list on its own.  These are the
      elements of a TLV chain, and the sub-attributes of an extended attribute. */
  function TreeAvps(m: Tree): (r: seq<Avp>)
    requires AllInnerFit(m)
    ensures Size(r) == ChainSize(m)
    ensures ChainFits(m) ==> AllFit(r)
    decreases m, 0
  {
    if m == [] then []
    else
      assert m[0].1 < m[0];
      SizeAppend(EntryAvps(m[0].0, m[0].1), TreeAvps(m[1..]));
      EntryAvps(m[0].0, m[0].1) + TreeAvps(m[1..])
  }

  function EntryAvps(code: byte, s: Stored): (r: seq<Avp>)
    requires InnerFits(s)
    ensures Size(r) == EntrySize(s)
    ensures EntryFits(s) ==> AllFit(r)
    decreases s, 1
  {
    match s
    case Values(vs) => ValueAvpsSize(code, vs); ValueAvps(code, vs)
    case Node(items) => [Avp(code, EncodeChain(items))]
  }

  /** `_encode_tlv_chain`. */
  function EncodeChain(m: Tree): (r: bytes)
    requires ChainFits(m)
    ensures |r| == ChainSize(m)
    decreases m, 1
  {
    ChainFitsInner(m);
    FlattenSize(TreeAvps(m));
    Flatten(TreeAvps(m))
  }

  lemma ChainFitsInner(m: Tree)
    requires ChainFits(m)
    ensures AllInnerFit(m)
  {
    forall i | 0 <= i < |m| ensures InnerFits(m[i].1) {
      assert EntryFits(m[i].1);
    }
  }

  lemma {:induction false} ValueAvpsSize(code: byte, vs: seq<bytes>)
    ensures Size(ValueAvps(code, vs)) == ValuesSize(vs)
  {
    if vs != [] {
      assert ValueAvps(code, vs)[1..] == ValueAvps(code, vs[1..]);
      ValueAvpsSize(code, vs[1..]);
    }
  }

  // --- Decoding -----------------------------------------------------------------------------

  /** `_decode_tlv_chain_into`: a lone octet or a length below 2 ends the chain silently, and
      a length past the end of the data is cut short. */
  function DecodeChain(d: Dictionary, parent: Option<Attribute>, target: Tree, data: bytes): Tree
    decreases |data|, 0
  {
    if |data| < 2 || data[1] < 2 then target
    else
      var end := if data[1] <= |data| then data[1] else |data|;
      DecodeChain(d, parent, Absorb(d, parent, target, Avp(data[0], data[2..end])), data[end..])
  }

  /** One chain element merged into the map. */
  function Absorb(d: Dictionary, parent: Option<Attribute>, target: Tree, a: Avp): Tree
    decreases |a.value|, 1
  {
    var here := Find(target, a.key);
    if d.IsNested(parent, a.key) then
      Put(target, a.key, Node(DecodeChain(d, d.Child(parent, a.key), AsTree(here), a.value)))
    else
      Put(target, a.key, Values(AsValues(here) + [a.value]))
  }

  function AbsorbAll(d: Dictionary, parent: Option<Attribute>, target: Tree, avps: seq<Avp>): Tree
    decreases |avps|
  {
    if avps == [] then target
    else AbsorbAll(d, parent, Absorb(d, parent, target, avps[0]), avps[1..])
  }

  lemma {:induction false} AbsorbAppend(d: Dictionary, parent: Option<Attribute>, target: Tree,
                                        a: seq<Avp>, b: seq<Avp>)
    ensures AbsorbAll(d, parent, target, a + b) ==
            AbsorbAll(d, parent, AbsorbAll(d, parent, target, a), b)
    decreases |a|
  {
    if a == [] {
      assert a + b == b;
    } else {
      assert (a + b)[1..] == a[1..] + b;
      AbsorbAppend(d, parent, Absorb(d, parent, target, a[0]), a[1..], b);
    }
  }

  lemma {:induction false} DecodeChainOfFlatten(d: Dictionary, parent: Option<Attribute>, target: Tree,
                                                avps: seq<Avp>)
    requires AllFit(avps)
    ensures DecodeChain(d, parent, target, Flatten(avps)) == AbsorbAll(d, parent, target, avps)
    decreases |avps|
  {
    if avps != [] {
      var data := Flatten(avps);
      assert data[1] == |avps[0].value| + 2 && data[1] <= |data|;
      assert data[2..data[1]] == avps[0].value;
      assert data[data[1]..] == Flatten(avps[1..]);
      DecodeChainOfFlatten(d, parent, Absorb(d, parent, target, avps[0]), avps[1..]);
    }
  }

  // --- Shape is kept ------------------------------------------------------------------------

  lemma {:induction false} AbsorbShaped(d: Dictionary, parent: Option<Attribute>, target: Tree, a: Avp)
    requires Shaped(d, parent, target)
    ensures Shaped(d, parent, Absorb(d, parent, target, a))
    decreases |a.value|, 1
  {
    var here := Find(target, a.key);
    var v := Find(Absorb(d, parent, target, a), a.key);
    FindSound(target, a.key);
    if d.IsNested(parent, a.key) {
      var child := d.Child(parent, a.key);
      assert Shaped(d, child, AsTree(here));
      DecodeChainShaped(d, child, AsTree(here), a.value);
      PutShaped(d, parent, target, a.key, Node(DecodeChain(d, child, AsTree(here), a.value)));
    } else {
      PutShaped(d, parent, target, a.key, Values(AsValues(here) + [a.value]));
    }
  }

  lemma {:induction false} PutShaped(d: Dictionary, parent: Option<Attribute>, m: Tree, k: byte, s: Stored)
    requires Shaped(d, parent, m)
    requires s.Node? <==> d.IsNested(parent, k)
    requires s.Node? ==> Shaped(d, d.Child(parent, k), s.items)
    ensures Shaped(d, parent, Put(m, k, s))
  {
    PutDistinct(m, k, s);
    PutEntries(m, k, s);
  }

  lemma {:induction false} DecodeChainShaped(d: Dictionary, parent: Option<Attribute>, target: Tree, data: bytes)
    requires Shaped(d, parent, target)
    ensures Shaped(d, parent, DecodeChain(d, parent, target, data))
    decreases |data|, 0
  {
    if |data| >= 2 && data[1] >= 2 {
      var end := if data[1] <= |data| then data[1] else |data|;
      var a := Avp(data[0], data[2..end]);
      AbsorbShaped(d, parent, target, a);
      DecodeChainShaped(d, parent, Absorb(d, parent, target, a), data[end..]);
    }
  }

  // --- Round trip of one chain --------------------------------------------------------------

  predicate Apart(a: Tree, b: Tree) {
    forall i :: 0 <= i < |b| ==> !Has(a, b[i].0)
  }

  /** A list travels element by element and comes back as the same list. */
  lemma {:induction false} AbsorbValues(d: Dictionary, parent: Option<Attribute>, a: Tree, code: byte,
                                        done: seq<bytes>, vs: seq<bytes>, b: Tree)
    requires !Has(a, code) && !d.IsNested(parent, code)
    requires done != []
    ensures AbsorbAll(d, parent, a + [(code, Values(done))] + b, ValueAvps(code, vs)) ==
            a + [(code, Values(done + vs))] + b
    decreases |vs|
  {
    if vs == [] {
      assert done + vs == done;
    } else {
      PutMiddle(a, code, Values(done), b, Values(done + [vs[0]]));
      assert ValueAvps(code, vs)[1..] == ValueAvps(code, vs[1..]);
      AbsorbValues(d, parent, a, code, done + [vs[0]], vs[1..], b);
      assert done + [vs[0]] + vs[1..] == done + vs;
    }
  }

  lemma AbsorbList(d: Dictionary, parent: Option<Attribute>, a: Tree, code: byte, vs: seq<bytes>)
    requires !Has(a, code) && !d.IsNested(parent, code) && vs != []
    ensures AbsorbAll(d, parent, a, ValueAvps(code, vs)) == a + [(code, Values(vs))]
  {
    PutAbsent(a, code, Values([vs[0]]));
    assert Absorb(d, parent, a, Avp(code, vs[0])) == a + [(code, Values([vs[0]]))] by {
      assert Find(a, code) == None;
      assert [] + [vs[0]] == [vs[0]];
    }
    assert ValueAvps(code, vs)[1..] == ValueAvps(code, vs[1..]);
    AbsorbValues(d, parent, a, code, [vs[0]], vs[1..], []);
    assert [vs[0]] + vs[1..] == vs;
    assert a + [(code, Values([vs[0]]))] + [] == a + [(code, Values([vs[0]]))];
    assert a + [(code, Values(vs))] + [] == a + [(code, Values(vs))];
  }

  /** One entry, list or nested map, absorbed behind entries of other codes. */
  lemma {:induction false} AbsorbEntry(d: Dictionary, parent: Option<Attribute>, a: Tree, code: byte, s: Stored)
    requires !Has(a, code) && InnerFits(s)
    requires s.Node? <==> d.IsNested(parent, code)
    requires s.Node? ==> Shaped(d, d.Child(parent, code), s.items) && Full(s.items)
    requires s.Values? ==> s.vals != []
    ensures AbsorbAll(d, parent, a, EntryAvps(code, s)) == a + [(code, s)]
    decreases s, 1
  {
    match s
    case Values(vs) =>
      AbsorbList(d, parent, a, code, vs);
    case Node(items) =>
      ChainRoundTrip(d, d.Child(parent, code), items);
      PutAbsent(a, code, s);
      var one := [Avp(code, EncodeChain(items))];
      assert one[1..] == [];
  }

  lemma AbsorbInTurn(d: Dictionary, parent: Option<Attribute>, a: Tree, one: seq<Avp>, more: seq<Avp>, m: Tree)
    requires m != [] && AbsorbAll(d, parent, a, one) == a + [m[0]]
    requires AbsorbAll(d, parent, a + [m[0]], more) == a + [m[0]] + m[1..]
    ensures AbsorbAll(d, parent, a, one + more) == a + m
  {
    AbsorbAppend(d, parent, a, one, more);
    assert a + [m[0]] + m[1..] == a + m;
  }

  lemma RestApart(d: Dictionary, parent: Option<Attribute>, a: Tree, m: Tree)
    requires m != [] && Shaped(d, parent, m) && Full(m) && AllInnerFit(m) && Apart(a, m)
    ensures Shaped(d, parent, m[1..]) && Full(m[1..]) && AllInnerFit(m[1..]) && Apart(a + [m[0]], m[1..])
  {
    assert forall i :: 0 <= i < |m[1..]| ==> m[1..][i] == m[i + 1];
    forall i | 0 <= i < |m[1..]| ensures !Has(a + [m[0]], m[1..][i].0) {
      FindAppend(a, [m[0]], m[1..][i].0);
    }
  }

  lemma {:induction false} AbsorbTree(d: Dictionary, parent: Option<Attribute>, a: Tree, m: Tree)
    requires Shaped(d, parent, m) && Full(m) && AllInnerFit(m) && Apart(a, m)
    ensures AbsorbAll(d, parent, a, TreeAvps(m)) == a + m
    decreases m, 0
  {
    if m == [] {
      assert a + m == a;
    } else {
      var (code, s) := m[0];
      assert s < m[0];
      RestApart(d, parent, a, m);
      AbsorbEntry(d, parent, a, code, s);
      AbsorbTree(d, parent, a + [m[0]], m[1..]);
      AbsorbInTurn(d, parent, a, EntryAvps(code, s), TreeAvps(m[1..]), m);
    }
  }

  /** Encoding a nested map as a TLV chain and decoding it into an empty map is the identity. */
  lemma {:induction false} ChainRoundTrip(d: Dictionary, parent: Option<Attribute>, m: Tree)
    requires Shaped(d, parent, m) && Full(m) && ChainFits(m)
    ensures DecodeChain(d, parent, [], EncodeChain(m)) == m
    decreases m, 1
  {
    DecodeChainOfFlatten(d, parent, [], TreeAvps(m));
    AbsorbTree(d, parent, [], m);
    assert [] + m == m;
  }
}
