/** Dictionary lines turned into attribute objects: names, storage keys, parent links, and the table
    of containers by code chain that each file starts from. */
module Loading {
  import opened Wrappers
  import opened OrderedMaps

  datatype Kind = Tlv | Extended | LongExtended | EvsMarker | Leaf {
    predicate IsContainer() { this in {Tlv, Extended, LongExtended} }
  }

  type Chain = seq<nat>

  /** An attribute object; the objects live in a heap and refer to each other by position. */
  datatype Attr = Attr(
    name: string, code: nat, kind: Kind, vendor: string, isSub: bool,
    parent: Option<nat>, subs: map<nat, string>)

  type Heap = seq<Attr>

  /** What a dictionary object holds: the objects, the attributes by name in order of definition, the
      two directions of the index, and the vendors.  Storage keys are code sequences; a plain code
      is a sequence of one. */
  datatype Dict = Dict(
    heap: Heap, attributes: seq<(string, nat)>,
    forward: map<string, Chain>, backward: map<Chain, string>, vendors: map<string, nat>)

  const EMPTY := Dict([], [], map[], map[], map["" := 0])

  /** The state of one file: open vendor block, its EVS parent, and the containers by chain. */
  datatype State = State(vendor: string, evsParent: Option<string>, tlvs: map<Chain, nat>)

  /** A line, already split into tokens. */
  datatype Line =
    | Attribute(name: string, codes: Chain, kind: Kind, column: Option<string>)
    | Vendor(vendorName: string, id: nat)
    | BeginVendor(block: string, evs: Option<string>)
    | EndVendor(block: string)
    | Other

  function Named(attributes: seq<(string, nat)>, name: string): Option<nat> {
    Find<string, nat>(attributes, name)
  }

  // --- Walking parent links -----------------------------------------------------------------------

  /** Parents are older than their children, so every walk ends. */
  ghost predicate Grounded(h: Heap) {
    forall i :: 0 <= i < |h| && h[i].parent.Some? ==> h[i].parent.value < i
  }

  ghost predicate DictOk(d: Dict) {
    Grounded(d.heap) && forall i :: 0 <= i < |d.attributes| ==> d.attributes[i].1 < |d.heap|
  }

  /** The code chain of an object, from its root container down to itself. */
  function ChainOf(h: Heap, id: nat): Chain
    requires Grounded(h) && id < |h|
    decreases id
  {
    (match h[id].parent case None => [] case Some(p) => ChainOf(h, p)) + [h[id].code]
  }

  /** `_existing_container_chains`: later definitions replace earlier ones of the same chain. */
  function ExistingChains(h: Heap, attributes: seq<(string, nat)>): map<Chain, nat>
    requires Grounded(h) && forall i :: 0 <= i < |attributes| ==> attributes[i].1 < |h|
  {
    if attributes == [] then map[]
    else
      var (name, id) := attributes[|attributes| - 1];
      var before := ExistingChains(h, attributes[..|attributes| - 1]);
      if h[id].kind.IsContainer() then before[ChainOf(h, id) := id] else before
  }

  function Start(d: Dict): State
    requires DictOk(d)
  {
    State("", None, ExistingChains(d.heap, d.attributes))
  }

  // --- One line -----------------------------------------------------------------------------------

  function VendorOf(st: State, l: Line): string
    requires l.Attribute?
  {
    if l.column.Some? then l.column.value else st.vendor
  }

  /** The storage key of a new attribute. */
  function KeyFor(d: Dict, st: State, l: Line): Result<Chain>
    requires l.Attribute? && l.codes != []
  {
    var vendor := VendorOf(st, l);
    if vendor !in d.vendors then Err
    else if st.evsParent.Some? then
      var marker := Named(d.attributes, st.evsParent.value);
      if marker.None? || marker.value >= |d.heap| then Err
      else
        var wrapper := d.heap[marker.value].parent;
        if wrapper.None? || wrapper.value >= |d.heap| then Err
        else
          var outer, slot := d.heap[wrapper.value].code, d.heap[marker.value].code;
          Ok([outer, slot, d.vendors[vendor], l.codes[|l.codes| - 1]])
    else if vendor != "" then Ok([d.vendors[vendor]] + l.codes)
    else Ok(l.codes)
  }

  /** The parent of a new attribute.  An EVS parent is looked up by name once the new attribute has
      been stored, so it may be the attribute itself. */
  function ParentFor(d: Dict, st: State, l: Line): Result<Option<nat>>
    requires l.Attribute? && l.codes != []
  {
    var above := l.codes[..|l.codes| - 1];
    if st.evsParent.Some? then
      Ok(if l.name == st.evsParent.value then Some(|d.heap|) else Named(d.attributes, st.evsParent.value))
    else if above == [] then Ok(None)
    else if above in st.tlvs then Ok(Some(st.tlvs[above]))
    else Err
  }

  /** The objects with one more, known to its parent unless that is an EVS marker. */
  function Grown(h: Heap, attr: Attr, evs: bool): Heap {
    var heap := h + [attr];
    if !evs && attr.parent.Some? && attr.parent.value < |heap| then
      var parent := heap[attr.parent.value];
      heap[attr.parent.value := parent.(subs := parent.subs[attr.code := attr.name])]
    else heap
  }

  /** `__parse_attribute`. */
  function ParseAttribute(d: Dict, st: State, l: Line): Result<(Dict, State)>
    requires l.Attribute?
  {
    if l.codes == [] || KeyFor(d, st, l).Err? || ParentFor(d, st, l).Err? then Err
    else
      var key, parent := KeyFor(d, st, l).value, ParentFor(d, st, l).value;
      var id, code := |d.heap|, l.codes[|l.codes| - 1];
      var isSub := st.evsParent.Some? || |l.codes| > 1;
      var attr := Attr(l.name, code, l.kind, VendorOf(st, l), isSub, parent, map[]);
      Ok((d.(heap := Grown(d.heap, attr, st.evsParent.Some?), attributes := Put<string, nat>(d.attributes, l.name, id),
             forward := d.forward[l.name := key], backward := d.backward[key := l.name]),
          st.(tlvs := if l.kind.IsContainer() then st.tlvs[l.codes := id] else st.tlvs)))
  }

  /** `__parse_begin_vendor`. */
  function ParseBegin(d: Dict, st: State, l: Line): Result<(Dict, State)>
    requires l.BeginVendor?
  {
    if l.block !in d.vendors then Err
    else if l.evs.Some? then
      var marker := Named(d.attributes, l.evs.value);
      if marker.None? || marker.value >= |d.heap| || !d.heap[marker.value].kind.EvsMarker? then Err
      else Ok((d, st.(vendor := l.block, evsParent := l.evs)))
    else Ok((d, st.(vendor := l.block, evsParent := None)))
  }

  /** One turn of the loop of `read_dictionary`. */
  function Parse(d: Dict, st: State, l: Line): Result<(Dict, State)> {
    match l
    case Attribute(_, _, _, _) => ParseAttribute(d, st, l)
    case Vendor(name, id) =>
      if id > 0xFFFFFF then Err else Ok((d.(vendors := d.vendors[name := id]), st))
    case BeginVendor(_, _) => ParseBegin(d, st, l)
    case EndVendor(block) => if st.vendor != block then Err else Ok((d, st.(vendor := "", evsParent := None)))
    case Other => Ok((d, st))
  }

  function ParseAll(d: Dict, st: State, lines: seq<Line>): Result<(Dict, State)>
    decreases |lines|
  {
    if lines == [] then Ok((d, st))
    else
      match Parse(d, st, lines[0])
      case Err => Err
      case Ok(next) => ParseAll(next.0, next.1, lines[1..])
  }

  lemma {:induction false} ParseAppend(d: Dict, st: State, a: seq<Line>, b: seq<Line>)
    ensures ParseAll(d, st, a + b) ==
            match ParseAll(d, st, a) case Err => Err case Ok(mid) => ParseAll(mid.0, mid.1, b)
    decreases |a|
  {
    if a == [] {
      assert a + b == b;
    } else {
      assert (a + b)[0] == a[0] && (a + b)[1..] == a[1..] + b;
      var next := Parse(d, st, a[0]);
      if next.Ok? { ParseAppend(next.value.0, next.value.1, a[1..], b); }
    }
  }

  // --- The table is the walk ----------------------------------------------------------------------

  ghost predicate DistinctIds(attributes: seq<(string, nat)>) {
    forall i, j :: 0 <= i < j < |attributes| ==> attributes[i].1 != attributes[j].1
  }

  /** The container table of the state is the one a new file would start from. */
  ghost predicate InStep(d: Dict, st: State) {
    Loadable(d) && st.tlvs == ExistingChains(d.heap, d.attributes)
  }

  /** Walks end, and every name has an object of its own. */
  ghost predicate Loadable(d: Dict) {
    DictOk(d) && Distinct(d.attributes) && DistinctIds(d.attributes)
  }

  /** Where an attribute of the name stands, or would be added. */
  function IndexOf(attributes: seq<(string, nat)>, name: string): (i: nat)
    ensures i <= |attributes|
    ensures i < |attributes| ==> attributes[i].0 == name
  {
    if attributes == [] || attributes[0].0 == name then 0 else 1 + IndexOf(attributes[1..], name)
  }

  ghost predicate IdsBelow(h: Heap, attributes: seq<(string, nat)>) {
    forall k :: 0 <= k < |attributes| ==> attributes[k].1 < |h|
  }

  /** The attribute at `k` is a container whose parent walk gives `c`. */
  ghost predicate Walks(h: Heap, attributes: seq<(string, nat)>, k: nat, c: Chain)
    requires Grounded(h) && IdsBelow(h, attributes) && k < |attributes|
  {
    h[attributes[k].1].kind.IsContainer() && ChainOf(h, attributes[k].1) == c
  }

  ghost predicate NoneAfter(h: Heap, attributes: seq<(string, nat)>, i: nat, c: Chain)
    requires Grounded(h) && IdsBelow(h, attributes)
  {
    forall k :: i < k < |attributes| ==> !Walks(h, attributes, k, c)
  }

  /** The chain the parent walk of a new attribute will give. */
  ghost function NewWalk(d: Dict, st: State, l: Line): Chain
    requires DictOk(d) && l.Attribute? && l.codes != []
  {
    if st.evsParent.Some? then
      var marker := Named(d.attributes, st.evsParent.value);
      (if marker.Some? && marker.value < |d.heap| then ChainOf(d.heap, marker.value) else [])
      + [l.codes[|l.codes| - 1]]
    else l.codes
  }

  /** The line keeps the table what the parent links say: it does not name the open EVS parent; a
      container is written under the chain of its walk and no later definition has that chain; and a
      redefined container stays one under its chain, unless a later definition has it. */
  ghost predicate Tame(d: Dict, st: State, l: Line)
    requires DictOk(d)
  {
    l.Attribute? && l.codes != [] ==>
      var i, w := IndexOf(d.attributes, l.name), NewWalk(d, st, l);
      && st.evsParent != Some(l.name)
      && (l.kind.IsContainer() ==> l.codes == w && NoneAfter(d.heap, d.attributes, i, w))
      && (i < |d.attributes| && d.heap[d.attributes[i].1].kind.IsContainer()
          && NoneAfter(d.heap, d.attributes, i, ChainOf(d.heap, d.attributes[i].1)) ==>
            l.kind.IsContainer() && w == ChainOf(d.heap, d.attributes[i].1))
  }

  ghost predicate AllTame(d: Dict, st: State, lines: seq<Line>)
    decreases |lines|
  {
    lines != [] ==>
      DictOk(d) && Tame(d, st, lines[0])
      && var next := Parse(d, st, lines[0]);
         next.Ok? ==> AllTame(next.value.0, next.value.1, lines[1..])
  }

  /** Objects keep their code, kind and parent for good. */
  ghost predicate Extends(h: Heap, h': Heap) {
    |h| <= |h'| && forall i :: 0 <= i < |h| ==> h'[i].(subs := h[i].subs) == h[i]
  }

  lemma {:induction false} ChainStable(h: Heap, h': Heap, id: nat)
    requires Grounded(h) && Grounded(h') && Extends(h, h') && id < |h|
    ensures ChainOf(h', id) == ChainOf(h, id)
    decreases id
  {
    assert h'[id].parent == h[id].parent && h'[id].code == h[id].code;
    if h[id].parent.Some? { ChainStable(h, h', h[id].parent.value); }
  }

  /** Every entry of the table is a container that walks to its own key. */
  lemma {:induction false} ChainsSound(h: Heap, attributes: seq<(string, nat)>, c: Chain)
    requires Grounded(h) && forall i :: 0 <= i < |attributes| ==> attributes[i].1 < |h|
    requires c in ExistingChains(h, attributes)
    ensures var id := ExistingChains(h, attributes)[c];
            id < |h| && h[id].kind.IsContainer() && ChainOf(h, id) == c
            && exists i :: 0 <= i < |attributes| && attributes[i].1 == id
  {
    var last := |attributes| - 1;
    var (name, id) := attributes[last];
    if h[id].kind.IsContainer() && ChainOf(h, id) == c {
      assert attributes[last].1 == id;
    } else {
      ChainsSound(h, attributes[..last], c);
      var found := ExistingChains(h, attributes)[c];
      var i :| 0 <= i < |attributes[..last]| && attributes[..last][i].1 == found;
      assert attributes[i].1 == found;
    }
  }

  /** With distinct chains, every container is in the table under the chain of its walk. */
  lemma {:induction false} ChainsComplete(h: Heap, attributes: seq<(string, nat)>, i: nat)
    requires Grounded(h) && forall k :: 0 <= k < |attributes| ==> attributes[k].1 < |h|
    requires i < |attributes| && h[attributes[i].1].kind.IsContainer()
    requires forall k :: i < k < |attributes| && h[attributes[k].1].kind.IsContainer() ==>
               ChainOf(h, attributes[k].1) != ChainOf(h, attributes[i].1)
    ensures var c := ChainOf(h, attributes[i].1);
            c in ExistingChains(h, attributes) && ExistingChains(h, attributes)[c] == attributes[i].1
  {
    var last := |attributes| - 1;
    if i < last {
      assert forall k :: 0 <= k < last ==> attributes[..last][k] == attributes[k];
      ChainsComplete(h, attributes[..last], i);
    }
  }

  /** The references of the state lead to objects. */
  ghost predicate RefsOk(d: Dict, st: State) {
    DictOk(d) && forall c :: c in st.tlvs ==> st.tlvs[c] < |d.heap|
  }

  lemma InStepRefs(d: Dict, st: State)
    requires InStep(d, st)
    ensures RefsOk(d, st)
  {
    forall c | c in st.tlvs ensures st.tlvs[c] < |d.heap| { ChainsSound(d.heap, d.attributes, c); }
  }

  lemma {:induction false} PutIndex(attributes: seq<(string, nat)>, name: string, id: nat)
    ensures var i := IndexOf(attributes, name);
            && (i == |attributes| <==> Named(attributes, name).None?)
            && (i < |attributes| ==> Named(attributes, name) == Some(attributes[i].1))
            && Put(attributes, name, id) ==
               if i < |attributes| then attributes[i := (name, id)] else attributes + [(name, id)]
  {
    if attributes != [] && attributes[0].0 != name { PutIndex(attributes[1..], name, id); }
  }

  /** What a line that parses does to the heap, as long as it does not name the open EVS parent. */
  lemma NewObject(d: Dict, st: State, l: Line)
    requires RefsOk(d, st) && l.Attribute? && st.evsParent != Some(l.name) && ParseAttribute(d, st, l).Ok?
    ensures var (d', st') := ParseAttribute(d, st, l).value;
            && |d'.heap| == |d.heap| + 1 && Extends(d.heap, d'.heap) && RefsOk(d', st')
            && d'.attributes == Put<string, nat>(d.attributes, l.name, |d.heap|)
            && d'.heap[|d.heap|].(subs := map[]) ==
               Attr(l.name, l.codes[|l.codes| - 1], l.kind, VendorOf(st, l), st.evsParent.Some? || |l.codes| > 1,
                    ParentFor(d, st, l).value, map[])
  {
    var (d', st') := ParseAttribute(d, st, l).value;
    var parent := ParentFor(d, st, l).value;
    PutEntries<string, nat>(d.attributes, l.name, |d.heap|);
    if st.evsParent.Some? { FindSound<string, nat>(d.attributes, st.evsParent.value); }
    assert parent.Some? ==> parent.value < |d.heap|;
    assert Grounded(d'.heap);
  }

  /** The walk of the new object. */
  lemma NewObjectWalk(d: Dict, st: State, l: Line)
    requires InStep(d, st) && l.Attribute? && st.evsParent != Some(l.name) && ParseAttribute(d, st, l).Ok?
    ensures DictOk(ParseAttribute(d, st, l).value.0) && |ParseAttribute(d, st, l).value.0.heap| == |d.heap| + 1
    ensures ChainOf(ParseAttribute(d, st, l).value.0.heap, |d.heap|) == NewWalk(d, st, l)
  {
    var d' := ParseAttribute(d, st, l).value.0;
    var parent := ParentFor(d, st, l).value;
    var above := l.codes[..|l.codes| - 1];
    InStepRefs(d, st);
    NewObject(d, st, l);
    assert above + [l.codes[|l.codes| - 1]] == l.codes;
    if parent.Some? {
      if st.evsParent.Some? {
        FindSound<string, nat>(d.attributes, st.evsParent.value);
      } else {
        ChainsSound(d.heap, d.attributes, above);
      }
      ChainStable(d.heap, d'.heap, parent.value);
    }
  }

  /** The table holds the last container of each chain. */
  lemma {:induction false} TableLast(h: Heap, attributes: seq<(string, nat)>, c: Chain) returns (k: int)
    requires Grounded(h) && IdsBelow(h, attributes)
    ensures -1 <= k < |attributes|
    ensures k < 0 ==>
              c !in ExistingChains(h, attributes) && forall j :: 0 <= j < |attributes| ==> !Walks(h, attributes, j, c)
    ensures k >= 0 ==> Walks(h, attributes, k, c) && NoneAfter(h, attributes, k, c)
                       && c in ExistingChains(h, attributes) && ExistingChains(h, attributes)[c] == attributes[k].1
  {
    k := -1;
    if attributes != [] {
      var last := |attributes| - 1;
      var front := attributes[..last];
      if Walks(h, attributes, last, c) {
        k := last;
      } else {
        k := TableLast(h, front, c);
        assert forall j :: 0 <= j < last ==> (Walks(h, attributes, j, c) <==> Walks(h, front, j, c));
      }
    }
  }

  /** `b` is `a` with its entry `i` replaced by, or with the new last entry, `id`. */
  ghost predicate Replaces(a: seq<(string, nat)>, b: seq<(string, nat)>, i: nat, id: nat) {
    && i <= |a| && |b| == (if i < |a| then |a| else |a| + 1) && b[i].1 == id
    && forall k :: 0 <= k < |b| && k != i ==> b[k] == a[k]
  }

  /** The other entries walk as before. */
  lemma {:induction false} OthersWalk(h: Heap, h': Heap, a: seq<(string, nat)>, b: seq<(string, nat)>,
                                      i: nat, id: nat, k: nat, c: Chain)
    requires Grounded(h) && Grounded(h') && Extends(h, h') && IdsBelow(h, a) && IdsBelow(h', b)
    requires Replaces(a, b, i, id) && k < |b| && k != i
    ensures Walks(h', b, k, c) <==> Walks(h, a, k, c)
  {
    ChainStable(h, h', a[k].1);
  }

  lemma {:induction false} AllOthersWalk(h: Heap, h': Heap, a: seq<(string, nat)>, b: seq<(string, nat)>,
                                         i: nat, id: nat, c: Chain)
    requires Grounded(h) && Grounded(h') && Extends(h, h') && IdsBelow(h, a) && IdsBelow(h', b) && Replaces(a, b, i, id)
    ensures forall k: nat :: k < |b| && k != i ==> (Walks(h', b, k, c) <==> Walks(h, a, k, c))
    ensures NoneAfter(h', b, i, c) <==> NoneAfter(h, a, i, c)
  {
    forall k: nat | k < |b| && k != i ensures Walks(h', b, k, c) <==> Walks(h, a, k, c) {
      OthersWalk(h, h', a, b, i, id, k, c);
    }
  }

  /** One chain of the rebuilt table: the new entry where it walks the chain and nothing later does. */
  lemma {:induction false} NewEntry(h: Heap, h': Heap, a: seq<(string, nat)>, b: seq<(string, nat)>,
                                    i: nat, id: nat, c: Chain)
    requires Grounded(h) && Grounded(h') && Extends(h, h') && IdsBelow(h, a) && IdsBelow(h', b) && Replaces(a, b, i, id)
    requires Walks(h', b, i, c) && NoneAfter(h, a, i, c)
    ensures c in ExistingChains(h', b) && ExistingChains(h', b)[c] == id
  {
    AllOthersWalk(h, h', a, b, i, id, c);
    var k := TableLast(h', b, c);
  }

  /** One chain of the rebuilt table: where neither the new nor the replaced entry counts, all is as it
      was. */
  lemma {:induction false} OldEntry(h: Heap, h': Heap, a: seq<(string, nat)>, b: seq<(string, nat)>,
                                    i: nat, id: nat, c: Chain)
    requires Grounded(h) && Grounded(h') && Extends(h, h') && IdsBelow(h, a) && IdsBelow(h', b) && Replaces(a, b, i, id)
    requires !(Walks(h', b, i, c) && NoneAfter(h, a, i, c)) && !(i < |a| && Walks(h, a, i, c) && NoneAfter(h, a, i, c))
    ensures c in ExistingChains(h', b) <==> c in ExistingChains(h, a)
    ensures c in ExistingChains(h, a) ==> ExistingChains(h', b)[c] == ExistingChains(h, a)[c]
  {
    AllOthersWalk(h, h', a, b, i, id, c);
    var k := TableLast(h, a, c);
    var k' := TableLast(h', b, c);
    assert k >= 0 ==> k != i && Walks(h', b, k, c);
    assert k' >= 0 ==> k' != i && Walks(h, a, k', c);
    assert k == k';
  }

  /** The entry under the chain of a replaced container is another one afterwards, or none. */
  lemma {:induction false} ReplacedGoes(h: Heap, h': Heap, a: seq<(string, nat)>, b: seq<(string, nat)>,
                                        i: nat, id: nat, c: Chain)
    requires Grounded(h) && Grounded(h') && Extends(h, h') && IdsBelow(h, a) && IdsBelow(h', b) && Replaces(a, b, i, id)
    requires DistinctIds(a) && id == |h| && i < |a| && Walks(h, a, i, c) && NoneAfter(h, a, i, c)
    ensures c in ExistingChains(h, a) && ExistingChains(h, a)[c] == a[i].1
    ensures c in ExistingChains(h', b) ==> ExistingChains(h', b)[c] != a[i].1
  {
    var k := TableLast(h, a, c);
    var k' := TableLast(h', b, c);
    assert k == i;
  }

  /** Every attribute line keeps the container table in step with the parent links exactly when it is
      tame; every other line does. */
  lemma ParseInStepExactly(d: Dict, st: State, l: Line)
    requires InStep(d, st) && Parse(d, st, l).Ok?
    ensures InStep(Parse(d, st, l).value.0, Parse(d, st, l).value.1) <==> Tame(d, st, l)
  {
    if l.Attribute? {
      if st.evsParent == Some(l.name) {
        SelfParentExactly(d, st, l);
      } else if Tame(d, st, l) {
        TameKeeps(d, st, l);
      } else {
        UntameBreaks(d, st, l);
      }
    }
  }

  lemma AttributeFacts(d: Dict, st: State, l: Line) returns (i: nat)
    requires InStep(d, st) && l.Attribute? && st.evsParent != Some(l.name) && ParseAttribute(d, st, l).Ok?
    ensures var (d', st') := ParseAttribute(d, st, l).value;
            && i == IndexOf(d.attributes, l.name) && DictOk(d') && Extends(d.heap, d'.heap)
            && Distinct(d'.attributes) && DistinctIds(d'.attributes)
            && Replaces(d.attributes, d'.attributes, i, |d.heap|)
            && (forall c :: Walks(d'.heap, d'.attributes, i, c) <==> l.kind.IsContainer() && c == NewWalk(d, st, l))
            && st'.tlvs == if l.kind.IsContainer() then st.tlvs[l.codes := |d.heap|] else st.tlvs
  {
    i := IndexOf(d.attributes, l.name);
    InStepRefs(d, st);
    NewObject(d, st, l);
    NewObjectWalk(d, st, l);
    PutIndex(d.attributes, l.name, |d.heap|);
    PutDistinct<string, nat>(d.attributes, l.name, |d.heap|);
  }

  lemma TameKeeps(d: Dict, st: State, l: Line)
    requires InStep(d, st) && l.Attribute? && Tame(d, st, l) && ParseAttribute(d, st, l).Ok?
    ensures InStep(ParseAttribute(d, st, l).value.0, ParseAttribute(d, st, l).value.1)
  {
    var (d', st') := ParseAttribute(d, st, l).value;
    var i := AttributeFacts(d, st, l);
    var table := ExistingChains(d'.heap, d'.attributes);
    forall c
      ensures c in table <==> c in st'.tlvs
      ensures c in table ==> table[c] == st'.tlvs[c]
    {
      if Walks(d'.heap, d'.attributes, i, c) && NoneAfter(d.heap, d.attributes, i, c) {
        NewEntry(d.heap, d'.heap, d.attributes, d'.attributes, i, |d.heap|, c);
      } else {
        OldEntry(d.heap, d'.heap, d.attributes, d'.attributes, i, |d.heap|, c);
      }
    }
    assert table == st'.tlvs;
  }

  lemma UntameBreaks(d: Dict, st: State, l: Line)
    requires InStep(d, st) && l.Attribute? && st.evsParent != Some(l.name)
    requires !Tame(d, st, l) && ParseAttribute(d, st, l).Ok?
    ensures !InStep(ParseAttribute(d, st, l).value.0, ParseAttribute(d, st, l).value.1)
  {
    var (d', st') := ParseAttribute(d, st, l).value;
    var i := AttributeFacts(d, st, l);
    var w := NewWalk(d, st, l);
    var table := ExistingChains(d'.heap, d'.attributes);
    if l.kind.IsContainer() && !(l.codes == w && NoneAfter(d.heap, d.attributes, i, w)) {
      // the file's own entry for the new object is not in the rebuilt table
      var k := TableLast(d'.heap, d'.attributes, l.codes);
      if k == i {
        var j: nat :| i < j < |d.attributes| && !(!Walks(d.heap, d.attributes, j, w));
        OthersWalk(d.heap, d'.heap, d.attributes, d'.attributes, i, |d.heap|, j, w);
        assert false;
      }
      assert l.codes in table ==> table[l.codes] != |d.heap|;
    } else {
      ReplacedGoes(d.heap, d'.heap, d.attributes, d'.attributes, i, |d.heap|, ChainOf(d.heap, d.attributes[i].1));
    }
  }

  /** Every tame line keeps the table in step with the parent links. */
  lemma ParseInStep(d: Dict, st: State, l: Line)
    requires InStep(d, st) && Tame(d, st, l) && Parse(d, st, l).Ok?
    ensures InStep(Parse(d, st, l).value.0, Parse(d, st, l).value.1)
  {
    ParseInStepExactly(d, st, l);
  }

  lemma {:induction false} ParseAllInStep(d: Dict, st: State, lines: seq<Line>)
    requires InStep(d, st) && AllTame(d, st, lines) && ParseAll(d, st, lines).Ok?
    ensures InStep(ParseAll(d, st, lines).value.0, ParseAll(d, st, lines).value.1)
    decreases |lines|
  {
    if lines != [] {
      var next := Parse(d, st, lines[0]).value;
      ParseInStep(d, st, lines[0]);
      ParseAllInStep(next.0, next.1, lines[1..]);
    }
  }

  // --- Two files ----------------------------------------------------------------------------------

  /** `read_dictionary`. */
  function Load(d: Dict, lines: seq<Line>): Result<Dict>
    requires DictOk(d)
  {
    match ParseAll(d, Start(d), lines) case Err => Err case Ok(end) => Ok(end.0)
  }

  predicate Closed(st: State) {
    st.vendor == "" && st.evsParent == None
  }

  /** Loading two files in turn gives what loading their concatenation gives: the same objects, links,
      names and keys, or the same refusal. */
  lemma TwoFilesAreOne(d: Dict, first: seq<Line>, second: seq<Line>)
    requires Loadable(d) && AllTame(d, Start(d), first)
    requires ParseAll(d, Start(d), first).Ok? ==> Closed(ParseAll(d, Start(d), first).value.1)
    ensures Load(d, first).Ok? ==> DictOk(Load(d, first).value)
    ensures Load(d, first + second) == if Load(d, first).Ok? then Load(Load(d, first).value, second) else Err
  {
    ParseAppend(d, Start(d), first, second);
    if Load(d, first).Ok? {
      ParseAllInStep(d, Start(d), first);
      var (mid, st) := ParseAll(d, Start(d), first).value;
      assert st == Start(mid);
    }
  }

  // --- Children and parents -----------------------------------------------------------------------

  /** Under every sub-code an object lists, there is an attribute of that code whose parent it is. */
  ghost predicate ChildrenLinked(d: Dict) {
    forall p :: 0 <= p < |d.heap| ==>
      forall c :: c in d.heap[p].subs ==> ChildLinked(d, p, c, d.heap[p].subs[c])
  }

  ghost predicate ChildLinked(d: Dict, p: nat, c: nat, name: string) {
    var child := Named(d.attributes, name);
    child.Some? && child.value < |d.heap| && d.heap[child.value].parent == Some(p) && d.heap[child.value].code == c
  }

  /** Wherever the name of the line is already listed, the line gives it the same parent and code. */
  ghost predicate ListingsAgree(d: Dict, st: State, l: Line)
    requires l.Attribute? && l.codes != []
  {
    forall p, c :: 0 <= p < |d.heap| && c in d.heap[p].subs && d.heap[p].subs[c] == l.name ==>
      ParentFor(d, st, l) == Ok(Some(p)) && c == l.codes[|l.codes| - 1]
  }

  lemma NewObjectSubs(d: Dict, st: State, l: Line, p: nat)
    requires RefsOk(d, st) && l.Attribute? && st.evsParent != Some(l.name) && ParseAttribute(d, st, l).Ok?
    requires p < |d.heap| + 1
    ensures |ParseAttribute(d, st, l).value.0.heap| == |d.heap| + 1
    ensures var d', code := ParseAttribute(d, st, l).value.0, l.codes[|l.codes| - 1];
            var before := if p < |d.heap| then d.heap[p].subs else map[];
            d'.heap[p].subs ==
            if st.evsParent.None? && ParentFor(d, st, l).value == Some(p) then before[code := l.name] else before
  {
  }

  /** A line keeps every listing true exactly when it agrees with those its name already has. */
  lemma KeepsChildrenExactly(d: Dict, st: State, l: Line)
    requires RefsOk(d, st) && ChildrenLinked(d)
    requires l.Attribute? && st.evsParent != Some(l.name) && ParseAttribute(d, st, l).Ok?
    ensures ChildrenLinked(ParseAttribute(d, st, l).value.0) <==> ListingsAgree(d, st, l)
  {
    var d' := ParseAttribute(d, st, l).value.0;
    NewObject(d, st, l);
    if ListingsAgree(d, st, l) {
      forall p, c | 0 <= p < |d'.heap| && c in d'.heap[p].subs ensures ChildLinked(d', p, c, d'.heap[p].subs[c]) {
        ListingKept(d, st, l, p, c);
      }
    }
    if ChildrenLinked(d') {
      forall p, c | 0 <= p < |d.heap| && c in d.heap[p].subs && d.heap[p].subs[c] == l.name
        ensures ParentFor(d, st, l) == Ok(Some(p)) && c == l.codes[|l.codes| - 1]
      {
        NewObjectSubs(d, st, l, p);
        assert c in d'.heap[p].subs && d'.heap[p].subs[c] == l.name;
        assert ChildLinked(d', p, c, l.name);
        FindPut<string, nat>(d.attributes, l.name, |d.heap|, l.name);
      }
    }
  }

  lemma ListingKept(d: Dict, st: State, l: Line, p: nat, c: nat)
    requires RefsOk(d, st) && ChildrenLinked(d)
    requires l.Attribute? && st.evsParent != Some(l.name) && ParseAttribute(d, st, l).Ok? && ListingsAgree(d, st, l)
    requires p < |ParseAttribute(d, st, l).value.0.heap| && c in ParseAttribute(d, st, l).value.0.heap[p].subs
    ensures var d' := ParseAttribute(d, st, l).value.0; ChildLinked(d', p, c, d'.heap[p].subs[c])
  {
    var d' := ParseAttribute(d, st, l).value.0;
    var name := d'.heap[p].subs[c];
    NewObject(d, st, l);
    NewObjectSubs(d, st, l, p);
    FindPut<string, nat>(d.attributes, l.name, |d.heap|, name);
    if p < |d.heap| && c in d.heap[p].subs && d.heap[p].subs[c] == name {
      assert ChildLinked(d, p, c, name);
    }
  }

  /** Along a file: no line names the open EVS parent, and every line agrees with the listings. */
  ghost predicate AllAgree(d: Dict, st: State, lines: seq<Line>)
    decreases |lines|
  {
    lines != [] ==>
      (lines[0].Attribute? && lines[0].codes != [] ==>
         st.evsParent != Some(lines[0].name) && ListingsAgree(d, st, lines[0]))
      && var next := Parse(d, st, lines[0]);
         next.Ok? ==> AllAgree(next.value.0, next.value.1, lines[1..])
  }

  lemma {:induction false} LoadingLinksChildren(d: Dict, st: State, lines: seq<Line>)
    requires RefsOk(d, st) && AllAgree(d, st, lines) && ParseAll(d, st, lines).Ok? && ChildrenLinked(d)
    ensures ChildrenLinked(ParseAll(d, st, lines).value.0)
    decreases |lines|
  {
    if lines != [] {
      var next := Parse(d, st, lines[0]).value;
      if lines[0].Attribute? {
        NewObject(d, st, lines[0]);
        KeepsChildrenExactly(d, st, lines[0]);
      }
      LoadingLinksChildren(next.0, next.1, lines[1..]);
    }
  }

  // --- The hypotheses are needed ------------------------------------------------------------------

  /** Inside an EVS block, walks stay finite exactly when the attribute is not named like the block's
      own parent: that one becomes its own parent. */
  lemma SelfParentExactly(d: Dict, st: State, l: Line)
    requires DictOk(d) && l.Attribute? && st.evsParent.Some? && ParseAttribute(d, st, l).Ok?
    ensures Grounded(ParseAttribute(d, st, l).value.0.heap) <==> l.name != st.evsParent.value
  {
    var d' := ParseAttribute(d, st, l).value.0;
    FindSound<string, nat>(d.attributes, st.evsParent.value);
    if l.name == st.evsParent.value {
      assert d'.heap[|d.heap|].parent == Some(|d.heap|);
    }
  }

  /** A container declared inside an EVS block is entered under the chain written in the file, but
      its walk leads through the marker: the table stays in step exactly when the two agree. */
  lemma EvsContainerExactly(d: Dict, st: State, l: Line)
    requires InStep(d, st) && l.Attribute? && Named(d.attributes, l.name).None? && l.kind.IsContainer()
    requires st.evsParent.Some? && ParseAttribute(d, st, l).Ok?
    ensures Named(d.attributes, st.evsParent.value).Some?
    ensures Named(d.attributes, st.evsParent.value).value < |d.heap|
    ensures var (d', st') := ParseAttribute(d, st, l).value;
            var marker := Named(d.attributes, st.evsParent.value).value;
            InStep(d', st') <==> l.codes == ChainOf(d.heap, marker) + [l.codes[|l.codes| - 1]]
  {
    FindSound<string, nat>(d.attributes, st.evsParent.value);
    PutIndex(d.attributes, l.name, |d.heap|);
    ParseInStepExactly(d, st, l);
  }

  /** Whatever comes second, loading in turn is loading as one. */
  ghost predicate AsOneWithAny(d: Dict, first: seq<Line>)
    requires DictOk(d)
  {
    Load(d, first).Ok? && DictOk(Load(d, first).value)
    && forall second :: Load(d, first + second) == Load(Load(d, first).value, second)
  }

  /** A line that tells an open block from a closed one. */
  lemma OpenBlockShows(mid: Dict, st: State) returns (second: seq<Line>)
    requires DictOk(mid) && !Closed(st)
    ensures Outcome(ParseAll(mid, st, second)) != Outcome(ParseAll(mid, Start(mid), second))
  {
    if st.vendor != "" {
      second := [EndVendor(st.vendor)];
      ParseOne(mid, st, second[0]);
      ParseOne(mid, Start(mid), second[0]);
    } else {
      var vendorLine, attributeLine := Vendor("", 0), Attribute("", [1], Leaf, None);
      var known := mid.(vendors := mid.vendors["" := 0]);
      second := [vendorLine] + [attributeLine];
      ParseAppend(mid, st, [vendorLine], [attributeLine]);
      ParseAppend(mid, Start(mid), [vendorLine], [attributeLine]);
      ParseOne(mid, st, vendorLine);
      ParseOne(mid, Start(mid), vendorLine);
      ParseOne(known, st, attributeLine);
      ParseOne(known, Start(mid), attributeLine);
      PlainAttribute(known, Start(mid), attributeLine);
      EvsAttribute(known, st, attributeLine);
    }
  }

  /** What is left of a parse when the file is closed. */
  function Outcome(r: Result<(Dict, State)>): Result<Dict> {
    match r case Err => Err case Ok(x) => Ok(x.0)
  }

  lemma {:induction false} NoEmptyChain(h: Heap, attributes: seq<(string, nat)>)
    requires Grounded(h) && forall i :: 0 <= i < |attributes| ==> attributes[i].1 < |h|
    ensures [] !in ExistingChains(h, attributes)
  {
    if attributes != [] {
      NoEmptyChain(h, attributes[..|attributes| - 1]);
      assert ChainOf(h, attributes[|attributes| - 1].1) != [];
    }
  }

  lemma {:induction false} ParseNoEmptyChain(d: Dict, st: State, lines: seq<Line>)
    requires [] !in st.tlvs && ParseAll(d, st, lines).Ok?
    ensures [] !in ParseAll(d, st, lines).value.1.tlvs
    decreases |lines|
  {
    if lines != [] {
      var next := Parse(d, st, lines[0]).value;
      ParseNoEmptyChain(next.0, next.1, lines[1..]);
    }
  }

  /** A sub-attribute of a chain on which two tables differ tells them apart. */
  lemma TableShows(mid: Dict, a: State, b: State, c: Chain) returns (second: seq<Line>)
    requires Closed(a) && Closed(b) && c != []
    requires c in a.tlvs && (c in b.tlvs ==> a.tlvs[c] != b.tlvs[c])
    ensures Outcome(ParseAll(mid, a, second)) != Outcome(ParseAll(mid, b, second))
  {
    var vendorLine, attributeLine := Vendor("", 0), Attribute("", c + [1], Leaf, None);
    var known := mid.(vendors := mid.vendors["" := 0]);
    second := [vendorLine] + [attributeLine];
    assert (c + [1])[..|c|] == c;
    ParseAppend(mid, a, [vendorLine], [attributeLine]);
    ParseAppend(mid, b, [vendorLine], [attributeLine]);
    ParseOne(mid, a, vendorLine);
    ParseOne(mid, b, vendorLine);
    ParseOne(known, a, attributeLine);
    ParseOne(known, b, attributeLine);
    SubAttribute(known, a, attributeLine, c);
    if c in b.tlvs { SubAttribute(known, b, attributeLine, c); }
  }

  lemma SubAttribute(d: Dict, st: State, l: Line, c: Chain)
    requires l.Attribute? && c != [] && l.codes == c + [1] && l.column.None? && Closed(st)
    requires "" in d.vendors && c in st.tlvs
    ensures Parse(d, st, l).Ok? && |Parse(d, st, l).value.0.heap| == |d.heap| + 1
    ensures Parse(d, st, l).value.0.heap[|d.heap|].parent == Some(st.tlvs[c])
  {
    assert l.codes[..|l.codes| - 1] == c;
  }

  lemma ParseOne(d: Dict, st: State, l: Line)
    ensures ParseAll(d, st, [l]) == Parse(d, st, l)
  {
    var one := [l];
    assert one[1..] == [];
  }

  lemma PlainAttribute(d: Dict, st: State, l: Line)
    requires l.Attribute? && l.codes == [1] && l.column.None?
    requires st.vendor == "" && st.evsParent.None? && "" in d.vendors
    ensures Parse(d, st, l).Ok? && |Parse(d, st, l).value.0.heap| == |d.heap| + 1
    ensures !Parse(d, st, l).value.0.heap[|d.heap|].isSub
  {
  }

  lemma EvsAttribute(d: Dict, st: State, l: Line)
    requires l.Attribute? && l.codes == [1] && st.evsParent.Some?
    ensures Parse(d, st, l).Ok? ==>
              |Parse(d, st, l).value.0.heap| == |d.heap| + 1 && Parse(d, st, l).value.0.heap[|d.heap|].isSub
  {
  }

  lemma StateShows(mid: Dict, st: State) returns (second: seq<Line>)
    requires DictOk(mid) && [] !in st.tlvs && st != Start(mid)
    ensures Outcome(ParseAll(mid, st, second)) != Outcome(ParseAll(mid, Start(mid), second))
  {
    if !Closed(st) {
      second := OpenBlockShows(mid, st);
    } else {
      NoEmptyChain(mid.heap, mid.attributes);
      var c, inFirst := TablesDiffer(st.tlvs, Start(mid).tlvs);
      if inFirst {
        second := TableShows(mid, st, Start(mid), c);
      } else {
        second := TableShows(mid, Start(mid), st, c);
      }
    }
  }

  lemma TablesDiffer(x: map<Chain, nat>, y: map<Chain, nat>) returns (c: Chain, inFirst: bool)
    requires x != y
    ensures if inFirst then c in x && (c in y ==> x[c] != y[c]) else c in y && (c in x ==> y[c] != x[c])
  {
    if i :| i in x && (i in y ==> x[i] != y[i]) {
      c, inFirst := i, true;
    } else {
      if forall i :: i in y ==> i in x { assert false; }
      c :| c in y && c !in x;
      inFirst := false;
    }
  }

  lemma LoadSplits(d: Dict, first: seq<Line>, second: seq<Line>)
    requires DictOk(d) && ParseAll(d, Start(d), first).Ok?
    ensures var (mid, st) := ParseAll(d, Start(d), first).value;
            Load(d, first) == Ok(mid) && Load(d, first + second) == Outcome(ParseAll(mid, st, second))
  {
    ParseAppend(d, Start(d), first, second);
  }

  /** Two files are their concatenation, whatever the second, exactly when at the end of the first all
      walks end, no vendor block is open, and the container table is the one rebuilt from the parent
      links. */
  lemma AsOneExactly(d: Dict, first: seq<Line>)
    requires DictOk(d) && ParseAll(d, Start(d), first).Ok?
    ensures var (mid, st) := ParseAll(d, Start(d), first).value;
            AsOneWithAny(d, first) <==>
            DictOk(mid) && Closed(st) && st.tlvs == ExistingChains(mid.heap, mid.attributes)
  {
    var (mid, st) := ParseAll(d, Start(d), first).value;
    LoadSplits(d, first, []);
    if DictOk(mid) {
      if st == Start(mid) {
        forall second ensures Load(d, first + second) == Load(mid, second) { LoadSplits(d, first, second); }
      } else {
        NoEmptyChain(d.heap, d.attributes);
        ParseNoEmptyChain(d, Start(d), first);
        var second := StateShows(mid, st);
        LoadSplits(d, first, second);
      }
    }
  }

  /** Tame files keep the table in step, so that only an open block tells them apart. */
  lemma TameAsOneExactly(d: Dict, first: seq<Line>)
    requires Loadable(d) && AllTame(d, Start(d), first) && ParseAll(d, Start(d), first).Ok?
    ensures AsOneWithAny(d, first) <==> Closed(ParseAll(d, Start(d), first).value.1)
  {
    ParseAllInStep(d, Start(d), first);
    AsOneExactly(d, first);
  }
}
