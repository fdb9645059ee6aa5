/** The dictionary object: the tables of `Dictionary`, updated line by line. */
module LoadingObject {
  import opened Wrappers
  import opened OrderedMaps
  import opened Loading

  /** The per-file state the parser methods share. */
  class FileState {
    var vendor: string
    var evsParent: Option<string>
    var tlvs: map<Chain, nat>

    constructor (tlvs: map<Chain, nat>)
      ensures Contents() == State("", None, tlvs)
    {
      this.vendor, this.evsParent, this.tlvs := "", None, tlvs;
    }

    ghost function Contents(): State
      reads this
    {
      State(vendor, evsParent, tlvs)
    }
  }

  class DictionaryObject {
    var heap: Heap
    var attributes: seq<(string, nat)>
    var forward: map<string, Chain>
    var backward: map<Chain, string>
    var vendors: map<string, nat>

    constructor ()
      ensures Contents() == EMPTY && Valid()
    {
      heap, attributes, forward, backward, vendors := [], [], map[], map[], map["" := 0];
    }

    ghost function Contents(): Dict
      reads this
    {
      Dict(heap, attributes, forward, backward, vendors)
    }

    /** References lead to objects. */
    ghost predicate Valid()
      reads this
    {
      && (forall i :: 0 <= i < |attributes| ==> attributes[i].1 < |heap|)
      && (forall i :: 0 <= i < |heap| && heap[i].parent.Some? ==> heap[i].parent.value < |heap|)
    }

    ghost predicate Agrees(st: FileState)
      reads this, st
    {
      Valid() && forall c :: c in st.tlvs ==> st.tlvs[c] < |heap|
    }

    /** The walk of `_existing_container_chains`: codes are collected upwards and reversed. */
    method WalkUp(id: nat) returns (chain: Chain)
      requires Grounded(heap) && id < |heap|
      ensures chain == ChainOf(heap, id)
    {
      chain := [];
      var cur: Option<nat> := Some(id);
      while cur.Some?
        invariant cur.Some? ==> cur.value < |heap| && ChainOf(heap, cur.value) + chain == ChainOf(heap, id)
        invariant cur.None? ==> chain == ChainOf(heap, id)
        decreases if cur.Some? then cur.value + 1 else 0
      {
        var here := heap[cur.value];
        ghost var above := if here.parent.Some? then ChainOf(heap, here.parent.value) else [];
        assert above + [here.code] + chain == above + ([here.code] + chain);
        chain := [here.code] + chain;
        cur := here.parent;
      }
    }

    /** `_existing_container_chains`. */
    method ContainerChains() returns (chains: map<Chain, nat>)
      requires DictOk(Contents())
      ensures chains == ExistingChains(heap, attributes)
    {
      chains := map[];
      for i := 0 to |attributes|
        invariant chains == ExistingChains(heap, attributes[..i])
      {
        assert attributes[..i + 1][..i] == attributes[..i];
        var id := attributes[i].1;
        if heap[id].kind.IsContainer() {
          var chain := WalkUp(id);
          chains := chains[chain := id];
        }
      }
      assert attributes[..|attributes|] == attributes;
    }

    /** The storage key of a new attribute. */
    method StorageKey(st: FileState, codes: Chain, vendor: string, ghost l: Line) returns (r: Result<Chain>)
      requires Agrees(st) && l.Attribute? && codes == l.codes != [] && vendor == VendorOf(st.Contents(), l)
      ensures r == KeyFor(Contents(), st.Contents(), l)
    {
      if vendor !in vendors { return Err; }
      if st.evsParent.Some? {
        var marker := Named(attributes, st.evsParent.value);
        if marker.None? { return Err; }
        FindSound<string, nat>(attributes, st.evsParent.value);
        var wrapper := heap[marker.value].parent;
        if wrapper.None? { return Err; }
        return Ok([heap[wrapper.value].code, heap[marker.value].code, vendors[vendor], codes[|codes| - 1]]);
      }
      if vendor != "" { return Ok([vendors[vendor]] + codes); }
      return Ok(codes);
    }

    /** `__parse_attribute`. */
    method DefineAttribute(st: FileState, name: string, codes: Chain, kind: Kind, column: Option<string>)
      returns (ok: bool)
      requires Agrees(st)
      modifies this, st`tlvs
      ensures Agrees(st)
      ensures (if ok then Ok((Contents(), st.Contents())) else Err) ==
              ParseAttribute(old(Contents()), old(st.Contents()), Attribute(name, codes, kind, column))
    {
      if codes == [] { return false; }
      ghost var l := Attribute(name, codes, kind, column);
      var vendor := if column.Some? then column.value else st.vendor;
      var key := StorageKey(st, codes, vendor, l);
      if key.Err? { return false; }
      var id := |heap|;
      var attr := Attr(name, codes[|codes| - 1], kind, vendor, st.evsParent.Some? || |codes| > 1, None, map[]);
      ghost var d0, s0 := Contents(), st.Contents();
      StoreAttribute(st, attr, key.value, codes);
      ok := LinkParent(st, id, codes, old(heap));
      assert ok <==> ParentFor(d0, s0, l).Ok?;
      if ok { assert heap == Grown(d0.heap, attr.(parent := ParentFor(d0, s0, l).value), s0.evsParent.Some?); }
    }

    /** The new object under its name, its key and, for a container, its chain. */
    method StoreAttribute(st: FileState, attr: Attr, key: Chain, codes: Chain)
      requires Agrees(st) && attr.parent.None? && codes != []
      modifies this`heap, this`attributes, this`forward, this`backward, st`tlvs
      ensures Agrees(st)
      ensures heap == old(heap) + [attr] && attributes == Put<string, nat>(old(attributes), attr.name, |old(heap)|)
      ensures forward == old(forward)[attr.name := key] && backward == old(backward)[key := attr.name]
      ensures st.tlvs == if attr.kind.IsContainer() then old(st.tlvs)[codes := |old(heap)|] else old(st.tlvs)
      ensures codes[..|codes| - 1] in st.tlvs <==> codes[..|codes| - 1] in old(st.tlvs)
      ensures codes[..|codes| - 1] in st.tlvs ==> st.tlvs[codes[..|codes| - 1]] == old(st.tlvs)[codes[..|codes| - 1]]
      ensures forall n ::
                Named(attributes, n) == if n == attr.name then Some(|old(heap)|) else Named(old(attributes), n)
    {
      var id := |heap|;
      forward, backward := forward[attr.name := key], backward[key := attr.name];
      ghost var before := attributes;
      PutEntries<string, nat>(attributes, attr.name, id);
      attributes := Put<string, nat>(attributes, attr.name, id);
      forall n ensures Named(attributes, n) == if n == attr.name then Some(id) else Named(before, n) {
        FindPut<string, nat>(before, attr.name, id, n);
      }
      heap := heap + [attr];
      assert |codes[..|codes| - 1]| != |codes|;
      if attr.kind.IsContainer() { st.tlvs := st.tlvs[codes := id]; }
    }

    /** The parent links of the object just added. */
    method LinkParent(st: FileState, id: nat, codes: Chain, ghost before: Heap) returns (ok: bool)
      requires Agrees(st) && codes != []
      requires st.evsParent.Some? ==> Named(attributes, st.evsParent.value).Some?
      requires |heap| == id + 1 && before == heap[..id]
      requires heap[id].parent == None && heap[id].code == codes[|codes| - 1]
      requires forall c :: c in st.tlvs && c != codes ==> st.tlvs[c] < id
      modifies this`heap
      ensures Agrees(st)
      ensures var above := codes[..|codes| - 1];
              && (ok <==> st.evsParent.Some? || above == [] || above in st.tlvs)
              && (ok ==>
                    var parent := if st.evsParent.Some? then Named(attributes, st.evsParent.value)
                                  else if above == [] then None else Some(st.tlvs[above]);
                    heap == Grown(before, old(heap)[id].(parent := parent), st.evsParent.Some?))
    {
      var above, code := codes[..|codes| - 1], codes[|codes| - 1];
      assert heap == before + [heap[id]];
      if st.evsParent.Some? {
        var parent := Named(attributes, st.evsParent.value).value;
        FindSound<string, nat>(attributes, st.evsParent.value);
        heap := heap[id := heap[id].(parent := Some(parent))];
        return true;
      }
      if |codes| > 1 {
        if above !in st.tlvs { return false; }
        assert |above| != |codes|;
        var parent := st.tlvs[above];
        heap := heap[parent := heap[parent].(subs := heap[parent].subs[code := heap[id].name])];
        heap := heap[id := heap[id].(parent := Some(parent))];
      }
      return true;
    }

    /** The vendor lines. */
    method DefineVendor(name: string, id: nat) returns (ok: bool)
      modifies this`vendors
      ensures ok <==> id <= 0xFFFFFF
      ensures vendors == if ok then old(vendors)[name := id] else old(vendors)
    {
      if id > 0xFFFFFF { return false; }
      vendors := vendors[name := id];
      return true;
    }

    method BeginBlock(st: FileState, block: string, evs: Option<string>) returns (ok: bool)
      requires Agrees(st)
      modifies st`vendor, st`evsParent
      ensures (if ok then Ok((Contents(), st.Contents())) else Err) ==
              ParseBegin(old(Contents()), old(st.Contents()), BeginVendor(block, evs))
    {
      if block !in vendors { return false; }
      if evs.Some? {
        var marker := Named(attributes, evs.value);
        if marker.None? { return false; }
        FindSound<string, nat>(attributes, evs.value);
        if !heap[marker.value].kind.EvsMarker? { return false; }
      }
      st.vendor, st.evsParent := block, evs;
      return true;
    }

    method EndBlock(st: FileState, block: string) returns (ok: bool)
      modifies st`vendor, st`evsParent
      ensures ok <==> old(st.vendor) == block
      ensures st.Contents() == if ok then old(st.Contents()).(vendor := "", evsParent := None) else old(st.Contents())
    {
      if st.vendor != block { return false; }
      st.vendor, st.evsParent := "", None;
      return true;
    }

    method ParseLine(st: FileState, line: Line) returns (ok: bool)
      requires Agrees(st)
      modifies this, st
      ensures Agrees(st)
      ensures (if ok then Ok((Contents(), st.Contents())) else Err) ==
              Parse(old(Contents()), old(st.Contents()), line)
    {
      match line
      case Attribute(name, codes, kind, column) => ok := DefineAttribute(st, name, codes, kind, column);
      case Vendor(name, id) => ok := DefineVendor(name, id);
      case BeginVendor(block, evs) => ok := BeginBlock(st, block, evs);
      case EndVendor(block) => ok := EndBlock(st, block);
      case Other => ok := true;
    }

    /** `read_dictionary`; not ok is ParseError. */
    method ReadDictionary(lines: seq<Line>) returns (ok: bool)
      requires Valid() && DictOk(Contents())
      modifies this
      ensures Valid()
      ensures (if ok then Ok(Contents()) else Err) == Load(old(Contents()), lines)
    {
      var chains := ContainerChains();
      var st := new FileState(chains);
      forall c | c in st.tlvs ensures st.tlvs[c] < |heap| { ChainsSound(heap, attributes, c); }
      assert lines[0..] == lines;
      for i := 0 to |lines|
        invariant Agrees(st) && fresh(st)
        invariant ParseAll(Contents(), st.Contents(), lines[i..]) ==
                  ParseAll(old(Contents()), Start(old(Contents())), lines)
      {
        assert lines[i..][1..] == lines[i + 1..];
        var fine := ParseLine(st, lines[i]);
        if !fine { return false; }
      }
      return true;
    }
  }
}
