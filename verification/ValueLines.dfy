/** VALUE lines: named values of attributes, put off to the end of the file when they come before the
    attribute they name. */
module ValueLines {
  import opened Wrappers

  type Octets = seq<int>

  /** Turning a value token into octets depends on the attribute's type and may fail. */
  type Encoder = (string, string) -> Result<Octets>

  datatype Line = Define(name: string, kind: string) | Value(attr: string, key: string, token: string)

  /** The types of the attributes known, and both directions of every attribute's value table. */
  datatype Tables = Tables(
    types: map<string, string>,
    forward: map<(string, string), Octets>,
    backward: map<(string, Octets), string>)

  /** One VALUE line for an attribute that is known. */
  function AddValue(enc: Encoder, t: Tables, l: Line): Result<Tables>
    requires l.Value? && l.attr in t.types
  {
    match enc(t.types[l.attr], l.token)
    case Err => Err
    case Ok(v) => Ok(t.(forward := t.forward[(l.attr, l.key) := v], backward := t.backward[(l.attr, v) := l.key]))
  }

  /** A new attribute object starts with empty tables. */
  function AddAttribute(t: Tables, l: Line): Tables
    requires l.Define?
  {
    Tables(
      t.types[l.name := l.kind],
      map p | p in t.forward && p.0 != l.name :: t.forward[p],
      map p | p in t.backward && p.0 != l.name :: t.backward[p])
  }

  /** The first pass: VALUE lines of unknown attributes are set aside. */
  function Scan(enc: Encoder, t: Tables, deferred: seq<Line>, lines: seq<Line>): Result<(Tables, seq<Line>)>
    decreases |lines|
  {
    if lines == [] then Ok((t, deferred))
    else
      var l := lines[0];
      if l.Define? then Scan(enc, AddAttribute(t, l), deferred, lines[1..])
      else if l.attr !in t.types then Scan(enc, t, deferred + [l], lines[1..])
      else
        match AddValue(enc, t, l)
        case Err => Err
        case Ok(t') => Scan(enc, t', deferred, lines[1..])
  }

  /** The second pass: what is still unknown is an error. */
  function Resolve(enc: Encoder, t: Tables, deferred: seq<Line>): Result<Tables>
    decreases |deferred|
  {
    if deferred == [] then Ok(t)
    else
      var l := deferred[0];
      if !l.Value? || l.attr !in t.types then Err
      else
        match AddValue(enc, t, l)
        case Err => Err
        case Ok(t') => Resolve(enc, t', deferred[1..])
  }

  function Load(enc: Encoder, t: Tables, lines: seq<Line>): Result<Tables> {
    match Scan(enc, t, [], lines)
    case Err => Err
    case Ok((t', deferred)) => Resolve(enc, t', deferred)
  }

  // --- When a file loads ------------------------------------------------------------------------

  /** The types known at the end of the file. */
  function FinalTypes(known: map<string, string>, lines: seq<Line>): map<string, string>
    decreases |lines|
  {
    if lines == [] then known
    else FinalTypes(if lines[0].Define? then known[lines[0].name := lines[0].kind] else known, lines[1..])
  }

  /** The attribute is among the types and takes the value. */
  predicate Takes(enc: Encoder, types: map<string, string>, l: Line) {
    l.Value? ==> l.attr in types && enc(types[l.attr], l.token).Ok?
  }

  predicate AllTake(enc: Encoder, types: map<string, string>, lines: seq<Line>) {
    forall i :: 0 <= i < |lines| ==> Takes(enc, types, lines[i])
  }

  /** Every VALUE line takes its value under the type its attribute has when the line is met, or, where
      there is none yet, has at the end. */
  predicate AllGood(enc: Encoder, known: map<string, string>, final: map<string, string>, lines: seq<Line>)
    decreases |lines|
  {
    lines != [] ==>
      var l := lines[0];
      if l.Define? then AllGood(enc, known[l.name := l.kind], final, lines[1..])
      else Takes(enc, if l.attr in known then known else final, l) && AllGood(enc, known, final, lines[1..])
  }

  predicate OnlyValues(lines: seq<Line>) {
    forall i :: 0 <= i < |lines| ==> lines[i].Value?
  }

  lemma TakeSplit(enc: Encoder, types: map<string, string>, lines: seq<Line>)
    requires lines != []
    ensures AllTake(enc, types, lines) <==> Takes(enc, types, lines[0]) && AllTake(enc, types, lines[1..])
  {
    assert forall i :: 0 <= i < |lines[1..]| ==> lines[1..][i] == lines[i + 1];
    if Takes(enc, types, lines[0]) && AllTake(enc, types, lines[1..]) {
      forall i | 0 <= i < |lines| ensures Takes(enc, types, lines[i]) {
        if i > 0 { assert lines[1..][i - 1] == lines[i]; }
      }
    }
  }

  lemma TakeAppend(enc: Encoder, types: map<string, string>, a: seq<Line>, l: Line)
    ensures AllTake(enc, types, a + [l]) <==> AllTake(enc, types, a) && Takes(enc, types, l)
  {
    assert (a + [l])[|a|] == l;
    assert forall i :: 0 <= i < |a| ==> (a + [l])[i] == a[i];
  }

  lemma {:induction false} ScanExact(enc: Encoder, t: Tables, deferred: seq<Line>, lines: seq<Line>)
    requires OnlyValues(deferred)
    ensures var final := FinalTypes(t.types, lines);
            var r := Scan(enc, t, deferred, lines);
            && (AllTake(enc, final, deferred) && AllGood(enc, t.types, final, lines) <==>
                  r.Ok? && AllTake(enc, final, r.value.1))
            && (r.Ok? ==> r.value.0.types == final && OnlyValues(r.value.1))
    decreases |lines|
  {
    if lines != [] {
      var l := lines[0];
      var final := FinalTypes(t.types, lines);
      if l.Define? {
        ScanExact(enc, AddAttribute(t, l), deferred, lines[1..]);
      } else if l.attr !in t.types {
        TakeAppend(enc, final, deferred, l);
        ScanExact(enc, t, deferred + [l], lines[1..]);
      } else {
        var r := AddValue(enc, t, l);
        if r.Ok? { ScanExact(enc, r.value, deferred, lines[1..]); }
      }
    }
  }

  lemma {:induction false} ResolveExact(enc: Encoder, t: Tables, deferred: seq<Line>)
    requires OnlyValues(deferred)
    ensures Resolve(enc, t, deferred).Ok? <==> AllTake(enc, t.types, deferred)
    ensures Resolve(enc, t, deferred).Ok? ==> Resolve(enc, t, deferred).value.types == t.types
    decreases |deferred|
  {
    if deferred != [] {
      assert forall i :: 0 <= i < |deferred[1..]| ==> deferred[1..][i] == deferred[i + 1];
      TakeSplit(enc, t.types, deferred);
      var l := deferred[0];
      if l.attr in t.types && AddValue(enc, t, l).Ok? {
        ResolveExact(enc, AddValue(enc, t, l).value, deferred[1..]);
      }
    }
  }

  /** A file loads exactly when every VALUE line names an attribute known by the end of the file whose
      type, at the line if it is known there and at the end otherwise, takes the value. */
  lemma LoadsExactly(enc: Encoder, t: Tables, lines: seq<Line>)
    ensures Load(enc, t, lines).Ok? <==> AllGood(enc, t.types, FinalTypes(t.types, lines), lines)
    ensures Load(enc, t, lines).Ok? ==> Load(enc, t, lines).value.types == FinalTypes(t.types, lines)
  {
    ScanExact(enc, t, [], lines);
    var r := Scan(enc, t, [], lines);
    if r.Ok? { ResolveExact(enc, r.value.0, r.value.1); }
  }

  /** Every attribute is defined once, and not before. */
  predicate Fresh(known: map<string, string>, lines: seq<Line>)
    decreases |lines|
  {
    lines != [] ==>
      if lines[0].Define?
      then lines[0].name !in known && Fresh(known[lines[0].name := lines[0].kind], lines[1..])
      else Fresh(known, lines[1..])
  }

  lemma {:induction false} TypesGrow(known: map<string, string>, lines: seq<Line>, a: string)
    requires Fresh(known, lines) && a in known
    ensures a in FinalTypes(known, lines) && FinalTypes(known, lines)[a] == known[a]
    decreases |lines|
  {
    if lines != [] {
      TypesGrow(if lines[0].Define? then known[lines[0].name := lines[0].kind] else known, lines[1..], a);
    }
  }

  /** Without redefinitions it does not matter where the lines stand. */
  lemma {:induction false} OrderIrrelevant(enc: Encoder, known: map<string, string>, lines: seq<Line>)
    requires Fresh(known, lines)
    ensures AllGood(enc, known, FinalTypes(known, lines), lines) <==> AllTake(enc, FinalTypes(known, lines), lines)
    decreases |lines|
  {
    if lines != [] {
      var l := lines[0];
      TakeSplit(enc, FinalTypes(known, lines), lines);
      if l.Value? && l.attr in known { TypesGrow(known, lines, l.attr); }
      OrderIrrelevant(enc, if l.Define? then known[l.name := l.kind] else known, lines[1..]);
    }
  }

  // --- What a name stands for ---------------------------------------------------------------------

  /** No VALUE line of the attribute uses the key. */
  predicate Silent(lines: seq<Line>, attr: string, key: string) {
    forall i :: 0 <= i < |lines| && lines[i].Value? ==> lines[i].attr != attr || lines[i].key != key
  }

  predicate Defines(lines: seq<Line>, attr: string) {
    exists i :: 0 <= i < |lines| && lines[i].Define? && lines[i].name == attr
  }

  function Meaning(t: Tables, attr: string, key: string): Option<Octets> {
    if (attr, key) in t.forward then Some(t.forward[(attr, key)]) else None
  }

  lemma SilentTail(lines: seq<Line>, attr: string, key: string)
    requires lines != []
    ensures Silent(lines, attr, key) ==> Silent(lines[1..], attr, key)
    ensures Defines(lines, attr) <==> (lines[0].Define? && lines[0].name == attr) || Defines(lines[1..], attr)
  {
    assert forall i :: 0 <= i < |lines[1..]| ==> lines[1..][i] == lines[i + 1];
    if Defines(lines, attr) {
      var i :| 0 <= i < |lines| && lines[i].Define? && lines[i].name == attr;
      if i > 0 { assert lines[1..][i - 1] == lines[i]; }
    }
    if Defines(lines[1..], attr) {
      var i :| 0 <= i < |lines[1..]| && lines[1..][i].Define? && lines[1..][i].name == attr;
      assert lines[i + 1] == lines[1..][i];
    }
  }

  lemma {:induction false} ResolveKeeps(enc: Encoder, t: Tables, deferred: seq<Line>, attr: string, key: string)
    requires Resolve(enc, t, deferred).Ok? && Silent(deferred, attr, key)
    ensures Meaning(Resolve(enc, t, deferred).value, attr, key) == Meaning(t, attr, key)
    decreases |deferred|
  {
    if deferred != [] {
      SilentTail(deferred, attr, key);
      ResolveKeeps(enc, AddValue(enc, t, deferred[0]).value, deferred[1..], attr, key);
    }
  }

  lemma {:induction false} ResolveAdds(enc: Encoder, t: Tables, deferred: seq<Line>, i: nat)
    requires Resolve(enc, t, deferred).Ok? && i < |deferred| && deferred[i].Value?
    requires Silent(deferred[i + 1..], deferred[i].attr, deferred[i].key)
    ensures var l, r := deferred[i], Resolve(enc, t, deferred).value;
            l.attr in t.types && enc(t.types[l.attr], l.token).Ok?
            && Meaning(r, l.attr, l.key) == Some(enc(t.types[l.attr], l.token).value)
    decreases |deferred|
  {
    var t' := AddValue(enc, t, deferred[0]).value;
    if i == 0 {
      ResolveKeeps(enc, t', deferred[1..], deferred[0].attr, deferred[0].key);
    } else {
      assert deferred[1..][i - 1] == deferred[i] && deferred[1..][i..] == deferred[i + 1..];
      ResolveAdds(enc, t', deferred[1..], i - 1);
    }
  }

  /** The rest of the file leaves the meaning of a name it does not give alone, unless it defines the
      attribute anew. */
  lemma {:induction false} ScanKeeps(enc: Encoder, t: Tables, deferred: seq<Line>, lines: seq<Line>, attr: string,
                                     key: string)
    requires Scan(enc, t, deferred, lines).Ok? && Silent(lines, attr, key)
    ensures var r := Scan(enc, t, deferred, lines).value;
            && deferred <= r.1 && Silent(r.1[|deferred|..], attr, key)
            && Meaning(r.0, attr, key) == if Defines(lines, attr) then None else Meaning(t, attr, key)
    decreases |lines|
  {
    if lines != [] {
      var l := lines[0];
      SilentTail(lines, attr, key);
      if l.Define? {
        ScanKeeps(enc, AddAttribute(t, l), deferred, lines[1..], attr, key);
      } else if l.attr !in t.types {
        ScanKeeps(enc, t, deferred + [l], lines[1..], attr, key);
        LongerPrefix(deferred, l, Scan(enc, t, deferred, lines).value.1, attr, key);
      } else {
        ScanKeeps(enc, AddValue(enc, t, l).value, deferred, lines[1..], attr, key);
      }
    }
  }

  lemma LongerPrefix(deferred: seq<Line>, l: Line, r: seq<Line>, attr: string, key: string)
    requires deferred + [l] <= r && Silent(r[|deferred| + 1..], attr, key)
    requires l.Value? ==> l.attr != attr || l.key != key
    ensures deferred <= r && Silent(r[|deferred|..], attr, key)
  {
    assert (deferred + [l])[|deferred|] == l && r[|deferred|] == l;
    assert deferred == (deferred + [l])[..|deferred|] == r[..|deferred|];
    assert r[|deferred|..] == [l] + r[|deferred| + 1..];
  }

  /** What the name means after loading: the value under the type at the line if the attribute is known
      there and not defined anew later, the value under the final type if it is not yet known, and
      nothing if it is known there and defined anew. */
  function Expected(enc: Encoder, known: map<string, string>, final: map<string, string>, l: Line, rest: seq<Line>):
      Option<Octets>
    requires l.Value?
  {
    if l.attr in known && Defines(rest, l.attr) then None
    else
      var types := if l.attr in known then known else final;
      if l.attr in types && enc(types[l.attr], l.token).Ok? then Some(enc(types[l.attr], l.token).value) else None
  }

  /** The types known when line `i` is met. */
  function TypesAt(known: map<string, string>, lines: seq<Line>, i: nat): map<string, string>
    requires i <= |lines|
  {
    FinalTypes(known, lines[..i])
  }

  /** A name given by one VALUE line of a file has exactly that meaning after loading, whether the line
      comes before or after the attribute. */
  lemma {:induction false} NameStands(enc: Encoder, t: Tables, deferred: seq<Line>, lines: seq<Line>, i: nat)
    requires OnlyValues(deferred)
    requires Scan(enc, t, deferred, lines).Ok? && i < |lines| && lines[i].Value?
    requires var l := lines[i];
             Silent(deferred, l.attr, l.key) && Silent(lines[..i], l.attr, l.key)
             && Silent(lines[i + 1..], l.attr, l.key)
    requires var s := Scan(enc, t, deferred, lines).value; Resolve(enc, s.0, s.1).Ok?
    ensures var s, l := Scan(enc, t, deferred, lines).value, lines[i];
            Meaning(Resolve(enc, s.0, s.1).value, l.attr, l.key) ==
            Expected(enc, TypesAt(t.types, lines, i), FinalTypes(t.types, lines), l, lines[i + 1..])
    decreases |lines|
  {
    var l, head := lines[i], lines[0];
    if i > 0 {
      assert lines[1..][i - 1] == l && lines[1..][..i - 1] == lines[..i][1..] && lines[1..][i..] == lines[i + 1..];
      assert lines[..i][0] == head;
      SilentTail(lines[..i], l.attr, l.key);
      if head.Define? {
        NameStands(enc, AddAttribute(t, head), deferred, lines[1..], i - 1);
      } else if head.attr !in t.types {
        TakeSilent(deferred, head, l.attr, l.key);
        NameStands(enc, t, deferred + [head], lines[1..], i - 1);
      } else {
        NameStands(enc, AddValue(enc, t, head).value, deferred, lines[1..], i - 1);
      }
    } else if l.attr !in t.types {
      DeferredStands(enc, t, deferred, lines);
    } else {
      KnownStands(enc, t, deferred, lines);
    }
  }

  lemma TakeSilent(deferred: seq<Line>, head: Line, attr: string, key: string)
    requires Silent(deferred, attr, key) && (head.Value? ==> head.attr != attr || head.key != key)
    ensures Silent(deferred + [head], attr, key)
  {
  }

  lemma DeferredStands(enc: Encoder, t: Tables, deferred: seq<Line>, lines: seq<Line>)
    requires OnlyValues(deferred)
    requires Scan(enc, t, deferred, lines).Ok? && lines != [] && lines[0].Value? && lines[0].attr !in t.types
    requires Silent(lines[1..], lines[0].attr, lines[0].key)
    requires var s := Scan(enc, t, deferred, lines).value; Resolve(enc, s.0, s.1).Ok?
    ensures var s, l := Scan(enc, t, deferred, lines).value, lines[0];
            Meaning(Resolve(enc, s.0, s.1).value, l.attr, l.key) ==
            Expected(enc, t.types, FinalTypes(t.types, lines), l, lines[1..])
  {
    var l := lines[0];
    var s := Scan(enc, t, deferred, lines).value;
    ScanExact(enc, t, deferred, lines);
    ScanKeeps(enc, t, deferred + [l], lines[1..], l.attr, l.key);
    var n := |deferred|;
    assert s.1[n] == (deferred + [l])[n] == l;
    ResolveAdds(enc, s.0, s.1, n);
  }

  lemma KnownStands(enc: Encoder, t: Tables, deferred: seq<Line>, lines: seq<Line>)
    requires OnlyValues(deferred)
    requires Scan(enc, t, deferred, lines).Ok? && lines != [] && lines[0].Value? && lines[0].attr in t.types
    requires Silent(deferred, lines[0].attr, lines[0].key) && Silent(lines[1..], lines[0].attr, lines[0].key)
    requires var s := Scan(enc, t, deferred, lines).value; Resolve(enc, s.0, s.1).Ok?
    ensures var s, l := Scan(enc, t, deferred, lines).value, lines[0];
            Meaning(Resolve(enc, s.0, s.1).value, l.attr, l.key) ==
            Expected(enc, t.types, FinalTypes(t.types, lines), l, lines[1..])
  {
    var l := lines[0];
    var t' := AddValue(enc, t, l).value;
    var s := Scan(enc, t, deferred, lines).value;
    ScanKeeps(enc, t', deferred, lines[1..], l.attr, l.key);
    assert Silent(s.1, l.attr, l.key) by {
      forall k | 0 <= k < |s.1| && s.1[k].Value? ensures s.1[k].attr != l.attr || s.1[k].key != l.key {
        if k < |deferred| { assert s.1[k] == deferred[k]; } else { assert s.1[k] == s.1[|deferred|..][k - |deferred|]; }
      }
    }
    ResolveKeeps(enc, s.0, s.1, l.attr, l.key);
  }

  // --- Two files ----------------------------------------------------------------------------------

  lemma {:induction false} ScanAppend(enc: Encoder, t: Tables, deferred: seq<Line>, a: seq<Line>, b: seq<Line>)
    ensures Scan(enc, t, deferred, a + b) ==
            (match Scan(enc, t, deferred, a) case Err => Err case Ok(mid) => Scan(enc, mid.0, mid.1, b))
    decreases |a|
  {
    if a == [] {
      assert a + b == b;
    } else {
      var l := a[0];
      assert (a + b)[0] == l && (a + b)[1..] == a[1..] + b;
      if l.Define? {
        ScanAppend(enc, AddAttribute(t, l), deferred, a[1..], b);
      } else if l.attr !in t.types {
        ScanAppend(enc, t, deferred + [l], a[1..], b);
      } else if AddValue(enc, t, l).Ok? {
        ScanAppend(enc, AddValue(enc, t, l).value, deferred, a[1..], b);
      }
    }
  }

  lemma {:induction false} ResolveGrows(enc: Encoder, t: Tables, deferred: seq<Line>, p: (string, string))
    requires p in t.forward && Resolve(enc, t, deferred).Ok?
    ensures p in Resolve(enc, t, deferred).value.forward
    decreases |deferred|
  {
    if deferred != [] { ResolveGrows(enc, AddValue(enc, t, deferred[0]).value, deferred[1..], p); }
  }

  /** The file can be put in front of any other. */
  ghost predicate AsOneWithAny(enc: Encoder, t: Tables, a: seq<Line>)
    requires Load(enc, t, a).Ok?
  {
    forall b :: Load(enc, t, a + b) == Load(enc, Load(enc, t, a).value, b)
  }

  lemma ScanOne(enc: Encoder, t: Tables, deferred: seq<Line>, l: Line)
    requires l.Define?
    ensures Scan(enc, t, deferred, [l]) == Ok((AddAttribute(t, l), deferred))
  {
    assert [l][1..] == [];
  }

  /** A file that redefines the attribute of a line put off loses the value when it is loaded next, and
      keeps it when it is part of the same file. */
  lemma RedefinitionTells(enc: Encoder, t: Tables, a: seq<Line>) returns (b: seq<Line>)
    requires Load(enc, t, a).Ok? && Scan(enc, t, [], a).value.1 != []
    ensures Load(enc, t, a + b) != Load(enc, Load(enc, t, a).value, b)
  {
    var (mid, deferred) := Scan(enc, t, [], a).value;
    var l := deferred[0];
    var again := Define(l.attr, mid.types[l.attr]);
    b := [again];
    ScanAppend(enc, t, [], a, b);
    ScanOne(enc, mid, deferred, again);
    ScanOne(enc, Load(enc, t, a).value, [], again);
    assert (l.attr, l.key) !in Load(enc, Load(enc, t, a).value, b).value.forward;
    if Load(enc, t, a + b).Ok? {
      ResolveGrows(enc, AddValue(enc, AddAttribute(mid, again), l).value, deferred[1..], (l.attr, l.key));
    }
  }

  /** A file that loads and any file after it are their concatenation exactly when the first puts
      nothing off. */
  lemma ValueFilesAreOne(enc: Encoder, t: Tables, a: seq<Line>)
    requires Load(enc, t, a).Ok?
    ensures AsOneWithAny(enc, t, a) <==> Scan(enc, t, [], a).value.1 == []
  {
    if Scan(enc, t, [], a).value.1 == [] {
      forall b ensures Load(enc, t, a + b) == Load(enc, Load(enc, t, a).value, b) { ScanAppend(enc, t, [], a, b); }
    } else {
      var b := RedefinitionTells(enc, t, a);
    }
  }

  // --- The loops ----------------------------------------------------------------------------------

  class ValueTables {
    var tables: Tables
    var deferParse: seq<Line>

    constructor ()
      ensures tables == Tables(map[], map[], map[]) && deferParse == []
    {
      tables, deferParse := Tables(map[], map[], map[]), [];
    }

    /** `__parse_value`: an unknown attribute is put off or refused. */
    method ParseValue(enc: Encoder, l: Line, defer: bool) returns (ok: bool)
      requires l.Value?
      modifies this
      ensures old(l.attr !in tables.types) ==>
                ok == defer && tables == old(tables)
                && deferParse == if defer then old(deferParse) + [l] else old(deferParse)
      ensures old(l.attr in tables.types) ==>
                deferParse == old(deferParse)
                && (if ok then Ok(tables) else Err) == AddValue(enc, old(tables), l)
    {
      if l.attr !in tables.types {
        if defer { deferParse := deferParse + [l]; }
        return defer;
      }
      var value := enc(tables.types[l.attr], l.token);
      if value.Err? { return false; }
      tables := tables.(forward := tables.forward[(l.attr, l.key) := value.value],
                        backward := tables.backward[(l.attr, value.value) := l.key]);
      return true;
    }

    /** The two passes of `read_dictionary`. */
    method Read(enc: Encoder, lines: seq<Line>) returns (ok: bool)
      modifies this
      ensures (if ok then Ok(tables) else Err) == Load(enc, old(tables), lines)
      ensures ok ==> deferParse == []
    {
      deferParse := [];
      ghost var start := tables;
      assert lines[0..] == lines;
      for i := 0 to |lines|
        invariant Scan(enc, tables, deferParse, lines[i..]) == Scan(enc, start, [], lines)
        invariant OnlyValues(deferParse)
      {
        assert lines[i..][1..] == lines[i + 1..];
        if lines[i].Define? {
          tables := AddAttribute(tables, lines[i]);
        } else {
          var fine := ParseValue(enc, lines[i], true);
          if !fine { return false; }
        }
      }
      var waiting := deferParse;
      ghost var scanned := tables;
      assert waiting[0..] == waiting;
      for i := 0 to |waiting|
        invariant OnlyValues(waiting) && deferParse == waiting
        invariant Resolve(enc, tables, waiting[i..]) == Resolve(enc, scanned, waiting)
      {
        assert waiting[i..][1..] == waiting[i + 1..];
        var fine := ParseValue(enc, waiting[i], false);
        if !fine { return false; }
      }
      deferParse := [];
      return true;
    }
  }
}
