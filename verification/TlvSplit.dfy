/** A top-level TLV map is emitted in rounds, one instance of every sub-attribute per round, and
    the rounds are packed greedily into as many attributes as needed. */
module TlvSplit {
  import opened Wrappers
  import opened Bytes
  import opened OrderedMaps
  import opened Dictionaries
  import opened Wire
  import opened Trees

  /** A nested map counts as one instance. */
  function Instances(s: Stored): nat {
    match s case Values(vs) => |vs| case Node(_) => 1
  }

  function MaxInstances(m: Tree): (n: nat)
    ensures forall j :: 0 <= j < |m| ==> Instances(m[j].1) <= n
  {
    if m == [] then 0
    else
      var rest := MaxInstances(m[1..]);
      assert forall j :: 1 <= j < |m| ==> m[1..][j - 1] == m[j];
      if Instances(m[0].1) > rest then Instances(m[0].1) else rest
  }

  function InstanceAvps(code: byte, s: Stored, i: nat): (r: seq<Avp>)
    requires EntryFits(s)
    ensures AllFit(r)
  {
    match s
    case Values(vs) => if i < |vs| then [Avp(code, vs[i])] else []
    case Node(items) => if i == 0 then [Avp(code, EncodeChain(items))] else []
  }

  function Round(m: Tree, i: nat): (r: seq<Avp>)
    requires ChainFits(m)
    ensures AllFit(r)
  {
    if m == [] then [] else InstanceAvps(m[0].0, m[0].1, i) + Round(m[1..], i)
  }

  /** Encoding succeeds exactly when the map has an entry, every element fits its length octet,
      and no round is longer than one attribute can carry. */
  predicate TlvFits(m: Tree, cap: nat) {
    m != [] && ChainFits(m) && RoundsWithin(m, 0, MaxInstances(m), cap)
  }

  /** Rounds `i` to `n - 1` packed behind `curr`. */
  function Cut(m: Tree, i: nat, n: nat, curr: seq<Avp>): (r: seq<seq<Avp>>)
    requires ChainFits(m) && AllFit(curr) && i <= n
    ensures r != [] && forall k :: 0 <= k < |r| ==> AllFit(r[k])
    decreases n - i
  {
    if i == n then [curr]
    else if Size(Round(m, i)) + Size(curr) < 245 then Cut(m, i + 1, n, curr + Round(m, i))
    else [curr] + Cut(m, i + 1, n, Round(m, i))
  }

  function Pieces(m: Tree): seq<seq<Avp>>
    requires ChainFits(m)
  {
    Cut(m, 0, MaxInstances(m), [])
  }

  function Longest(pieces: seq<seq<Avp>>): nat {
    if pieces == [] then 0
    else
      var rest := Longest(pieces[1..]);
      if Size(pieces[0]) > rest then Size(pieces[0]) else rest
  }

  predicate RoundsWithin(m: Tree, i: nat, n: nat, cap: nat)
    requires ChainFits(m)
  {
    forall k :: i <= k < n ==> Size(Round(m, k)) <= cap
  }

  lemma LongestCons(piece: seq<Avp>, rest: seq<seq<Avp>>, cap: nat)
    ensures Longest([piece] + rest) <= cap <==> Size(piece) <= cap && Longest(rest) <= cap
  {
    assert ([piece] + rest)[1..] == rest;
  }

  lemma RoundsFrom(m: Tree, i: nat, n: nat, cap: nat)
    requires ChainFits(m) && i < n
    ensures RoundsWithin(m, i, n, cap) <==> Size(Round(m, i)) <= cap && RoundsWithin(m, i + 1, n, cap)
  {
  }

  lemma CutTurn(m: Tree, i: nat, n: nat, curr: seq<Avp>)
    requires ChainFits(m) && AllFit(curr) && i < n
    ensures Cut(m, i, n, curr) ==
            if Size(Round(m, i)) + Size(curr) < 245 then Cut(m, i + 1, n, curr + Round(m, i))
            else [curr] + Cut(m, i + 1, n, Round(m, i))
  {
  }

  /** The greedy cut produces an over-long attribute exactly when a single round is over-long. */
  lemma {:induction false} CutExact(m: Tree, i: nat, n: nat, curr: seq<Avp>, cap: nat)
    requires ChainFits(m) && AllFit(curr) && i <= n && cap >= 244
    ensures Longest(Cut(m, i, n, curr)) <= cap <==> Size(curr) <= cap && RoundsWithin(m, i, n, cap)
    decreases n - i
  {
    if i == n {
      LongestCons(curr, [], cap);
      assert [curr] + [] == [curr];
    } else {
      var round := Round(m, i);
      RoundsFrom(m, i, n, cap);
      CutTurn(m, i, n, curr);
      if Size(round) + Size(curr) < 245 {
        SizeAppend(curr, round);
        CutExact(m, i + 1, n, curr + round, cap);
      } else {
        CutExact(m, i + 1, n, round, cap);
        LongestCons(curr, Cut(m, i + 1, n, round), cap);
      }
    }
  }

  // --- Merging on receipt -------------------------------------------------------------------

  /** The decoder's view: each attribute's value is parsed into the same map. */
  function Merge(d: Dictionary, parent: Option<Attribute>, target: Tree, pieces: seq<seq<Avp>>): Tree
    requires forall k :: 0 <= k < |pieces| ==> AllFit(pieces[k])
    decreases |pieces|
  {
    if pieces == [] then target
    else Merge(d, parent, DecodeChain(d, parent, target, Flatten(pieces[0])), pieces[1..])
  }

  /** The map after `i` rounds: every list cut to its first `i` values. */
  function Trunc(m: Tree, i: nat): (r: Tree)
    ensures |r| == |m|
  {
    seq(|m|, j requires 0 <= j < |m| => (m[j].0, TruncEntry(m[j].1, i)))
  }

  function TruncEntry(s: Stored, i: nat): Stored {
    match s
    case Values(vs) => Values(if i < |vs| then vs[..i] else vs)
    case Node(_) => s
  }

  lemma {:induction false} FirstInstance(d: Dictionary, parent: Option<Attribute>, a: Tree, code: byte, s: Stored)
    requires !Has(a, code) && EntryFits(s)
    requires s.Node? <==> d.IsNested(parent, code)
    requires s.Node? ==> Shaped(d, d.Child(parent, code), s.items) && Full(s.items)
    requires s.Values? ==> s.vals != []
    ensures AbsorbAll(d, parent, a, InstanceAvps(code, s, 0)) == a + [(code, TruncEntry(s, 1))]
  {
    if s.Values? {
      var single := Values([s.vals[0]]);
      assert EntryAvps(code, single) == InstanceAvps(code, s, 0);
      AbsorbEntry(d, parent, a, code, single);
      assert s.vals[..1] == [s.vals[0]] && (|s.vals| == 1 ==> s.vals == [s.vals[0]]);
    } else {
      AbsorbEntry(d, parent, a, code, s);
    }
  }

  lemma {:induction false} ApartStep(a: Tree, now: (byte, Stored), m: Tree)
    requires m != [] && Distinct(m) && Apart(a, m) && now.0 == m[0].0
    ensures Apart(a + [now], m[1..])
  {
    forall i | 0 <= i < |m[1..]| ensures !Has(a + [now], m[1..][i].0) {
      FindAppend(a, [now], m[1..][i].0);
      assert m[1..][i] == m[i + 1];
    }
  }

  /** Round 0 creates every entry, in map order. */
  lemma {:induction false} FirstRound(d: Dictionary, parent: Option<Attribute>, a: Tree, m: Tree)
    requires Shaped(d, parent, m) && Full(m) && ChainFits(m) && Apart(a, m)
    ensures AbsorbAll(d, parent, a, Round(m, 0)) == a + Trunc(m, 1)
    decreases |m|
  {
    if m == [] {
      assert a + Trunc(m, 1) == a;
    } else {
      var (code, s) := m[0];
      var now := (code, TruncEntry(s, 1));
      AbsorbAppend(d, parent, a, InstanceAvps(code, s, 0), Round(m[1..], 0));
      FirstInstance(d, parent, a, code, s);
      ApartStep(a, now, m);
      TailShaped(d, parent, m);
      FirstRound(d, parent, a + [now], m[1..]);
      TruncHead(a, m, 1);
    }
  }

  /** The first entry of a truncated map, behind what is there already. */
  lemma TruncHead(a: Tree, m: Tree, i: nat)
    requires m != []
    ensures a + Trunc(m, i) == a + [(m[0].0, TruncEntry(m[0].1, i))] + Trunc(m[1..], i)
  {
  }

  lemma TailShaped(d: Dictionary, parent: Option<Attribute>, m: Tree)
    requires m != [] && Shaped(d, parent, m) && Full(m) && ChainFits(m)
    ensures Shaped(d, parent, m[1..]) && Full(m[1..]) && ChainFits(m[1..])
  {
    assert forall i :: 0 <= i < |m[1..]| ==> m[1..][i] == m[i + 1];
  }

  lemma {:induction false} LaterInstance(d: Dictionary, parent: Option<Attribute>, a: Tree, code: byte, s: Stored,
                                         i: nat, b: Tree)
    requires i >= 1 && !Has(a, code) && EntryFits(s)
    requires s.Node? <==> d.IsNested(parent, code)
    ensures AbsorbAll(d, parent, a + [(code, TruncEntry(s, i))] + b, InstanceAvps(code, s, i)) ==
            a + [(code, TruncEntry(s, i + 1))] + b
  {
    if s.Values? && i < |s.vals| {
      assert s.vals[..i] + [s.vals[i]] == s.vals[..i + 1];
      assert i + 1 == |s.vals| ==> s.vals[..i + 1] == s.vals;
      assert ValueAvps(code, [s.vals[i]]) == InstanceAvps(code, s, i);
      AbsorbValues(d, parent, a, code, s.vals[..i], [s.vals[i]], b);
    }
  }

  /** Round `i` starts with the first entry. */
  lemma LaterHead(d: Dictionary, parent: Option<Attribute>, a: Tree, m: Tree, i: nat)
    requires i >= 1 && m != [] && Shaped(d, parent, m) && ChainFits(m) && Apart(a, m)
    ensures Shaped(d, parent, m[1..]) && ChainFits(m[1..])
    ensures AbsorbAll(d, parent, a + Trunc(m, i), Round(m, i)) ==
            AbsorbAll(d, parent, a + [(m[0].0, TruncEntry(m[0].1, i + 1))] + Trunc(m[1..], i), Round(m[1..], i))
  {
    var (code, s) := m[0];
    var tail := Trunc(m[1..], i);
    TruncHead(a, m, i);
    AbsorbAppend(d, parent, a + Trunc(m, i), InstanceAvps(code, s, i), Round(m[1..], i));
    LaterInstance(d, parent, a, code, s, i, tail);
  }

  /** Behind `a`, round `i` takes every list from its first `i` values to its first `i + 1`. */
  predicate RoundDone(d: Dictionary, parent: Option<Attribute>, a: Tree, m: Tree, i: nat)
    requires ChainFits(m)
  {
    AbsorbAll(d, parent, a + Trunc(m, i), Round(m, i)) == a + Trunc(m, i + 1)
  }

  lemma LaterStep(d: Dictionary, parent: Option<Attribute>, a: Tree, m: Tree, i: nat)
    requires m != [] && ChainFits(m) && ChainFits(m[1..])
    requires var after := a + [(m[0].0, TruncEntry(m[0].1, i + 1))];
             && AbsorbAll(d, parent, a + Trunc(m, i), Round(m, i)) ==
                AbsorbAll(d, parent, after + Trunc(m[1..], i), Round(m[1..], i))
             && RoundDone(d, parent, after, m[1..], i)
    ensures RoundDone(d, parent, a, m, i)
  {
    TruncHead(a, m, i + 1);
  }

  /** Round `i` appends the i-th value of every list that long. */
  lemma {:induction false} LaterRound(d: Dictionary, parent: Option<Attribute>, a: Tree, m: Tree, i: nat)
    requires i >= 1 && Shaped(d, parent, m) && Full(m) && ChainFits(m) && Apart(a, m)
    ensures RoundDone(d, parent, a, m, i)
    decreases |m|
  {
    if m != [] {
      var after := (m[0].0, TruncEntry(m[0].1, i + 1));
      ApartStep(a, after, m);
      TailShaped(d, parent, m);
      LaterRound(d, parent, a + [after], m[1..], i);
      LaterHead(d, parent, a, m, i);
      LaterStep(d, parent, a, m, i);
    }
  }

  function Progress(m: Tree, i: nat): Tree {
    if i == 0 then [] else Trunc(m, i)
  }

  lemma RoundProgress(d: Dictionary, parent: Option<Attribute>, m: Tree, i: nat)
    requires Shaped(d, parent, m) && Full(m) && ChainFits(m)
    ensures AbsorbAll(d, parent, Progress(m, i), Round(m, i)) == Progress(m, i + 1)
  {
    if i == 0 {
      FirstRound(d, parent, [], m);
      assert [] + Trunc(m, 1) == Trunc(m, 1);
    } else {
      LaterRound(d, parent, [], m, i);
      assert [] + Trunc(m, i) == Trunc(m, i) && [] + Trunc(m, i + 1) == Trunc(m, i + 1);
    }
  }

  /** The pieces of rounds `i` on, packed behind `curr`, complete the map. */
  predicate Completes(d: Dictionary, parent: Option<Attribute>, m: Tree, i: nat, n: nat, curr: seq<Avp>, target: Tree)
    requires ChainFits(m) && AllFit(curr) && i <= n
  {
    Merge(d, parent, target, Cut(m, i, n, curr)) == Progress(m, n)
  }

  lemma CutKept(d: Dictionary, parent: Option<Attribute>, m: Tree, i: nat, n: nat, curr: seq<Avp>, target: Tree)
    requires ChainFits(m) && AllFit(curr) && i < n && Size(Round(m, i)) + Size(curr) < 245
    requires Completes(d, parent, m, i + 1, n, curr + Round(m, i), target)
    ensures Completes(d, parent, m, i, n, curr, target)
  {
  }

  lemma CutFlushed(d: Dictionary, parent: Option<Attribute>, m: Tree, i: nat, n: nat, curr: seq<Avp>, target: Tree)
    requires ChainFits(m) && AllFit(curr) && i < n && Size(Round(m, i)) + Size(curr) >= 245
    requires Completes(d, parent, m, i + 1, n, Round(m, i), AbsorbAll(d, parent, target, curr))
    ensures Completes(d, parent, m, i, n, curr, target)
  {
    MergeStep(d, parent, target, curr, Cut(m, i + 1, n, Round(m, i)));
  }

  lemma CutEnds(d: Dictionary, parent: Option<Attribute>, m: Tree, n: nat, curr: seq<Avp>, target: Tree)
    requires ChainFits(m) && AllFit(curr) && AbsorbAll(d, parent, target, curr) == Progress(m, n)
    ensures Completes(d, parent, m, n, n, curr, target)
  {
    MergeStep(d, parent, target, curr, []);
    assert [curr] + [] == [curr];
  }

  lemma RoundsJoin(d: Dictionary, parent: Option<Attribute>, m: Tree, i: nat, curr: seq<Avp>, round: seq<Avp>,
                   target: Tree)
    requires AbsorbAll(d, parent, target, curr) == Progress(m, i)
    requires AbsorbAll(d, parent, Progress(m, i), round) == Progress(m, i + 1)
    ensures AbsorbAll(d, parent, target, curr + round) == Progress(m, i + 1)
  {
    AbsorbAppend(d, parent, target, curr, round);
  }

  /** What the receiver has before round `i`, the piece under construction absorbed. */
  predicate Reached(d: Dictionary, parent: Option<Attribute>, m: Tree, i: nat, curr: seq<Avp>, target: Tree) {
    AbsorbAll(d, parent, target, curr) == Progress(m, i)
  }

  predicate Splittable(d: Dictionary, parent: Option<Attribute>, m: Tree) {
    Shaped(d, parent, m) && Full(m) && ChainFits(m)
  }

  lemma KeptReaches(d: Dictionary, parent: Option<Attribute>, m: Tree, i: nat, curr: seq<Avp>, target: Tree)
    requires Splittable(d, parent, m) && AllFit(curr) && Reached(d, parent, m, i, curr, target)
    ensures AllFit(curr + Round(m, i)) && Reached(d, parent, m, i + 1, curr + Round(m, i), target)
  {
    RoundProgress(d, parent, m, i);
    RoundsJoin(d, parent, m, i, curr, Round(m, i), target);
  }

  lemma {:induction false} MergeKept(d: Dictionary, parent: Option<Attribute>, m: Tree, i: nat, n: nat,
                                     curr: seq<Avp>, target: Tree)
    requires Splittable(d, parent, m) && AllFit(curr) && i < n && Reached(d, parent, m, i, curr, target)
    requires Size(Round(m, i)) + Size(curr) < 245
    ensures Completes(d, parent, m, i, n, curr, target)
    decreases n - i, 0
  {
    KeptReaches(d, parent, m, i, curr, target);
    MergeCut(d, parent, m, i + 1, n, curr + Round(m, i), target);
    CutKept(d, parent, m, i, n, curr, target);
  }

  lemma {:induction false} MergeFlushed(d: Dictionary, parent: Option<Attribute>, m: Tree, i: nat, n: nat,
                                        curr: seq<Avp>, target: Tree)
    requires Splittable(d, parent, m) && AllFit(curr) && i < n && Reached(d, parent, m, i, curr, target)
    requires Size(Round(m, i)) + Size(curr) >= 245
    ensures Completes(d, parent, m, i, n, curr, target)
    decreases n - i, 0
  {
    RoundProgress(d, parent, m, i);
    MergeCut(d, parent, m, i + 1, n, Round(m, i), Progress(m, i));
    CutFlushed(d, parent, m, i, n, curr, target);
  }

  /** The receiver who has absorbed what went before gets the whole map from the pieces that follow. */
  lemma {:induction false} MergeCut(d: Dictionary, parent: Option<Attribute>, m: Tree, i: nat, n: nat,
                                    curr: seq<Avp>, target: Tree)
    requires Splittable(d, parent, m) && AllFit(curr) && i <= n && Reached(d, parent, m, i, curr, target)
    ensures Completes(d, parent, m, i, n, curr, target)
    decreases n - i, 1
  {
    if i == n {
      CutEnds(d, parent, m, n, curr, target);
    } else if Size(Round(m, i)) + Size(curr) < 245 {
      MergeKept(d, parent, m, i, n, curr, target);
    } else {
      MergeFlushed(d, parent, m, i, n, curr, target);
    }
  }

  lemma MergeStep(d: Dictionary, parent: Option<Attribute>, target: Tree, piece: seq<Avp>, rest: seq<seq<Avp>>)
    requires AllFit(piece) && forall k :: 0 <= k < |rest| ==> AllFit(rest[k])
    ensures forall k :: 0 <= k < |[piece] + rest| ==> AllFit(([piece] + rest)[k])
    ensures Merge(d, parent, target, [piece] + rest) ==
            Merge(d, parent, AbsorbAll(d, parent, target, piece), rest)
  {
    DecodeChainOfFlatten(d, parent, target, piece);
    assert ([piece] + rest)[1..] == rest;
  }

  /** However the rounds were cut, and even when the first piece is empty, parsing the pieces one
      after another gives the map that was encoded: same codes, same order, same value lists. */
  lemma {:induction false} SplitThenMerge(d: Dictionary, parent: Option<Attribute>, m: Tree)
    requires m != [] && Shaped(d, parent, m) && Full(m) && ChainFits(m)
    ensures Merge(d, parent, [], Pieces(m)) == m
  {
    var n := MaxInstances(m);
    assert Instances(m[0].1) >= 1;
    MergeCut(d, parent, m, 0, n, [], []);
    forall j | 0 <= j < |m| ensures Trunc(m, n)[j] == m[j] {
      assert Instances(m[j].1) <= n;
      assert m[j].1.Values? && n == |m[j].1.vals| ==> m[j].1.vals[..n] == m[j].1.vals;
    }
  }
}
