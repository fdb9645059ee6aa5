/** The two passes after decoding, against the two transformations before encoding: exactly which
    lists of a concat or array attribute survive. */
module Finishing {
  import opened Wrappers
  import opened Bytes
  import opened Dictionaries
  import opened Trees
  import opened Decoding
  import opened Encoding

  /** A value the array splitter leaves alone. */
  predicate Unsplit(v: bytes, size: nat)
    requires size >= 1
  {
    v == [] || |v| % size != 0 || |v| == size
  }

  predicate AllUnsplit(vals: seq<bytes>, size: nat)
    requires size >= 1
  {
    forall i :: 0 <= i < |vals| ==> Unsplit(vals[i], size)
  }

  predicate AllOfSize(vals: seq<bytes>, size: nat) {
    forall i :: 0 <= i < |vals| ==> |vals[i]| == size
  }

  function SizeOf(d: Dictionary, key: Key): (size: Option<nat>)
    ensures size.Some? ==> size.value >= 1
  {
    if d.IsArray(key) then ArraySize(d.AttrOf(key).value.kind) else None
  }

  /** The values of a list as they arrive: EVS values are neither packed nor chunked. */
  function Arriving(d: Dictionary, key: Key, vals: seq<bytes>): seq<bytes> {
    if key.Evs? then vals else WireValues(d, key, vals)
  }

  /** Several values of an array attribute travel as one. */
  predicate Packs(d: Dictionary, key: Key, vals: seq<bytes>) {
    d.IsArray(key) && |vals| > 1 && (key.Evs? ==> d.IsConcat(key))
  }

  /** The condition under which the list comes back: elements of the type's fixed width when
      several are packed; otherwise one value per concat attribute, and none that the array
      splitter would cut. */
  predicate ListKept(d: Dictionary, key: Key, vals: seq<bytes>) {
    if Packs(d, key, vals) then SizeOf(d, key).Some? && AllOfSize(vals, SizeOf(d, key).value)
    else (d.IsConcat(key) ==> |vals| == 1) && (SizeOf(d, key).Some? ==> AllUnsplit(vals, SizeOf(d, key).value))
  }

  lemma {:induction false} ChunkCount(v: bytes, size: nat)
    requires size >= 1
    ensures |Chunks(v, size)| == 1 <==> |v| <= size
    ensures |v| <= size ==> Chunks(v, size) == [v]
  {
  }

  lemma {:induction false} SplitCounts(vals: seq<bytes>, size: nat)
    requires size >= 1
    ensures |SplitValues(vals, size)| >= |vals|
  {
    if vals != [] { SplitCounts(vals[1..], size); }
  }

  /** The splitter leaves a list alone exactly when it leaves every value alone. */
  lemma {:induction false} SplitFixpoint(vals: seq<bytes>, size: nat)
    requires size >= 1
    ensures SplitValues(vals, size) == vals <==> AllUnsplit(vals, size)
  {
    if vals != [] {
      var v := vals[0];
      var head := if v == [] || |v| % size != 0 then [v] else Chunks(v, size);
      SplitFixpoint(vals[1..], size);
      SplitCounts(vals[1..], size);
      ChunkCount(v, size);
      assert Unsplit(v, size) <==> |head| == 1 by {
        if v != [] && |v| % size == 0 && |v| < size { SmallMultiple(|v|, size); }
      }
      var r := SplitValues(vals, size);
      if Unsplit(v, size) {
        assert head == [v];
        assert r[1..] == SplitValues(vals[1..], size);
        assert AllUnsplit(vals, size) <==> AllUnsplit(vals[1..], size) by {
          assert forall i :: 1 <= i < |vals| ==> vals[1..][i - 1] == vals[i];
        }
        assert r == vals <==> r[1..] == vals[1..];
      } else {
        assert |r| > |vals|;
      }
    }
  }

  lemma SmallMultiple(n: nat, size: nat)
    requires 0 < n < size
    ensures n % size != 0
  {
  }

  /** Cutting a multiple of `size` gives pieces of exactly that size. */
  lemma {:induction false} EvenChunks(v: bytes, size: nat)
    requires size >= 1 && v != [] && |v| % size == 0
    ensures AllOfSize(Chunks(v, size), size)
    decreases |v|
  {
    if |v| > size {
      MultipleMinusOne(|v|, size);
      EvenChunks(v[size..], size);
    } else if |v| < size {
      SmallMultiple(|v|, size);
    }
  }

  lemma MultipleMinusOne(n: nat, size: nat)
    requires size >= 1 && n > size && n % size == 0
    ensures (n - size) % size == 0
  {
    assert n == size * (n / size);
    assert n - size == size * (n / size - 1);
    MultipleMod(n / size - 1, size);
  }

  lemma MultipleMod(k: int, size: nat)
    requires size >= 1
    ensures (size * k) % size == 0
  {
    var p := size * k;
    var q, r := p / size, p % size;
    assert p == size * q + r && size * (k - q) == r;
    if k - q >= 1 {
      assert false;
    } else if k - q <= -1 {
      assert false;
    }
  }

  lemma {:induction false} JoinSize(vals: seq<bytes>, size: nat)
    requires AllOfSize(vals, size)
    ensures |Join(vals)| == size * |vals|
  {
    if vals != [] {
      assert forall i :: 0 <= i < |vals[1..]| ==> vals[1..][i] == vals[i + 1];
      JoinSize(vals[1..], size);
      assert size * |vals| == size + size * (|vals| - 1);
    }
  }

  /** Fixed-width values packed into one string are recovered by cutting it. */
  lemma {:induction false} ChunksOfJoin(vals: seq<bytes>, size: nat)
    requires size >= 1 && vals != [] && AllOfSize(vals, size)
    ensures Chunks(Join(vals), size) == vals
  {
    var v := Join(vals);
    var tail := vals[1..];
    assert forall i :: 0 <= i < |tail| ==> tail[i] == vals[i + 1];
    JoinSize(tail, size);
    if tail == [] {
      assert vals == [vals[0]];
      JoinOne(vals[0]);
    } else {
      assert size * |tail| >= 1 by { assert size * |tail| == size + size * (|tail| - 1); }
      assert v[..size] == vals[0] && v[size..] == Join(tail);
      ChunksOfJoin(tail, size);
    }
  }

  lemma {:induction false} PackedSplit(vals: seq<bytes>, size: nat)
    requires size >= 1 && |vals| > 1
    ensures SplitValues([Join(vals)], size) == vals <==> AllOfSize(vals, size)
  {
    var v := Join(vals);
    var cut := if v == [] || |v| % size != 0 then [v] else Chunks(v, size);
    assert SplitValues([v], size) == cut + SplitValues([], size);
    if AllOfSize(vals, size) {
      JoinSize(vals, size);
      ChunksOfJoin(vals, size);
      MultipleMod(|vals|, size);
      assert |v| == size + size * (|vals| - 1);
    } else if v != [] && |v| % size == 0 {
      EvenChunks(v, size);
    }
  }

  lemma {:induction false} ManyConcatPieces(vals: seq<bytes>)
    ensures |AllConcatPieces(vals)| >= |vals|
    ensures Join(AllConcatPieces(vals)) == Join(vals)
  {
    if vals != [] {
      ManyConcatPieces(vals[1..]);
      ChunksPartition(vals[0], CONCAT_CHUNK);
      JoinOne(vals[0]);
      JoinAppend(ConcatPieces(vals[0]), AllConcatPieces(vals[1..]));
    }
  }

  /** The concat pass applied to what arrives. */
  function Merged(d: Dictionary, key: Key, vals: seq<bytes>): seq<bytes> {
    if d.IsConcat(key) && |vals| > 1 then [Join(vals)] else vals
  }

  lemma MergedArriving(d: Dictionary, key: Key, vals: seq<bytes>)
    requires vals != []
    ensures Packs(d, key, vals) ==> Merged(d, key, Arriving(d, key, vals)) == [Join(vals)]
    ensures !Packs(d, key, vals) && d.IsConcat(key) ==> Merged(d, key, Arriving(d, key, vals)) == [Join(vals)]
    ensures !Packs(d, key, vals) && !d.IsConcat(key) ==> Merged(d, key, Arriving(d, key, vals)) == vals
    ensures |vals| == 1 ==> Join(vals) == vals[0]
  {
    ManyConcatPieces(vals);
    JoinOne(Join(vals));
    JoinOne(vals[0]);
    assert |vals| == 1 ==> vals == [vals[0]];
    if d.IsConcat(key) && |Arriving(d, key, vals)| == 1 {
      assert |vals| == 1 || Packs(d, key, vals);
      var a := Arriving(d, key, vals);
      assert a == [a[0]];
      JoinOne(a[0]);
    }
  }

  /** The passes give the list back if and only if it meets the condition. */
  lemma ListKeptExactly(d: Dictionary, key: Key, vals: seq<bytes>)
    requires vals != []
    ensures FinishEntry(d, key, Values(Arriving(d, key, vals))) == Values(vals) <==> ListKept(d, key, vals)
  {
    var arriving := Arriving(d, key, vals);
    var merged := Merged(d, key, arriving);
    assert MergedEntry(d, key, Values(arriving)) == Values(merged);
    MergedArriving(d, key, vals);
    var size := SizeOf(d, key);
    assert FinishEntry(d, key, Values(arriving)) ==
           Values(if size.Some? then SplitValues(merged, size.value) else merged);
    if Packs(d, key, vals) {
      if size.Some? { PackedSplit(vals, size.value); }
    } else if d.IsConcat(key) {
      assert |vals| == 1 ==> vals == [Join(vals)];
      if size.Some? { SplitFixpoint(merged, size.value); }
    } else if size.Some? {
      SplitFixpoint(vals, size.value);
    }
  }
}
