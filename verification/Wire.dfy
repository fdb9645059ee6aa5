/** The attribute framing shared by packets and TLV chains: type octet, length octet, value. */
module Wire {
  import opened Bytes
  import opened Wrappers

  datatype Avp = Avp(key: byte, value: bytes)

  /** A value that the one-octet length field can describe. */
  predicate Fits(a: Avp) { |a.value| <= 253 }

  predicate AllFit(avps: seq<Avp>) { forall i :: 0 <= i < |avps| ==> Fits(avps[i]) }

  function Frame(a: Avp): (r: bytes)
    requires Fits(a)
  {
    [a.key, |a.value| + 2] + a.value
  }

  function Flatten(avps: seq<Avp>): bytes
    requires AllFit(avps)
  {
    if avps == [] then [] else Frame(avps[0]) + Flatten(avps[1..])
  }

  /** The framing the decoder's main loop applies.  A length octet that points past the end of
      the data is accepted and the value cut short; a lone octet or a length below 2 is an error. */
  function Frames(data: bytes): Result<seq<Avp>>
    decreases |data|
  {
    if data == [] then Ok([])
    else if |data| < 2 || data[1] < 2 then Err
    else
      var end := if data[1] <= |data| then data[1] else |data|;
      var rest :- Frames(data[end..]);
      Ok([Avp(data[0], data[2..end])] + rest)
  }

  function Size(avps: seq<Avp>): nat {
    if avps == [] then 0 else 2 + |avps[0].value| + Size(avps[1..])
  }

  /** Accepting means consuming everything: headers and values add up to the whole input. */
  lemma {:induction false} FramesConsume(data: bytes)
    requires Frames(data).Ok?
    ensures Size(Frames(data).value) == |data|
    ensures AllFit(Frames(data).value)
    decreases |data|
  {
    if data != [] {
      var end := if data[1] <= |data| then data[1] else |data|;
      FramesConsume(data[end..]);
      var rest := Frames(data[end..]).value;
      assert Frames(data).value[1..] == rest;
    }
  }

  lemma {:induction false} FramesOfFrame(a: Avp, rest: bytes)
    requires Fits(a)
    ensures Frames(Frame(a) + rest) ==
            (match Frames(rest) case Ok(r) => Ok([a] + r) case Err => Err)
  {
    var data := Frame(a) + rest;
    assert data[1] == |a.value| + 2;
    assert data[2..data[1]] == a.value;
    assert data[data[1]..] == rest;
  }

  lemma {:induction false} FramesOfFlatten(avps: seq<Avp>)
    requires AllFit(avps)
    ensures Frames(Flatten(avps)) == Ok(avps)
  {
    if avps != [] {
      FramesOfFlatten(avps[1..]);
      FramesOfFrame(avps[0], Flatten(avps[1..]));
      assert [avps[0]] + avps[1..] == avps;
    }
  }

  lemma {:induction false} FlattenAppend(a: seq<Avp>, b: seq<Avp>)
    requires AllFit(a) && AllFit(b)
    ensures AllFit(a + b) && Flatten(a + b) == Flatten(a) + Flatten(b)
  {
    if a == [] {
      assert a + b == b;
    } else {
      assert (a + b)[1..] == a[1..] + b;
      FlattenAppend(a[1..], b);
    }
  }

  lemma {:induction false} FlattenSize(avps: seq<Avp>)
    requires AllFit(avps)
    ensures |Flatten(avps)| == Size(avps)
  {
    if avps != [] { FlattenSize(avps[1..]); }
  }

  lemma {:induction false} SizeAppend(a: seq<Avp>, b: seq<Avp>)
    ensures Size(a + b) == Size(a) + Size(b)
  {
    if a == [] {
      assert a + b == b;
    } else {
      assert (a + b)[1..] == a[1..] + b;
      SizeAppend(a[1..], b);
    }
  }
}
