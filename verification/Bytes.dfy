/** Octet strings, big-endian fields, and cutting a string into chunks. */
module Bytes {

  type byte = x: int | 0 <= x < 256
  type bytes = seq<byte>

  function Pow256(width: nat): (p: nat)
    ensures p >= 1
  {
    if width == 0 then 1 else 256 * Pow256(width - 1)
  }

  /** The `width`-octet network-order form of `n` (struct formats B, H, I, L and Q). */
  function BigEndian(n: nat, width: nat): (r: bytes)
    requires n < Pow256(width)
    ensures |r| == width
  {
    if width == 0 then [] else BigEndian(n / 256, width - 1) + [n % 256]
  }

  function FromBigEndian(s: bytes): (n: nat)
    ensures n < Pow256(|s|)
  {
    if s == [] then 0 else FromBigEndian(s[..|s| - 1]) * 256 + s[|s| - 1]
  }

  lemma SmallPowers()
    ensures Pow256(0) == 1 && Pow256(1) == 0x100 && Pow256(2) == 0x1_0000
    ensures Pow256(4) == 0x1_0000_0000
  {
    assert Pow256(3) == 256 * Pow256(2);
  }

  lemma Digits(n: nat, low: nat)
    requires low < 256
    ensures (n * 256 + low) / 256 == n && (n * 256 + low) % 256 == low
  {
  }

  lemma {:induction false} BigEndianBack(s: bytes)
    ensures BigEndian(FromBigEndian(s), |s|) == s
  {
    if s != [] {
      var high, low: nat := s[..|s| - 1], s[|s| - 1];
      BigEndianBack(high);
      Digits(FromBigEndian(high), low);
      assert high + [s[|s| - 1]] == s;
    }
  }

  lemma {:induction false} BigEndianRoundTrip(n: nat, width: nat)
    requires n < Pow256(width)
    ensures FromBigEndian(BigEndian(n, width)) == n
  {
    if width > 0 {
      var s := BigEndian(n, width);
      assert s[..|s| - 1] == BigEndian(n / 256, width - 1);
      BigEndianRoundTrip(n / 256, width - 1);
    }
  }

  function Zeros(n: nat): (r: bytes)
    ensures |r| == n
  {
    seq(n, _ => 0)
  }

  /** A slice of a tail is a slice of the whole. */
  lemma Slices(data: bytes, offset: nat, lo: nat, hi: nat)
    requires lo <= hi && offset + hi <= |data|
    ensures data[offset..][lo..hi] == data[offset + lo..offset + hi]
    ensures data[offset..][hi..] == data[offset + hi..]
  {
  }

  function Join(parts: seq<bytes>): bytes {
    if parts == [] then [] else parts[0] + Join(parts[1..])
  }

  lemma JoinOne(v: bytes)
    ensures Join([v]) == v
  {
    assert Join([v]) == v + Join([]);
  }

  lemma {:induction false} JoinAppend(a: seq<bytes>, b: seq<bytes>)
    ensures Join(a + b) == Join(a) + Join(b)
  {
    if a == [] {
      assert a + b == b;
    } else {
      assert (a + b)[1..] == a[1..] + b;
      JoinAppend(a[1..], b);
    }
  }

  /** `_split_into_chunks`: pieces of at most `max` octets; the empty string is one empty piece. */
  function Chunks(data: bytes, max: nat): (r: seq<bytes>)
    requires max > 0
    ensures r != []
    decreases |data|
  {
    if |data| <= max then [data] else [data[..max]] + Chunks(data[max..], max)
  }

  /** Chunking loses nothing, respects the cap, and leaves no empty piece except for empty input. */
  lemma {:induction false} ChunksPartition(data: bytes, max: nat)
    requires max > 0
    ensures Join(Chunks(data, max)) == data
    ensures forall i :: 0 <= i < |Chunks(data, max)| ==> |Chunks(data, max)[i]| <= max
    ensures forall i :: 0 <= i < |Chunks(data, max)| - 1 ==> |Chunks(data, max)[i]| == max
    ensures data != [] ==> forall i :: 0 <= i < |Chunks(data, max)| ==> Chunks(data, max)[i] != []
    decreases |data|
  {
    if |data| <= max {
      assert Join([data][1..]) == [];
    } else {
      var rest := Chunks(data[max..], max);
      ChunksPartition(data[max..], max);
      assert Chunks(data, max)[1..] == rest;
      assert data[..max] + data[max..] == data;
    }
  }
}
