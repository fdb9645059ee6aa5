/** Choosing the next free packet identifier, round-robin over 256 slots. */
module Identifiers {
  import opened Wrappers
  import opened Bytes

  function Candidate(start: byte, offset: nat): byte {
    (start + offset) % 256
  }

  /** The first free identifier at offsets `k` to 256 from `start`. */
  function FirstFree(start: byte, busy: set<byte>, k: nat): Option<byte>
    decreases 257 - k
  {
    if k > 256 then None
    else if Candidate(start, k) !in busy then Some(Candidate(start, k))
    else FirstFree(start, busy, k + 1)
  }

  /** `create_id`: None is IdentifierExhausted. */
  function NextFree(start: byte, busy: set<byte>): Option<byte> {
    FirstFree(start, busy, 1)
  }

  function Free(busy: set<byte>): set<int> {
    set x | 0 <= x < 256 && x !in busy
  }

  /** The identifiers `n` calls in a row return while the busy ones stay the same. */
  function Allocate(start: byte, busy: set<byte>, n: nat): seq<byte>
    decreases n
  {
    if n == 0 then []
    else
      match NextFree(start, busy)
      case None => []
      case Some(c) => [c] + Allocate(c, busy, n - 1)
  }

  /** The free identifiers at offsets `k` to 256, in scanning order. */
  function Scan(start: byte, busy: set<byte>, k: nat): seq<byte>
    decreases 257 - k
  {
    if k > 256 then []
    else (if Candidate(start, k) !in busy then [Candidate(start, k)] else []) + Scan(start, busy, k + 1)
  }

  lemma CandidateShift(start: byte, k: nat, j: nat)
    ensures Candidate(Candidate(start, k), j) == Candidate(start, k + j)
  {
  }

  /** The offset at which an identifier is met, from 1 to 256. */
  function OffsetOf(start: byte, x: int): nat
    requires 0 <= x < 256
  {
    if x > start then x - start else x - start + 256
  }

  lemma {:induction false} ScanExact(start: byte, busy: set<byte>, k: nat)
    requires k >= 1
    ensures forall i, j :: 0 <= i < j < |Scan(start, busy, k)| ==> Scan(start, busy, k)[i] != Scan(start, busy, k)[j]
    ensures forall x: int :: x in Scan(start, busy, k) <==> 0 <= x < 256 && x !in busy && OffsetOf(start, x) >= k
    decreases 257 - k
  {
    if k <= 256 {
      ScanExact(start, busy, k + 1);
      var c := Candidate(start, k);
      assert OffsetOf(start, c) == k;
      assert forall x :: 0 <= x < 256 && OffsetOf(start, x) == k ==> x == c;
    }
  }

  /** One call from the identifier at offset `k` returns the next free one in scanning order. */
  lemma {:induction false} FirstFreeIsScanHead(start: byte, busy: set<byte>, k: nat, j: nat)
    requires k <= 256 && j >= 1 && Scan(start, busy, k + j) != []
    ensures FirstFree(Candidate(start, k), busy, j) == Some(Scan(start, busy, k + j)[0])
    decreases 257 - j
  {
    CandidateShift(start, k, j);
    if k + j <= 256 && Candidate(start, k + j) in busy {
      FirstFreeIsScanHead(start, busy, k, j + 1);
    }
  }

  lemma {:induction false} ScanTail(start: byte, busy: set<byte>, k: nat) returns (next: nat)
    requires k >= 1 && Scan(start, busy, k) != []
    ensures k <= next <= 256 && Candidate(start, next) == Scan(start, busy, k)[0]
    ensures Scan(start, busy, next + 1) == Scan(start, busy, k)[1..]
    decreases 257 - k
  {
    if Candidate(start, k) !in busy {
      next := k;
    } else {
      next := ScanTail(start, busy, k + 1);
    }
  }

  lemma {:induction false} AllocateIsScan(start: byte, busy: set<byte>, k: nat, n: nat)
    requires k <= 256 && n <= |Scan(start, busy, k + 1)|
    ensures Allocate(Candidate(start, k), busy, n) == Scan(start, busy, k + 1)[..n]
    decreases n
  {
    if n > 0 {
      var scan := Scan(start, busy, k + 1);
      FirstFreeIsScanHead(start, busy, k, 1);
      var next := ScanTail(start, busy, k + 1);
      AllocateIsScan(start, busy, next, n - 1);
      assert scan[..n] == [scan[0]] + scan[1..][..n - 1];
    }
  }

  lemma {:induction false} DistinctCount(s: seq<byte>, all: set<int>)
    requires forall i, j :: 0 <= i < j < |s| ==> s[i] != s[j]
    requires forall x: int :: x in all <==> x in s
    ensures |all| == |s|
  {
    if s == [] {
      forall x: int ensures x !in all {
        assert x in all <==> x in s;
      }
      assert all == {};
    } else {
      assert forall x: int :: x in s <==> x == s[0] || x in s[1..];
      DistinctCount(s[1..], all - {s[0]});
    }
  }

  lemma ScanIsFree(start: byte, busy: set<byte>)
    ensures var scan := Scan(start, busy, 1);
            |scan| == |Free(busy)|
            && (forall i, j :: 0 <= i < j < |scan| ==> scan[i] != scan[j])
            && (forall x: int :: x in scan <==> x in Free(busy))
  {
    ScanExact(start, busy, 1);
    DistinctCount(Scan(start, busy, 1), Free(busy));
  }

  lemma AllocateFromStart(start: byte, busy: set<byte>, n: nat)
    requires n <= |Scan(start, busy, 1)|
    ensures Allocate(start, busy, n) == Scan(start, busy, 1)[..n]
  {
    assert Candidate(start, 0) == start;
    AllocateIsScan(start, busy, 0, n);
  }

  /** With the busy identifiers unchanged, as many calls as there are free identifiers return each
      of them exactly once, from any starting point. */
  lemma RoundRobin(start: byte, busy: set<byte>)
    ensures var ids := Allocate(start, busy, |Free(busy)|);
            |ids| == |Free(busy)|
            && (forall i, j :: 0 <= i < j < |ids| ==> ids[i] != ids[j])
            && (forall x: int :: x in ids <==> x in Free(busy))
  {
    var scan := Scan(start, busy, 1);
    ScanIsFree(start, busy);
    AllocateFromStart(start, busy, |scan|);
    assert scan[..|scan|] == scan;
  }

  /** Fewer calls return pairwise different free identifiers. */
  lemma RoundRobinPrefix(start: byte, busy: set<byte>, n: nat)
    requires n <= |Free(busy)|
    ensures var ids := Allocate(start, busy, n);
            |ids| == n
            && (forall i, j :: 0 <= i < j < n ==> ids[i] != ids[j])
            && (forall i :: 0 <= i < n ==> ids[i] in Free(busy))
  {
    ScanIsFree(start, busy);
    AllocateFromStart(start, busy, n);
  }

  /** Allocation fails exactly when all 256 identifiers are busy. */
  lemma ExhaustedExactly(start: byte, busy: set<byte>)
    ensures NextFree(start, busy).None? <==> forall x :: 0 <= x < 256 ==> x in busy
    ensures NextFree(start, busy).Some? ==> NextFree(start, busy).value !in busy
  {
    ScanExact(start, busy, 1);
    assert Candidate(start, 0) == start;
    var scan := Scan(start, busy, 1);
    if scan != [] {
      FirstFreeIsScanHead(start, busy, 0, 1);
      assert scan[0] in scan;
    } else {
      NoneWithoutScan(start, busy, 1);
    }
  }

  lemma {:induction false} NoneWithoutScan(start: byte, busy: set<byte>, k: nat)
    requires Scan(start, busy, k) == []
    ensures FirstFree(start, busy, k) == None
    decreases 257 - k
  {
    if k <= 256 { NoneWithoutScan(start, busy, k + 1); }
  }
}
