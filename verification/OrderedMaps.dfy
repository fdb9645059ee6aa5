/** Insertion-ordered maps, as Python's dict and OrderedDict keep them: a sequence of pairs. */
module OrderedMaps {
  import opened Wrappers

  function Find<K(==), V>(m: seq<(K, V)>, k: K): Option<V> {
    if m == [] then None else if m[0].0 == k then Some(m[0].1) else Find(m[1..], k)
  }

  predicate Has<K(==), V>(m: seq<(K, V)>, k: K) {
    Find(m, k).Some?
  }

  /** Assignment: an existing key keeps its place, a new key goes to the end. */
  function Put<K(==), V>(m: seq<(K, V)>, k: K, v: V): seq<(K, V)> {
    if m == [] then [(k, v)]
    else if m[0].0 == k then [(k, v)] + m[1..]
    else [m[0]] + Put(m[1..], k, v)
  }

  /** The keys in order. */
  function Keys<K, V>(m: seq<(K, V)>): (r: seq<K>)
    ensures |r| == |m|
  {
    seq(|m|, i requires 0 <= i < |m| => m[i].0)
  }

  predicate Distinct<K(==), V>(m: seq<(K, V)>) {
    forall i, j :: 0 <= i < j < |m| ==> m[i].0 != m[j].0
  }

  lemma {:induction false} FindSound<K, V>(m: seq<(K, V)>, k: K)
    ensures Has(m, k) <==> exists i :: 0 <= i < |m| && m[i].0 == k
    ensures Has(m, k) ==> exists i :: 0 <= i < |m| && m[i] == (k, Find(m, k).value)
  {
    if m != [] {
      FindSound(m[1..], k);
      if m[0].0 != k {
        assert forall i :: 0 <= i < |m[1..]| ==> m[1..][i] == m[i + 1];
      } else {
        assert m[0] == (k, m[0].1);
      }
    }
  }

  lemma {:induction false} FindAt<K, V>(m: seq<(K, V)>, i: nat)
    requires Distinct(m) && i < |m|
    ensures Find(m, m[i].0) == Some(m[i].1)
  {
    if i > 0 {
      FindAt(m[1..], i - 1);
    }
  }

  lemma {:induction false} FindAppend<K, V>(a: seq<(K, V)>, b: seq<(K, V)>, k: K)
    ensures Find(a + b, k) == if Has(a, k) then Find(a, k) else Find(b, k)
  {
    if a == [] {
      assert a + b == b;
    } else {
      assert (a + b)[1..] == a[1..] + b;
      FindAppend(a[1..], b, k);
    }
  }

  lemma {:induction false} PutAbsent<K, V>(m: seq<(K, V)>, k: K, v: V)
    requires !Has(m, k)
    ensures Put(m, k, v) == m + [(k, v)]
  {
    if m != [] {
      PutAbsent(m[1..], k, v);
    }
  }

  lemma {:induction false} PutMiddle<K, V>(a: seq<(K, V)>, k: K, old_: V, b: seq<(K, V)>, v: V)
    requires !Has(a, k)
    ensures Find(a + [(k, old_)] + b, k) == Some(old_)
    ensures Put(a + [(k, old_)] + b, k, v) == a + [(k, v)] + b
  {
    var m := a + [(k, old_)] + b;
    if a == [] {
      assert m[0] == (k, old_) && m[1..] == b;
    } else {
      assert m[0] == a[0] && m[1..] == a[1..] + [(k, old_)] + b;
      PutMiddle(a[1..], k, old_, b, v);
      assert [a[0]] + (a[1..] + [(k, v)] + b) == a + [(k, v)] + b;
    }
  }

  lemma {:induction false} FindPut<K, V>(m: seq<(K, V)>, k: K, v: V, q: K)
    ensures Find(Put(m, k, v), q) == if q == k then Some(v) else Find(m, q)
  {
    if m != [] && m[0].0 != k {
      FindPut(m[1..], k, v, q);
      assert Put(m, k, v)[1..] == Put(m[1..], k, v);
    }
  }

  lemma {:induction false} PutTwice<K, V>(m: seq<(K, V)>, k: K, v: V, w: V)
    ensures Put(Put(m, k, v), k, w) == Put(m, k, w)
  {
    if m != [] && m[0].0 != k {
      PutTwice(m[1..], k, v, w);
      assert Put(m, k, v)[1..] == Put(m[1..], k, v);
    }
  }

  lemma {:induction false} PutSame<K, V>(m: seq<(K, V)>, k: K)
    requires Has(m, k)
    ensures Put(m, k, Find(m, k).value) == m
  {
    if m[0].0 != k { PutSame(m[1..], k); }
  }

  lemma {:induction false} PutDistinct<K, V>(m: seq<(K, V)>, k: K, v: V)
    requires Distinct(m)
    ensures Distinct(Put(m, k, v))
  {
    if m != [] && m[0].0 != k {
      PutDistinct(m[1..], k, v);
      var p := Put(m, k, v);
      forall i, j | 0 <= i < j < |p| ensures p[i].0 != p[j].0 {
        if i == 0 && p[j].0 == m[0].0 {
          FindSound(p[1..], m[0].0);
          assert p[1..][j - 1].0 == m[0].0;
          FindPut(m[1..], k, v, m[0].0);
          FindSound(m[1..], m[0].0);
          assert false;
        } else if i > 0 {
          assert p[1..][i - 1] == p[i] && p[1..][j - 1] == p[j];
        }
      }
    }
  }

  /** An assignment touches one value; every entry of the result is the new one or an old one. */
  lemma {:induction false} PutEntries<K, V>(m: seq<(K, V)>, k: K, v: V)
    ensures forall i :: 0 <= i < |Put(m, k, v)| ==> Put(m, k, v)[i] == (k, v) || Put(m, k, v)[i] in m
  {
    if m != [] && m[0].0 != k {
      PutEntries(m[1..], k, v);
      var p := Put(m, k, v);
      forall i | 0 <= i < |p| ensures p[i] == (k, v) || p[i] in m {
        if i > 0 { assert p[i] == Put(m[1..], k, v)[i - 1]; }
      }
    }
  }

  /** `del m[k]`. */
  function Remove<K(==), V>(m: seq<(K, V)>, k: K): seq<(K, V)> {
    if m == [] then [] else if m[0].0 == k then m[1..] else [m[0]] + Remove(m[1..], k)
  }

  lemma {:induction false} RemoveEntries<K, V>(m: seq<(K, V)>, k: K)
    ensures forall x :: x in Remove(m, k) ==> x in m
    ensures forall x :: x in m && x.0 != k ==> x in Remove(m, k)
    ensures !Has(m, k) ==> Remove(m, k) == m
    ensures Has(m, k) ==> |Remove(m, k)| == |m| - 1
  {
    if m != [] && m[0].0 != k {
      RemoveEntries(m[1..], k);
    }
  }

  lemma {:induction false} RemoveAt<K, V>(m: seq<(K, V)>, k: K) returns (i: nat)
    requires Has(m, k)
    ensures i < |m| && m[i] == (k, Find(m, k).value) && Remove(m, k) == m[..i] + m[i + 1..]
  {
    if m[0].0 == k {
      i := 0;
    } else {
      i := RemoveAt(m[1..], k);
      assert [m[0]] + m[1..][..i] == m[..i + 1] && m[1..][i + 1..] == m[i + 2..];
      i := i + 1;
    }
  }

  lemma {:induction false} PutAt<K, V>(m: seq<(K, V)>, k: K, v: V) returns (i: nat)
    requires Has(m, k)
    ensures i < |m| && m[i] == (k, Find(m, k).value) && Put(m, k, v) == m[i := (k, v)]
  {
    if m[0].0 == k {
      i := 0;
    } else {
      i := PutAt(m[1..], k, v);
      i := i + 1;
    }
  }

  lemma RemoveDistinct<K, V>(m: seq<(K, V)>, k: K)
    requires Distinct(m)
    ensures Distinct(Remove(m, k))
    ensures forall i :: 0 <= i < |Remove(m, k)| ==> Remove(m, k)[i].0 != k
  {
    if Has(m, k) {
      var i := RemoveAt(m, k);
    } else {
      RemoveEntries(m, k);
      FindSound(m, k);
    }
  }

  lemma {:induction false} FindRemove<K, V>(m: seq<(K, V)>, k: K, q: K)
    requires Distinct(m)
    ensures Find(Remove(m, k), q) == if q == k then None else Find(m, q)
  {
    if m != [] {
      if m[0].0 == k {
        FindSound(m[1..], k);
        assert forall i :: 0 <= i < |m[1..]| ==> m[1..][i] == m[i + 1];
      } else {
        FindRemove(m[1..], k, q);
        assert Remove(m, k)[1..] == Remove(m[1..], k);
      }
    }
  }
}
