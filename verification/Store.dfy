/** The key-value store that stands in for `localStorage`: a sequence of
    pairs with distinct keys. Setting a new key appends it, setting a
    present key updates it in place, removing a key keeps the order of the
    rest, and `key(i)` reads the i-th pair. */
module KeyValueStore {
  import opened Base

  predicate Distinct<V>(s: seq<(string, V)>) {
    forall i, j :: 0 <= i < j < |s| ==> s[i].0 != s[j].0
  }

  /** The store's pairs; keys are never repeated. */
  type Store<V> = s: seq<(string, V)> | Distinct(s) witness []

  /** The position of key `k`, or -1. */
  function Position<V>(s: Store<V>, k: string): (q: int)
    ensures -1 <= q < |s|
    ensures q >= 0 ==> s[q].0 == k
    ensures q == -1 <==> forall i :: 0 <= i < |s| ==> s[i].0 != k
    ensures q >= 0 ==> forall i :: 0 <= i < q ==> s[i].0 != k
    decreases |s|
  {
    if |s| == 0 then -1
    else if s[0].0 == k then 0
    else
      var q := Position(s[1..], k);
      if q == -1 then -1 else q + 1
  }

  /** `getItem(k)`: `None` stands for `null`. */
  function Get<V>(s: Store<V>, k: string): (r: Option<V>)
    ensures r.None? <==> forall i :: 0 <= i < |s| ==> s[i].0 != k
    ensures r.Some? ==> exists i :: 0 <= i < |s| && s[i] == (k, r.value)
  {
    var q := Position(s, k);
    if q == -1 then None else Some(s[q].1)
  }

  predicate Has<V>(s: Store<V>, k: string) {
    Get(s, k).Some?
  }

  /** Two writes of absent keys append the two pairs. */
  lemma SetTwiceFresh<V>(s: Store<V>, a: string, va: V, b: string, vb: V)
    requires a != b && !Has(s, a) && !Has(s, b)
    ensures Set(Set(s, a, va), b, vb) == s + [(a, va), (b, vb)]
  {
    var s1 := Set(s, a, va);
    assert s1 == s + [(a, va)];
    assert Get(s1, b) == Get(s, b);
    assert Set(s1, b, vb) == s1 + [(b, vb)];
    assert s + [(a, va)] + [(b, vb)] == s + [(a, va), (b, vb)];
  }

  /** Reading a store of two pairs. */
  lemma GetPair<V>(s: Store<V>, a: string, va: V, b: string, vb: V, x: string)
    requires s == [(a, va), (b, vb)]
    ensures Get(s, x) == if x == a then Some(va) else if x == b then Some(vb) else None
  {
    assert s[0].0 == a && s[1].0 == b;
    if x == a {
      assert Position(s, x) == 0;
    } else if x == b {
      assert Position(s, x) == 1 by {
        assert s[1..] == [(b, vb)];
        assert Position(s[1..], x) == 0;
      }
    } else {
      assert forall i :: 0 <= i < |s| ==> s[i].0 != x;
    }
  }

  /** `key(i)`: `None` past the end. */
  function Key<V>(s: Store<V>, i: int): (r: Option<string>)
    ensures r.Some? <==> 0 <= i < |s|
    ensures r.Some? ==> r.value == s[i].0
  {
    if 0 <= i < |s| then Some(s[i].0) else None
  }

  /** `setItem(k, v)`. */
  function Set<V>(s: Store<V>, k: string, v: V): (r: Store<V>)
    ensures Get(r, k) == Some(v)
    ensures forall k' :: k' != k ==> Get(r, k') == Get(s, k')
    ensures Has(s, k) ==> |r| == |s| && forall i :: 0 <= i < |s| ==> r[i].0 == s[i].0
    ensures !Has(s, k) ==> r == s + [(k, v)]
  {
    var q := Position(s, k);
    if q == -1 then
      var r := s + [(k, v)];
      assert forall k' :: k' != k ==> Get(r, k') == Get(s, k') by {
        forall k' | k' != k ensures Get(r, k') == Get(s, k') {
          PositionAppend(s, k', k, v);
        }
      }
      assert Position(r, k) == |s| by { PositionAppend(s, k, k, v); }
      r
    else
      var r := s[q := (k, v)];
      assert forall k' :: k' != k ==> Get(r, k') == Get(s, k') by {
        forall k' | k' != k ensures Get(r, k') == Get(s, k') {
          PositionUpdate(s, q, k', v);
        }
      }
      assert Position(r, k) == q by { PositionUpdate(s, q, k, v); }
      r
  }

  lemma PositionAppend<V>(s: Store<V>, k: string, k0: string, v: V)
    requires Position(s, k0) == -1
    ensures Position(s + [(k0, v)], k) == (if Position(s, k) >= 0 then Position(s, k) else if k == k0 then |s| else -1)
  {
    var r := s + [(k0, v)];
    var q := Position(r, k);
    var p := Position(s, k);
    if p >= 0 {
      assert r[p].0 == k;
      assert q <= p;
      assert q >= 0 && q < |s| ==> s[q].0 == k;
    } else if k == k0 {
      assert r[|s|].0 == k;
      assert forall i :: 0 <= i < |s| ==> r[i].0 != k;
    } else {
      assert forall i :: 0 <= i < |r| ==> r[i].0 != k;
    }
  }

  lemma PositionUpdate<V>(s: Store<V>, q: int, k: string, v: V)
    requires 0 <= q < |s|
    ensures Position(s[q := (s[q].0, v)], k) == Position(s, k)
  {
    var r := s[q := (s[q].0, v)];
    assert forall i :: 0 <= i < |s| ==> r[i].0 == s[i].0;
    var a := Position(r, k);
    var b := Position(s, k);
    assert a >= 0 ==> b >= 0 && b <= a;
    assert b >= 0 ==> a >= 0 && a <= b;
  }

  /** `removeItem(k)`. */
  function Remove<V>(s: Store<V>, k: string): (r: Store<V>)
    ensures Get(r, k) == None
    ensures forall k' :: k' != k ==> Get(r, k') == Get(s, k')
    ensures Position(s, k) == -1 ==> r == s
    ensures Position(s, k) >= 0 ==> r == s[..Position(s, k)] + s[Position(s, k) + 1..]
  {
    var q := Position(s, k);
    if q == -1 then s
    else
      var r := s[..q] + s[q + 1..];
      RemoveAtIndex(s, q);
      assert forall k' :: k' != k ==> Get(r, k') == Get(s, k') by {
        forall k' | k' != k ensures Get(r, k') == Get(s, k') {
          PositionRemove(s, q, k');
        }
      }
      assert Get(r, k) == None by { PositionRemove(s, q, k); }
      r
  }

  /** Dropping the pair at `q` shifts the later pairs down by one. */
  lemma RemoveAtIndex<V>(s: Store<V>, q: int)
    requires 0 <= q < |s|
    ensures |s[..q] + s[q + 1..]| == |s| - 1
    ensures forall i :: 0 <= i < |s| - 1 ==>
      (s[..q] + s[q + 1..])[i] == (if i < q then s[i] else s[i + 1])
    ensures Distinct(s[..q] + s[q + 1..])
  {
  }

  lemma PositionRemove<V>(s: Store<V>, q: int, k: string)
    requires 0 <= q < |s|
    ensures Position(s[..q] + s[q + 1..], k) ==
      (if k == s[q].0 || Position(s, k) == -1 then -1
       else if Position(s, k) < q then Position(s, k) else Position(s, k) - 1)
  {
    var r := s[..q] + s[q + 1..];
    RemoveAtIndex(s, q);
    var p := Position(s, k);
    var a := Position(r, k);
    if k == s[q].0 {
      assert forall i :: 0 <= i < |r| ==> r[i].0 != k;
    } else if p == -1 {
      assert forall i :: 0 <= i < |r| ==> r[i].0 != k;
    } else if p < q {
      assert r[p].0 == k;
      assert forall i :: 0 <= i < p ==> r[i].0 != k;
    } else {
      assert r[p - 1].0 == k;
      assert forall i :: 0 <= i < p - 1 ==> r[i].0 != k;
    }
  }

  /** The keys present. */
  function Keys<V>(s: Store<V>): (ks: set<string>)
    ensures forall k :: k in ks <==> Has(s, k)
  {
    set i | 0 <= i < |s| :: s[i].0
  }
}
