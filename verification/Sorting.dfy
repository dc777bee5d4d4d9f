/** The default `Array.prototype.sort` on strings: ascending order,
    comparing character codes from the left, a proper prefix first. */
module Sorting {

  /** `a` sorts strictly before `b`. */
  predicate Below(a: string, b: string)
    decreases |a|
  {
    if |a| == 0 then |b| > 0
    else if |b| == 0 then false
    else if a[0] != b[0] then a[0] < b[0]
    else Below(a[1..], b[1..])
  }

  lemma {:induction false} BelowIrreflexive(a: string)
    ensures !Below(a, a)
    decreases |a|
  {
    if |a| > 0 {
      BelowIrreflexive(a[1..]);
    }
  }

  lemma {:induction false} BelowTotal(a: string, b: string)
    requires a != b
    ensures Below(a, b) || Below(b, a)
    decreases |a|
  {
    if |a| > 0 && |b| > 0 && a[0] == b[0] {
      assert a == [a[0]] + a[1..] && b == [b[0]] + b[1..];
      BelowTotal(a[1..], b[1..]);
    }
  }

  lemma {:induction false} BelowAsymmetric(a: string, b: string)
    requires Below(a, b)
    ensures !Below(b, a)
    decreases |a|
  {
    if |a| > 0 && |b| > 0 && a[0] == b[0] {
      BelowAsymmetric(a[1..], b[1..]);
    }
  }

  lemma {:induction false} BelowTransitive(a: string, b: string, c: string)
    requires Below(a, b) && Below(b, c)
    ensures Below(a, c)
    decreases |a|
  {
    if |a| > 0 && |b| > 0 && |c| > 0 && a[0] == b[0] && b[0] == c[0] {
      BelowTransitive(a[1..], b[1..], c[1..]);
    }
  }

  /** Ascending: no element sorts strictly before an earlier one. */
  predicate Sorted(xs: seq<string>) {
    forall i, j :: 0 <= i < j < |xs| ==> !Below(xs[j], xs[i])
  }

  /** Ascending without repetition. */
  predicate StrictlySorted(xs: seq<string>) {
    forall i, j :: 0 <= i < j < |xs| ==> Below(xs[i], xs[j])
  }

  predicate NoDuplicates(xs: seq<string>) {
    forall i, j :: 0 <= i < j < |xs| ==> xs[i] != xs[j]
  }

  /** Insert `x` before the first element it does not follow. */
  function Insert(x: string, ys: seq<string>): (r: seq<string>)
    requires Sorted(ys)
    ensures Sorted(r)
    ensures multiset(r) == multiset(ys) + multiset{x}
    ensures |r| == |ys| + 1
    decreases |ys|
  {
    if |ys| == 0 then [x]
    else if Below(ys[0], x) then
      var rest := Insert(x, ys[1..]);
      assert ys == [ys[0]] + ys[1..];
      InsertAfterHead(ys[0], x, ys[1..], rest);
      [ys[0]] + rest
    else
      InsertAtHead(x, ys);
      [x] + ys
  }

  lemma InsertAfterHead(y: string, x: string, tail: seq<string>, rest: seq<string>)
    requires Sorted([y] + tail) && Below(y, x)
    requires Sorted(rest) && multiset(rest) == multiset(tail) + multiset{x}
    ensures Sorted([y] + rest)
  {
    var r := [y] + rest;
    forall i, j | 0 <= i < j < |r|
      ensures !Below(r[j], r[i])
    {
      if i == 0 {
        assert r[j] == rest[j - 1];
        assert r[j] in multiset(rest);
        assert r[j] == x || r[j] in multiset(tail);
        if r[j] == x {
          BelowAsymmetric(y, x);
        } else {
          assert r[j] in tail;
          var k :| 0 <= k < |tail| && tail[k] == r[j];
          assert ([y] + tail)[k + 1] == r[j];
          assert ([y] + tail)[0] == y;
        }
      } else {
        assert r[i] == rest[i - 1] && r[j] == rest[j - 1];
      }
    }
  }

  lemma InsertAtHead(x: string, ys: seq<string>)
    requires Sorted(ys) && |ys| > 0 && !Below(ys[0], x)
    ensures Sorted([x] + ys)
  {
    var r := [x] + ys;
    forall i, j | 0 <= i < j < |r|
      ensures !Below(r[j], r[i])
    {
      if i == 0 && j > 1 {
        if Below(r[j], x) {
          assert !Below(ys[j - 1], ys[0]);
          if ys[j - 1] == ys[0] {
          } else {
            BelowTotal(ys[j - 1], ys[0]);
            BelowTransitive(ys[0], ys[j - 1], x);
          }
        }
      }
    }
  }

  /** `array.sort()`: insertion sort, which has the same result as any
      other sort for strings. */
  function Sort(xs: seq<string>): (r: seq<string>)
    ensures Sorted(r)
    ensures multiset(r) == multiset(xs)
    ensures |r| == |xs|
    decreases |xs|
  {
    if |xs| == 0 then []
    else
      assert xs == [xs[0]] + xs[1..];
      Insert(xs[0], Sort(xs[1..]))
  }

  /** No repetition is the same as every count being at most one. */
  lemma {:induction false} NoDuplicatesCount(xs: seq<string>)
    ensures NoDuplicates(xs) <==> forall x :: multiset(xs)[x] <= 1
    decreases |xs|
  {
    if |xs| > 0 {
      var t := xs[1..];
      NoDuplicatesCount(t);
      assert xs == [xs[0]] + t;
      assert multiset(xs) == multiset{xs[0]} + multiset(t);
      if NoDuplicates(xs) {
        assert forall k :: 0 <= k < |t| ==> t[k] == xs[k + 1];
        assert xs[0] !in t;
        assert NoDuplicates(t) by {
          forall i, j | 0 <= i < j < |t| ensures t[i] != t[j] {
            assert xs[i + 1] == t[i] && xs[j + 1] == t[j];
          }
        }
      } else {
        var i, j :| 0 <= i < j < |xs| && xs[i] == xs[j];
        if i == 0 {
          assert xs[j] in t;
          assert multiset(xs)[xs[0]] >= 2;
        } else {
          assert t[i - 1] == t[j - 1];
          assert !NoDuplicates(t);
          var x :| multiset(t)[x] > 1;
          assert multiset(xs)[x] > 1;
        }
      }
    }
  }

  /** Sorting keeps distinct elements distinct, and then the order is
      strict. */
  lemma SortDistinct(xs: seq<string>)
    requires NoDuplicates(xs)
    ensures NoDuplicates(Sort(xs))
    ensures StrictlySorted(Sort(xs))
  {
    var r := Sort(xs);
    NoDuplicatesCount(xs);
    NoDuplicatesCount(r);
    forall i, j | 0 <= i < j < |r|
      ensures Below(r[i], r[j])
    {
      BelowTotal(r[i], r[j]);
    }
  }
}
