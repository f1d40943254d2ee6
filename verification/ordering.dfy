/**
 Sorted enumeration of a finite set under a strict total order. PHP's `ksort`
 and `krsort` over an array whose keys are distinct are modelled as the
 enumeration of its key set in ascending or descending order.
 */
module Ordering {

  /** `less` is irreflexive, transitive and connected. */
  ghost predicate StrictTotalOrder<T(!new)>(less: (T, T) -> bool) {
    && (forall a :: !less(a, a))
    && (forall a, b, c :: less(a, b) && less(b, c) ==> less(a, c))
    && (forall a, b :: a != b ==> less(a, b) || less(b, a))
  }

  /** `m` is the least element of `s` under `less`. */
  predicate IsLeast<T(==)>(m: T, s: set<T>, less: (T, T) -> bool) {
    m in s && forall x | x in s :: x == m || less(m, x)
  }

  /** Every non-empty finite set has a least element. */
  lemma {:induction false} LeastExists<T(!new)>(s: set<T>, less: (T, T) -> bool)
    requires s != {}
    requires StrictTotalOrder(less)
    ensures exists m :: IsLeast(m, s, less)
    decreases |s|
  {
    var x :| x in s;
    if s == {x} {
      assert IsLeast(x, s, less);
    } else {
      LeastExists(s - {x}, less);
      var m :| IsLeast(m, s - {x}, less);
      if less(x, m) {
        forall y | y in s && y != x
          ensures less(x, y)
        {
          assert y == m || less(m, y);
        }
        assert IsLeast(x, s, less);
      } else {
        assert IsLeast(m, s, less);
      }
    }
  }

  /** The elements of `s`, each once, in strictly increasing order. */
  function Enumerate<T(!new)>(s: set<T>, less: (T, T) -> bool): (r: seq<T>)
    requires StrictTotalOrder(less)
    ensures |r| == |s|
    ensures forall x :: x in r <==> x in s
    ensures forall i, j :: 0 <= i < j < |r| ==> less(r[i], r[j])
    decreases |s|
  {
    if s == {} then []
    else
      LeastExists(s, less);
      var m :| IsLeast(m, s, less);
      [m] + Enumerate(s - {m}, less)
  }

  /** Dropping the head of a strictly increasing enumeration of `s` enumerates `s` without it. */
  lemma TailEnumerates<T(!new)>(s: set<T>, less: (T, T) -> bool, a: seq<T>)
    requires StrictTotalOrder(less)
    requires |a| > 0
    requires forall x :: x in a <==> x in s
    requires forall i, j :: 0 <= i < j < |a| ==> less(a[i], a[j])
    ensures forall x :: x in a[1..] <==> x in s - {a[0]}
  {
    forall x
      ensures x in a[1..] <==> x in s - {a[0]}
    {
      if x in a[1..] {
        var k :| 1 <= k < |a| && a[k] == x;
        assert less(a[0], a[k]);
      }
      if x in a && x != a[0] {
        var k :| 0 <= k < |a| && a[k] == x;
        assert x in a[1..] by { assert a[k] == a[1..][k - 1]; }
      }
    }
  }

  /** A strictly increasing enumeration of `s` has exactly `|s|` elements. */
  lemma {:induction false} EnumerationLength<T(!new)>(s: set<T>, less: (T, T) -> bool, a: seq<T>)
    requires StrictTotalOrder(less)
    requires forall x :: x in a <==> x in s
    requires forall i, j :: 0 <= i < j < |a| ==> less(a[i], a[j])
    ensures |a| == |s|
    decreases |a|
  {
    if |a| == 0 {
      assert s == {};
    } else {
      TailEnumerates(s, less, a);
      EnumerationLength(s - {a[0]}, less, a[1..]);
    }
  }

  /** A strictly increasing enumeration of a set is unique. */
  lemma {:induction false} EnumerationUnique<T(!new)>(s: set<T>, less: (T, T) -> bool, a: seq<T>, b: seq<T>)
    requires StrictTotalOrder(less)
    requires forall x :: x in a <==> x in s
    requires forall x :: x in b <==> x in s
    requires forall i, j :: 0 <= i < j < |a| ==> less(a[i], a[j])
    requires forall i, j :: 0 <= i < j < |b| ==> less(b[i], b[j])
    ensures a == b
    decreases |a|
  {
    EnumerationLength(s, less, a);
    EnumerationLength(s, less, b);
    if |a| != 0 {
      assert a[0] == b[0] by {
        assert b[0] in a && a[0] in b;
      }
      TailEnumerates(s, less, a);
      TailEnumerates(s, less, b);
      EnumerationUnique(s - {a[0]}, less, a[1..], b[1..]);
      assert a == [a[0]] + a[1..];
      assert b == [b[0]] + b[1..];
    }
  }
}
