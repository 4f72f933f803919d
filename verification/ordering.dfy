/** Python's ordering of strings and `sorted(set(...))`: the distinct
    elements of a sequence, ascending. */
module Ordering {

  /** Python's `<` on `str`: lexicographic by code point, a proper prefix
      first. */
  predicate StrLess(a: string, b: string) {
    if a == [] then b != []
    else if b == [] then false
    else a[0] < b[0] || (a[0] == b[0] && StrLess(a[1..], b[1..]))
  }

  lemma {:induction false} StrLessIrreflexive(a: string)
    ensures !StrLess(a, a)
  {
    if a != [] {
      StrLessIrreflexive(a[1..]);
    }
  }

  lemma {:induction false} StrLessTransitive(a: string, b: string, c: string)
    requires StrLess(a, b) && StrLess(b, c)
    ensures StrLess(a, c)
  {
    if a != [] && a[0] == b[0] && b[0] == c[0] {
      StrLessTransitive(a[1..], b[1..], c[1..]);
    }
  }

  lemma {:induction false} StrLessTotal(a: string, b: string)
    ensures a == b || StrLess(a, b) || StrLess(b, a)
  {
    if a != [] && b != [] && a[0] == b[0] {
      StrLessTotal(a[1..], b[1..]);
      if a[1..] == b[1..] {
        assert a == [a[0]] + a[1..] && b == [b[0]] + b[1..];
      }
    }
  }

  /** `less` is irreflexive, transitive and relates any two distinct values. */
  ghost predicate IsStrictTotalOrder<T(!new)>(less: (T, T) -> bool) {
    (forall a :: !less(a, a)) &&
    (forall a, b, c :: less(a, b) && less(b, c) ==> less(a, c)) &&
    (forall a, b :: a == b || less(a, b) || less(b, a))
  }

  lemma StrLessIsStrictTotalOrder()
    ensures IsStrictTotalOrder(StrLess)
  {
    forall a ensures !StrLess(a, a) {
      StrLessIrreflexive(a);
    }
    forall a, b, c | StrLess(a, b) && StrLess(b, c) ensures StrLess(a, c) {
      StrLessTransitive(a, b, c);
    }
    forall a, b ensures a == b || StrLess(a, b) || StrLess(b, a) {
      StrLessTotal(a, b);
    }
  }

  predicate StrictlySorted<T>(s: seq<T>, less: (T, T) -> bool) {
    forall i, j :: 0 <= i < j < |s| ==> less(s[i], s[j])
  }

  /** Adds `x` to a strictly sorted sequence, keeping it strictly sorted. */
  function Insert<T(==, !new)>(x: T, s: seq<T>, less: (T, T) -> bool): (r: seq<T>)
    requires IsStrictTotalOrder(less) && StrictlySorted(s, less)
    ensures StrictlySorted(r, less)
    ensures forall y :: y in r <==> y == x || y in s
  {
    if s == [] then [x]
    else if x == s[0] then s
    else if less(x, s[0]) then
      assert forall j :: 0 < j < |s| ==> less(s[0], s[j]);
      [x] + s
    else
      assert less(s[0], x);
      var t := Insert(x, s[1..], less);
      assert forall y :: y in s[1..] ==> less(s[0], y) by {
        forall y | y in s[1..] ensures less(s[0], y) {
          var j :| 0 <= j < |s[1..]| && s[1..][j] == y;
          assert s[1 + j] == y;
        }
      }
      assert forall j :: 0 <= j < |t| ==> t[j] in t;
      [s[0]] + t
  }

  /** `sorted(set(s))`. */
  function SortedUnique<T(==, !new)>(s: seq<T>, less: (T, T) -> bool): (r: seq<T>)
    requires IsStrictTotalOrder(less)
    ensures StrictlySorted(r, less)
    ensures forall y :: y in r <==> y in s
  {
    if s == [] then []
    else
      var front := SortedUnique(s[..|s| - 1], less);
      assert forall y :: y in s <==> y in s[..|s| - 1] || y == s[|s| - 1] by {
        assert s == s[..|s| - 1] + [s[|s| - 1]];
      }
      Insert(s[|s| - 1], front, less)
  }

  lemma HeadIsLeast<T(!new)>(s: seq<T>, less: (T, T) -> bool, y: T)
    requires StrictlySorted(s, less) && y in s
    ensures y == s[0] || less(s[0], y)
  {
    var k :| 0 <= k < |s| && s[k] == y;
    if k != 0 {
      assert less(s[0], s[k]);
    }
  }

  /** A strictly sorted sequence is fixed by its elements: `sorted(set(s))`
      does not depend on how `s` is ordered or how often values repeat. */
  lemma {:induction false} StrictlySortedUnique<T(!new)>(a: seq<T>, b: seq<T>, less: (T, T) -> bool)
    requires IsStrictTotalOrder(less)
    requires StrictlySorted(a, less) && StrictlySorted(b, less)
    requires forall y :: y in a <==> y in b
    ensures a == b
  {
    assert a != [] ==> a[0] in b;
    assert b != [] ==> b[0] in a;
    if a != [] {
      HeadIsLeast(b, less, a[0]);
      HeadIsLeast(a, less, b[0]);
      forall y ensures y in a[1..] <==> y in b[1..] {
        if y in a[1..] {
          var k :| 0 < k < |a| && a[k] == y;
          assert less(a[0], y) && y in b;
        }
        if y in b[1..] {
          var k :| 0 < k < |b| && b[k] == y;
          assert less(b[0], y) && y in a;
        }
      }
      StrictlySortedUnique(a[1..], b[1..], less);
      assert a == [a[0]] + a[1..] && b == [b[0]] + b[1..];
    }
  }

  /** A strictly sorted sequence holds each value once. */
  lemma StrictlySortedDistinct<T(!new)>(s: seq<T>, less: (T, T) -> bool, i: nat, j: nat)
    requires IsStrictTotalOrder(less) && StrictlySorted(s, less)
    requires i < |s| && j < |s| && i != j
    ensures s[i] != s[j]
  {
    if i < j { assert less(s[i], s[j]); } else { assert less(s[j], s[i]); }
  }
}
