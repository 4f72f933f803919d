/** Sequence helpers shared by the whole model: Python's `list.index`,
    `list.remove`, and the ascending index lists that `np.nonzero` returns. */
module Sequences {

  datatype Option<T> = None | Some(value: T)

  /** Python's `s.index(x)`: the position of the first occurrence of `x`. */
  function IndexOf<T(==)>(s: seq<T>, x: T): (i: nat)
    requires x in s
    ensures i < |s| && s[i] == x
    ensures x !in s[..i]
  {
    if s[0] == x then 0
    else
      var i := 1 + IndexOf(s[1..], x);
      assert s[..i] == [s[0]] + s[1..][..i - 1];
      i
  }

  /** `list.index` as a total function: `None` stands for the ValueError
      raised when `x` is not in `s`. */
  function Find<T(==)>(s: seq<T>, x: T): (r: Option<nat>)
    ensures r.None? <==> x !in s
    ensures r.Some? ==> r.value < |s| && s[r.value] == x && x !in s[..r.value]
  {
    if x in s then Some(IndexOf(s, x)) else None
  }

  /** No element occurs twice. */
  predicate Distinct<T(==)>(s: seq<T>) {
    forall i, j :: 0 <= i < |s| && 0 <= j < |s| && i != j ==> s[i] != s[j]
  }

  lemma IndexOfDistinct<T>(s: seq<T>, i: nat)
    requires Distinct(s) && i < |s|
    ensures IndexOf(s, s[i]) == i
  {
  }

  /** Python's `s.remove(x)`: drop the first occurrence of `x`. */
  function RemoveFirst<T(==)>(s: seq<T>, x: T): (r: seq<T>)
    requires x in s
    ensures |r| == |s| - 1
    ensures multiset(r) == multiset(s) - multiset{x}
    ensures exists i :: 0 <= i < |s| && s[i] == x && x !in s[..i] && r == s[..i] + s[i + 1..]
  {
    var i := IndexOf(s, x);
    assert s == s[..i] + [x] + s[i + 1..];
    s[..i] + s[i + 1..]
  }

  /** The indices `k < n` with `p(k)`, ascending: `np.nonzero` of a
      boolean vector. */
  function IndicesWhere(n: nat, p: nat -> bool): (r: seq<nat>)
    ensures forall k: nat :: k in r <==> k < n && p(k)
    ensures forall a, b :: 0 <= a < b < |r| ==> r[a] < r[b]
  {
    if n == 0 then []
    else
      var front := IndicesWhere(n - 1, p);
      assert forall a :: 0 <= a < |front| ==> front[a] < n - 1 by {
        forall a | 0 <= a < |front| ensures front[a] < n - 1 {
          assert front[a] in front;
        }
      }
      front + (if p(n - 1) then [n - 1] else [])
  }

  /** Every element of every inner sequence, in order. */
  function Flatten<T(!new)>(ss: seq<seq<T>>): (r: seq<T>)
    ensures forall x :: x in r <==> exists i :: 0 <= i < |ss| && x in ss[i]
  {
    if ss == [] then []
    else
      var r := Flatten(ss[..|ss| - 1]) + ss[|ss| - 1];
      assert forall i :: 0 <= i < |ss| - 1 ==> ss[..|ss| - 1][i] == ss[i];
      r
  }

  lemma {:induction false} FlattenAppend<T(!new)>(ss: seq<seq<T>>, tt: seq<seq<T>>)
    ensures Flatten(ss + tt) == Flatten(ss) + Flatten(tt)
    decreases |tt|
  {
    if tt == [] {
      assert ss + tt == ss;
    } else {
      var front := tt[..|tt| - 1];
      var last := tt[|tt| - 1];
      assert (ss + tt)[..|ss + tt| - 1] == ss + front;
      assert Flatten(ss + tt) == Flatten(ss + front) + last;
      assert Flatten(tt) == Flatten(front) + last;
      FlattenAppend(ss, front);
    }
  }

  /** Joining sequences of one common length `w`. */
  lemma {:induction false} FlattenLength<T(!new)>(ss: seq<seq<T>>, w: nat)
    requires forall i :: 0 <= i < |ss| ==> |ss[i]| == w
    ensures |Flatten(ss)| == |ss| * w
  {
    if ss != [] {
      var front := ss[..|ss| - 1];
      assert forall i :: 0 <= i < |front| ==> |front[i]| == w by {
        assert forall i :: 0 <= i < |front| ==> front[i] == ss[i];
      }
      FlattenLength(front, w);
      assert |Flatten(ss)| == |Flatten(front)| + w;
      MulSucc(|front|, w);
    }
  }

  /** One more row of width `b` adds `b` cells. */
  lemma MulSucc(a: nat, b: nat)
    ensures (a + 1) * b == a * b + b
  {
  }
}
