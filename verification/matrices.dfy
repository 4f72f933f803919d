/** The E x S allocation matrix and the numpy idioms the scheduler applies to
    it: shapes, 0/1 contents, row and column sums, and `np.nonzero`, which
    lists the nonzero cells of a matrix in row-major order. */
module Matrices {
  import opened Sequences

  /** Row i is event i, column j is slot j. */
  type Matrix = seq<seq<int>>

  /** A (row, column) index pair. */
  type Cell = (nat, nat)

  predicate IsShape(X: Matrix, m: nat, n: nat) {
    |X| == m && forall i :: 0 <= i < m ==> |X[i]| == n
  }

  predicate IsBinaryRow(s: seq<int>) {
    forall j :: 0 <= j < |s| ==> s[j] == 0 || s[j] == 1
  }

  predicate IsBinary(X: Matrix) {
    forall i :: 0 <= i < |X| ==> IsBinaryRow(X[i])
  }

  /** Number of columns (that of the first row). */
  function Width(X: Matrix): nat {
    if |X| == 0 then 0 else |X[0]|
  }

  function Zeros(m: nat, n: nat): (X: Matrix)
    ensures IsShape(X, m, n) && IsBinary(X)
  {
    seq(m, _ => seq(n, _ => 0))
  }

  /** A row of `n` cells holding a single 1, at column `j`. */
  function UnitRow(n: nat, j: nat): seq<int> {
    seq(n, k => if k == j then 1 else 0)
  }

  /** Python's `sum` over a row. */
  function Sum(s: seq<int>): int {
    if s == [] then 0 else Sum(s[..|s| - 1]) + s[|s| - 1]
  }

  function Column(X: Matrix, j: nat): (c: seq<int>)
    requires forall i :: 0 <= i < |X| ==> j < |X[i]|
    ensures |c| == |X| && forall i :: 0 <= i < |X| ==> c[i] == X[i][j]
  {
    seq(|X|, i requires 0 <= i < |X| => X[i][j])
  }

  predicate AtMostOneOne(s: seq<int>) {
    forall a, b :: 0 <= a < b < |s| ==> s[a] != 1 || s[b] != 1
  }

  predicate ExactlyOneOne(s: seq<int>) {
    (exists j :: 0 <= j < |s| && s[j] == 1) && AtMostOneOne(s)
  }

  /** On a 0/1 row, the sum counts the ones: it is at most 1 exactly when at
      most one cell is 1, and it is 1 exactly when one cell is 1. */
  lemma {:induction false} SumOfBinaryRow(s: seq<int>)
    requires IsBinaryRow(s)
    ensures Sum(s) >= 0
    ensures Sum(s) == 0 <==> forall j :: 0 <= j < |s| ==> s[j] == 0
    ensures Sum(s) <= 1 <==> AtMostOneOne(s)
    ensures Sum(s) == 1 <==> ExactlyOneOne(s)
  {
    if s != [] {
      var t := s[..|s| - 1];
      assert forall j :: 0 <= j < |t| ==> t[j] == s[j];
      SumOfBinaryRow(t);
      if s[|s| - 1] == 1 {
        assert ExactlyOneOne(s) ==> forall j :: 0 <= j < |t| ==> t[j] == 0;
      } else {
        assert AtMostOneOne(t) ==> AtMostOneOne(s);
        assert ExactlyOneOne(s) ==> ExactlyOneOne(t);
      }
    }
  }

  lemma {:induction false} SumOfUnitRow(n: nat, j: nat)
    requires j < n
    ensures Sum(UnitRow(n, j)) == 1
  {
    var u := UnitRow(n, j);
    assert IsBinaryRow(u) && u[j] == 1;
    assert AtMostOneOne(u);
    SumOfBinaryRow(u);
  }

  lemma {:induction false} SumOfZeroRow(s: seq<int>)
    requires forall j :: 0 <= j < |s| ==> s[j] == 0
    ensures Sum(s) == 0
  {
    assert IsBinaryRow(s);
    SumOfBinaryRow(s);
  }

  /** A 0/1 row with exactly one 1 is a unit row. */
  lemma ExactlyOneIsUnit(s: seq<int>, j: nat)
    requires IsBinaryRow(s) && ExactlyOneOne(s) && j < |s| && s[j] == 1
    ensures s == UnitRow(|s|, j)
  {
    forall k | 0 <= k < |s| && k != j ensures s[k] == 0 {
      var lo, hi := if k < j then k else j, if k < j then j else k;
      assert s[lo] != 1 || s[hi] != 1;
    }
  }

  /** Every pair indexes a row below `m` and a column below `n`. */
  predicate InRange(cells: seq<Cell>, m: nat, n: nat) {
    forall k :: 0 <= k < |cells| ==> cells[k].0 < m && cells[k].1 < n
  }

  /** Row-major (lexicographic) order on cells. */
  predicate LexLess(a: Cell, b: Cell) {
    a.0 < b.0 || (a.0 == b.0 && a.1 < b.1)
  }

  predicate CellSorted(cs: seq<Cell>) {
    forall a, b :: 0 <= a < b < |cs| ==> LexLess(cs[a], cs[b])
  }

  /** The cells of row `i` at the columns `js`, in the order of `js`. */
  function RowCells(i: nat, js: seq<nat>): (r: seq<Cell>)
    ensures forall c: Cell :: c in r <==> c.0 == i && c.1 in js
    ensures |r| == |js| && forall k :: 0 <= k < |js| ==> r[k] == (i, js[k])
  {
    if js == [] then [] else [(i, js[0])] + RowCells(i, js[1..])
  }

  /** The cells of an m x n grid satisfying `p`, in row-major order: the
      shape of every nested `for row ... for col ... if ...` in the source. */
  function CellsWhere(m: nat, n: nat, p: (nat, nat) -> bool): (r: seq<Cell>)
    ensures forall c: Cell :: c in r <==> c.0 < m && c.1 < n && p(c.0, c.1)
    ensures CellSorted(r)
  {
    if m == 0 then []
    else
      var front := CellsWhere(m - 1, n, p);
      var js := IndicesWhere(n, (j: nat) => p(m - 1, j));
      AppendRowSorted(front, m - 1, js);
      front + RowCells(m - 1, js)
  }

  /** A row whose columns increase, after cells of earlier rows, keeps a
      sorted list sorted. */
  lemma AppendRowSorted(front: seq<Cell>, i: nat, js: seq<nat>)
    requires CellSorted(front) && forall c: Cell :: c in front ==> c.0 < i
    requires forall a, b :: 0 <= a < b < |js| ==> js[a] < js[b]
    ensures CellSorted(front + RowCells(i, js))
  {
    var row := RowCells(i, js);
    var r := front + row;
    forall a, b | 0 <= a < b < |r| ensures LexLess(r[a], r[b]) {
      if b < |front| {
        assert r[a] == front[a] && r[b] == front[b];
      } else if a < |front| {
        assert r[a] == front[a] && front[a] in front;
        assert r[b] == row[b - |front|];
      } else {
        assert r[a] == row[a - |front|] && r[b] == row[b - |front|];
      }
    }
  }

  /** `np.transpose(np.nonzero(X))`: the nonzero cells in row-major order. */
  function NonzeroCells(X: Matrix): (r: seq<Cell>)
    ensures forall c: Cell :: c in r <==> c.0 < |X| && c.1 < Width(X) && c.1 < |X[c.0]| && X[c.0][c.1] != 0
    ensures CellSorted(r)
  {
    CellsWhere(|X|, Width(X), (i: nat, j: nat) => i < |X| && j < |X[i]| && X[i][j] != 0)
  }

  /** A sorted cell list holds each cell once. */
  lemma CellSortedDistinct(cs: seq<Cell>)
    requires CellSorted(cs)
    ensures Distinct(cs)
  {
    forall i, j | 0 <= i < |cs| && 0 <= j < |cs| && i != j ensures cs[i] != cs[j] {
      if i < j { assert LexLess(cs[i], cs[j]); } else { assert LexLess(cs[j], cs[i]); }
    }
  }

  /** Two matrices of one shape that agree cell by cell are equal. */
  lemma SameCells(X: Matrix, Y: Matrix, m: nat, n: nat)
    requires IsShape(X, m, n) && IsShape(Y, m, n)
    requires forall i, j :: 0 <= i < m && 0 <= j < n ==> X[i][j] == Y[i][j]
    ensures X == Y
  {
    forall i | 0 <= i < m ensures X[i] == Y[i] {
      assert forall j :: 0 <= j < n ==> X[i][j] == Y[i][j];
    }
  }

  /** The value of a numpy buffer once the loop filling it is done. */
  function Freeze(a: array2<int>): (X: Matrix)
    reads a
    ensures IsShape(X, a.Length0, a.Length1)
    ensures forall i, j :: 0 <= i < a.Length0 && 0 <= j < a.Length1 ==> X[i][j] == a[i, j]
  {
    seq(a.Length0, i requires 0 <= i < a.Length0 reads a =>
      seq(a.Length1, j requires 0 <= j < a.Length1 reads a => a[i, j]))
  }
}
