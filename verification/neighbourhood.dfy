/** The two array builders of the search heuristics
    (src/conference_scheduler/heuristics/utils.py): the relocate-or-swap
    move and the initial array. NumPy's random draws are arguments: the row
    to move, the raw slot draw in `[0, n-1)` and the row permutation of the
    shuffle. The working copy is an array of rows, so that the row writes
    and the row swap of the source are single assignments. */
module Neighbourhood {
  import opened Sequences
  import opened Matrices

  /** Each row holds exactly one 1, each column at most one: every event in
      one slot, no slot used twice. */
  predicate IsAssignment(X: Matrix, m: nat, n: nat) {
    IsShape(X, m, n) && IsBinary(X) &&
    (forall i :: 0 <= i < m ==> ExactlyOneOne(X[i])) &&
    (forall a, b, j :: 0 <= a < b < m && 0 <= j < n ==> X[a][j] != 1 || X[b][j] != 1)
  }

  /** The column form of the last conjunct. */
  lemma AssignmentColumns(X: Matrix, m: nat, n: nat, j: nat)
    requires IsAssignment(X, m, n) && j < n
    ensures AtMostOneOne(Column(X, j))
  {
  }

  // ---- element_from_neighbourhood ----

  /** `slot_to_move_to`: the raw draw, skipping the current slot. */
  function Target(current: nat, raw: nat): (t: nat)
    ensures t != current
    ensures (t < current <==> raw < current) && (t == raw || t == raw + 1)
  {
    if raw >= current then raw + 1 else raw
  }

  /** `np.where(X[:, t] == 1)[0]`: the rows with a 1 in column `t`, in
      increasing order. */
  function OnesInColumn(X: Matrix, t: nat): (r: seq<nat>)
    ensures forall i: nat :: i in r <==> i < |X| && t < |X[i]| && X[i][t] == 1
    ensures forall a, b :: 0 <= a < b < |r| ==> r[a] < r[b]
  {
    OnesInColumnBelow(X, t, |X|)
  }

  /** The rows below `k` with a 1 in column `t`. */
  function OnesInColumnBelow(X: Matrix, t: nat, k: nat): (r: seq<nat>)
    requires k <= |X|
    ensures forall i: nat :: i in r <==> i < k && t < |X[i]| && X[i][t] == 1
    ensures forall a, b :: 0 <= a < b < |r| ==> r[a] < r[b]
  {
    if k == 0 then []
    else
      var front := OnesInColumnBelow(X, t, k - 1);
      assert forall a :: 0 <= a < |front| ==> front[a] < k - 1 by {
        forall a | 0 <= a < |front| ensures front[a] < k - 1 {
          assert front[a] in front;
        }
      }
      front + (if t < |X[k - 1]| && X[k - 1][t] == 1 then [k - 1] else [])
  }

  /** The move, as a value. `None` is the ValueError of `randint(0)` when
      there are no events or a single slot, or the IndexError of a row
      without a 1. */
  function Neighbour(X: Matrix, row: nat, raw: nat): (r: Option<Matrix>)
    requires IsShape(X, |X|, Width(X)) && (|X| == 0 || row < |X|)
    requires Width(X) >= 2 ==> raw < Width(X) - 1
    ensures r.Some? ==> IsShape(r.value, |X|, Width(X))
  {
    var n := Width(X);
    assert forall i :: 0 <= i < |X| ==> |X[i]| == n;
    if |X| == 0 then None
    else match Find(X[row], 1)
    case None => None
    case Some(current) =>
      if n < 2 then None
      else
        var t := Target(current, raw);
        var col := OnesInColumn(X, t);
        if col == [] then Some(X[row := UnitRow(n, t)])
        else
          assert col[0] in col;
          Some(SwapRows(X, row, col[0]))
  }

  /** The array with rows `p` and `q` exchanged. */
  function SwapRows(X: Matrix, p: nat, q: nat): (Y: Matrix)
    requires p < |X| && q < |X|
    ensures IsShape(X, |X|, Width(X)) ==> IsShape(Y, |X|, Width(X))
  {
    X[p := X[q]][q := X[p]]
  }

  /** `element_from_neighbourhood`: copy, then overwrite or swap rows of the
      copy. The argument is a value, so the caller's array is untouched. */
  method ElementFromNeighbourhood(X: Matrix, row: nat, raw: nat) returns (r: Option<Matrix>)
    requires IsShape(X, |X|, Width(X)) && (|X| == 0 || row < |X|)
    requires Width(X) >= 2 ==> raw < Width(X) - 1
    ensures r == Neighbour(X, row, raw)
  {
    var m, n := |X|, Width(X);
    var newX := new seq<int>[m](i => if 0 <= i < m then X[i] else []);
    assert newX[..] == X;
    if m == 0 {
      return None;
    }
    var current := Find(newX[row], 1);
    if current.None? || n < 2 {
      return None;
    }
    var t := Target(current.value, raw);
    var scheduled := OnesInColumn(newX[..], t);
    if |scheduled| == 0 {
      MoveToEmptySlot(newX, row, n, t);
    } else {
      assert scheduled[0] in scheduled;
      SwapArrayRows(newX, row, scheduled[0]);
    }
    r := Some(newX[..]);
  }

  /** `X[row] = np.zeros(n)` then `X[row, t] = 1`. */
  method MoveToEmptySlot(a: array<seq<int>>, row: nat, n: nat, t: nat)
    requires row < a.Length && t < n
    modifies a
    ensures a[..] == old(a[..])[row := UnitRow(n, t)]
  {
    a[row] := seq(n, _ => 0);
    a[row] := a[row][t := 1];
    assert a[row] == UnitRow(n, t);
  }

  /** `X[[row, other]] = X[[other, row]]`. */
  method SwapArrayRows(a: array<seq<int>>, p: nat, q: nat)
    requires p < a.Length && q < a.Length
    modifies a
    ensures a[..] == SwapRows(old(a[..]), p, q)
  {
    a[p], a[q] := a[q], a[p];
  }

  /** The target lies in `[0, n)` and is not the moved event's slot. */
  lemma TargetInRange(X: Matrix, row: nat, raw: nat)
    requires IsShape(X, |X|, Width(X)) && row < |X| && Width(X) >= 2 && raw < Width(X) - 1
    requires Find(X[row], 1).Some?
    ensures Target(Find(X[row], 1).value, raw) < Width(X)
    ensures Target(Find(X[row], 1).value, raw) != Find(X[row], 1).value
  {
  }

  /** The move only touches the moved row and, when it swaps, the row of
      the first event in the target slot: of any two rows other than the
      moved one, at least one is unchanged. */
  lemma NeighbourChangesAtMostTwoRows(X: Matrix, row: nat, raw: nat)
    requires IsShape(X, |X|, Width(X)) && (|X| == 0 || row < |X|)
    requires Width(X) >= 2 ==> raw < Width(X) - 1
    requires Neighbour(X, row, raw).Some?
    ensures forall a, b :: 0 <= a < b < |X| && a != row && b != row ==>
      Neighbour(X, row, raw).value[a] == X[a] || Neighbour(X, row, raw).value[b] == X[b]
  {
    assert row < |X|;
    var t := Target(Find(X[row], 1).value, raw);
    var col := OnesInColumn(X, t);
    if col != [] {
      assert col[0] in col;
    }
  }

  /** Moving an event to a free slot keeps an assignment. */
  lemma RelocateKeepsAssignment(X: Matrix, m: nat, n: nat, row: nat, t: nat)
    requires IsAssignment(X, m, n) && row < m && t < n
    requires forall i :: 0 <= i < m ==> X[i][t] != 1
    ensures IsAssignment(X[row := UnitRow(n, t)], m, n)
  {
    var Y := X[row := UnitRow(n, t)];
    assert Y[row][t] == 1;
    forall a, b, k | 0 <= a < b < m && 0 <= k < n ensures Y[a][k] != 1 || Y[b][k] != 1 {
      if a != row && b != row {
        assert Y[a] == X[a] && Y[b] == X[b];
      }
    }
  }

  /** Exchanging the slots of two events keeps an assignment. */
  lemma SwapKeepsAssignment(X: Matrix, m: nat, n: nat, p: nat, q: nat)
    requires IsAssignment(X, m, n) && p < m && q < m
    ensures IsAssignment(SwapRows(X, p, q), m, n)
  {
    var Y := SwapRows(X, p, q);
    forall a, b, k | 0 <= a < b < m && 0 <= k < n ensures Y[a][k] != 1 || Y[b][k] != 1 {
      var a' := if a == q then p else if a == p then q else a;
      var b' := if b == q then p else if b == p then q else b;
      assert Y[a] == X[a'] && Y[b] == X[b'];
      assert a' != b';
      if b' < a' {
        assert X[b'][k] != 1 || X[a'][k] != 1;
      }
    }
  }

  /** On an assignment with at least two slots the move never fails, and it
      gives an assignment again: each event in one slot, no slot twice. */
  lemma NeighbourKeepsAssignment(X: Matrix, m: nat, n: nat, row: nat, raw: nat)
    requires IsAssignment(X, m, n) && n >= 2 && row < m && raw < n - 1
    ensures Width(X) == n
    ensures Neighbour(X, row, raw).Some?
    ensures IsAssignment(Neighbour(X, row, raw).value, m, n)
  {
    assert X[row] in X;
    assert 1 in X[row];
    var current := Find(X[row], 1).value;
    var t := Target(current, raw);
    var col := OnesInColumn(X, t);
    if col == [] {
      forall i | 0 <= i < m ensures X[i][t] != 1 {
        assert (i as nat) !in col;
      }
      RelocateKeepsAssignment(X, m, n, row, t);
    } else {
      assert col[0] in col;
      SwapKeepsAssignment(X, m, n, row, col[0]);
    }
  }

  // ---- get_initial_array ----

  /** `perm` lists each of `0 .. m-1` exactly once: the order the shuffle
      leaves the rows in. */
  predicate IsPermutation(perm: seq<nat>, m: nat) {
    |perm| == m && Distinct(perm) &&
    (forall k :: 0 <= k < m ==> perm[k] < m) && (forall j: nat :: j < m ==> j in perm)
  }

  /** The initial array as a value: row k of the shuffled array is the
      unit row of the diagonal row `perm[k]`. `None` is the IndexError of
      `X[i, i]` when there are more events than slots. */
  function InitialArray(m: nat, n: nat, perm: seq<nat>): (r: Option<Matrix>)
    requires IsPermutation(perm, m)
    ensures r.Some? <==> m <= n
  {
    if m > n then None else Some(seq(m, k requires 0 <= k < m => UnitRow(n, perm[k])))
  }

  /** `get_initial_array`: ones on the diagonal, then the row shuffle. */
  method GetInitialArray(m: nat, n: nat, perm: seq<nat>) returns (r: Option<Matrix>)
    requires IsPermutation(perm, m)
    ensures r == InitialArray(m, n, perm)
  {
    var X := new seq<int>[m](_ => seq(n, _ => 0));
    for i := 0 to m
      invariant forall k :: 0 <= k < i ==> X[k] == UnitRow(n, k)
      invariant forall k :: i <= k < m ==> X[k] == seq(n, _ => 0)
      invariant i <= n
    {
      if i >= n {
        return None;
      }
      X[i] := X[i][i := 1];
      assert X[i] == UnitRow(n, i);
    }
    var rows := X[..];
    for k := 0 to m
      invariant forall q :: 0 <= q < k ==> X[q] == UnitRow(n, perm[q])
    {
      X[k] := rows[perm[k]];
    }
    assert X[..] == seq(m, k requires 0 <= k < m => UnitRow(n, perm[k]));
    r := Some(X[..]);
  }

  /** The initial array is an assignment that fills exactly the first m
      slots: columns below m hold one 1, the others none. */
  lemma InitialArraySpec(m: nat, n: nat, perm: seq<nat>)
    requires IsPermutation(perm, m) && m <= n
    ensures IsAssignment(InitialArray(m, n, perm).value, m, n)
    ensures forall j :: 0 <= j < m ==> ExactlyOneOne(Column(InitialArray(m, n, perm).value, j))
    ensures forall j, i :: m <= j < n && 0 <= i < m ==> InitialArray(m, n, perm).value[i][j] == 0
  {
    var X := InitialArray(m, n, perm).value;
    forall i | 0 <= i < m ensures ExactlyOneOne(X[i]) {
      assert X[i][perm[i]] == 1;
    }
    forall a, b, j | 0 <= a < b < m && 0 <= j < n ensures X[a][j] != 1 || X[b][j] != 1 {
      assert perm[a] != perm[b];
    }
    forall j | 0 <= j < m ensures ExactlyOneOne(Column(X, j)) {
      assert (j as nat) in perm;
      var k :| 0 <= k < m && perm[k] == j;
      assert Column(X, j)[k] == 1;
    }
  }
}
