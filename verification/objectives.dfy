/** The objective functions: the capacity/demand differences of both trees
    (src/conference_scheduler/lp_problem/objective_functions.py and
    conference_scheduler/lp_problem/objective_functions.py) and the number of
    changes against an earlier schedule. Each accumulator loop is a method
    proved equal to a sum over the cells of the array. */
module Objectives {
  import opened Sequences
  import opened Matrices
  import opened Resources
  import opened Converter

  /** `f(i, 0) + ... + f(i, n-1)`. */
  function RowSum(i: nat, n: nat, f: (nat, nat) -> int): int {
    if n == 0 then 0 else RowSum(i, n - 1, f) + f(i, n - 1)
  }

  /** The sum of `f` over the cells of an m x n grid, row by row. */
  function GridSum(m: nat, n: nat, f: (nat, nat) -> int): int {
    if m == 0 then 0 else GridSum(m - 1, n, f) + RowSum(m - 1, n, f)
  }

  /** Sums of functions that agree on the grid agree. */
  lemma {:induction false} GridSumExt(m: nat, n: nat, f: (nat, nat) -> int, g: (nat, nat) -> int)
    requires forall i: nat, j: nat :: i < m && j < n ==> f(i, j) == g(i, j)
    ensures GridSum(m, n, f) == GridSum(m, n, g)
  {
    if m > 0 {
      GridSumExt(m - 1, n, f, g);
      RowSumExt(m - 1, n, f, g);
    }
  }

  lemma {:induction false} RowSumExt(i: nat, n: nat, f: (nat, nat) -> int, g: (nat, nat) -> int)
    requires forall j: nat :: j < n ==> f(i, j) == g(i, j)
    ensures RowSum(i, n, f) == RowSum(i, n, g)
  {
    if n > 0 {
      RowSumExt(i, n - 1, f, g);
    }
  }

  /** Summing the negated terms negates the sum. */
  lemma {:induction false} GridSumNegate(m: nat, n: nat, f: (nat, nat) -> int, g: (nat, nat) -> int)
    requires forall i: nat, j: nat :: i < m && j < n ==> g(i, j) == -f(i, j)
    ensures GridSum(m, n, g) == -GridSum(m, n, f)
  {
    if m > 0 {
      GridSumNegate(m - 1, n, f, g);
      RowSumNegate(m - 1, n, f, g);
    }
  }

  lemma {:induction false} RowSumNegate(i: nat, n: nat, f: (nat, nat) -> int, g: (nat, nat) -> int)
    requires forall j: nat :: j < n ==> g(i, j) == -f(i, j)
    ensures RowSum(i, n, g) == -RowSum(i, n, f)
  {
    if n > 0 {
      RowSumNegate(i, n - 1, f, g);
    }
  }

  /** A sum of zero terms is zero. */
  lemma {:induction false} GridSumOfZeros(m: nat, n: nat, f: (nat, nat) -> int)
    requires forall i: nat, j: nat :: i < m && j < n ==> f(i, j) == 0
    ensures GridSum(m, n, f) == 0
  {
    if m > 0 {
      GridSumOfZeros(m - 1, n, f);
      RowSumOfZeros(m - 1, n, f);
    }
  }

  lemma {:induction false} RowSumOfZeros(i: nat, n: nat, f: (nat, nat) -> int)
    requires forall j: nat :: j < n ==> f(i, j) == 0
    ensures RowSum(i, n, f) == 0
  {
    if n > 0 {
      RowSumOfZeros(i, n - 1, f);
    }
  }

  /** A row whose only nonzero term is at `p` sums to that term. */
  lemma {:induction false} RowSumSingle(i: nat, n: nat, f: (nat, nat) -> int, p: nat)
    requires p < n && forall j: nat :: j < n && j != p ==> f(i, j) == 0
    ensures RowSum(i, n, f) == f(i, p)
  {
    if n - 1 == p {
      RowSumOfZeros(i, n - 1, f);
    } else {
      RowSumSingle(i, n - 1, f, p);
    }
  }

  // ---- capacity and demand ----

  /** The term of cell (i, j): `(event.demand - slot.capacity) * X[i, j]`. */
  function OverflowTerm(events: seq<EventValue>, slots: seq<Slot>, X: Matrix): (nat, nat) -> int {
    (i: nat, j: nat) =>
      if i < |events| && j < |slots| && i < |X| && j < |X[i]| then (events[i].demand - slots[j].capacity) * X[i][j] else 0
  }

  /** The total over all cells of demand minus capacity, where X is set. */
  function Overflow(events: seq<EventValue>, slots: seq<Slot>, X: Matrix): int {
    GridSum(|events|, |slots|, OverflowTerm(events, slots, X))
  }

  /** `efficiency_capacity_demand_difference`: the accumulator loop. */
  method EfficiencyCapacityDemandDifference(slots: seq<Slot>, events: seq<EventValue>, X: Matrix) returns (overflow: int)
    requires IsShape(X, |events|, |slots|)
    ensures overflow == Overflow(events, slots, X)
  {
    var f := OverflowTerm(events, slots, X);
    overflow := 0;
    var row := 0;
    while row < |events|
      invariant 0 <= row <= |events|
      invariant overflow == GridSum(row, |slots|, f)
    {
      var col := 0;
      while col < |slots|
        invariant 0 <= col <= |slots|
        invariant overflow == GridSum(row, |slots|, f) + RowSum(row, col, f)
      {
        overflow := overflow + (events[row].demand - slots[col].capacity) * X[row][col];
        col := col + 1;
      }
      row := row + 1;
    }
  }

  /** `capacity_demand_difference` of the older tree: the same loop with
      capacity minus demand, hence the negation of the newer function. */
  method CapacityDemandDifference(slots: seq<Slot>, events: seq<EventValue>, X: Matrix) returns (overflow: int)
    requires IsShape(X, |events|, |slots|)
    ensures overflow == -Overflow(events, slots, X)
  {
    var f := OverflowTerm(events, slots, X);
    var g := (i: nat, j: nat) => -f(i, j);
    overflow := 0;
    var row := 0;
    while row < |events|
      invariant 0 <= row <= |events|
      invariant overflow == GridSum(row, |slots|, g)
    {
      var col := 0;
      while col < |slots|
        invariant 0 <= col <= |slots|
        invariant overflow == GridSum(row, |slots|, g) + RowSum(row, col, g)
      {
        overflow := overflow + (slots[col].capacity - events[row].demand) * X[row][col];
        col := col + 1;
      }
      row := row + 1;
    }
    GridSumNegate(|events|, |slots|, f, g);
  }

  /** Nothing scheduled: no overflow. */
  lemma OverflowOfZeros(events: seq<EventValue>, slots: seq<Slot>)
    ensures Overflow(events, slots, Zeros(|events|, |slots|)) == 0
  {
    GridSumOfZeros(|events|, |slots|, OverflowTerm(events, slots, Zeros(|events|, |slots|)));
  }

  /** Demand minus capacity of each event's slot, added over the events
      `0 .. k-1`, where event i is in slot `slotOf[i]`. */
  function AssignedOverflow(events: seq<EventValue>, slots: seq<Slot>, slotOf: seq<nat>, k: nat): int
    requires k <= |events| && k <= |slotOf| && forall i :: 0 <= i < k ==> slotOf[i] < |slots|
  {
    if k == 0 then 0
    else AssignedOverflow(events, slots, slotOf, k - 1) + (events[k - 1].demand - slots[slotOf[k - 1]].capacity)
  }

  /** When every event is in exactly one slot the overflow is the sum over
      events of demand minus the capacity of that event's slot. */
  lemma {:induction false} OverflowOfAssignment(events: seq<EventValue>, slots: seq<Slot>, X: Matrix, slotOf: seq<nat>, k: nat)
    requires |slotOf| == |events| && k <= |events| && forall i :: 0 <= i < |events| ==> slotOf[i] < |slots|
    requires |X| == |events| && forall i :: 0 <= i < |events| ==> X[i] == UnitRow(|slots|, slotOf[i])
    ensures GridSum(k, |slots|, OverflowTerm(events, slots, X)) == AssignedOverflow(events, slots, slotOf, k)
  {
    if k > 0 {
      OverflowOfAssignment(events, slots, X, slotOf, k - 1);
      RowSumSingle(k - 1, |slots|, OverflowTerm(events, slots, X), slotOf[k - 1]);
    }
  }

  /** `equity_capacity_demand_difference`: `beta`, whatever the array. */
  function EquityCapacityDemandDifference(slots: seq<Slot>, events: seq<EventValue>, X: Matrix, beta: int): (r: int)
    ensures r == beta
  {
    beta
  }

  /** The equity objective does not look at the array. */
  lemma EquityIgnoresArray(slots: seq<Slot>, events: seq<EventValue>, X: Matrix, Y: Matrix, beta: int)
    ensures EquityCapacityDemandDifference(slots, events, X, beta) == EquityCapacityDemandDifference(slots, events, Y, beta)
  {
  }

  // ---- number_of_changes ----

  /** The term of cell (i, j): `X[i, j]` where the original is 0, otherwise
      `1 - X[i, j]`. */
  function ChangeTerm(O: Matrix, X: Matrix): (nat, nat) -> int {
    (i: nat, j: nat) =>
      if i < |O| && j < |O[i]| && i < |X| && j < |X[i]| then (if O[i][j] == 0 then X[i][j] else 1 - X[i][j]) else 0
  }

  function Changes(O: Matrix, X: Matrix, m: nat, n: nat): int {
    GridSum(m, n, ChangeTerm(O, X))
  }

  /** 1 where two arrays differ. */
  function MismatchTerm(O: Matrix, X: Matrix): (nat, nat) -> int {
    (i: nat, j: nat) => if i < |O| && j < |O[i]| && i < |X| && j < |X[i]| && O[i][j] != X[i][j] then 1 else 0
  }

  /** The number of cells where two arrays differ. */
  function Mismatches(O: Matrix, X: Matrix, m: nat, n: nat): int {
    GridSum(m, n, MismatchTerm(O, X))
  }

  /** The accumulator loop of `number_of_changes`, over the original array. */
  method CountChanges(O: Matrix, X: Matrix, m: nat, n: nat) returns (changes: int)
    requires IsShape(O, m, n) && IsShape(X, m, n)
    ensures changes == Changes(O, X, m, n)
  {
    var f := ChangeTerm(O, X);
    changes := 0;
    var row := 0;
    while row < |O|
      invariant 0 <= row <= m
      invariant changes == GridSum(row, n, f)
    {
      var col := 0;
      while col < |O[row]|
        invariant 0 <= col <= n
        invariant changes == GridSum(row, n, f) + RowSum(row, col, f)
      {
        if O[row][col] == 0 {
          changes := changes + X[row][col];
        } else {
          changes := changes + (1 - X[row][col]);
        }
        col := col + 1;
      }
      row := row + 1;
    }
  }

  /** `number_of_changes`: `None` where converting the original schedule
      raises. */
  method NumberOfChanges(slots: seq<Slot>, events: seq<EventValue>, original: seq<ScheduledItem>, X: Matrix)
    returns (r: Option<int>)
    requires IsShape(X, |events|, |slots|)
    ensures r.Some? <==> AllListed(original, events, slots)
    ensures r.Some? ==> r.value == Changes(ScheduleArray(original, events, slots).value, X, |events|, |slots|)
  {
    var converted := ScheduleToArray(original, events, slots);
    if converted.None? {
      return None;
    }
    var changes := CountChanges(converted.value, X, |events|, |slots|);
    r := Some(changes);
  }

  /** On 0/1 arrays the number of changes is the number of cells where the
      two arrays differ. */
  lemma ChangesAreMismatches(O: Matrix, X: Matrix, m: nat, n: nat)
    requires IsShape(O, m, n) && IsShape(X, m, n) && IsBinary(O) && IsBinary(X)
    ensures Changes(O, X, m, n) == Mismatches(O, X, m, n)
  {
    forall i: nat, j: nat | i < m && j < n ensures ChangeTerm(O, X)(i, j) == MismatchTerm(O, X)(i, j) {
      assert IsBinaryRow(O[i]) && IsBinaryRow(X[i]);
    }
    GridSumExt(m, n, ChangeTerm(O, X), MismatchTerm(O, X));
  }

  /** An array has no changes against itself, and on 0/1 arrays the count
      is symmetric. */
  lemma ChangesOfSelf(O: Matrix, X: Matrix, m: nat, n: nat)
    requires IsShape(O, m, n) && IsShape(X, m, n) && IsBinary(O) && IsBinary(X)
    ensures Changes(O, O, m, n) == 0
    ensures Changes(O, X, m, n) == Changes(X, O, m, n)
  {
    ChangesAreMismatches(O, O, m, n);
    ChangesAreMismatches(O, X, m, n);
    ChangesAreMismatches(X, O, m, n);
    GridSumOfZeros(m, n, MismatchTerm(O, O));
    GridSumExt(m, n, MismatchTerm(O, X), MismatchTerm(X, O));
  }
}
