/** The three forms of a schedule and the conversions between them
    (src/conference_scheduler/converter.py; scheduler.py repeats the same four
    bodies):
      - a solution: (event index, slot index) pairs;
      - an array: the E x S 0/1 matrix;
      - a schedule: `ScheduledItem` records.
    Python's IndexError and ValueError become `None`. */
module Converter {
  import opened Sequences
  import opened Matrices
  import opened Resources

  /** The m x n matrix with a 1 at exactly the listed cells. */
  function Marked(cells: seq<Cell>, m: nat, n: nat): (X: Matrix)
    ensures IsShape(X, m, n) && IsBinary(X)
    ensures forall i: nat, j: nat :: i < m && j < n ==> (X[i][j] == 1 <==> (i, j) in cells)
  {
    seq(m, i requires 0 <= i < m => seq(n, j requires 0 <= j < n => if (i as nat, j as nat) in cells then 1 else 0))
  }

  /** `solution_to_array`: `None` where a pair lies outside the array. */
  function SolutionArray(solution: seq<Cell>, events: seq<EventValue>, slots: seq<Slot>): (r: Option<Matrix>)
  {
    if InRange(solution, |events|, |slots|) then Some(Marked(solution, |events|, |slots|)) else None
  }

  /** The loop of `solution_to_array`: a zero buffer, then a 1 at each pair. */
  method SolutionToArray(solution: seq<Cell>, events: seq<EventValue>, slots: seq<Slot>) returns (r: Option<Matrix>)
    ensures r.Some? <==> InRange(solution, |events|, |slots|)
    ensures r.Some? ==> IsShape(r.value, |events|, |slots|) && IsBinary(r.value)
    ensures r.Some? ==> forall i: nat, j: nat :: i < |events| && j < |slots| ==>
                          (r.value[i][j] == 1 <==> (i, j) in solution)
    ensures r == SolutionArray(solution, events, slots)
  {
    var m, n := |events|, |slots|;
    var a := new int[m, n]((i, j) => 0);
    var k := 0;
    while k < |solution|
      invariant 0 <= k <= |solution|
      invariant InRange(solution[..k], m, n)
      invariant forall i: nat, j: nat :: i < m && j < n ==>
                  a[i, j] == if (i, j) in solution[..k] then 1 else 0
    {
      var (i, j) := solution[k];
      if !(i < m && j < n) {
        assert !InRange(solution, m, n);
        return None;
      }
      a[i, j] := 1;
      assert solution[..k + 1] == solution[..k] + [solution[k]];
      k := k + 1;
    }
    assert solution[..k] == solution;
    var X := Freeze(a);
    var M := Marked(solution, m, n);
    forall i: nat | i < m ensures X[i] == M[i] {
      forall j: nat | j < n ensures X[i][j] == M[i][j] {
        assert X[i][j] == a[i, j];
      }
    }
    assert X == M;
    r := Some(X);
  }

  /** Each pair becomes `ScheduledItem(events[i], slots[j])`, in order. */
  function SolutionSchedule(solution: seq<Cell>, events: seq<EventValue>, slots: seq<Slot>): (r: Option<seq<ScheduledItem>>)
    ensures r.Some? <==> InRange(solution, |events|, |slots|)
    ensures r.Some? ==> (|r.value| == |solution| &&
      forall k :: 0 <= k < |solution| ==> r.value[k] == ScheduledItem(events[solution[k].0], slots[solution[k].1]))
  {
    if InRange(solution, |events|, |slots|) then
      Some(seq(|solution|, k requires 0 <= k < |solution| => ScheduledItem(events[solution[k].0], slots[solution[k].1])))
    else None
  }

  /** `list.index` finds the event and the slot of every item. */
  predicate AllListed(schedule: seq<ScheduledItem>, events: seq<EventValue>, slots: seq<Slot>) {
    forall k :: 0 <= k < |schedule| ==> schedule[k].event in events && schedule[k].slot in slots
  }

  /** The cell of each item: the first index of its event and of its slot. */
  function ItemCells(schedule: seq<ScheduledItem>, events: seq<EventValue>, slots: seq<Slot>): (cells: seq<Cell>)
    requires AllListed(schedule, events, slots)
    ensures |cells| == |schedule| && InRange(cells, |events|, |slots|)
    ensures forall k :: 0 <= k < |schedule| ==>
      events[cells[k].0] == schedule[k].event && schedule[k].event !in events[..cells[k].0] &&
      slots[cells[k].1] == schedule[k].slot && schedule[k].slot !in slots[..cells[k].1]
  {
    seq(|schedule|, k requires 0 <= k < |schedule| =>
      (IndexOf(events, schedule[k].event), IndexOf(slots, schedule[k].slot)))
  }

  /** `schedule_to_array`: `None` where `list.index` raises ValueError. */
  function ScheduleArray(schedule: seq<ScheduledItem>, events: seq<EventValue>, slots: seq<Slot>): (r: Option<Matrix>)
  {
    if AllListed(schedule, events, slots) then Some(Marked(ItemCells(schedule, events, slots), |events|, |slots|))
    else None
  }

  /** The loop of `schedule_to_array`. */
  method ScheduleToArray(schedule: seq<ScheduledItem>, events: seq<EventValue>, slots: seq<Slot>) returns (r: Option<Matrix>)
    ensures r.Some? <==> AllListed(schedule, events, slots)
    ensures r.Some? ==> IsShape(r.value, |events|, |slots|) && IsBinary(r.value)
    ensures r == ScheduleArray(schedule, events, slots)
  {
    var m, n := |events|, |slots|;
    var a := new int[m, n]((i, j) => 0);
    var k := 0;
    while k < |schedule|
      invariant 0 <= k <= |schedule|
      invariant AllListed(schedule[..k], events, slots)
      invariant forall i: nat, j: nat :: i < m && j < n ==>
                  a[i, j] == if (i, j) in ItemCells(schedule[..k], events, slots) then 1 else 0
    {
      var item := schedule[k];
      var i, j := Find(events, item.event), Find(slots, item.slot);
      if i.None? || j.None? {
        assert !AllListed(schedule, events, slots);
        return None;
      }
      a[i.value, j.value] := 1;
      assert schedule[..k + 1] == schedule[..k] + [item];
      assert ItemCells(schedule[..k + 1], events, slots)
          == ItemCells(schedule[..k], events, slots) + [(i.value, j.value)];
      k := k + 1;
    }
    assert schedule[..k] == schedule;
    var X := Freeze(a);
    var M := Marked(ItemCells(schedule, events, slots), m, n);
    forall i: nat | i < m ensures X[i] == M[i] {
      forall j: nat | j < n ensures X[i][j] == M[i][j] {
        assert X[i][j] == a[i, j];
      }
    }
    assert X == M;
    r := Some(X);
  }

  /** `array_to_schedule`: one item per nonzero cell, in row-major order. */
  function ArraySchedule(X: Matrix, events: seq<EventValue>, slots: seq<Slot>): (r: Option<seq<ScheduledItem>>)
    ensures r.Some? <==> InRange(NonzeroCells(X), |events|, |slots|)
    ensures r.Some? ==> (|r.value| == |NonzeroCells(X)| &&
      forall k :: 0 <= k < |r.value| ==>
        r.value[k] == ScheduledItem(events[NonzeroCells(X)[k].0], slots[NonzeroCells(X)[k].1]))
  {
    SolutionSchedule(NonzeroCells(X), events, slots)
  }

  /** With duplicate-free lists, looking an item up recovers the pair it
      was built from. */
  lemma {:induction false} ItemCellsOfSolution(solution: seq<Cell>, events: seq<EventValue>, slots: seq<Slot>)
    requires Distinct(events) && Distinct(slots) && InRange(solution, |events|, |slots|)
    ensures AllListed(SolutionSchedule(solution, events, slots).value, events, slots)
    ensures ItemCells(SolutionSchedule(solution, events, slots).value, events, slots) == solution
  {
    var s := SolutionSchedule(solution, events, slots).value;
    forall k | 0 <= k < |s| ensures s[k].event in events && s[k].slot in slots {
      assert events[solution[k].0] == s[k].event && slots[solution[k].1] == s[k].slot;
    }
    var cells := ItemCells(s, events, slots);
    forall k | 0 <= k < |s| ensures cells[k] == solution[k] {
      IndexOfDistinct(events, solution[k].0);
      IndexOfDistinct(slots, solution[k].1);
    }
  }

  /** Converting a solution straight to an array agrees with going through
      the schedule form, errors included. */
  lemma SolutionArrayViaSchedule(solution: seq<Cell>, events: seq<EventValue>, slots: seq<Slot>)
    requires Distinct(events) && Distinct(slots)
    ensures SolutionArray(solution, events, slots) ==
      match SolutionSchedule(solution, events, slots)
      case None => None
      case Some(s) => ScheduleArray(s, events, slots)
  {
    if InRange(solution, |events|, |slots|) {
      ItemCellsOfSolution(solution, events, slots);
    }
  }

  /** On a 0/1 array the marked nonzero cells give the array back. */
  lemma MarkedNonzero(X: Matrix, m: nat, n: nat)
    requires IsShape(X, m, n) && IsBinary(X)
    ensures Marked(NonzeroCells(X), m, n) == X
  {
    var cells := NonzeroCells(X);
    var Y := Marked(cells, m, n);
    forall i: nat | i < m ensures Y[i] == X[i] {
      forall j: nat | j < n ensures Y[i][j] == X[i][j] {
        assert IsBinaryRow(X[i]);
        var c: Cell := (i, j);
        assert c in cells <==> X[i][j] != 0;
      }
    }
  }

  /** Round trip: a 0/1 array survives conversion to a schedule and back
      when the event and slot lists are free of duplicates. */
  lemma ArrayScheduleRoundTrip(X: Matrix, events: seq<EventValue>, slots: seq<Slot>)
    requires IsShape(X, |events|, |slots|) && IsBinary(X)
    requires Distinct(events) && Distinct(slots)
    ensures ArraySchedule(X, events, slots).Some?
    ensures ScheduleArray(ArraySchedule(X, events, slots).value, events, slots) == Some(X)
  {
    var cells := NonzeroCells(X);
    forall k | 0 <= k < |cells| ensures cells[k].0 < |events| && cells[k].1 < |slots| {
      assert cells[k] in cells;
    }
    ItemCellsOfSolution(cells, events, slots);
    MarkedNonzero(X, |events|, |slots|);
  }
}
