/** The constraint families of src/conference_scheduler/lp_problem/constraints.py
    on the integer-sum path: each family is the list of labelled conditions
    its generator yields, in yield order. */
module Constraints {
  import opened Sequences
  import opened Matrices
  import opened Resources
  import opened Labels
  import opened LpUtils

  const ScheduleAllText := "Event either not scheduled or scheduled multiple times"
  const OnePerSlotText := "Slot with multiple events scheduled"
  const UnavailableText := "Event scheduled when not available"
  const ClashText := "Event clashes with another event"

  /** Every condition in `cs` is true. */
  predicate AllHold(cs: seq<Constraint>) {
    forall k :: 0 <= k < |cs| ==> cs[k].condition
  }

  // ---- _schedule_all_events ----

  /** One constraint per event, in event order: its row sums to 1. */
  function ScheduleAllEvents(m: nat, n: nat, X: Matrix): (cs: seq<Constraint>)
    requires IsShape(X, m, n)
    ensures |cs| == m
    ensures forall i :: 0 <= i < m ==> cs[i].text == EventLabel(ScheduleAllText, i)
  {
    seq(m, i requires 0 <= i < m => Constraint(EventLabel(ScheduleAllText, i), Sum(X[i]) == 1))
  }

  /** On a 0/1 matrix an event's constraint holds exactly when the event is
      in exactly one slot. */
  lemma ScheduleAllEventsHolds(m: nat, n: nat, X: Matrix, i: nat)
    requires IsShape(X, m, n) && IsBinary(X) && i < m
    ensures ScheduleAllEvents(m, n, X)[i].condition <==> ExactlyOneOne(X[i])
  {
    SumOfBinaryRow(X[i]);
  }

  // ---- _max_one_event_per_slot ----

  /** One constraint per slot, in slot order: its column sums to at most 1. */
  function MaxOneEventPerSlot(m: nat, n: nat, X: Matrix): (cs: seq<Constraint>)
    requires IsShape(X, m, n)
    ensures |cs| == n
    ensures forall j :: 0 <= j < n ==> cs[j].text == SlotLabel(OnePerSlotText, j)
  {
    seq(n, j requires 0 <= j < n => Constraint(SlotLabel(OnePerSlotText, j), Sum(Column(X, j)) <= 1))
  }

  /** On a 0/1 matrix a slot's constraint holds exactly when at most one
      event is in the slot. */
  lemma MaxOneEventPerSlotHolds(m: nat, n: nat, X: Matrix, j: nat)
    requires IsShape(X, m, n) && IsBinary(X) && j < n
    ensures MaxOneEventPerSlot(m, n, X)[j].condition <==> AtMostOneOne(Column(X, j))
  {
    var c := Column(X, j);
    assert IsBinaryRow(c);
    SumOfBinaryRow(c);
  }

  // ---- _events_available_in_scheduled_slot ----

  /** One constraint `X[r][c] <= A[r][c]` per listed cell, in list order. */
  function AvailabilityConstraints(cells: seq<Cell>, A: Matrix, X: Matrix, m: nat, n: nat): (cs: seq<Constraint>)
    requires IsShape(A, m, n) && IsShape(X, m, n) && InRange(cells, m, n)
    ensures |cs| == |cells|
  {
    seq(|cells|, k requires 0 <= k < |cells| =>
      Constraint(EventSlotLabel(UnavailableText, cells[k].0, cells[k].1),
                 X[cells[k].0][cells[k].1] <= A[cells[k].0][cells[k].1]))
  }

  /** The cells where an event cannot go, in row-major order. */
  function UnavailableCells(events: seq<EventValue>, slots: seq<Slot>): (cells: seq<Cell>)
    ensures forall c: Cell :: c in cells <==> c.0 < |events| && c.1 < |slots| && SlotUnavailable(events[c.0], slots[c.1])
    ensures CellSorted(cells) && InRange(cells, |events|, |slots|)
  {
    var A := SlotAvailabilityMatrix(events, slots);
    var cells := CellsWhere(|events|, |slots|, (r: nat, c: nat) => r < |events| && c < |slots| && A[r][c] == 0);
    assert forall k :: 0 <= k < |cells| ==> cells[k] in cells;
    cells
  }

  /** Only the zero cells of the availability matrix get a constraint, and
      it holds exactly when the event is not in that slot. */
  function EventsAvailableInScheduledSlot(events: seq<EventValue>, slots: seq<Slot>, X: Matrix): (cs: seq<Constraint>)
    requires IsShape(X, |events|, |slots|)
    ensures |cs| == |UnavailableCells(events, slots)|
    ensures forall k :: 0 <= k < |cs| ==>
      var c := UnavailableCells(events, slots)[k];
      cs[k].text == EventSlotLabel(UnavailableText, c.0, c.1) && (cs[k].condition <==> X[c.0][c.1] <= 0)
  {
    AvailabilityConstraints(UnavailableCells(events, slots), SlotAvailabilityMatrix(events, slots), X, |events|, |slots|)
  }

  // ---- _events_available_during_other_events ----

  /** `X[r][s1] + X[c][s2] <= 1 + EA[r][c]`, labelled with the two events. */
  function ClashConstraint(pair: Cell, cell: Cell, EA: Matrix, X: Matrix, m: nat, n: nat): Constraint
    requires IsShape(EA, m, m) && IsShape(X, m, n)
    requires pair.0 < n && pair.1 < n && cell.0 < m && cell.1 < m
  {
    Constraint(EventPairLabel(ClashText, cell.0, cell.1),
               X[cell.0][pair.0] + X[cell.1][pair.1] <= 1 + EA[cell.0][cell.1])
  }

  /** For each pair of concurrent slots, in order, one constraint per listed
      event cell, in order. */
  function ClashConstraints(pairs: seq<Cell>, cells: seq<Cell>, EA: Matrix, X: Matrix, m: nat, n: nat): (cs: seq<Constraint>)
    requires IsShape(EA, m, m) && IsShape(X, m, n) && InRange(pairs, n, n) && InRange(cells, m, m)
    ensures |cs| == |pairs| * |cells|
  {
    var blocks := ClashBlocks(pairs, cells, EA, X, m, n);
    FlattenLength(blocks, |cells|);
    Flatten(blocks)
  }

  function ClashBlocks(pairs: seq<Cell>, cells: seq<Cell>, EA: Matrix, X: Matrix, m: nat, n: nat): (blocks: seq<seq<Constraint>>)
    requires IsShape(EA, m, m) && IsShape(X, m, n) && InRange(pairs, n, n) && InRange(cells, m, m)
    ensures |blocks| == |pairs| && forall p :: 0 <= p < |pairs| ==> |blocks[p]| == |cells|
  {
    seq(|pairs|, p requires 0 <= p < |pairs| =>
      seq(|cells|, k requires 0 <= k < |cells| => ClashConstraint(pairs[p], cells[k], EA, X, m, n)))
  }

  /** Every (pair, cell) combination has its clash constraint. */
  lemma ClashConstraintsComplete(pairs: seq<Cell>, cells: seq<Cell>, EA: Matrix, X: Matrix, m: nat, n: nat, p: nat, k: nat)
    requires IsShape(EA, m, m) && IsShape(X, m, n) && InRange(pairs, n, n) && InRange(cells, m, m)
    requires p < |pairs| && k < |cells|
    ensures ClashConstraint(pairs[p], cells[k], EA, X, m, n) in ClashConstraints(pairs, cells, EA, X, m, n)
  {
    var blocks := ClashBlocks(pairs, cells, EA, X, m, n);
    assert blocks[p][k] in blocks[p];
  }

  /** Every clash constraint comes from a (pair, cell) combination. */
  lemma ClashConstraintsSound(pairs: seq<Cell>, cells: seq<Cell>, EA: Matrix, X: Matrix, m: nat, n: nat, x: Constraint)
    requires IsShape(EA, m, m) && IsShape(X, m, n) && InRange(pairs, n, n) && InRange(cells, m, m)
    requires x in ClashConstraints(pairs, cells, EA, X, m, n)
    ensures exists p, k :: 0 <= p < |pairs| && 0 <= k < |cells| && x == ClashConstraint(pairs[p], cells[k], EA, X, m, n)
  {
    var blocks := ClashBlocks(pairs, cells, EA, X, m, n);
    var p :| 0 <= p < |blocks| && x in blocks[p];
    var k :| 0 <= k < |cells| && blocks[p][k] == x;
  }

  /** The event cells the current tree constrains: rows of events with a
      non-empty unavailability list, columns where `EA` is 0. */
  function ClashCells(events: seq<EventValue>, EA: Matrix): (cells: seq<Cell>)
    requires IsShape(EA, |events|, |events|)
    ensures forall c: Cell :: c in cells <==>
      c.0 < |events| && c.1 < |events| && events[c.0].unavailability != [] && EA[c.0][c.1] == 0
    ensures CellSorted(cells) && InRange(cells, |events|, |events|)
  {
    var m := |events|;
    var cells := CellsWhere(m, m, (r: nat, c: nat) => r < m && c < m && events[r].unavailability != [] && EA[r][c] == 0);
    assert forall k :: 0 <= k < |cells| ==> cells[k] in cells;
    cells
  }

  /** `_events_available_during_other_events`, with the event-availability
      matrix `EA` given. */
  function EventsAvailableDuringOtherEvents(events: seq<EventValue>, slots: seq<Slot>, EA: Matrix, X: Matrix): (cs: seq<Constraint>)
    requires IsShape(EA, |events|, |events|) && IsShape(X, |events|, |slots|)
    ensures |cs| == |ConcurrentSlots(slots)| * |ClashCells(events, EA)|
  {
    ClashConstraints(ConcurrentSlots(slots), ClashCells(events, EA), EA, X, |events|, |slots|)
  }

  // ---- all_constraints ----

  /** The four families, in this order and nothing else. */
  function AllConstraints(events: seq<EventValue>, slots: seq<Slot>, EA: Matrix, X: Matrix): (cs: seq<Constraint>)
    requires IsShape(EA, |events|, |events|) && IsShape(X, |events|, |slots|)
    ensures |cs| == |events| + |slots| + |UnavailableCells(events, slots)| +
                    |ConcurrentSlots(slots)| * |ClashCells(events, EA)|
  {
    ScheduleAllEvents(|events|, |slots|, X) + MaxOneEventPerSlot(|events|, |slots|, X) +
    EventsAvailableInScheduledSlot(events, slots, X) + EventsAvailableDuringOtherEvents(events, slots, EA, X)
  }

  /** What the four families demand of a 0/1 allocation, stated directly. */
  predicate Feasible(events: seq<EventValue>, slots: seq<Slot>, EA: Matrix, X: Matrix)
    requires IsShape(EA, |events|, |events|) && IsShape(X, |events|, |slots|)
  {
    (forall i :: 0 <= i < |events| ==> ExactlyOneOne(X[i])) &&
    (forall j :: 0 <= j < |slots| ==> AtMostOneOne(Column(X, j))) &&
    (forall r, c :: 0 <= r < |events| && 0 <= c < |slots| && SlotUnavailable(events[r], slots[c]) ==> X[r][c] == 0) &&
    NoClash(events, slots, EA, X)
  }

  lemma AllHoldAppend(a: seq<Constraint>, b: seq<Constraint>)
    ensures AllHold(a + b) <==> AllHold(a) && AllHold(b)
  {
    assert forall k :: 0 <= k < |a| ==> (a + b)[k] == a[k];
    assert forall k :: 0 <= k < |b| ==> (a + b)[|a| + k] == b[k];
  }

  /** On a 0/1 allocation every constraint holds exactly when the allocation
      is feasible. */
  lemma AllConstraintsHold(events: seq<EventValue>, slots: seq<Slot>, EA: Matrix, X: Matrix)
    requires IsShape(EA, |events|, |events|) && IsShape(X, |events|, |slots|) && IsBinary(X)
    ensures AllHold(AllConstraints(events, slots, EA, X)) <==> Feasible(events, slots, EA, X)
  {
    var m, n := |events|, |slots|;
    var f1 := ScheduleAllEvents(m, n, X);
    var f2 := MaxOneEventPerSlot(m, n, X);
    var f3 := EventsAvailableInScheduledSlot(events, slots, X);
    var f4 := EventsAvailableDuringOtherEvents(events, slots, EA, X);
    AllHoldAppend(f1, f2);
    AllHoldAppend(f1 + f2, f3);
    AllHoldAppend(f1 + f2 + f3, f4);
    ScheduleAllHold(m, n, X);
    MaxOneHold(m, n, X);
    AvailabilityHolds(events, slots, X);
    if AllHold(f4) {
      ClashesHoldIf(events, slots, EA, X);
    }
    if NoClash(events, slots, EA, X) {
      ClashesHoldOnlyIf(events, slots, EA, X);
    }
  }

  lemma ScheduleAllHold(m: nat, n: nat, X: Matrix)
    requires IsShape(X, m, n) && IsBinary(X)
    ensures AllHold(ScheduleAllEvents(m, n, X)) <==> forall i :: 0 <= i < m ==> ExactlyOneOne(X[i])
  {
    forall i | 0 <= i < m {
      ScheduleAllEventsHolds(m, n, X, i);
    }
  }

  lemma MaxOneHold(m: nat, n: nat, X: Matrix)
    requires IsShape(X, m, n) && IsBinary(X)
    ensures AllHold(MaxOneEventPerSlot(m, n, X)) <==> forall j :: 0 <= j < n ==> AtMostOneOne(Column(X, j))
  {
    forall j | 0 <= j < n {
      MaxOneEventPerSlotHolds(m, n, X, j);
    }
  }

  lemma AvailabilityHolds(events: seq<EventValue>, slots: seq<Slot>, X: Matrix)
    requires IsShape(X, |events|, |slots|) && IsBinary(X)
    ensures AllHold(EventsAvailableInScheduledSlot(events, slots, X)) <==>
      forall r, c :: 0 <= r < |events| && 0 <= c < |slots| && SlotUnavailable(events[r], slots[c]) ==> X[r][c] == 0
  {
    var cells := UnavailableCells(events, slots);
    var f3 := EventsAvailableInScheduledSlot(events, slots, X);
    if AllHold(f3) {
      forall r, c | 0 <= r < |events| && 0 <= c < |slots| && SlotUnavailable(events[r], slots[c]) ensures X[r][c] == 0 {
        var cell: Cell := (r, c);
        assert cell in cells;
        var k :| 0 <= k < |cells| && cells[k] == cell;
        assert f3[k].condition;
        assert IsBinaryRow(X[r]);
      }
    }
  }

  /** No clash between two events, one of which lists unavailability, in
      two overlapping slots. */
  predicate NoClash(events: seq<EventValue>, slots: seq<Slot>, EA: Matrix, X: Matrix)
    requires IsShape(EA, |events|, |events|) && IsShape(X, |events|, |slots|)
  {
    forall s1, s2, r, c ::
      0 <= s1 < s2 < |slots| && SlotsOverlap(slots[s1], slots[s2]) &&
      0 <= r < |events| && 0 <= c < |events| && events[r].unavailability != [] && EA[r][c] == 0 ==>
      !(X[r][s1] == 1 && X[c][s2] == 1)
  }

  /** A block of clash constraints holds exactly when each (pair, cell)
      constraint does. */
  lemma ClashConstraintsHold(pairs: seq<Cell>, cells: seq<Cell>, EA: Matrix, X: Matrix, m: nat, n: nat)
    requires IsShape(EA, m, m) && IsShape(X, m, n) && InRange(pairs, n, n) && InRange(cells, m, m)
    ensures AllHold(ClashConstraints(pairs, cells, EA, X, m, n)) <==>
      forall p, k :: 0 <= p < |pairs| && 0 <= k < |cells| ==> ClashConstraint(pairs[p], cells[k], EA, X, m, n).condition
  {
    var cs := ClashConstraints(pairs, cells, EA, X, m, n);
    if AllHold(cs) {
      forall p, k | 0 <= p < |pairs| && 0 <= k < |cells|
        ensures ClashConstraint(pairs[p], cells[k], EA, X, m, n).condition
      {
        ClashConstraintsComplete(pairs, cells, EA, X, m, n, p, k);
        var x := ClashConstraint(pairs[p], cells[k], EA, X, m, n);
        var q :| 0 <= q < |cs| && cs[q] == x;
      }
    } else {
      var q :| 0 <= q < |cs| && !cs[q].condition;
      ClashConstraintsSound(pairs, cells, EA, X, m, n, cs[q]);
    }
  }

  lemma ClashesHoldIf(events: seq<EventValue>, slots: seq<Slot>, EA: Matrix, X: Matrix)
    requires IsShape(EA, |events|, |events|) && IsShape(X, |events|, |slots|)
    requires AllHold(EventsAvailableDuringOtherEvents(events, slots, EA, X))
    ensures NoClash(events, slots, EA, X)
  {
    forall s1, s2, r, c |
      0 <= s1 < s2 < |slots| && SlotsOverlap(slots[s1], slots[s2]) &&
      0 <= r < |events| && 0 <= c < |events| && events[r].unavailability != [] && EA[r][c] == 0
      ensures !(X[r][s1] == 1 && X[c][s2] == 1)
    {
      NoClashAt(events, slots, EA, X, s1, s2, r, c);
    }
  }

  lemma NoClashAt(events: seq<EventValue>, slots: seq<Slot>, EA: Matrix, X: Matrix, s1: nat, s2: nat, r: nat, c: nat)
    requires IsShape(EA, |events|, |events|) && IsShape(X, |events|, |slots|)
    requires AllHold(EventsAvailableDuringOtherEvents(events, slots, EA, X))
    requires s1 < s2 < |slots| && SlotsOverlap(slots[s1], slots[s2])
    requires r < |events| && c < |events| && events[r].unavailability != [] && EA[r][c] == 0
    ensures !(X[r][s1] == 1 && X[c][s2] == 1)
  {
    var pairs, cells := ConcurrentSlots(slots), ClashCells(events, EA);
    var pair: Cell, cell: Cell := (s1, s2), (r, c);
    ConcurrentPairListed(slots, s1, s2);
    assert cell in cells;
    ListedClashHolds(pairs, cells, EA, X, |events|, |slots|, pair, cell);
  }

  /** A constraint of a block that holds in full holds on its own. */
  lemma ListedClashHolds(pairs: seq<Cell>, cells: seq<Cell>, EA: Matrix, X: Matrix, m: nat, n: nat, pair: Cell, cell: Cell)
    requires IsShape(EA, m, m) && IsShape(X, m, n) && InRange(pairs, n, n) && InRange(cells, m, m)
    requires AllHold(ClashConstraints(pairs, cells, EA, X, m, n))
    requires pair in pairs && cell in cells
    ensures pair.0 < n && pair.1 < n && cell.0 < m && cell.1 < m
    ensures X[cell.0][pair.0] + X[cell.1][pair.1] <= 1 + EA[cell.0][cell.1]
  {
    ClashConstraintsHold(pairs, cells, EA, X, m, n);
    var p :| 0 <= p < |pairs| && pairs[p] == pair;
    var k :| 0 <= k < |cells| && cells[k] == cell;
    assert ClashConstraint(pairs[p], cells[k], EA, X, m, n).condition;
  }

  lemma ClashesHoldOnlyIf(events: seq<EventValue>, slots: seq<Slot>, EA: Matrix, X: Matrix)
    requires IsShape(EA, |events|, |events|) && IsShape(X, |events|, |slots|) && IsBinary(X)
    requires NoClash(events, slots, EA, X)
    ensures AllHold(EventsAvailableDuringOtherEvents(events, slots, EA, X))
  {
    var m, n := |events|, |slots|;
    var pairs, cells := ConcurrentSlots(slots), ClashCells(events, EA);
    forall p, k | 0 <= p < |pairs| && 0 <= k < |cells|
      ensures ClashConstraint(pairs[p], cells[k], EA, X, m, n).condition
    {
      assert pairs[p] in pairs && cells[k] in cells;
      ClashHoldsAt(events, slots, EA, X, pairs[p], cells[k]);
    }
    ClashConstraintsHold(pairs, cells, EA, X, m, n);
  }

  /** Without a clash, the constraint of one concurrent pair and one clash
      cell holds. */
  lemma ClashHoldsAt(events: seq<EventValue>, slots: seq<Slot>, EA: Matrix, X: Matrix, pair: Cell, cell: Cell)
    requires IsShape(EA, |events|, |events|) && IsShape(X, |events|, |slots|) && IsBinary(X)
    requires NoClash(events, slots, EA, X)
    requires pair.0 < pair.1 < |slots| && SlotsOverlap(slots[pair.0], slots[pair.1])
    requires cell.0 < |events| && cell.1 < |events| && events[cell.0].unavailability != [] && EA[cell.0][cell.1] == 0
    ensures ClashConstraint(pair, cell, EA, X, |events|, |slots|).condition
  {
    var r, c := cell.0, cell.1;
    assert IsBinaryRow(X[r]) && IsBinaryRow(X[c]);
    assert !(X[r][pair.0] == 1 && X[c][pair.1] == 1);
  }
}
