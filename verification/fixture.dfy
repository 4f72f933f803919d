/** The three-event, seven-slot example the test suite is built on
    (tests/conftest.py), and the counts and values the tests expect of it.
    Start times are minutes after midnight on the conference day. */
module Fixture {
  import opened Sequences
  import opened Matrices
  import opened Ordering
  import opened Resources
  import opened LpUtils
  import opened Constraints
  import opened Objectives
  import opened Converter
  import opened LegacyConstraints

  const Slots: seq<Slot> := [
    Slot("Room 1", 570, 30, 50, "01 Morning A"),
    Slot("Room 1", 603, 30, 50, "01 Morning A"),
    Slot("Room 1", 690, 30, 50, "01 Morning A"),
    Slot("Room 1", 720, 30, 10, "02 Afternoon A"),
    Slot("Room 1", 750, 30, 50, "02 Afternoon A"),
    Slot("Room 2", 570, 90, 200, "03 Morning B"),
    Slot("Room 2", 690, 90, 200, "04 Afternoon B")
  ]

  const Talk1 := EventValue("Talk 1", 30, 30, ["community"], [SlotItem(Slots[0]), SlotItem(Slots[1])])
  const Talk2 := EventValue("Talk 2", 30, 500, ["community", "documentation"],
                            [SlotItem(Slots[2]), SlotItem(Slots[3]), EventItem(Talk1)])
  const Workshop1 := EventValue("Workshop 1", 60, 20, ["documentation"], [])

  const Events: seq<EventValue> := [Talk1, Talk2, Workshop1]

  /** The allocation the tests call valid: Talk 1 in slot 2, Talk 2 in
      slot 4 and the workshop in slot 5. */
  const ValidArray: Matrix := [UnitRow(7, 2), UnitRow(7, 4), UnitRow(7, 5)]

  /** The event-availability matrix that also separates events sharing a
      tag, which the current tree's clash count of 15 presupposes. */
  const TagAwareAvailability: Matrix := [
    [1, 0, 1],
    [0, 1, 0],
    [1, 0, 1]
  ]

  /** Two cell lists in row-major order with the same cells are equal. */
  lemma CellSortedUnique(a: seq<Cell>, b: seq<Cell>)
    requires CellSorted(a) && CellSorted(b)
    requires forall c :: c in a <==> c in b
    ensures a == b
  {
    var less := (x: Cell, y: Cell) => LexLess(x, y);
    assert IsStrictTotalOrder(less);
    StrictlySortedUnique(a, b, less);
  }

  /** A cell list whose neighbours are in row-major order is sorted. */
  lemma {:induction false} CellSortedAdjacent(cs: seq<Cell>)
    requires forall k :: 0 <= k < |cs| - 1 ==> LexLess(cs[k], cs[k + 1])
    ensures CellSorted(cs)
  {
    if |cs| > 1 {
      var tail := cs[1..];
      assert forall k :: 0 <= k < |tail| ==> tail[k] == cs[k + 1];
      CellSortedAdjacent(tail);
      forall a, b | 0 <= a < b < |cs| ensures LexLess(cs[a], cs[b]) {
        if a > 0 {
          assert cs[a] == tail[a - 1] && cs[b] == tail[b - 1];
        } else if b > 1 {
          assert cs[1] == tail[0] && cs[b] == tail[b - 1];
        }
      }
    }
  }

  /** Which slots overlap: each morning talk slot of Room 1 lies inside
      the long morning slot of Room 2, each later one inside the afternoon
      slot, and nothing else overlaps. */
  lemma FixtureOverlaps(i: nat, j: nat)
    requires i < j < |Slots|
    ensures SlotsOverlap(Slots[i], Slots[j]) <==> (i, j) in [(0, 5), (1, 5), (2, 6), (3, 6), (4, 6)]
  {
    var starts := [570, 603, 690, 720, 750, 570, 690];
    var ends := [600, 633, 720, 750, 780, 660, 780];
    assert forall k :: 0 <= k < |Slots| ==> Slots[k].startsAt == starts[k] && EndsAt(Slots[k]) == ends[k];
  }

  const FixturePairs: seq<Cell> := [(0, 5), (1, 5), (2, 6), (3, 6), (4, 6)]

  /** The concurrent pairs of the fixture are exactly the five listed. */
  lemma FixtureConcurrentSlots()
    ensures ConcurrentSlots(Slots) == FixturePairs
  {
    PairsOfFixture(ConcurrentSlots(Slots));
  }

  /** Any row-major list holding exactly the overlapping pairs of the
      fixture is the list of five. */
  lemma PairsOfFixture(r: seq<Cell>)
    requires CellSorted(r)
    requires forall c: Cell :: c in r <==> c.0 < c.1 < |Slots| && SlotsOverlap(Slots[c.0], Slots[c.1])
    ensures r == FixturePairs
  {
    forall c: Cell ensures c in r <==> c in FixturePairs {
      if c.0 < c.1 < |Slots| {
        FixtureOverlaps(c.0, c.1);
      }
    }
    CellSortedAdjacent(FixturePairs);
    CellSortedUnique(r, FixturePairs);
  }

  const FixtureUnavailable: seq<Cell> := [(0, 0), (0, 1), (1, 2), (1, 3), (2, 0), (2, 1), (2, 2), (2, 3), (2, 4)]

  /** Where each event cannot go: Talk 1 not in its two listed slots, Talk 2
      not in its two, and the hour-long workshop in none of the half-hour
      slots. */
  lemma FixtureSlotUnavailable(r: nat, c: nat)
    requires r < |Events| && c < |Slots|
    ensures SlotUnavailable(Events[r], Slots[c]) <==> (r, c) in FixtureUnavailable
  {
    var starts := [570, 603, 690, 720, 750, 570, 690];
    assert forall k :: 0 <= k < |Slots| ==> Slots[k].startsAt == starts[k];
  }

  /** The unavailable cells of the fixture are the nine listed. */
  lemma FixtureUnavailableCells()
    ensures UnavailableCells(Events, Slots) == FixtureUnavailable
  {
    UnavailableOfFixture(UnavailableCells(Events, Slots));
  }

  lemma UnavailableOfFixture(r: seq<Cell>)
    requires CellSorted(r)
    requires forall c: Cell :: c in r <==> c.0 < |Events| && c.1 < |Slots| && SlotUnavailable(Events[c.0], Slots[c.1])
    ensures r == FixtureUnavailable
  {
    forall c: Cell ensures c in r <==> c in FixtureUnavailable {
      if c.0 < |Events| && c.1 < |Slots| {
        FixtureSlotUnavailable(c.0, c.1);
      }
    }
    FixtureUnavailableSorted();
    CellSortedUnique(r, FixtureUnavailable);
  }

  lemma FixtureUnavailableSorted()
    ensures CellSorted(FixtureUnavailable)
  {
    CellSortedAdjacent(FixtureUnavailable);
  }

  /** The event-availability matrix the listings alone give: Talk 2 lists
      Talk 1, so neither may run while the other does. */
  const VisibleAvailability: Matrix := [
    [1, 0, 1],
    [0, 1, 1],
    [1, 1, 1]
  ]

  lemma FixtureEventAvailability()
    ensures EventAvailabilityMatrix(Events) == VisibleAvailability
  {
    var A := EventAvailabilityMatrix(Events);
    forall r, c | 0 <= r < |Events| && 0 <= c < |Events|
      ensures Lists(Events, r, c) <==> (r, c) == (1, 0)
    {
      NotSelfUnavailable(Events[r]);
    }
    forall r | 0 <= r < |Events| ensures A[r] == VisibleAvailability[r] {
      assert forall c :: 0 <= c < |Events| ==> A[r][c] == VisibleAvailability[r][c];
    }
  }

  /** With the listings alone, the clash cells are Talk 1 against Talk 2 and
      back. */
  lemma FixtureVisibleClashCells()
    ensures ClashCells(Events, VisibleAvailability) == [(0, 1), (1, 0)]
  {
    var expected := [(0, 1), (1, 0)];
    forall c: Cell ensures c in expected <==> c.0 < 2 && c.1 < |Events| && VisibleAvailability[c.0][c.1] == 0 {
      if c.0 < 2 && c.1 < 3 {
        assert c.0 == 0 || c.0 == 1;
        assert c.1 == 0 || c.1 == 1 || c.1 == 2;
      }
    }
    assert CellSorted(expected);
    ClashCellsOfFixture(ClashCells(Events, VisibleAvailability), VisibleAvailability, expected);
  }

  /** With tags separated as well, Talk 2 also clashes with the workshop. */
  lemma FixtureTagAwareClashCells()
    ensures ClashCells(Events, TagAwareAvailability) == [(0, 1), (1, 0), (1, 2)]
  {
    var expected := [(0, 1), (1, 0), (1, 2)];
    forall c: Cell ensures c in expected <==> c.0 < 2 && c.1 < |Events| && TagAwareAvailability[c.0][c.1] == 0 {
      if c.0 < 2 && c.1 < 3 {
        assert c.0 == 0 || c.0 == 1;
        assert c.1 == 0 || c.1 == 1 || c.1 == 2;
      }
    }
    assert CellSorted(expected);
    ClashCellsOfFixture(ClashCells(Events, TagAwareAvailability), TagAwareAvailability, expected);
  }

  /** The workshop lists nothing, so only the two talks' rows count. */
  lemma ClashCellsOfFixture(r: seq<Cell>, EA: Matrix, expected: seq<Cell>)
    requires IsShape(EA, |Events|, |Events|)
    requires CellSorted(r) && CellSorted(expected)
    requires forall c: Cell :: c in r <==>
      c.0 < |Events| && c.1 < |Events| && Events[c.0].unavailability != [] && EA[c.0][c.1] == 0
    requires forall c: Cell :: c in expected <==> c.0 < 2 && c.1 < |Events| && EA[c.0][c.1] == 0
    ensures r == expected
  {
    assert Events[0].unavailability != [] && Events[1].unavailability != [] && Events[2].unavailability == [];
    CellSortedUnique(r, expected);
  }

  /** Five concurrent pairs times two clash cells: ten clash constraints,
      whatever the allocation. */
  lemma FixtureVisibleClashCount(X: Matrix)
    requires IsShape(X, |Events|, |Slots|)
    ensures |EventsAvailableDuringOtherEvents(Events, Slots, VisibleAvailability, X)| == 10
  {
    FixtureConcurrentSlots();
    FixtureVisibleClashCells();
  }

  /** Nine unavailable cells: nine availability constraints. */
  lemma FixtureAvailabilityCount(X: Matrix)
    requires IsShape(X, |Events|, |Slots|)
    ensures |EventsAvailableInScheduledSlot(Events, Slots, X)| == 9
  {
    FixtureUnavailableCells();
  }

  /** Five concurrent pairs times three clash cells: fifteen clash
      constraints once events sharing a tag are kept apart. */
  lemma FixtureTagAwareClashCount(X: Matrix)
    requires IsShape(X, |Events|, |Slots|)
    ensures |EventsAvailableDuringOtherEvents(Events, Slots, TagAwareAvailability, X)| == 15
  {
    FixtureConcurrentSlots();
    FixtureTagAwareClashCells();
  }

  /** Three events, seven slots, nine unavailable cells and fifteen clash
      constraints: thirty-four constraints in all. */
  lemma FixtureConstraintCount(X: Matrix)
    requires IsShape(X, |Events|, |Slots|)
    ensures |AllConstraints(Events, Slots, TagAwareAvailability, X)| == 34
  {
    FixtureConcurrentSlots();
    FixtureUnavailableCells();
    FixtureTagAwareClashCells();
  }

  // ---- the older tree's constraint counts ----

  const Sessions: seq<string> := ["01 Morning A", "02 Afternoon A", "03 Morning B", "04 Afternoon B"]
  const Tags: seq<string> := ["community", "documentation"]

  /** Two increasing lists of indices with the same elements are equal. */
  lemma IncreasingUnique(a: seq<nat>, b: seq<nat>)
    requires forall i, j :: 0 <= i < j < |a| ==> a[i] < a[j]
    requires forall i, j :: 0 <= i < j < |b| ==> b[i] < b[j]
    requires forall y :: y in a <==> y in b
    ensures a == b
  {
    var less := (x: nat, y: nat) => x < y;
    assert IsStrictTotalOrder(less);
    StrictlySortedUnique(a, b, less);
  }

  /** The fixture's four session labels, in sorted order. */
  lemma FixtureSessions()
    ensures AllSessions(Slots) == Sessions
  {
    SessionsOfFixture(AllSessions(Slots));
  }

  lemma SessionsOfFixture(r: seq<string>)
    requires StrictlySorted(r, StrLess)
    requires forall s :: s in r <==> exists j :: 0 <= j < |Slots| && Slots[j].session == s
    ensures r == Sessions
  {
    StrLessIsStrictTotalOrder();
    SessionsSorted();
    forall s ensures s in r <==> s in Sessions {
      SessionLabels(s);
    }
    StrictlySortedUnique(r, Sessions, StrLess);
  }

  /** The labels differ in their second character, in order. */
  lemma SessionsSorted()
    ensures StrictlySorted(Sessions, StrLess)
  {
    forall i, j | 0 <= i < j < |Sessions| ensures StrLess(Sessions[i], Sessions[j]) {
      assert Sessions[i][0] == Sessions[j][0] && Sessions[i][1] < Sessions[j][1];
      assert StrLess(Sessions[i][1..], Sessions[j][1..]);
    }
  }

  /** A label is some slot's session exactly when it is one of the four. */
  lemma SessionLabels(s: string)
    ensures (exists j :: 0 <= j < |Slots| && Slots[j].session == s) <==> s in Sessions
  {
    assert Slots[0].session == Sessions[0] && Slots[3].session == Sessions[1];
    assert Slots[5].session == Sessions[2] && Slots[6].session == Sessions[3];
    assert forall j :: 0 <= j < |Slots| ==> Slots[j].session in Sessions;
  }

  const SessionRows: Matrix := [
    [1, 1, 1, 0, 0, 0, 0],
    [0, 0, 0, 1, 1, 0, 0],
    [0, 0, 0, 0, 0, 1, 0],
    [0, 0, 0, 0, 0, 0, 1]
  ]

  /** Slots 0 to 2, 3 and 4, 5, and 6 make up the four sessions. */
  lemma FixtureSessionMatrix()
    ensures SessionMatrix(Slots) == SessionRows
  {
    FixtureSessions();
    forall k | 0 <= k < 4 ensures SessionMatrix(Slots)[k] == SessionRows[k] {
      SessionRowOf(k);
    }
  }

  lemma SessionRowOf(k: nat)
    requires k < |Sessions| && AllSessions(Slots) == Sessions
    ensures k < |SessionMatrix(Slots)| && SessionMatrix(Slots)[k] == SessionRows[k]
  {
    var row := SessionMatrix(Slots)[k];
    forall j | 0 <= j < 7 ensures row[j] == SessionRows[k][j] {
      SessionEntry(k, j);
    }
  }

  /** Slot `j` is in session `k` exactly where the table has a 1. */
  lemma SessionEntry(k: nat, j: nat)
    requires k < |Sessions| && j < |Slots|
    ensures (Sessions[k] == Slots[j].session) == (SessionRows[k][j] == 1)
  {
    var labels := [Slots[0].session, Slots[3].session, Slots[5].session, Slots[6].session];
    assert labels == Sessions;
    forall a, b | 0 <= a < b < |Sessions| ensures Sessions[a] != Sessions[b] {
      assert Sessions[a][1] != Sessions[b][1];
    }
  }

  /** The slot lists of the four rows. */
  lemma SessionSlotsOf(S: Matrix, k: nat)
    requires S == SessionRows && k < |S|
    ensures SlotsInSession(k, S) == [[0, 1, 2], [3, 4], [5], [6]][k]
  {
    var expected := [[0, 1, 2], [3, 4], [5], [6]][k];
    forall j: nat ensures j in SlotsInSession(k, S) <==> j in expected {
    }
    IncreasingUnique(SlotsInSession(k, S), expected);
  }

  /** Six ordered pairs in the first session, two in the second and none
      in the one-slot sessions. */
  lemma SessionPairsOf(S: Matrix)
    requires S == SessionRows
    ensures SessionPairCount(S, 4) == 8
  {
    SessionSlotsOf(S, 0);
    SessionSlotsOf(S, 1);
    SessionSlotsOf(S, 2);
    SessionSlotsOf(S, 3);
    SessionPairsFrom(S);
  }

  lemma SessionPairsFrom(S: Matrix)
    requires |S| == 4
    requires SlotsInSession(0, S) == [0, 1, 2] && SlotsInSession(1, S) == [3, 4]
    requires SlotsInSession(2, S) == [5] && SlotsInSession(3, S) == [6]
    ensures SessionPairCount(S, 4) == 8
  {
    assert SessionPairCount(S, 1) == 6 by {
      DistinctPairsOfSession([0, 1, 2]);
    }
    assert SessionPairCount(S, 2) == 8 by {
      DistinctPairsOfSession([3, 4]);
    }
    assert SessionPairCount(S, 3) == 8 by {
      DistinctPairsOfSession([5]);
    }
    assert SessionPairCount(S, 4) == 8 by {
      DistinctPairsOfSession([6]);
    }
  }

  /** The fixture's two tags, in sorted order. */
  lemma FixtureTags()
    ensures AllTags(Events) == Tags
  {
    TagsOfFixture(AllTags(Events));
  }

  lemma TagsOfFixture(r: seq<string>)
    requires StrictlySorted(r, StrLess)
    requires forall t :: t in r <==> exists i :: 0 <= i < |Events| && t in Events[i].tags
    ensures r == Tags
  {
    StrLessIsStrictTotalOrder();
    assert StrLess(Tags[0], Tags[1]);
    forall t ensures t in r <==> t in Tags {
      assert Tags[0] in Events[0].tags && Tags[1] in Events[2].tags;
    }
    StrictlySortedUnique(r, Tags, StrLess);
  }

  const TagRows: Matrix := [[1, 0], [1, 1], [0, 1]]

  /** Talk 1 is tagged community, Talk 2 both, the workshop documentation. */
  lemma FixtureTagMatrix()
    ensures TagMatrix(Events) == TagRows
  {
    FixtureTags();
    var X := TagMatrix(Events);
    assert Tags[1] != Tags[0] by {
      assert Tags[1][0] != Tags[0][0];
    }
    forall r | 0 <= r < 3 ensures X[r] == TagRows[r] {
      forall c | 0 <= c < 2 ensures X[r][c] == TagRows[r][c] {
        assert X[r][c] == if Tags[c] in Events[r].tags then 1 else 0;
      }
    }
  }

  /** The entries of the fixture's tag matrix. */
  predicate IsFixtureTagMatrix(T: Matrix) {
    IsShape(T, 3, 2) && IsBinary(T) &&
    T[0][0] == 1 && T[0][1] == 0 && T[1][0] == 1 && T[1][1] == 1 && T[2][0] == 0 && T[2][1] == 1
  }

  /** Talk 1 and the workshop share no tag, Talk 2 shares one with each:
      two partnerships, Talk 1 with the workshop and back. */
  lemma PartnersOfTags(T: Matrix)
    requires IsFixtureTagMatrix(T)
    ensures PartnerCount(DiffTable(T), 3) == 2
  {
    DiffRowOf(T, 0);
    DiffRowOf(T, 1);
    DiffRowOf(T, 2);
    PartnersOf(DiffTable(T));
  }

  /** Each event's list of partners. */
  lemma DiffRowOf(T: Matrix, e: nat)
    requires IsFixtureTagMatrix(T) && e < 3
    ensures EventsWithDiffTag(e, T) == [[2], [], [0]][e]
  {
    var expected := [[2], [], [0]][e];
    forall x: nat ensures x in EventsWithDiffTag(e, T) <==> x in expected {
      DiffMemberOf(T, e, x);
    }
    IncreasingUnique(EventsWithDiffTag(e, T), expected);
  }

  lemma DiffMemberOf(T: Matrix, e: nat, x: nat)
    requires IsFixtureTagMatrix(T) && e < 3
    ensures x in EventsWithDiffTag(e, T) <==> x in [[2], [], [0]][e]
  {
    assert Width(T) == 2;
    TaggedDiffMember(e, T, x, if e == 2 then 1 else 0);
    NoSharedTagOf(T, e, x, x in EventsWithDiffTag(e, T));
  }

  /** Only Talk 1 and the workshop have no tag in common. */
  lemma NoSharedTagOf(T: Matrix, e: nat, x: nat, listed: bool)
    requires IsFixtureTagMatrix(T) && e < 3
    requires listed <==> x < |T| && forall k :: 0 <= k < 2 ==> T[e][k] == 0 || T[x][k] == 0
    ensures listed <==> x in [[2], [], [0]][e]
  {
    assert x in [[2], [], [0]][e] <==> (e == 0 && x == 2) || (e == 2 && x == 0);
    if x < 3 {
      assert (forall k :: 0 <= k < 2 ==> T[e][k] == 0 || T[x][k] == 0) <==>
        (T[e][0] == 0 || T[x][0] == 0) && (T[e][1] == 0 || T[x][1] == 0);
    }
  }

  /** No event is its own partner, so each listed partner counts. */
  lemma PartnersOf(D: seq<seq<nat>>)
    requires |D| == 3 && D[0] == [2] && D[1] == [] && D[2] == [0]
    ensures PartnerCount(D, 3) == 2
  {
    assert Unlike(0, D[0]) == 1 && Unlike(1, D[1]) == 0 && Unlike(2, D[2]) == 1;
    assert PartnerCount(D, 1) == 1;
    assert PartnerCount(D, 2) == 1;
  }

  /** The older tag family on the fixture has sixteen constraints: eight
      ordered slot pairs within a session, each against Talk 1 and the
      workshop in either order. */
  lemma FixtureTagConstraintCount()
    ensures |TagQuads(SessionMatrix(Slots), TagMatrix(Events))| == 16
  {
    TagQuadsLength(SessionMatrix(Slots), TagMatrix(Events));
    FixtureSessionMatrix();
    FixtureTagMatrix();
    SessionPairsOf(SessionRows);
    PartnersOfTags(TagRows);
  }

  /** Three, seven and sixteen constraints, one per cell (twenty-one), and
      one per cell pair for each of the five concurrent slot pairs (nine
      each): ninety-two in the older `constraints`, whatever the
      availability matrices and the allocation. */
  lemma FixtureLegacyConstraintCount(A: Matrix, EA: Matrix, X: Matrix)
    requires IsShape(A, |Events|, |Slots|) && IsShape(EA, |Events|, |Events|) && IsShape(X, |Events|, |Slots|)
    ensures |LegacyAllConstraints(Events, Slots, SessionMatrix(Slots), TagMatrix(Events), A, EA, X)| == 92
  {
    FixtureTagConstraintCount();
    FixtureConcurrentSlots();
  }

  /** The allocations the objective tests start from: Talk 1 in slot 0,
      Talk 2 in slot 4, and the workshop in slot 1 or in slot 3. */
  const FirstAllocation: Matrix := [UnitRow(7, 0), UnitRow(7, 4), UnitRow(7, 1)]
  const SecondAllocation: Matrix := [UnitRow(7, 0), UnitRow(7, 4), UnitRow(7, 3)]

  /** Demand minus capacity comes to 400 and 440 (so capacity minus demand
      to -400 and -440): Talk 2's 500 people overflow a 50-seat room, and
      the second allocation puts the workshop in the 10-seat slot. */
  lemma FixtureOverflow()
    ensures Overflow(Events, Slots, FirstAllocation) == 400
    ensures Overflow(Events, Slots, SecondAllocation) == 440
  {
    OverflowWithWorkshopIn(FirstAllocation, 1);
    OverflowWithWorkshopIn(SecondAllocation, 3);
  }

  /** With the talks in slots 0 and 4, the overflow is 450 less the
      capacity of the workshop's slot. */
  lemma OverflowWithWorkshopIn(X: Matrix, w: nat)
    requires w < |Slots| && X == [UnitRow(7, 0), UnitRow(7, 4), UnitRow(7, w)]
    ensures Overflow(Events, Slots, X) == 450 - Slots[w].capacity
  {
    var slotOf := [0, 4, w];
    OverflowOfAssignment(Events, Slots, X, slotOf, 3);
    assert AssignedOverflow(Events, Slots, slotOf, 1) == 30 - 50;
    assert AssignedOverflow(Events, Slots, slotOf, 2) == 30 - 50 + 500 - 50;
  }

  /** Moving Talk 1 to slot 1 changes two cells. */
  lemma FixtureChangesOneMove()
    ensures Changes(FirstAllocation, [UnitRow(7, 1), UnitRow(7, 4), UnitRow(7, 1)], 3, 7) == 2
  {
  }

  /** The third test array differs from the first in seven cells. */
  lemma FixtureChangesMany()
    ensures Changes(FirstAllocation, [[0, 1, 1, 0, 0, 0, 0], UnitRow(7, 2), UnitRow(7, 5)], 3, 7) == 7
  {
  }

  /** The valid allocation meets all four families of constraints, even with
      events that share a tag kept apart. */
  lemma FixtureValidArrayFeasible()
    ensures Feasible(Events, Slots, TagAwareAvailability, ValidArray)
    ensures AllHold(AllConstraints(Events, Slots, TagAwareAvailability, ValidArray))
  {
    ValidAllocationFeasible(ValidArray, [2, 4, 5]);
    AllConstraintsHold(Events, Slots, TagAwareAvailability, ValidArray);
  }

  /** An allocation of event i to slot `slotOf[i]`, cell by cell. */
  predicate Allocates(X: Matrix, slotOf: seq<nat>) {
    |slotOf| == |Events| && IsShape(X, |Events|, |Slots|) &&
    forall i, j :: 0 <= i < |Events| && 0 <= j < |Slots| ==> X[i][j] == if j == slotOf[i] then 1 else 0
  }

  lemma ValidAllocationFeasible(X: Matrix, slotOf: seq<nat>)
    requires slotOf == [2, 4, 5] && X == [UnitRow(7, slotOf[0]), UnitRow(7, slotOf[1]), UnitRow(7, slotOf[2])]
    ensures IsShape(X, |Events|, |Slots|) && IsBinary(X)
    ensures Feasible(Events, Slots, TagAwareAvailability, X)
  {
    assert Allocates(X, slotOf);
    AllocationRows(X, slotOf);
    AllocationColumns(X, slotOf);
    AllocationAvailable(X, slotOf);
    AllocationNoClash(X, slotOf);
  }

  lemma AllocationRows(X: Matrix, slotOf: seq<nat>)
    requires Allocates(X, slotOf) && forall i :: 0 <= i < |Events| ==> slotOf[i] < |Slots|
    ensures IsBinary(X) && forall i :: 0 <= i < |Events| ==> ExactlyOneOne(X[i])
  {
    forall i | 0 <= i < |Events| ensures IsBinaryRow(X[i]) && ExactlyOneOne(X[i]) {
      assert X[i][slotOf[i]] == 1;
    }
  }

  /** Events in different slots leave at most one 1 in each column. */
  lemma AllocationColumns(X: Matrix, slotOf: seq<nat>)
    requires Allocates(X, slotOf) && slotOf[0] != slotOf[1] && slotOf[0] != slotOf[2] && slotOf[1] != slotOf[2]
    ensures forall j :: 0 <= j < |Slots| ==> AtMostOneOne(Column(X, j))
  {
  }

  /** Slots 2, 4 and 5 are open to Talk 1, Talk 2 and the workshop. */
  lemma AllocationAvailable(X: Matrix, slotOf: seq<nat>)
    requires Allocates(X, slotOf) && slotOf == [2, 4, 5]
    ensures forall r, c :: 0 <= r < |Events| && 0 <= c < |Slots| && SlotUnavailable(Events[r], Slots[c]) ==> X[r][c] == 0
  {
    forall r, c | 0 <= r < |Events| && 0 <= c < |Slots| && SlotUnavailable(Events[r], Slots[c]) ensures X[r][c] == 0 {
      FixtureSlotUnavailable(r, c);
    }
  }

  /** No two of slots 2, 4 and 5 overlap. */
  lemma AllocationNoClash(X: Matrix, slotOf: seq<nat>)
    requires Allocates(X, slotOf) && slotOf == [2, 4, 5]
    ensures NoClash(Events, Slots, TagAwareAvailability, X)
  {
    forall s1, s2, r, c |
      0 <= s1 < s2 < |Slots| && SlotsOverlap(Slots[s1], Slots[s2]) &&
      0 <= r < |Events| && 0 <= c < |Events| && Events[r].unavailability != [] && TagAwareAvailability[r][c] == 0
      ensures !(X[r][s1] == 1 && X[c][s2] == 1)
    {
      FixtureOverlaps(s1, s2);
    }
  }
}
