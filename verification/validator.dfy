/** The violation filter of conference_scheduler/validator.py. The
    constraint generator it delegates to (`scheduler._all_constraints`) is a
    parameter `all`: given the array and the optional list of extra
    constraint generators (of some type `C`), it returns the constraints in
    generator order. */
module Validator {
  import opened Sequences
  import opened Matrices
  import opened Resources
  import opened Converter
  import opened Constraints

  /** The labels of the constraints whose condition is false, in order. */
  function Violations(cs: seq<Constraint>): (r: seq<string>)
    ensures |r| <= |cs|
    ensures r == [] <==> AllHold(cs)
    ensures forall t :: t in r <==> exists k :: 0 <= k < |cs| && cs[k].text == t && !cs[k].condition
  {
    if cs == [] then []
    else
      var front := Violations(cs[..|cs| - 1]);
      var last := cs[|cs| - 1];
      assert forall k :: 0 <= k < |cs| - 1 ==> cs[..|cs| - 1][k] == cs[k];
      front + (if last.condition then [] else [last.text])
  }

  /** Violations of a concatenation: those of the first part, then those of
      the second. */
  lemma {:induction false} ViolationsAppend(a: seq<Constraint>, b: seq<Constraint>)
    ensures Violations(a + b) == Violations(a) + Violations(b)
    decreases |b|
  {
    if b == [] {
      assert a + b == a;
    } else {
      var b' := b[..|b| - 1];
      assert (a + b)[..|a + b| - 1] == a + b';
      ViolationsAppend(a, b');
    }
  }

  /** `constraint_violations`. */
  function ConstraintViolations<C>(X: Matrix, constraints: Option<C>, all: (Matrix, Option<C>) -> seq<Constraint>): (r: seq<string>)
    ensures r == [] <==> AllHold(all(X, constraints))
  {
    Violations(all(X, constraints))
  }

  /** `is_valid_array`: never for an empty array, otherwise exactly when
      nothing is violated. */
  function IsValidArray<C>(X: Matrix, constraints: Option<C>, all: (Matrix, Option<C>) -> seq<Constraint>): (b: bool)
    ensures b <==> |X| != 0 && AllHold(all(X, constraints))
  {
    if |X| == 0 then false
    else |ConstraintViolations(X, constraints, all)| == 0
  }

  /** `is_valid_schedule` as written: the array is checked without the
      caller's `constraints`. `None` is the ValueError of the conversion. */
  function IsValidScheduleAsWritten<C>(schedule: seq<ScheduledItem>, events: seq<EventValue>, slots: seq<Slot>,
                                       constraints: Option<C>, all: (Matrix, Option<C>) -> seq<Constraint>): (r: Option<bool>)
    ensures |schedule| == 0 ==> r == Some(false)
    ensures |schedule| != 0 ==> (r.Some? <==> AllListed(schedule, events, slots))
    ensures |schedule| != 0 && r.Some? ==> r.value == IsValidArray(ScheduleArray(schedule, events, slots).value, None, all)
  {
    if |schedule| == 0 then Some(false)
    else
      match ScheduleArray(schedule, events, slots)
      case None => None
      case Some(X) => Some(IsValidArray(X, None, all))
  }

  /** `is_valid_schedule` as evidently intended: the caller's `constraints`
      reach the array check, so a schedule is valid exactly when it is
      non-empty, converts, and its array is valid under those constraints. */
  function IsValidSchedule<C>(schedule: seq<ScheduledItem>, events: seq<EventValue>, slots: seq<Slot>,
                              constraints: Option<C>, all: (Matrix, Option<C>) -> seq<Constraint>): (r: Option<bool>)
    ensures |schedule| == 0 ==> r == Some(false)
    ensures |schedule| != 0 ==> (r.Some? <==> AllListed(schedule, events, slots))
    ensures r == Some(true) <==>
      |schedule| != 0 && AllListed(schedule, events, slots) && |events| != 0 &&
      AllHold(all(ScheduleArray(schedule, events, slots).value, constraints))
  {
    if |schedule| == 0 then Some(false)
    else
      match ScheduleArray(schedule, events, slots)
      case None => None
      case Some(X) => Some(IsValidArray(X, constraints, all))
  }

  /** Without extra constraints the two versions agree. */
  lemma IsValidScheduleWithoutConstraints<C>(schedule: seq<ScheduledItem>, events: seq<EventValue>, slots: seq<Slot>,
                                             all: (Matrix, Option<C>) -> seq<Constraint>)
    ensures IsValidScheduleAsWritten(schedule, events, slots, None, all) == IsValidSchedule(schedule, events, slots, None, all)
  {
  }

  /** A generator whose extra constraint always fails. */
  function ExtraFails(X: Matrix, constraints: Option<int>): seq<Constraint> {
    if constraints.Some? then [Constraint("extra", false)] else []
  }

  /** The input that shows the discrepancy: one event in one slot, and an
      extra constraint that fails. The schedule as written is declared
      valid; with the constraint passed on it is not. */
  lemma IsValidScheduleDropsConstraints(e: EventValue, s: Slot)
    ensures IsValidScheduleAsWritten([ScheduledItem(e, s)], [e], [s], Some(0), ExtraFails) == Some(true)
    ensures IsValidSchedule([ScheduledItem(e, s)], [e], [s], Some(0), ExtraFails) == Some(false)
  {
    var schedule := [ScheduledItem(e, s)];
    assert AllListed(schedule, [e], [s]);
    var X := ScheduleArray(schedule, [e], [s]).value;
    assert |X| == 1;
  }

  /** `schedule_violations`: the violations of the converted array, with
      the caller's constraints. */
  function ScheduleViolations<C>(schedule: seq<ScheduledItem>, events: seq<EventValue>, slots: seq<Slot>,
                                 constraints: Option<C>, all: (Matrix, Option<C>) -> seq<Constraint>): (r: Option<seq<string>>)
    ensures r.Some? <==> AllListed(schedule, events, slots)
    ensures r.Some? ==> (r.value == [] <==> AllHold(all(ScheduleArray(schedule, events, slots).value, constraints)))
  {
    match ScheduleArray(schedule, events, slots)
    case None => None
    case Some(X) => Some(ConstraintViolations(X, constraints, all))
  }

  /** A non-empty schedule that converts is valid exactly when it has no
      violations. */
  lemma ValidIffNoViolations<C>(schedule: seq<ScheduledItem>, events: seq<EventValue>, slots: seq<Slot>,
                                constraints: Option<C>, all: (Matrix, Option<C>) -> seq<Constraint>)
    requires |schedule| != 0 && |events| != 0 && AllListed(schedule, events, slots)
    ensures IsValidSchedule(schedule, events, slots, constraints, all) ==
      Some(ScheduleViolations(schedule, events, slots, constraints, all).value == [])
  {
  }
}
