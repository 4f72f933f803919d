/** The heuristic pipeline and the two schedule diffs of
    src/conference_scheduler/scheduler.py. The search algorithm and its
    keyword arguments are a `Search` value per phase; the violation count
    and the caller's objective are functions of the events, the slots and
    the array. */
module Scheduler {
  import opened Sequences
  import opened Matrices
  import opened Resources
  import opened Ordering
  import opened Neighbourhood
  import opened HillClimbing
  import opened Annealing

  // ---- heuristic ----

  /** One call of the chosen algorithm with its keyword arguments and its
      random draws; `lower` is the `lower_bound` keyword, `None` when it is
      not passed. */
  datatype Search =
    | Climber(accept: Option<Matrix -> int>, lower: Option<int>, maxIt: int, moves: seq<Move>)
    | Annealer(temperature: real, cooldown: real, lower: Option<int>, maxIt: int, moves: seq<Move>, draws: seq<bool>)

  /** Enough draws, each in range for an m-by-n array. */
  predicate Fits(alg: Search, m: nat, n: nat) {
    DrawsFit(alg.moves, m, n) && |alg.moves| > alg.maxIt && (alg.Annealer? ==> |alg.draws| > alg.maxIt)
  }

  /** The array the algorithm returns; `None` if a move raised. */
  function Searched(alg: Search, f: Matrix -> int, X0: Matrix): (r: Option<Matrix>)
    requires IsShape(X0, |X0|, Width(X0)) && Fits(alg, |X0|, Width(X0))
    ensures r.Some? ==> Grid(r.value, |X0|, Width(X0))
  {
    match alg
    case Climber(accept, lower, maxIt, moves) => FinalArray(HillClimb(f, X0, lower, accept, maxIt, moves))
    case Annealer(temperature, cooldown, lower, maxIt, moves, draws) =>
      BestArray(Annealed(f, X0, temperature, cooldown, lower, maxIt, moves, draws))
  }

  /** Calls the algorithm; the warning flag is dropped, as `heuristic`
      ignores it. */
  method RunSearch(alg: Search, f: Matrix -> int, X0: Matrix) returns (r: Option<Matrix>)
    requires IsShape(X0, |X0|, Width(X0)) && Fits(alg, |X0|, Width(X0))
    ensures r == Searched(alg, f, X0)
  {
    var warned;
    match alg
    case Climber(accept, lower, maxIt, moves) =>
      r, warned := HillClimber(f, X0, lower, accept, maxIt, moves);
    case Annealer(temperature, cooldown, lower, maxIt, moves, draws) =>
      r, warned := SimulatedAnnealing(f, X0, temperature, cooldown, lower, maxIt, moves, draws);
  }

  /** Started on an assignment with events and at least two slots, either
      algorithm returns an assignment of the same shape. */
  lemma SearchKeepsAssignment(alg: Search, f: Matrix -> int, X0: Matrix, m: nat, n: nat)
    requires IsAssignment(X0, m, n) && m >= 1 && n >= 2 && Fits(alg, m, n)
    ensures Width(X0) == n
    ensures Searched(alg, f, X0).Some?
    ensures IsAssignment(Searched(alg, f, X0).value, m, n)
  {
    assert |X0[0]| == n;
    match alg
    case Climber(accept, lower, maxIt, moves) =>
      ClimbKeepsAssignment(f, lower, accept, Bound(accept, X0), maxIt, moves, m, n, Climb(X0, f(X0), 0));
    case Annealer(temperature, cooldown, lower, maxIt, moves, draws) =>
      AnnealKeepsAssignment(f, lower, cooldown, maxIt, moves, draws, m, n,
                            Anneal(X0, X0, f(X0), f(X0), temperature, 0));
  }

  /** The pipeline as a value: the initial array, phase 1 against the
      violation count down to 0, phase 2 against the objective when there
      is one, with whatever bound its keyword arguments carry, and the
      nonzero cells of the result. `None` is an exception raised on the
      way, including the `TypeError` of phase 1 when its keyword arguments
      carry a `lower_bound` of their own next to the fixed one. */
  function HeuristicResult(events: seq<EventValue>, slots: seq<Slot>, perm: seq<nat>,
                           violations: (seq<EventValue>, seq<Slot>, Matrix) -> int,
                           objective: Option<(seq<EventValue>, seq<Slot>, Matrix) -> int>,
                           phase1: Search, phase2: Search): (r: Option<seq<Cell>>)
    requires IsPermutation(perm, |events|) && Fits(phase1, |events|, |slots|) && Fits(phase2, |events|, |slots|)
  {
    var m, n := |events|, |slots|;
    match InitialArray(m, n, perm)
    case None => None
    case Some(X0) =>
      if phase1.lower.Some? then None
      else
        assert Fits(phase1, |X0|, Width(X0)) by { FitsNarrower(phase1, m, n, Width(X0)); }
        match Searched(phase1.(lower := Some(0)), X => violations(events, slots, X), X0)
        case None => None
        case Some(X1) =>
          if objective.None? then Some(NonzeroCells(X1))
          else
            assert Fits(phase2, |X1|, Width(X1)) by { FitsNarrower(phase2, m, n, Width(X1)); }
            match Searched(phase2, X => objective.value(events, slots, X), X1)
            case None => None
            case Some(X2) => Some(NonzeroCells(X2))
  }

  /** Draws that fit m-by-n also fit m-by-w when w is n, or 0 for an array
      without rows. */
  lemma FitsNarrower(alg: Search, m: nat, n: nat, w: nat)
    requires Fits(alg, m, n) && (w == n || (m == 0 && w == 0))
    ensures Fits(alg, m, w)
  {
  }

  /** `heuristic`. */
  method Heuristic(events: seq<EventValue>, slots: seq<Slot>, perm: seq<nat>,
                   violations: (seq<EventValue>, seq<Slot>, Matrix) -> int,
                   objective: Option<(seq<EventValue>, seq<Slot>, Matrix) -> int>,
                   phase1: Search, phase2: Search) returns (r: Option<seq<Cell>>)
    requires IsPermutation(perm, |events|) && Fits(phase1, |events|, |slots|) && Fits(phase2, |events|, |slots|)
    ensures r == HeuristicResult(events, slots, perm, violations, objective, phase1, phase2)
  {
    var m, n := |events|, |slots|;
    var X := GetInitialArray(m, n, perm);
    if X.None? {
      return None;
    }
    if phase1.lower.Some? {
      return None;
    }
    FitsNarrower(phase1, m, n, Width(X.value));
    X := RunSearch(phase1.(lower := Some(0)), A => violations(events, slots, A), X.value);
    if X.None? {
      return None;
    }
    if objective.Some? {
      FitsNarrower(phase2, m, n, Width(X.value));
      X := RunSearch(phase2, A => objective.value(events, slots, A), X.value);
      if X.None? {
        return None;
      }
    }
    r := Some(NonzeroCells(X.value));
  }

  /** Some pair schedules event `i`. */
  predicate Scheduled(cells: seq<Cell>, i: nat) {
    exists k :: 0 <= k < |cells| && cells[k].0 == i
  }

  /** A list of (event, slot) pairs that schedules every event exactly
      once and uses no slot twice. */
  predicate IsSolution(cells: seq<Cell>, m: nat, n: nat) {
    (forall k :: 0 <= k < |cells| ==> cells[k].0 < m && cells[k].1 < n) &&
    (forall i: nat :: i < m ==> Scheduled(cells, i)) &&
    (forall a, b :: 0 <= a < b < |cells| ==> cells[a].0 != cells[b].0 && cells[a].1 != cells[b].1)
  }

  /** The nonzero cells of an assignment form a solution. */
  lemma AssignmentCells(X: Matrix, m: nat, n: nat)
    requires IsAssignment(X, m, n)
    ensures IsSolution(NonzeroCells(X), m, n)
  {
    var r := NonzeroCells(X);
    assert m >= 1 ==> Width(X) == n;
    forall i: nat | i < m ensures Scheduled(r, i) {
      var j :| 0 <= j < |X[i]| && X[i][j] == 1;
      assert (i, j as nat) in r;
    }
    forall a, b | 0 <= a < b < |r| ensures r[a].0 != r[b].0 && r[a].1 != r[b].1 {
      assert r[a] in r && r[b] in r;
      assert LexLess(r[a], r[b]);
      var i1, j1, i2, j2 := r[a].0, r[a].1, r[b].0, r[b].1;
      assert X[i1][j1] == 1 && X[i2][j2] == 1;
    }
  }

  /** With events and at least two slots, no more events than slots, and
      no second `lower_bound` for phase 1, the pipeline never fails and
      returns a solution: each event in one slot, no slot twice. With more
      events than slots, or a second `lower_bound`, it fails. */
  lemma HeuristicSpec(events: seq<EventValue>, slots: seq<Slot>, perm: seq<nat>,
                      violations: (seq<EventValue>, seq<Slot>, Matrix) -> int,
                      objective: Option<(seq<EventValue>, seq<Slot>, Matrix) -> int>,
                      phase1: Search, phase2: Search)
    requires IsPermutation(perm, |events|) && Fits(phase1, |events|, |slots|) && Fits(phase2, |events|, |slots|)
    ensures |events| > |slots| || phase1.lower.Some? ==>
      HeuristicResult(events, slots, perm, violations, objective, phase1, phase2).None?
    ensures 1 <= |events| <= |slots| && |slots| >= 2 && phase1.lower.None? ==>
      var r := HeuristicResult(events, slots, perm, violations, objective, phase1, phase2);
      r.Some? && IsSolution(r.value, |events|, |slots|)
  {
    var m, n := |events|, |slots|;
    if 1 <= m <= n && n >= 2 && phase1.lower.None? {
      InitialArraySpec(m, n, perm);
      var X0 := InitialArray(m, n, perm).value;
      var f1 := X => violations(events, slots, X);
      var first := phase1.(lower := Some(0));
      SearchKeepsAssignment(first, f1, X0, m, n);
      var X1 := Searched(first, f1, X0).value;
      if objective.None? {
        AssignmentCells(X1, m, n);
      } else {
        var f2 := X => objective.value(events, slots, X);
        SearchKeepsAssignment(phase2, f2, X1, m, n);
        AssignmentCells(Searched(phase2, f2, X1).value, m, n);
      }
    }
  }

  // ---- event_schedule_difference and slot_schedule_difference ----

  /** The last item of `s` with key `k`: the one a dict comprehension keyed
      by `key` keeps. */
  function Last<K(==, !new)>(s: seq<ScheduledItem>, key: ScheduledItem -> K, k: K): (r: Option<ScheduledItem>)
    ensures r.None? <==> forall i :: 0 <= i < |s| ==> key(s[i]) != k
    ensures r.Some? ==> key(r.value) == k
    ensures r.Some? ==> exists i :: 0 <= i < |s| && s[i] == r.value && forall j :: i < j < |s| ==> key(s[j]) != k
  {
    if s == [] then None
    else if key(s[|s| - 1]) == k then Some(s[|s| - 1])
    else
      var front := Last(s[..|s| - 1], key, k);
      assert forall i :: 0 <= i < |s| - 1 ==> s[..|s| - 1][i] == s[i];
      front
  }

  /** `{key(item): item for item in s}`. */
  function Index<K(==, !new)>(s: seq<ScheduledItem>, key: ScheduledItem -> K): (r: map<K, ScheduledItem>)
    ensures forall k :: k in r <==> Last(s, key, k).Some?
    ensures forall k :: k in r ==> r[k] == Last(s, key, k).value
  {
    if s == [] then map[]
    else
      var front := Index(s[..|s| - 1], key);
      assert forall k :: Last(s, key, k) == if key(s[|s| - 1]) == k then Some(s[|s| - 1]) else Last(s[..|s| - 1], key, k);
      front[key(s[|s| - 1]) := s[|s| - 1]]
  }

  /** The key of every item, in order. */
  function Keys<K>(s: seq<ScheduledItem>, key: ScheduledItem -> K): (r: seq<K>)
    ensures |r| == |s| && forall i :: 0 <= i < |s| ==> r[i] == key(s[i])
  {
    seq(|s|, i requires 0 <= i < |s| => key(s[i]))
  }

  /** The records `change` gives for `keys`, in the order of `keys`. */
  function Records<K(==, !new), R(==, !new)>(keys: seq<K>, change: K -> Option<R>): (r: seq<R>)
    ensures forall c :: c in r <==> exists k :: k in keys && change(k) == Some(c)
  {
    if keys == [] then []
    else
      var rest := Records(keys[1..], change);
      assert forall k :: k in keys <==> k == keys[0] || k in keys[1..] by {
        assert keys == [keys[0]] + keys[1..];
      }
      (if change(keys[0]).Some? then [change(keys[0]).value] else []) + rest
  }

  /** Records made for strictly sorted keys, each carrying its own key,
      come out strictly sorted by key. */
  lemma {:induction false} RecordsInKeyOrder<K(!new), R(!new)>(keys: seq<K>, change: K -> Option<R>, keyOf: R -> K,
                                                          less: (K, K) -> bool)
    requires StrictlySorted(keys, less)
    requires forall k :: change(k).Some? ==> keyOf(change(k).value) == k
    ensures forall i :: 0 <= i < |Records(keys, change)| ==> keyOf(Records(keys, change)[i]) in keys
    ensures forall i, j :: 0 <= i < j < |Records(keys, change)| ==>
      less(keyOf(Records(keys, change)[i]), keyOf(Records(keys, change)[j]))
  {
    if keys != [] {
      var rest := Records(keys[1..], change);
      RecordsInKeyOrder(keys[1..], change, keyOf, less);
      var r := Records(keys, change);
      var head := if change(keys[0]).Some? then [change(keys[0]).value] else [];
      assert r == head + rest;
      forall i | 0 <= i < |rest| ensures keyOf(rest[i]) in keys && less(keys[0], keyOf(rest[i])) {
        var k :| 0 <= k < |keys[1..]| && keys[1..][k] == keyOf(rest[i]);
        assert keys[k + 1] == keyOf(rest[i]);
      }
    }
  }

  /** The event name of an item. */
  function EventKey(item: ScheduledItem): string {
    item.event.name
  }

  /** The three comprehensions of `event_schedule_difference` for one name:
      a name in both dicts whose slot changed, a name only in the newSchedule
      dict, a name only in the oldSchedule one. */
  function EventChange(O: map<string, ScheduledItem>, N: map<string, ScheduledItem>, name: string): Option<ChangedEventScheduledItem> {
    if name in O && name in N then
      if O[name].slot != N[name].slot then Some(ChangedEventScheduledItem(O[name].event, Some(O[name].slot), Some(N[name].slot)))
      else None
    else if name in N then Some(ChangedEventScheduledItem(N[name].event, None, Some(N[name].slot)))
    else if name in O then Some(ChangedEventScheduledItem(O[name].event, Some(O[name].slot), None))
    else None
  }

  /** What the event diff says about one name, read off the two schedules:
      the last item of that name in each decides its old and new slot; a
      record exists exactly when the two differ. */
  function EventChangeOf(oldSchedule: seq<ScheduledItem>, newSchedule: seq<ScheduledItem>, name: string): (r: Option<ChangedEventScheduledItem>)
    ensures r.Some? ==> r.value.event.name == name && r.value.oldSlot != r.value.newSlot
  {
    match (Last(oldSchedule, EventKey, name), Last(newSchedule, EventKey, name))
    case (Some(o), Some(n)) =>
      if o.slot != n.slot then Some(ChangedEventScheduledItem(o.event, Some(o.slot), Some(n.slot))) else None
    case (None, Some(n)) => Some(ChangedEventScheduledItem(n.event, None, Some(n.slot)))
    case (Some(o), None) => Some(ChangedEventScheduledItem(o.event, Some(o.slot), None))
    case (None, None) => None
  }

  /** `event_schedule_difference`: the sorted names of both schedules, and
      a record for each name whose slot changed, appeared or disappeared.
      Names are unique in the result, so sorting by name fixes its order. */
  function EventScheduleDifference(oldSchedule: seq<ScheduledItem>, newSchedule: seq<ScheduledItem>): (r: seq<ChangedEventScheduledItem>)
    ensures forall c :: c in r <==> exists name :: EventChangeOf(oldSchedule, newSchedule, name) == Some(c)
    ensures forall i, j :: 0 <= i < j < |r| ==> StrLess(r[i].event.name, r[j].event.name)
  {
    StrLessIsStrictTotalOrder();
    var O, N := Index(oldSchedule, EventKey), Index(newSchedule, EventKey);
    var names := SortedUnique(Keys(oldSchedule, EventKey) + Keys(newSchedule, EventKey), StrLess);
    var change := name => EventChange(O, N, name);
    assert forall name :: change(name) == EventChangeOf(oldSchedule, newSchedule, name) &&
                        (EventChangeOf(oldSchedule, newSchedule, name).Some? ==> name in names) by {
      forall name ensures change(name) == EventChangeOf(oldSchedule, newSchedule, name) &&
                         (EventChangeOf(oldSchedule, newSchedule, name).Some? ==> name in names) {
        EventChangeAgrees(oldSchedule, newSchedule, name);
      }
    }
    RecordsInKeyOrder(names, change, (c: ChangedEventScheduledItem) => c.event.name, StrLess);
    Records(names, change)
  }

  /** The dict-based comprehensions agree with the reading off the
      schedules, and only keys of the two schedules get a record. */
  lemma EventChangeAgrees(oldSchedule: seq<ScheduledItem>, newSchedule: seq<ScheduledItem>, name: string)
    ensures EventChange(Index(oldSchedule, EventKey), Index(newSchedule, EventKey), name) == EventChangeOf(oldSchedule, newSchedule, name)
    ensures EventChangeOf(oldSchedule, newSchedule, name).Some? ==> name in Keys(oldSchedule, EventKey) + Keys(newSchedule, EventKey)
  {
  }

  /** The diff is empty exactly when no event changed, appeared or disappeared. */
  lemma EventDifferenceEmpty(oldSchedule: seq<ScheduledItem>, newSchedule: seq<ScheduledItem>)
    ensures EventScheduleDifference(oldSchedule, newSchedule) == [] <==>
      forall name :: EventChangeOf(oldSchedule, newSchedule, name).None?
  {
    var r := EventScheduleDifference(oldSchedule, newSchedule);
    if r != [] {
      assert r[0] in r;
    }
  }

  /** A schedule diffed against itself, from the events' side, is empty. */
  lemma EventDifferenceOfSelf(s: seq<ScheduledItem>)
    ensures EventScheduleDifference(s, s) == []
  {
    EventDifferenceEmpty(s, s);
  }

  /** The slot of an item: the key of the slot diff. */
  function SlotKey(item: ScheduledItem): Slot {
    item.slot
  }

  /** The sort key `(venue, starts_at)`, extended by the remaining fields so
      that distinct slots never tie. */
  predicate SlotLess(a: Slot, b: Slot) {
    StrLess(a.venue, b.venue) ||
    (a.venue == b.venue &&
     (a.startsAt < b.startsAt ||
      (a.startsAt == b.startsAt &&
       (a.duration < b.duration ||
        (a.duration == b.duration &&
         (a.capacity < b.capacity || (a.capacity == b.capacity && StrLess(a.session, b.session))))))))
  }

  /** `(a.venue, a.starts_at) <= (b.venue, b.starts_at)` as Python compares
      tuples. */
  predicate SlotKeyAtMost(a: Slot, b: Slot) {
    StrLess(a.venue, b.venue) || (a.venue == b.venue && a.startsAt <= b.startsAt)
  }

  lemma SlotLessIsStrictTotalOrder()
    ensures IsStrictTotalOrder(SlotLess)
  {
    forall a ensures !SlotLess(a, a) {
      StrLessIrreflexive(a.venue);
      StrLessIrreflexive(a.session);
    }
    forall a, b, c | SlotLess(a, b) && SlotLess(b, c) ensures SlotLess(a, c) {
      StrLessIrreflexive(a.venue);
      StrLessIrreflexive(a.session);
      if StrLess(a.venue, b.venue) && StrLess(b.venue, c.venue) {
        StrLessTransitive(a.venue, b.venue, c.venue);
      }
      if StrLess(a.session, b.session) && StrLess(b.session, c.session) {
        StrLessTransitive(a.session, b.session, c.session);
      }
    }
    forall a, b ensures a == b || SlotLess(a, b) || SlotLess(b, a) {
      StrLessTotal(a.venue, b.venue);
      StrLessTotal(a.session, b.session);
    }
  }

  /** The slot-diff comprehensions for one slot. */
  function SlotChange(O: map<Slot, ScheduledItem>, N: map<Slot, ScheduledItem>, slot: Slot): Option<ChangedSlotScheduledItem> {
    if slot in O && slot in N then
      if O[slot].event != N[slot].event then Some(ChangedSlotScheduledItem(O[slot].slot, Some(O[slot].event), Some(N[slot].event)))
      else None
    else if slot in N then Some(ChangedSlotScheduledItem(N[slot].slot, None, Some(N[slot].event)))
    else if slot in O then Some(ChangedSlotScheduledItem(O[slot].slot, Some(O[slot].event), None))
    else None
  }

  /** What the slot diff says about one slot: the last item in that slot in
      each schedule decides its old and new event; a record exists exactly
      when the two differ. */
  function SlotChangeOf(oldSchedule: seq<ScheduledItem>, newSchedule: seq<ScheduledItem>, slot: Slot): (r: Option<ChangedSlotScheduledItem>)
    ensures r.Some? ==> r.value.slot == slot && r.value.oldEvent != r.value.newEvent
  {
    match (Last(oldSchedule, SlotKey, slot), Last(newSchedule, SlotKey, slot))
    case (Some(o), Some(n)) =>
      if o.event != n.event then Some(ChangedSlotScheduledItem(slot, Some(o.event), Some(n.event))) else None
    case (None, Some(n)) => Some(ChangedSlotScheduledItem(slot, None, Some(n.event)))
    case (Some(o), None) => Some(ChangedSlotScheduledItem(slot, Some(o.event), None))
    case (None, None) => None
  }

  /** `slot_schedule_difference`: a record for each slot whose event
      changed, appeared or disappeared, ordered by venue and start. */
  function SlotScheduleDifference(oldSchedule: seq<ScheduledItem>, newSchedule: seq<ScheduledItem>): (r: seq<ChangedSlotScheduledItem>)
    ensures forall c :: c in r <==> exists slot :: SlotChangeOf(oldSchedule, newSchedule, slot) == Some(c)
    ensures forall i, j :: 0 <= i < j < |r| ==> SlotLess(r[i].slot, r[j].slot)
    ensures forall i, j :: 0 <= i < j < |r| ==> SlotKeyAtMost(r[i].slot, r[j].slot)
  {
    SlotLessIsStrictTotalOrder();
    var O, N := Index(oldSchedule, SlotKey), Index(newSchedule, SlotKey);
    var slots := SortedUnique(Keys(oldSchedule, SlotKey) + Keys(newSchedule, SlotKey), SlotLess);
    var change := slot => SlotChange(O, N, slot);
    assert forall slot :: change(slot) == SlotChangeOf(oldSchedule, newSchedule, slot) &&
                        (SlotChangeOf(oldSchedule, newSchedule, slot).Some? ==> slot in slots) by {
      forall slot ensures change(slot) == SlotChangeOf(oldSchedule, newSchedule, slot) &&
                         (SlotChangeOf(oldSchedule, newSchedule, slot).Some? ==> slot in slots) {
        SlotChangeAgrees(oldSchedule, newSchedule, slot);
      }
    }
    RecordsInKeyOrder(slots, change, (c: ChangedSlotScheduledItem) => c.slot, SlotLess);
    Records(slots, change)
  }

  /** The dict-based comprehensions agree with the reading off the
      schedules, and only keys of the two schedules get a record. */
  lemma SlotChangeAgrees(oldSchedule: seq<ScheduledItem>, newSchedule: seq<ScheduledItem>, slot: Slot)
    ensures SlotChange(Index(oldSchedule, SlotKey), Index(newSchedule, SlotKey), slot) == SlotChangeOf(oldSchedule, newSchedule, slot)
    ensures SlotChangeOf(oldSchedule, newSchedule, slot).Some? ==> slot in Keys(oldSchedule, SlotKey) + Keys(newSchedule, SlotKey)
  {
  }

  /** The diff is empty exactly when no slot changed, appeared or disappeared. */
  lemma SlotDifferenceEmpty(oldSchedule: seq<ScheduledItem>, newSchedule: seq<ScheduledItem>)
    ensures SlotScheduleDifference(oldSchedule, newSchedule) == [] <==>
      forall slot :: SlotChangeOf(oldSchedule, newSchedule, slot).None?
  {
    var r := SlotScheduleDifference(oldSchedule, newSchedule);
    if r != [] {
      assert r[0] in r;
    }
  }

  /** A schedule diffed against itself, from the slots' side, is empty. */
  lemma SlotDifferenceOfSelf(s: seq<ScheduledItem>)
    ensures SlotScheduleDifference(s, s) == []
  {
    SlotDifferenceEmpty(s, s);
  }
}
