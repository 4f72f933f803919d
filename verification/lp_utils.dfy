/** The matrices and relations the constraint families are built from
    (conference_scheduler/lp_problem/utils.py): which events carry which tag,
    which slots belong to which session, where an event may be scheduled,
    which events may run together, and which slots run at the same time. */
module LpUtils {
  import opened Sequences
  import opened Matrices
  import opened Ordering
  import opened Resources

  // ---- tag_array ----

  /** `sorted(set(tag for event in events for tag in event.tags))`. */
  function AllTags(events: seq<EventValue>): (r: seq<string>)
    ensures StrictlySorted(r, StrLess)
    ensures forall t :: t in r <==> exists i :: 0 <= i < |events| && t in events[i].tags
  {
    StrLessIsStrictTotalOrder();
    var ss := seq(|events|, i requires 0 <= i < |events| => events[i].tags);
    assert forall i :: 0 <= i < |events| ==> ss[i] == events[i].tags;
    SortedUnique(Flatten(ss), StrLess)
  }

  /** Row per event, column per distinct tag: 1 where the event has the tag. */
  function TagMatrix(events: seq<EventValue>): (X: Matrix)
    ensures IsShape(X, |events|, |AllTags(events)|) && IsBinary(X)
  {
    var tags := AllTags(events);
    seq(|events|, r requires 0 <= r < |events| =>
      seq(|tags|, c requires 0 <= c < |tags| => if tags[c] in events[r].tags then 1 else 0))
  }

  /** Each event's row holds a 1 exactly at the columns of its own tags,
      and every column is some event's tag. */
  lemma TagMatrixRows(events: seq<EventValue>, r: nat, t: string)
    requires r < |events|
    ensures t in events[r].tags <==> t in AllTags(events) && TagMatrix(events)[r][IndexOf(AllTags(events), t)] == 1
  {
  }

  /** The nested loops of `tag_array`. */
  method TagArray(events: seq<EventValue>) returns (X: Matrix)
    ensures X == TagMatrix(events)
  {
    var allTags := AllTags(events);
    var m, w := |events|, |allTags|;
    var a := new int[m, w]((i, j) => 0);
    StrLessIsStrictTotalOrder();
    for row := 0 to m
      invariant forall r, c :: 0 <= r < m && 0 <= c < w ==>
        a[r, c] == if r < row && allTags[c] in events[r].tags then 1 else 0
    {
      var tags := events[row].tags;
      for k := 0 to |tags|
        invariant forall r, c :: 0 <= r < m && 0 <= c < w ==>
          a[r, c] == if (r < row && allTags[c] in events[r].tags) ||
                        (r == row && allTags[c] in tags[..k]) then 1 else 0
      {
        assert tags[k] in allTags;
        var col := IndexOf(allTags, tags[k]);
        forall c | 0 <= c < w && c != col ensures allTags[c] != tags[k] {
          StrictlySortedDistinct(allTags, StrLess, c, col);
        }
        a[row, col] := 1;
        assert tags[..k + 1] == tags[..k] + [tags[k]];
      }
      assert tags[..|tags|] == tags;
    }
    X := Freeze(a);
    var T := TagMatrix(events);
    forall r | 0 <= r < m ensures X[r] == T[r] {
      forall c | 0 <= c < w ensures X[r][c] == T[r][c] {
        assert X[r][c] == a[r, c];
      }
    }
  }

  // ---- session_array ----

  /** `sorted(set(slot.session for slot in slots))`. */
  function AllSessions(slots: seq<Slot>): (r: seq<string>)
    ensures StrictlySorted(r, StrLess)
    ensures forall s :: s in r <==> exists j :: 0 <= j < |slots| && slots[j].session == s
  {
    StrLessIsStrictTotalOrder();
    var all := seq(|slots|, j requires 0 <= j < |slots| => slots[j].session);
    assert forall j :: 0 <= j < |slots| ==> all[j] == slots[j].session;
    SortedUnique(all, StrLess)
  }

  /** Row per distinct session, column per slot: 1 where the slot is in
      the session. */
  function SessionMatrix(slots: seq<Slot>): (X: Matrix)
    ensures IsShape(X, |AllSessions(slots)|, |slots|) && IsBinary(X)
  {
    var sessions := AllSessions(slots);
    seq(|sessions|, s requires 0 <= s < |sessions| =>
      seq(|slots|, c requires 0 <= c < |slots| => if sessions[s] == slots[c].session then 1 else 0))
  }

  /** Every slot column holds exactly one 1: each slot is in one session. */
  lemma {:induction false} SessionColumnsHaveOneOne(slots: seq<Slot>, c: nat)
    requires c < |slots|
    ensures ExactlyOneOne(Column(SessionMatrix(slots), c))
    ensures Sum(Column(SessionMatrix(slots), c)) == 1
  {
    var sessions := AllSessions(slots);
    var col := Column(SessionMatrix(slots), c);
    StrLessIsStrictTotalOrder();
    assert slots[c].session in sessions;
    var s := IndexOf(sessions, slots[c].session);
    assert col[s] == 1;
    forall a, b | 0 <= a < b < |col| ensures col[a] != 1 || col[b] != 1 {
      StrictlySortedDistinct(sessions, StrLess, a, b);
    }
    assert IsBinaryRow(col);
    SumOfBinaryRow(col);
  }

  /** The loop of `session_array`. */
  method SessionArray(slots: seq<Slot>) returns (X: Matrix)
    ensures X == SessionMatrix(slots)
  {
    var sessions := AllSessions(slots);
    ghost var S := SessionMatrix(slots);
    var h, n := |sessions|, |slots|;
    var a := new int[h, n]((i, j) => 0);
    for col := 0 to n
      invariant forall s, c :: 0 <= s < h && 0 <= c < n ==> a[s, c] == if c < col then S[s][c] else 0
    {
      SessionRowOf(slots, col);
      var row := IndexOf(sessions, slots[col].session);
      a[row, col] := 1;
    }
    X := Freeze(a);
    SameCells(X, S, h, n);
  }

  /** A slot's session is listed once, at the row `index` finds. */
  lemma SessionRowOf(slots: seq<Slot>, col: nat)
    requires col < |slots|
    ensures slots[col].session in AllSessions(slots)
    ensures forall s :: 0 <= s < |AllSessions(slots)| ==>
      SessionMatrix(slots)[s][col] == if s == IndexOf(AllSessions(slots), slots[col].session) then 1 else 0
  {
    var sessions := AllSessions(slots);
    StrLessIsStrictTotalOrder();
    assert slots[col].session in sessions;
    var row := IndexOf(sessions, slots[col].session);
    forall s | 0 <= s < |sessions| && s != row ensures sessions[s] != slots[col].session {
      StrictlySortedDistinct(sessions, StrLess, s, row);
    }
  }

  // ---- slot_availability_array ----

  /** Why an event cannot go in a slot: the slot is in its unavailability
      list, or the event is longer than the slot. */
  predicate SlotUnavailable(e: EventValue, s: Slot) {
    SlotItem(s) in e.unavailability || e.duration > s.duration
  }

  function SlotAvailabilityMatrix(events: seq<EventValue>, slots: seq<Slot>): (X: Matrix)
    ensures IsShape(X, |events|, |slots|) && IsBinary(X)
  {
    seq(|events|, r requires 0 <= r < |events| =>
      seq(|slots|, c requires 0 <= c < |slots| => if SlotUnavailable(events[r], slots[c]) then 0 else 1))
  }

  /** The nested loops of `slot_availability_array`: start from ones and
      clear each cell where the event cannot go. */
  method SlotAvailabilityArray(events: seq<EventValue>, slots: seq<Slot>) returns (X: Matrix)
    ensures IsShape(X, |events|, |slots|) && IsBinary(X)
    ensures forall r, c :: 0 <= r < |events| && 0 <= c < |slots| ==>
      (X[r][c] == 0 <==> SlotItem(slots[c]) in events[r].unavailability || events[r].duration > slots[c].duration)
    ensures X == SlotAvailabilityMatrix(events, slots)
  {
    var m, n := |events|, |slots|;
    var a := new int[m, n]((i, j) => 1);
    for row := 0 to m
      invariant forall r, c :: 0 <= r < m && 0 <= c < n ==>
        a[r, c] == if r < row && SlotUnavailable(events[r], slots[c]) then 0 else 1
    {
      for col := 0 to n
        invariant forall r, c :: 0 <= r < m && 0 <= c < n ==>
          a[r, c] == if (r < row || (r == row && c < col)) && SlotUnavailable(events[r], slots[c]) then 0 else 1
      {
        if SlotItem(slots[col]) in events[row].unavailability || events[row].duration > slots[col].duration {
          a[row, col] := 0;
        }
      }
    }
    X := Freeze(a);
    var A := SlotAvailabilityMatrix(events, slots);
    forall r | 0 <= r < m ensures X[r] == A[r] {
      forall c | 0 <= c < n ensures X[r][c] == A[r][c] {
        assert X[r][c] == a[r, c];
      }
    }
  }

  // ---- event_availability_array ----

  /** Event `q` is in the unavailability list of event `p`: `in` compares
      with `__eq__`, so a listed slot never matches, and a listed event
      matches when all five of its fields agree with event `q`'s. */
  predicate Lists(events: seq<EventValue>, p: nat, q: nat)
    requires p < |events| && q < |events|
    ensures Lists(events, p, q) <==>
      exists k :: 0 <= k < |events[p].unavailability| && events[p].unavailability[k].EventItem? &&
        events[p].unavailability[k].event.name == events[q].name &&
        events[p].unavailability[k].event.duration == events[q].duration &&
        events[p].unavailability[k].event.demand == events[q].demand &&
        events[p].unavailability[k].event.tags == events[q].tags &&
        events[p].unavailability[k].event.unavailability == events[q].unavailability
  {
    EventItem(events[q]) in events[p].unavailability
  }

  function EventAvailabilityMatrix(events: seq<EventValue>): (X: Matrix)
    ensures IsShape(X, |events|, |events|) && IsBinary(X)
  {
    seq(|events|, r requires 0 <= r < |events| =>
      seq(|events|, c requires 0 <= c < |events| => if Lists(events, r, c) || Lists(events, c, r) then 0 else 1))
  }

  /** The matrix is symmetric, and a diagonal entry is 0 exactly when the
      event lists itself: the loops have no `row != col` guard. An event
      value cannot hold itself (`NotSelfUnavailable`), so in this model the
      diagonal is all ones. */
  lemma EventAvailabilitySymmetric(events: seq<EventValue>, r: nat, c: nat)
    requires r < |events| && c < |events|
    ensures EventAvailabilityMatrix(events)[r][c] == EventAvailabilityMatrix(events)[c][r]
    ensures EventAvailabilityMatrix(events)[r][r] == 0 <==> Lists(events, r, r)
  {
  }

  /** The nested loops of `event_availability_array`, clearing both (row,
      col) and (col, row) for each listed event. */
  method EventAvailabilityArray(events: seq<EventValue>) returns (X: Matrix)
    ensures IsShape(X, |events|, |events|) && IsBinary(X)
    ensures forall r, c :: 0 <= r < |events| && 0 <= c < |events| ==>
      (X[r][c] == 0 <==> EventItem(events[c]) in events[r].unavailability ||
                         EventItem(events[r]) in events[c].unavailability)
    ensures X == EventAvailabilityMatrix(events)
  {
    var m := |events|;
    var a := new int[m, m]((i, j) => 1);
    for row := 0 to m
      invariant forall x, y :: 0 <= x < m && 0 <= y < m ==>
        a[x, y] == if (x < row && Lists(events, x, y)) || (y < row && Lists(events, y, x)) then 0 else 1
    {
      for col := 0 to m
        invariant forall x, y :: 0 <= x < m && 0 <= y < m ==>
          a[x, y] == if (x < row && Lists(events, x, y)) || (x == row && y < col && Lists(events, x, y)) ||
                        (y < row && Lists(events, y, x)) || (y == row && x < col && Lists(events, y, x)) then 0 else 1
      {
        if EventItem(events[col]) in events[row].unavailability {
          a[row, col] := 0;
          a[col, row] := 0;
        }
      }
    }
    X := Freeze(a);
    var A := EventAvailabilityMatrix(events);
    forall r | 0 <= r < m ensures X[r] == A[r] {
      forall c | 0 <= c < m ensures X[r][c] == A[r][c] {
        assert X[r][c] == a[r, c];
      }
    }
  }

  // ---- slots_overlap and concurrent_slots ----

  /** The end of a slot, in minutes. */
  function EndsAt(s: Slot): int {
    s.startsAt + s.duration
  }

  /** One slot's [start, end] lies inside the other's, ends included. Two
      slots that start together, or end together, always overlap; two
      overlapping slots of non-negative duration share a moment. */
  predicate SlotsOverlap(s: Slot, t: Slot)
    ensures s.startsAt == t.startsAt || EndsAt(s) == EndsAt(t) ==> SlotsOverlap(s, t)
    ensures SlotsOverlap(s, t) && s.duration >= 0 && t.duration >= 0 ==>
      s.startsAt <= EndsAt(t) && t.startsAt <= EndsAt(s)
  {
    (s.startsAt >= t.startsAt && EndsAt(s) <= EndsAt(t)) ||
    (t.startsAt >= s.startsAt && EndsAt(t) <= EndsAt(s))
  }

  /** Overlap is reflexive and symmetric, and two slots that only partly
      overlap do not count as overlapping. */
  lemma SlotsOverlapProperties(s: Slot, t: Slot)
    ensures SlotsOverlap(s, s)
    ensures SlotsOverlap(s, t) == SlotsOverlap(t, s)
    ensures s.startsAt < t.startsAt < EndsAt(s) < EndsAt(t) ==> !SlotsOverlap(s, t)
  {
  }

  /** `concurrent_slots`: the pairs i < j of overlapping slots, in the
      order the nested loops yield them. */
  function ConcurrentSlots(slots: seq<Slot>): (r: seq<Cell>)
    ensures forall c: Cell :: c in r <==> c.0 < c.1 < |slots| && SlotsOverlap(slots[c.0], slots[c.1])
    ensures CellSorted(r) && InRange(r, |slots|, |slots|)
  {
    var r := CellsWhere(|slots|, |slots|, (i: nat, j: nat) => i < j < |slots| && SlotsOverlap(slots[i], slots[j]));
    assert forall k :: 0 <= k < |r| ==> r[k] in r;
    r
  }

  /** Two overlapping slots, in index order, are a listed pair. */
  lemma ConcurrentPairListed(slots: seq<Slot>, s1: nat, s2: nat)
    requires s1 < s2 < |slots| && SlotsOverlap(slots[s1], slots[s2])
    ensures (s1, s2) in ConcurrentSlots(slots)
  {
  }

  // ---- _slots_in_session and _events_with_diff_tag ----

  /** The slot columns with a 1 in row `session`, ascending. */
  function SlotsInSession(session: nat, S: Matrix): (r: seq<nat>)
    requires session < |S|
    ensures forall j: nat :: j in r <==> j < |S[session]| && S[session][j] != 0
    ensures forall a, b :: 0 <= a < b < |r| ==> r[a] < r[b]
  {
    IndicesWhere(|S[session]|, (j: nat) => j < |S[session]| && S[session][j] != 0)
  }

  /** The tag columns of event `talk`. */
  function TagsOf(talk: nat, T: Matrix): (r: seq<nat>)
    requires talk < |T|
    ensures forall k: nat :: k in r <==> k < |T[talk]| && T[talk][k] != 0
    ensures forall q :: 0 <= q < |r| ==> r[q] < |T[talk]| && T[talk][r[q]] != 0
  {
    var r := IndicesWhere(|T[talk]|, (k: nat) => k < |T[talk]| && T[talk][k] != 0);
    assert forall q :: 0 <= q < |r| ==> r[q] in r;
    r
  }

  /** How many of `talk`'s tags event `e` carries: the entry for `e` of
      `sum(tag_array.transpose()[event_categories])`. */
  function SharedTags(talk: nat, e: nat, T: Matrix): int
    requires IsShape(T, |T|, Width(T)) && talk < |T| && e < |T|
  {
    var cats := TagsOf(talk, T);
    assert |T[e]| == |T[talk]|;
    Sum(seq(|cats|, q requires 0 <= q < |cats| => T[e][cats[q]]))
  }

  /** `_events_with_diff_tag`. For a tagless event the sum is the scalar 0,
      `0 == 0` is `True`, and `np.nonzero(True)` gives `[0]`. */
  function EventsWithDiffTag(talk: nat, T: Matrix): (r: seq<nat>)
    requires IsShape(T, |T|, Width(T)) && talk < |T|
    ensures forall a, b :: 0 <= a < b < |r| ==> r[a] < r[b]
    ensures forall k :: 0 <= k < |r| ==> r[k] < |T|
  {
    if TagsOf(talk, T) == [] then [0]
    else
      var r := IndicesWhere(|T|, (e: nat) => e < |T| && SharedTags(talk, e, T) == 0);
      assert forall k :: 0 <= k < |r| ==> r[k] in r;
      r
  }

  /** On a 0/1 tag matrix, an event with a tag is given exactly the events
      that share none of its tags, in increasing order, never itself; a
      tagless event is given `[0]`. */
  lemma EventsWithDiffTagSpec(talk: nat, T: Matrix, e: nat)
    requires IsShape(T, |T|, Width(T)) && IsBinary(T) && talk < |T|
    ensures (forall k :: 0 <= k < Width(T) ==> T[talk][k] == 0) ==> EventsWithDiffTag(talk, T) == [0]
    ensures (exists k :: 0 <= k < Width(T) && T[talk][k] == 1) ==>
      (e in EventsWithDiffTag(talk, T) <==>
         e < |T| && forall k :: 0 <= k < Width(T) ==> T[talk][k] == 0 || T[e][k] == 0)
    ensures talk !in EventsWithDiffTag(talk, T) || EventsWithDiffTag(talk, T) == [0]
  {
    TaglessDiff(talk, T);
    TaggedDiff(talk, T, e);
  }

  lemma TaglessDiff(talk: nat, T: Matrix)
    requires IsShape(T, |T|, Width(T)) && talk < |T|
    ensures (forall k :: 0 <= k < Width(T) ==> T[talk][k] == 0) ==> EventsWithDiffTag(talk, T) == [0]
  {
    var cats := TagsOf(talk, T);
    if cats != [] {
      assert cats[0] in cats;
    }
  }

  lemma TaggedDiff(talk: nat, T: Matrix, e: nat)
    requires IsShape(T, |T|, Width(T)) && IsBinary(T) && talk < |T|
    ensures (exists k :: 0 <= k < Width(T) && T[talk][k] == 1) ==>
      (e in EventsWithDiffTag(talk, T) <==>
         e < |T| && forall k :: 0 <= k < Width(T) ==> T[talk][k] == 0 || T[e][k] == 0) &&
      talk !in EventsWithDiffTag(talk, T)
  {
    if exists k :: 0 <= k < Width(T) && T[talk][k] == 1 {
      var k :| 0 <= k < Width(T) && T[talk][k] == 1;
      TaggedDiffMember(talk, T, e, k);
      TaggedDiffMember(talk, T, talk, k);
    }
  }

  /** With tag `k` on `talk`, membership is the shared-tag test. */
  lemma TaggedDiffMember(talk: nat, T: Matrix, e: nat, k: nat)
    requires IsShape(T, |T|, Width(T)) && IsBinary(T) && talk < |T|
    requires k < Width(T) && T[talk][k] == 1
    ensures e in EventsWithDiffTag(talk, T) <==>
      e < |T| && forall k :: 0 <= k < Width(T) ==> T[talk][k] == 0 || T[e][k] == 0
  {
    assert TagsOf(talk, T) != [] by {
      assert k in TagsOf(talk, T);
    }
    if e < |T| {
      SharedTagsSpec(talk, e, T);
    }
  }

  /** The shared-tag count is zero exactly when no tag of `talk` is one of
      `e`'s. */
  lemma SharedTagsSpec(talk: nat, e: nat, T: Matrix)
    requires IsShape(T, |T|, Width(T)) && IsBinary(T) && talk < |T| && e < |T|
    ensures SharedTags(talk, e, T) == 0 <==> forall k :: 0 <= k < Width(T) ==> T[talk][k] == 0 || T[e][k] == 0
  {
    var cats := TagsOf(talk, T);
    assert |T[e]| == |T[talk]|;
    var v := seq(|cats|, q requires 0 <= q < |cats| => T[e][cats[q]]);
    assert IsBinaryRow(T[e]) && IsBinaryRow(T[talk]);
    assert forall q :: 0 <= q < |v| ==> v[q] == T[e][cats[q]];
    SumOfBinaryRow(v);
    forall k | 0 <= k < Width(T) && T[talk][k] != 0 ensures exists q :: 0 <= q < |cats| && cats[q] == k {
      assert (k as nat) in cats;
    }
  }
}
