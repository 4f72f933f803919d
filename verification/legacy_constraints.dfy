/** The constraint families of the older tree,
    conference_scheduler/lp_problem/constraints.py: the tag-sharing family
    over sessions and the unfiltered availability families, chained in the
    order all-events, one-per-slot, tag-sharing, slot availability, clash. */
module LegacyConstraints {
  import opened Sequences
  import opened Matrices
  import opened Resources
  import opened Labels
  import opened LpUtils
  import opened Constraints

  const TagText := "Dissimilar events schedule in same session"

  /** Event `event` in slot `slot` against event `other` in `otherSlot`. */
  datatype Quad = Quad(event: nat, slot: nat, other: nat, otherSlot: nat)

  // ---- _events_in_session_share_a_tag ----

  /** The inner `it.product(slots, other_events)` for one other slot: the
      other events, in order, kept when the slots and the events differ. */
  function Matches(e: nat, s: nat, s2: nat, others: seq<nat>): (r: seq<Quad>)
    ensures forall q :: q in r <==>
      q.event == e && q.slot == s && q.otherSlot == s2 && s2 != s && q.other in others && q.other != e
  {
    if others == [] then []
    else
      assert forall x :: x in others <==> x == others[0] || x in others[1..];
      (if s2 != s && others[0] != e then [Quad(e, s, others[0], s2)] else []) + Matches(e, s, s2, others[1..])
  }

  /** `for other_slot, other_event in it.product(slots, other_events)`. */
  function Partners(e: nat, s: nat, slots: seq<nat>, others: seq<nat>): (r: seq<Quad>)
    ensures forall q :: q in r <==>
      q.event == e && q.slot == s && q.otherSlot in slots && q.otherSlot != s && q.other in others && q.other != e
  {
    if slots == [] then []
    else
      assert forall x :: x in slots <==> x == slots[0] || x in slots[1..];
      Matches(e, s, slots[0], others) + Partners(e, s, slots[1..], others)
  }

  /** Events `0 .. k-1` in slot `s`, each against its partners; `D[e]` is
      the list of events with no tag in common with `e`. */
  function EventQuads(s: nat, k: nat, slots: seq<nat>, D: seq<seq<nat>>): (r: seq<Quad>)
    requires k <= |D|
    ensures forall q :: q in r <==>
      q.slot == s && q.event < k && q.otherSlot in slots && q.otherSlot != s &&
      q.other in D[q.event] && q.other != q.event
  {
    if k == 0 then []
    else
      var front := EventQuads(s, k - 1, slots, D);
      var last := Partners(k - 1, s, slots, D[k - 1]);
      assert forall q :: q in front + last <==> q in front || q in last;
      front + last
  }

  /** `for slot, event in it.product(slots, event_indices)`, over the slot
      list `outer` (a suffix of the session's slots). */
  function SlotQuads(outer: seq<nat>, slots: seq<nat>, D: seq<seq<nat>>): (r: seq<Quad>)
    ensures forall q :: q in r <==>
      q.slot in outer && q.event < |D| && q.otherSlot in slots && q.otherSlot != q.slot &&
      q.other in D[q.event] && q.other != q.event
  {
    if outer == [] then []
    else
      assert forall x :: x in outer <==> x == outer[0] || x in outer[1..];
      EventQuads(outer[0], |D|, slots, D) + SlotQuads(outer[1..], slots, D)
  }

  /** Slots `s` and `s2` are both in some session row among the first `h`. */
  predicate SharedSession(S: Matrix, h: nat, s: nat, s2: nat)
    requires h <= |S|
  {
    exists k :: 0 <= k < h && s < |S[k]| && s2 < |S[k]| && S[k][s] != 0 && S[k][s2] != 0
  }

  /** Sessions `0 .. h-1`, in order. */
  function SessionQuads(S: Matrix, h: nat, D: seq<seq<nat>>): (r: seq<Quad>)
    requires h <= |S|
    ensures forall q :: q in r <==>
      SharedSession(S, h, q.slot, q.otherSlot) && q.slot != q.otherSlot && q.event < |D| &&
      q.other in D[q.event] && q.other != q.event
  {
    if h == 0 then []
    else
      var slots := SlotsInSession(h - 1, S);
      var front := SessionQuads(S, h - 1, D);
      var last := SlotQuads(slots, slots, D);
      forall s: nat, s2: nat ensures SharedSession(S, h, s, s2) <==> SharedSession(S, h - 1, s, s2) || (s in slots && s2 in slots) {
        if SharedSession(S, h, s, s2) && !SharedSession(S, h - 1, s, s2) {
          var k :| 0 <= k < h && s < |S[k]| && s2 < |S[k]| && S[k][s] != 0 && S[k][s2] != 0;
          assert k == h - 1;
        }
        if s in slots && s2 in slots {
          assert s < |S[h - 1]| && s2 < |S[h - 1]| && S[h - 1][s] != 0 && S[h - 1][s2] != 0;
        }
      }
      assert forall q :: q in front + last <==> q in front || q in last;
      front + last
  }

  /** With the session matrix of the slot list, two slots share a session
      row exactly when they carry the same session label. */
  lemma SharedSessionIsSameLabel(slots: seq<Slot>, s: nat, s2: nat)
    requires s < |slots| && s2 < |slots|
    ensures SharedSession(SessionMatrix(slots), |SessionMatrix(slots)|, s, s2) <==> slots[s].session == slots[s2].session
  {
    var S, sessions := SessionMatrix(slots), AllSessions(slots);
    if slots[s].session == slots[s2].session {
      assert slots[s].session in sessions;
      var k := IndexOf(sessions, slots[s].session);
      assert S[k][s] != 0 && S[k][s2] != 0;
    }
  }

  /** `_events_with_diff_tag` of every event, computed once per event. */
  function DiffTable(T: Matrix): (D: seq<seq<nat>>)
    requires IsShape(T, |T|, Width(T))
    ensures |D| == |T| && forall e :: 0 <= e < |T| ==> D[e] == EventsWithDiffTag(e, T)
  {
    seq(|T|, e requires 0 <= e < |T| => EventsWithDiffTag(e, T))
  }

  /** Every cell pair the tag family constrains, in generator order: for each
      session, each (slot, event) of the session, each (other slot, other
      event) with no tag in common, when the slots and the events differ. */
  function TagQuads(S: Matrix, T: Matrix): (r: seq<Quad>)
    requires IsShape(T, |T|, Width(T))
    ensures forall q :: q in r <==>
      SharedSession(S, |S|, q.slot, q.otherSlot) && q.slot != q.otherSlot && q.event < |T| &&
      q.other in EventsWithDiffTag(q.event, T) && q.other != q.event
  {
    SessionQuads(S, |S|, DiffTable(T))
  }

  /** `X[(event, slot)] + X[(other_event, other_slot)] <= 1`, labelled with the
      first cell. */
  function TagConstraint(q: Quad, X: Matrix): Constraint
    requires q.event < |X| && q.other < |X| && q.slot < |X[q.event]| && q.otherSlot < |X[q.other]|
  {
    Constraint(EventSlotLabel(TagText, q.event, q.slot), X[q.event][q.slot] + X[q.other][q.otherSlot] <= 1)
  }

  /** `_events_in_session_share_a_tag(session_array, tag_array, X)`. */
  function EventsInSessionShareATag(S: Matrix, T: Matrix, X: Matrix, n: nat): (cs: seq<Constraint>)
    requires IsShape(T, |T|, Width(T)) && IsShape(S, |S|, n) && IsShape(X, |T|, n)
    ensures |cs| == |TagQuads(S, T)|
    ensures forall k :: 0 <= k < |cs| ==> cs[k] == TagConstraint(TagQuads(S, T)[k], X)
  {
    var quads := TagQuads(S, T);
    TagQuadsInRange(S, T, n);
    seq(|quads|, k requires 0 <= k < |quads| => TagConstraint(quads[k], X))
  }

  /** Every quad names events of the tag matrix and slots of the session
      matrix. */
  lemma TagQuadsInRange(S: Matrix, T: Matrix, n: nat)
    requires IsShape(T, |T|, Width(T)) && IsShape(S, |S|, n)
    ensures forall k :: 0 <= k < |TagQuads(S, T)| ==>
      var q := TagQuads(S, T)[k];
      q.event < |T| && q.other < |T| && q.slot < n && q.otherSlot < n
  {
    var quads := TagQuads(S, T);
    forall k | 0 <= k < |quads|
      ensures quads[k].event < |T| && quads[k].other < |T| && quads[k].slot < n && quads[k].otherSlot < n
    {
      var q := quads[k];
      assert q in quads;
      var h :| 0 <= h < |S| && q.slot < |S[h]| && q.otherSlot < |S[h]| && S[h][q.slot] != 0 && S[h][q.otherSlot] != 0;
      var d := EventsWithDiffTag(q.event, T);
      var i :| 0 <= i < |d| && d[i] == q.other;
    }
  }

  /** On a 0/1 array one tag constraint fails exactly when both of its
      cells are 1. */
  lemma TagConstraintMeaning(q: Quad, X: Matrix)
    requires q.event < |X| && q.other < |X| && q.slot < |X[q.event]| && q.otherSlot < |X[q.other]|
    requires IsBinaryRow(X[q.event]) && IsBinaryRow(X[q.other])
    ensures TagConstraint(q, X).condition <==> !(X[q.event][q.slot] == 1 && X[q.other][q.otherSlot] == 1)
  {
  }

  /** On a 0/1 allocation the tag family holds exactly when no two events
      that share no tag sit in two different slots of one session. */
  lemma TagFamilyHolds(S: Matrix, T: Matrix, X: Matrix, n: nat)
    requires IsShape(T, |T|, Width(T)) && IsShape(S, |S|, n) && IsShape(X, |T|, n) && IsBinary(X)
    ensures AllHold(EventsInSessionShareATag(S, T, X, n)) <==>
      forall q :: q in TagQuads(S, T) ==> !(X[q.event][q.slot] == 1 && X[q.other][q.otherSlot] == 1)
  {
    TagConstraintsHold(TagQuads(S, T), EventsInSessionShareATag(S, T, X, n), X);
  }

  /** The same, for any list of quads and their constraints. */
  lemma TagConstraintsHold(quads: seq<Quad>, cs: seq<Constraint>, X: Matrix)
    requires IsBinary(X)
    requires forall q :: q in quads ==>
      q.event < |X| && q.other < |X| && q.slot < |X[q.event]| && q.otherSlot < |X[q.other]|
    requires |cs| == |quads| && forall k :: 0 <= k < |cs| ==> cs[k] == TagConstraint(quads[k], X)
    ensures AllHold(cs) <==>
      forall q :: q in quads ==> !(X[q.event][q.slot] == 1 && X[q.other][q.otherSlot] == 1)
  {
    forall k | 0 <= k < |quads| ensures cs[k].condition <==> !(X[quads[k].event][quads[k].slot] == 1 && X[quads[k].other][quads[k].otherSlot] == 1) {
      assert quads[k] in quads;
      TagConstraintMeaning(quads[k], X);
    }
    forall q | q in quads ensures exists k :: 0 <= k < |quads| && quads[k] == q {
      var k :| 0 <= k < |quads| && quads[k] == q;
    }
  }

  /** When every event carries a tag, the family is symmetric: a constraint
      on (e, s) against (e', s') comes with one on (e', s') against (e, s), so
      both events are reported. */
  lemma TagQuadsSymmetric(S: Matrix, T: Matrix, q: Quad)
    requires IsShape(T, |T|, Width(T)) && IsBinary(T)
    requires forall e :: 0 <= e < |T| ==> exists k :: 0 <= k < Width(T) && T[e][k] == 1
    requires q in TagQuads(S, T)
    ensures Quad(q.other, q.otherSlot, q.event, q.slot) in TagQuads(S, T)
  {
    var e, f := q.event, q.other;
    EventsWithDiffTagSpec(e, T, f);
    EventsWithDiffTagSpec(f, T, e);
    var h :| 0 <= h < |S| && q.slot < |S[h]| && q.otherSlot < |S[h]| && S[h][q.slot] != 0 && S[h][q.otherSlot] != 0;
    assert SharedSession(S, |S|, q.otherSlot, q.slot);
  }

  // ---- how many tag constraints ----

  /** How many entries of `xs` differ from `x`. */
  function Unlike(x: nat, xs: seq<nat>): nat {
    if xs == [] then 0 else (if xs[0] != x then 1 else 0) + Unlike(x, xs[1..])
  }

  /** How many (slot of `outer`, different slot of `slots`) pairs there are. */
  function DistinctPairs(outer: seq<nat>, slots: seq<nat>): nat {
    if outer == [] then 0 else Unlike(outer[0], slots) + DistinctPairs(outer[1..], slots)
  }

  /** How many partners other than themselves the events `0 .. k-1` have. */
  function PartnerCount(D: seq<seq<nat>>, k: nat): nat
    requires k <= |D|
  {
    if k == 0 then 0 else PartnerCount(D, k - 1) + Unlike(k - 1, D[k - 1])
  }

  /** How many ordered pairs of distinct slots the sessions `0 .. h-1`
      hold between them. */
  function SessionPairCount(S: Matrix, h: nat): nat
    requires h <= |S|
  {
    if h == 0 then 0
    else
      var slots := SlotsInSession(h - 1, S);
      SessionPairCount(S, h - 1) + DistinctPairs(slots, slots)
  }

  /** `a` copies of `b`, added up. */
  function Times(a: nat, b: nat): nat {
    if a == 0 then 0 else Times(a - 1, b) + b
  }

  lemma {:induction false} TimesIsProduct(a: nat, b: nat)
    ensures Times(a, b) == a * b
  {
    if a > 0 {
      TimesIsProduct(a - 1, b);
    }
  }

  lemma {:induction false} TimesAdd(a: nat, b: nat, c: nat)
    ensures Times(a + b, c) == Times(a, c) + Times(b, c)
  {
    if b > 0 {
      TimesAdd(a, b - 1, c);
      assert Times(a + b, c) == Times(a + b - 1, c) + c;
    }
  }

  lemma TimesCommute(a: nat, b: nat)
    ensures Times(a, b) == Times(b, a)
  {
    TimesIsProduct(a, b);
    TimesIsProduct(b, a);
  }

  /** One other slot: a quad for each partner other than `e`, unless it is
      the same slot. */
  lemma {:induction false} MatchesLength(e: nat, s: nat, s2: nat, others: seq<nat>)
    ensures |Matches(e, s, s2, others)| == if s2 != s then Unlike(e, others) else 0
  {
    if others != [] {
      MatchesLength(e, s, s2, others[1..]);
    }
  }

  /** Each other slot of the list, times each partner other than `e`. */
  lemma {:induction false} PartnersLength(e: nat, s: nat, slots: seq<nat>, others: seq<nat>)
    ensures |Partners(e, s, slots, others)| == Times(Unlike(s, slots), Unlike(e, others))
  {
    if slots != [] {
      var here := if slots[0] != s then 1 else 0;
      assert |Matches(e, s, slots[0], others)| == Times(here, Unlike(e, others)) by {
        MatchesLength(e, s, slots[0], others);
      }
      PartnersLength(e, s, slots[1..], others);
      TimesAdd(here, Unlike(s, slots[1..]), Unlike(e, others));
    }
  }

  /** Events `0 .. k-1` in slot `s`: every other slot of the list against
      every partner. */
  lemma {:induction false} EventQuadsLength(s: nat, k: nat, slots: seq<nat>, D: seq<seq<nat>>)
    requires k <= |D|
    ensures |EventQuads(s, k, slots, D)| == Times(PartnerCount(D, k), Unlike(s, slots))
  {
    if k > 0 {
      EventQuadsLength(s, k - 1, slots, D);
      PartnersLength(k - 1, s, slots, D[k - 1]);
      TimesCommute(Unlike(s, slots), Unlike(k - 1, D[k - 1]));
      TimesAdd(PartnerCount(D, k - 1), Unlike(k - 1, D[k - 1]), Unlike(s, slots));
    }
  }

  /** Each slot of `outer` against every other slot of the list and every
      partner. */
  lemma {:induction false} SlotQuadsLength(outer: seq<nat>, slots: seq<nat>, D: seq<seq<nat>>)
    ensures |SlotQuads(outer, slots, D)| == Times(DistinctPairs(outer, slots), PartnerCount(D, |D|))
  {
    if outer != [] {
      EventQuadsLength(outer[0], |D|, slots, D);
      TimesCommute(PartnerCount(D, |D|), Unlike(outer[0], slots));
      SlotQuadsLength(outer[1..], slots, D);
      TimesStep(|SlotQuads(outer, slots, D)|, |EventQuads(outer[0], |D|, slots, D)|, |SlotQuads(outer[1..], slots, D)|,
        DistinctPairs(outer, slots), Unlike(outer[0], slots), DistinctPairs(outer[1..], slots), PartnerCount(D, |D|));
    }
  }

  /** A list made of `u * c` items and `dp * c` more holds `(u + dp) * c`. */
  lemma TimesStep(total: nat, first: nat, rest: nat, d: nat, u: nat, dp: nat, c: nat)
    requires total == first + rest && d == u + dp
    requires first == Times(u, c) && rest == Times(dp, c)
    ensures total == Times(d, c)
  {
    TimesAdd(u, dp, c);
  }

  /** Sessions `0 .. h-1`: their ordered slot pairs times all partners. */
  lemma {:induction false} SessionQuadsLength(S: Matrix, h: nat, D: seq<seq<nat>>)
    requires h <= |S|
    ensures |SessionQuads(S, h, D)| == Times(SessionPairCount(S, h), PartnerCount(D, |D|))
  {
    if h > 0 {
      var slots := SlotsInSession(h - 1, S);
      SessionQuadsLength(S, h - 1, D);
      SlotQuadsLength(slots, slots, D);
      TimesStep(|SessionQuads(S, h, D)|, |SessionQuads(S, h - 1, D)|, |SlotQuads(slots, slots, D)|,
        SessionPairCount(S, h), SessionPairCount(S, h - 1), DistinctPairs(slots, slots), PartnerCount(D, |D|));
    }
  }

  /** The family has one constraint for each ordered pair of distinct slots
      sharing a session and each ordered pair of distinct events with no
      tag in common. */
  lemma TagQuadsLength(S: Matrix, T: Matrix)
    requires IsShape(T, |T|, Width(T))
    ensures |TagQuads(S, T)| == SessionPairCount(S, |S|) * PartnerCount(DiffTable(T), |T|)
  {
    SessionQuadsLength(S, |S|, DiffTable(T));
    TimesIsProduct(SessionPairCount(S, |S|), PartnerCount(DiffTable(T), |T|));
  }

  /** In a list of distinct slots, each slot differs from all the others. */
  lemma {:induction false} UnlikeDistinct(x: nat, xs: seq<nat>)
    requires forall a, b :: 0 <= a < b < |xs| ==> xs[a] < xs[b]
    ensures Unlike(x, xs) == if x in xs then |xs| - 1 else |xs|
  {
    if xs != [] {
      var tail := xs[1..];
      assert forall a, b :: 0 <= a < b < |tail| ==> tail[a] < tail[b] by {
        assert forall a :: 0 <= a < |tail| ==> tail[a] == xs[a + 1];
      }
      assert x == xs[0] ==> x !in tail;
      assert x in xs <==> x == xs[0] || x in tail;
      UnlikeDistinct(x, tail);
    }
  }

  /** Each slot of `outer`, all of them in a list of distinct slots, differs
      from all of the list but itself. */
  lemma {:induction false} DistinctPairsOfSlots(outer: seq<nat>, xs: seq<nat>)
    requires forall a, b :: 0 <= a < b < |xs| ==> xs[a] < xs[b]
    requires forall x :: x in outer ==> x in xs
    ensures DistinctPairs(outer, xs) + |outer| == Times(|outer|, |xs|)
  {
    if outer != [] {
      assert outer[0] in outer;
      UnlikeDistinct(outer[0], xs);
      assert forall x :: x in outer[1..] ==> x in outer;
      DistinctPairsOfSlots(outer[1..], xs);
    }
  }

  /** A session of `p` distinct slots holds `p * (p - 1)` ordered pairs of
      distinct slots. */
  lemma DistinctPairsOfSession(xs: seq<nat>)
    requires forall a, b :: 0 <= a < b < |xs| ==> xs[a] < xs[b]
    ensures DistinctPairs(xs, xs) == |xs| * (|xs| - 1)
  {
    DistinctPairsOfSlots(xs, xs);
    TimesIsProduct(|xs|, |xs|);
    assert |xs| * (|xs| - 1) == |xs| * |xs| - |xs|;
  }

  // ---- the older availability families ----

  /** Every cell of an m x n matrix, in row-major order. */
  function AllCells(m: nat, n: nat): (cells: seq<Cell>)
    ensures |cells| == m * n
    ensures forall c: Cell :: c in cells <==> c.0 < m && c.1 < n
    ensures InRange(cells, m, n)
  {
    var rows := seq(m, i requires 0 <= i < m => seq(n, j requires 0 <= j < n => (i as nat, j as nat)));
    FlattenLength(rows, n);
    var cells := Flatten(rows);
    forall c: Cell | c.0 < m && c.1 < n ensures c in cells {
      assert rows[c.0][c.1] == c;
    }
    assert forall k :: 0 <= k < |cells| ==> cells[k] in cells;
    cells
  }

  /** Each cell of the grid is listed. */
  lemma AllCellsListed(m: nat, n: nat, r: nat, c: nat)
    requires r < m && c < n
    ensures (r, c) in AllCells(m, n)
  {
  }

  /** `_events_available_in_scheduled_slot` of the older tree: one
      constraint `X <= availability` per cell, row by row. */
  function LegacySlotAvailability(A: Matrix, X: Matrix, m: nat, n: nat): (cs: seq<Constraint>)
    requires IsShape(A, m, n) && IsShape(X, m, n)
    ensures |cs| == m * n
  {
    AvailabilityConstraints(AllCells(m, n), A, X, m, n)
  }

  /** On 0/1 matrices the older availability family holds exactly when the
      allocation uses no zero cell of `A`. */
  lemma LegacySlotAvailabilityHolds(A: Matrix, X: Matrix, m: nat, n: nat)
    requires IsShape(A, m, n) && IsShape(X, m, n) && IsBinary(A) && IsBinary(X)
    ensures AllHold(LegacySlotAvailability(A, X, m, n)) <==>
      forall r, c :: 0 <= r < m && 0 <= c < n && A[r][c] == 0 ==> X[r][c] == 0
  {
    var cells := AllCells(m, n);
    var cs := LegacySlotAvailability(A, X, m, n);
    if AllHold(cs) {
      forall r, c | 0 <= r < m && 0 <= c < n && A[r][c] == 0 ensures X[r][c] == 0 {
        var cell: Cell := (r, c);
        AllCellsListed(m, n, r, c);
        var k :| 0 <= k < |cells| && cells[k] == cell;
        assert cs[k].condition;
        assert IsBinaryRow(X[r]);
      }
    } else {
      var k :| 0 <= k < |cs| && !cs[k].condition;
      assert IsBinaryRow(A[cells[k].0]);
    }
  }

  /** `_events_available_during_other_events` of the older tree: every
      concurrent pair against every (row, column) of `EA`. */
  function LegacyClashes(slots: seq<Slot>, EA: Matrix, X: Matrix, m: nat): (cs: seq<Constraint>)
    requires IsShape(EA, m, m) && IsShape(X, m, |slots|)
    ensures |cs| == |ConcurrentSlots(slots)| * (m * m)
  {
    ClashConstraints(ConcurrentSlots(slots), AllCells(m, m), EA, X, m, |slots|)
  }

  /** No two mutually unavailable events sit in a concurrent pair of slots. */
  predicate NoLegacyClash(slots: seq<Slot>, EA: Matrix, X: Matrix, m: nat)
    requires IsShape(EA, m, m) && IsShape(X, m, |slots|)
  {
    forall s1, s2, r, c ::
      (0 <= s1 < s2 < |slots| && SlotsOverlap(slots[s1], slots[s2]) &&
       0 <= r < m && 0 <= c < m && EA[r][c] == 0) ==> !(X[r][s1] == 1 && X[c][s2] == 1)
  }

  /** On 0/1 matrices a constraint whose availability is 1 always holds, so
      the family holds exactly when no two mutually unavailable events sit
      in a concurrent pair of slots. */
  lemma LegacyClashesHold(slots: seq<Slot>, EA: Matrix, X: Matrix, m: nat)
    requires IsShape(EA, m, m) && IsShape(X, m, |slots|) && IsBinary(EA) && IsBinary(X)
    ensures AllHold(LegacyClashes(slots, EA, X, m)) <==> NoLegacyClash(slots, EA, X, m)
  {
    if AllHold(LegacyClashes(slots, EA, X, m)) {
      forall s1, s2, r, c |
        0 <= s1 < s2 < |slots| && SlotsOverlap(slots[s1], slots[s2]) && 0 <= r < m && 0 <= c < m && EA[r][c] == 0
        ensures !(X[r][s1] == 1 && X[c][s2] == 1)
      {
        NoLegacyClashAt(slots, EA, X, m, s1, s2, r, c);
      }
    } else {
      LegacyClashFails(slots, EA, X, m);
    }
  }

  lemma NoLegacyClashAt(slots: seq<Slot>, EA: Matrix, X: Matrix, m: nat, s1: nat, s2: nat, r: nat, c: nat)
    requires IsShape(EA, m, m) && IsShape(X, m, |slots|)
    requires AllHold(LegacyClashes(slots, EA, X, m))
    requires s1 < s2 < |slots| && SlotsOverlap(slots[s1], slots[s2]) && r < m && c < m && EA[r][c] == 0
    ensures !(X[r][s1] == 1 && X[c][s2] == 1)
  {
    var pairs, cells := ConcurrentSlots(slots), AllCells(m, m);
    var pair: Cell, cell: Cell := (s1, s2), (r, c);
    ConcurrentPairListed(slots, s1, s2);
    AllCellsListed(m, m, r, c);
    ListedClashHolds(pairs, cells, EA, X, m, |slots|, pair, cell);
  }

  lemma LegacyClashFails(slots: seq<Slot>, EA: Matrix, X: Matrix, m: nat)
    requires IsShape(EA, m, m) && IsShape(X, m, |slots|) && IsBinary(EA) && IsBinary(X)
    requires !AllHold(LegacyClashes(slots, EA, X, m))
    ensures !NoLegacyClash(slots, EA, X, m)
  {
    var pairs, cells := ConcurrentSlots(slots), AllCells(m, m);
    ClashConstraintsHold(pairs, cells, EA, X, m, |slots|);
    var p, k :| 0 <= p < |pairs| && 0 <= k < |cells| && !ClashConstraint(pairs[p], cells[k], EA, X, m, |slots|).condition;
    assert pairs[p] in pairs;
    LegacyClashWitness(slots, EA, X, m, pairs[p].0, pairs[p].1, cells[k].0, cells[k].1);
  }

  /** A failed clash constraint names a clash. */
  lemma LegacyClashWitness(slots: seq<Slot>, EA: Matrix, X: Matrix, m: nat, s1: nat, s2: nat, r: nat, c: nat)
    requires IsShape(EA, m, m) && IsShape(X, m, |slots|) && IsBinary(EA) && IsBinary(X)
    requires s1 < s2 < |slots| && SlotsOverlap(slots[s1], slots[s2]) && r < m && c < m
    requires !(X[r][s1] + X[c][s2] <= 1 + EA[r][c])
    ensures !NoLegacyClash(slots, EA, X, m)
  {
    assert IsBinaryRow(X[r]) && IsBinaryRow(X[c]) && IsBinaryRow(EA[r]);
    assert EA[r][c] == 0 && X[r][s1] == 1 && X[c][s2] == 1;
  }

  // ---- all_constraints ----

  /** The five families of the older tree, in order. */
  function LegacyAllConstraints(events: seq<EventValue>, slots: seq<Slot>, S: Matrix, T: Matrix,
                                A: Matrix, EA: Matrix, X: Matrix): (cs: seq<Constraint>)
    requires |T| == |events| && IsShape(T, |T|, Width(T)) && IsShape(S, |S|, |slots|)
    requires IsShape(A, |events|, |slots|) && IsShape(EA, |events|, |events|) && IsShape(X, |events|, |slots|)
    ensures |cs| == |events| + |slots| + |TagQuads(S, T)| + |events| * |slots| +
                    |ConcurrentSlots(slots)| * (|events| * |events|)
  {
    var m, n := |events|, |slots|;
    ScheduleAllEvents(m, n, X) + MaxOneEventPerSlot(m, n, X) + EventsInSessionShareATag(S, T, X, n) +
    LegacySlotAvailability(A, X, m, n) + LegacyClashes(slots, EA, X, m)
  }
}
