/** `hill_climber` (src/conference_scheduler/heuristics/hill_climber.py).
    The objective and the optional acceptance criterion are functions of the
    array; the `-inf` default of `lower_bound` is `None`; the random draws
    of each iteration's move are a sequence of `Move`s; the warning is a
    returned flag. `ClimbFrom` is the loop as a recursive function, and the
    method is proved to compute it. */
module HillClimbing {
  import opened Sequences
  import opened Matrices
  import opened Neighbourhood

  /** The draws of one call to `element_from_neighbourhood`: the event row
      and the raw slot draw. */
  datatype Move = Move(row: nat, raw: nat)

  /** Every draw lies in the range NumPy draws it from, for an m-by-n array. */
  predicate DrawsFit(moves: seq<Move>, m: nat, n: nat) {
    forall k :: 0 <= k < |moves| ==> (m == 0 || moves[k].row < m) && (n >= 2 ==> moves[k].raw < n - 1)
  }

  /** An m-by-n array whose first row fixes the width n. */
  predicate Grid(X: Matrix, m: nat, n: nat) {
    IsShape(X, m, n) && Width(X) == n
  }

  /** `current_energy > lower_bound`, with `None` standing for `-inf`. */
  predicate Above(energy: int, lower: Option<int>) {
    lower.None? || energy > lower.value
  }

  /** `acceptance_bound`: the criterion's score of the initial array. */
  function Bound(accept: Option<Matrix -> int>, X0: Matrix): int {
    if accept.Some? then accept.value(X0) else 0
  }

  /** No criterion, or the criterion scores `X` within the bound. */
  predicate Admissible(accept: Option<Matrix -> int>, bound: int, X: Matrix) {
    accept.None? || accept.value(X) <= bound
  }

  /** How many candidates `iterations <= max_iterations` lets the loop
      draw: `max_iterations + 1`, and none for a negative bound, which
      Python accepts unchecked. */
  function Turns(maxIt: int): nat {
    if maxIt < 0 then 0 else maxIt + 1
  }

  /** The loop state: `X`, `current_energy`, `iterations`. */
  datatype Climb = Climb(X: Matrix, energy: int, iterations: nat)

  /** The loop's invariant: the array keeps its shape, the energy is the
      objective of the array, enough draws remain, and at most
      `Turns(max_iterations)` turns have run. */
  predicate Ready(f: Matrix -> int, maxIt: int, moves: seq<Move>, m: nat, n: nat, s: Climb) {
    Grid(s.X, m, n) && DrawsFit(moves, m, n) && |moves| > maxIt && s.iterations <= Turns(maxIt) && s.energy == f(s.X)
  }

  /** One turn after the candidate, of energy `e`, is drawn: it replaces
      the state only with a strictly lower energy, within the acceptance
      bound. */
  function Step(accept: Option<Matrix -> int>, bound: int, s: Climb, candidate: Matrix, e: int): (r: Climb)
    ensures r.iterations == s.iterations + 1
    ensures r.X == s.X || (e < s.energy && Admissible(accept, bound, candidate))
  {
    if e < s.energy && Admissible(accept, bound, candidate)
    then Climb(candidate, e, s.iterations + 1)
    else Climb(s.X, s.energy, s.iterations + 1)
  }

  /** The loop from state `s` on. `None` is an exception raised by the
      move. */
  function ClimbFrom(f: Matrix -> int, lower: Option<int>, accept: Option<Matrix -> int>, bound: int,
                     maxIt: int, moves: seq<Move>, m: nat, n: nat, s: Climb): (r: Option<Climb>)
    requires Ready(f, maxIt, moves, m, n, s)
    ensures r.Some? ==> Ready(f, maxIt, moves, m, n, r.value)
    decreases Turns(maxIt) - s.iterations
  {
    if !Above(s.energy, lower) || s.iterations > maxIt then Some(s)
    else
      match Neighbour(s.X, moves[s.iterations].row, moves[s.iterations].raw)
      case None => None
      case Some(candidate) => ClimbFrom(f, lower, accept, bound, maxIt, moves, m, n, Step(accept, bound, s, candidate, f(candidate)))
  }

  /** What the loop guarantees: the energy only falls, and a new array is
      only taken with a strictly lower energy; an admissible array stays
      admissible; the loop ends at or below the bound or after
      `Turns(max_iterations)` candidates; it draws nothing when it starts at
      or below the bound or with the budget spent. */
  lemma {:induction false} ClimbFromSpec(f: Matrix -> int, lower: Option<int>, accept: Option<Matrix -> int>, bound: int,
                                         maxIt: int, moves: seq<Move>, m: nat, n: nat, s: Climb)
    requires Ready(f, maxIt, moves, m, n, s)
    ensures var r := ClimbFrom(f, lower, accept, bound, maxIt, moves, m, n, s);
      r.Some? ==> r.value.energy <= s.energy && (r.value.X == s.X || r.value.energy < s.energy)
    ensures var r := ClimbFrom(f, lower, accept, bound, maxIt, moves, m, n, s);
      r.Some? && Admissible(accept, bound, s.X) ==> Admissible(accept, bound, r.value.X)
    ensures var r := ClimbFrom(f, lower, accept, bound, maxIt, moves, m, n, s);
      r.Some? ==> !Above(r.value.energy, lower) || r.value.iterations == Turns(maxIt)
    ensures var r := ClimbFrom(f, lower, accept, bound, maxIt, moves, m, n, s);
      r.Some? ==> s.iterations <= r.value.iterations <= Turns(maxIt)
    ensures !Above(s.energy, lower) || s.iterations > maxIt ==> ClimbFrom(f, lower, accept, bound, maxIt, moves, m, n, s) == Some(s)
    decreases Turns(maxIt) - s.iterations
  {
    if Above(s.energy, lower) && s.iterations <= maxIt {
      var mv := moves[s.iterations];
      if Neighbour(s.X, mv.row, mv.raw).Some? {
        var candidate := Neighbour(s.X, mv.row, mv.raw).value;
        ClimbFromSpec(f, lower, accept, bound, maxIt, moves, m, n, Step(accept, bound, s, candidate, f(candidate)));
      }
    }
  }

  /** The whole run from the initial array. */
  function HillClimb(f: Matrix -> int, X0: Matrix, lower: Option<int>, accept: Option<Matrix -> int>,
                     maxIt: int, moves: seq<Move>): (r: Option<Climb>)
    requires IsShape(X0, |X0|, Width(X0)) && DrawsFit(moves, |X0|, Width(X0)) && |moves| > maxIt
  {
    ClimbFrom(f, lower, accept, Bound(accept, X0), maxIt, moves, |X0|, Width(X0), Climb(X0, f(X0), 0))
  }

  /** The run returns an array no worse than the initial one, within the
      acceptance bound, and returns the initial array untouched when it
      already meets the lower bound or `max_iterations` is negative. */
  lemma HillClimbSpec(f: Matrix -> int, X0: Matrix, lower: Option<int>, accept: Option<Matrix -> int>,
                      maxIt: int, moves: seq<Move>)
    requires IsShape(X0, |X0|, Width(X0)) && DrawsFit(moves, |X0|, Width(X0)) && |moves| > maxIt
    ensures var r := HillClimb(f, X0, lower, accept, maxIt, moves);
      r.Some? ==> f(r.value.X) <= f(X0) && Admissible(accept, Bound(accept, X0), r.value.X)
    ensures var r := HillClimb(f, X0, lower, accept, maxIt, moves);
      r.Some? ==> !Above(f(r.value.X), lower) || r.value.iterations == Turns(maxIt)
    ensures !Above(f(X0), lower) || maxIt < 0 ==> HillClimb(f, X0, lower, accept, maxIt, moves) == Some(Climb(X0, f(X0), 0))
  {
    ClimbFromSpec(f, lower, accept, Bound(accept, X0), maxIt, moves, |X0|, Width(X0), Climb(X0, f(X0), 0));
  }

  /** The array a run ends on. */
  function FinalArray(c: Option<Climb>): Option<Matrix> {
    if c.Some? then Some(c.value.X) else None
  }

  /** `element_from_neighbourhood(X)` inside the loop, described by what it
      does to the run: a failed move ends the run with `None`, otherwise the
      run goes on from the turn this candidate makes. */
  method DrawCandidate(f: Matrix -> int, lower: Option<int>, accept: Option<Matrix -> int>, bound: int,
                       maxIt: int, moves: seq<Move>, m: nat, n: nat, X: Matrix, move: Move, ghost s: Climb)
    returns (candidate: Option<Matrix>)
    requires Ready(f, maxIt, moves, m, n, s) && s.iterations <= maxIt && Above(s.energy, lower)
    requires X == s.X && move == moves[s.iterations]
    ensures candidate.None? ==> ClimbFrom(f, lower, accept, bound, maxIt, moves, m, n, s).None?
    ensures candidate.Some? ==>
      Ready(f, maxIt, moves, m, n, Step(accept, bound, s, candidate.value, f(candidate.value))) &&
      ClimbFrom(f, lower, accept, bound, maxIt, moves, m, n, s) ==
      ClimbFrom(f, lower, accept, bound, maxIt, moves, m, n, Step(accept, bound, s, candidate.value, f(candidate.value)))
  {
    candidate := ElementFromNeighbourhood(X, move.row, move.raw);
  }

  /** `hill_climber`: returns the final array (`None` if a move raised) and
      whether the lower-bound warning was issued. */
  method HillClimber(f: Matrix -> int, X0: Matrix, lower: Option<int>, accept: Option<Matrix -> int>,
                     maxIt: int, moves: seq<Move>) returns (r: Option<Matrix>, warned: bool)
    requires IsShape(X0, |X0|, Width(X0)) && DrawsFit(moves, |X0|, Width(X0)) && |moves| > maxIt
    ensures r == FinalArray(HillClimb(f, X0, lower, accept, maxIt, moves))
    ensures r.Some? ==> (warned <==> lower.Some? && f(r.value) != lower.value)
  {
    var m, n := |X0|, Width(X0);
    var X := X0;
    var bound := Bound(accept, X);
    var iterations: nat := 0;
    var energy := f(X);
    ghost var run := HillClimb(f, X0, lower, accept, maxIt, moves);
    while Above(energy, lower) && iterations <= maxIt
      invariant Ready(f, maxIt, moves, m, n, Climb(X, energy, iterations))
      invariant ClimbFrom(f, lower, accept, bound, maxIt, moves, m, n, Climb(X, energy, iterations)) == run
      decreases Turns(maxIt) - iterations
    {
      ghost var s := Climb(X, energy, iterations);
      iterations := iterations + 1;
      var candidate := DrawCandidate(f, lower, accept, bound, maxIt, moves, m, n, X, moves[iterations - 1], s);
      if candidate.None? {
        return None, false;
      }
      var candidateEnergy := f(candidate.value);
      ghost var next := Step(accept, bound, s, candidate.value, candidateEnergy);
      if candidateEnergy < energy && Admissible(accept, bound, candidate.value) {
        X := candidate.value;
        energy := candidateEnergy;
      }
      assert Climb(X, energy, iterations) == next;
    }
    assert run == Some(Climb(X, energy, iterations));
    assert FinalArray(run) == Some(X);
    warned := lower.Some? && energy != lower.value;
    r := Some(X);
  }

  /** Started on an assignment with events and at least two slots, the
      climb never fails and ends on an assignment. */
  lemma {:induction false} ClimbKeepsAssignment(f: Matrix -> int, lower: Option<int>, accept: Option<Matrix -> int>,
                                                bound: int, maxIt: int, moves: seq<Move>, m: nat, n: nat, s: Climb)
    requires Ready(f, maxIt, moves, m, n, s)
    requires IsAssignment(s.X, m, n) && m >= 1 && n >= 2
    ensures ClimbFrom(f, lower, accept, bound, maxIt, moves, m, n, s).Some?
    ensures IsAssignment(ClimbFrom(f, lower, accept, bound, maxIt, moves, m, n, s).value.X, m, n)
    decreases Turns(maxIt) - s.iterations
  {
    if Above(s.energy, lower) && s.iterations <= maxIt {
      var mv := moves[s.iterations];
      NeighbourKeepsAssignment(s.X, m, n, mv.row, mv.raw);
      var candidate := Neighbour(s.X, mv.row, mv.raw).value;
      ClimbKeepsAssignment(f, lower, accept, bound, maxIt, moves, m, n, Step(accept, bound, s, candidate, f(candidate)));
    }
  }
}
