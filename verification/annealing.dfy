/** `simulated_annealing`
    (src/conference_scheduler/heuristics/simulated_annealing.py). The
    random test `np.random.random() < np.exp(-delta / temperature)` is an
    oracle: `draws[k]` is its outcome in turn k. The temperature is a real
    and is cooled by `cooldown_rate ** iterations` exactly as written. */
module Annealing {
  import opened Sequences
  import opened Matrices
  import opened Neighbourhood
  import opened HillClimbing

  function Pow(x: real, k: nat): real {
    if k == 0 then 1.0 else x * Pow(x, k - 1)
  }

  /** `temperature *= cooldown_rate ** iterations`; a zero temperature
      stays zero. */
  function Cool(temperature: real, cooldown: real, iterations: nat): (r: real)
    ensures temperature == 0.0 ==> r == 0.0
  {
    temperature * Pow(cooldown, iterations)
  }

  /** The loop state: `X`, `best_X`, `current_energy`, `best_energy`,
      `temperature`, `iterations`. */
  datatype Anneal = Anneal(X: Matrix, best: Matrix, energy: int, bestEnergy: int, temperature: real, iterations: nat)

  /** The loop's invariant: the current and the best array keep their shape, both
      energies are the objective of their arrays, enough draws remain, and
      at most `Turns(max_iterations)` turns have run. */
  predicate Consistent(f: Matrix -> int, maxIt: int, moves: seq<Move>, draws: seq<bool>, m: nat, n: nat, s: Anneal) {
    Grid(s.X, m, n) && Grid(s.best, m, n) && DrawsFit(moves, m, n) && |moves| > maxIt && |draws| > maxIt &&
    s.iterations <= Turns(maxIt) && s.energy == f(s.X) && s.bestEnergy == f(s.best)
  }

  /** One turn after the candidate, of energy `e`, is drawn. A strict
      improvement on the current energy is always taken and becomes the
      best array; anything else is taken only while the temperature is
      positive and the draw says so; the best array changes only on a
      strict improvement. */
  function AnnealStep(cooldown: real, s: Anneal, candidate: Matrix, e: int, draw: bool): (r: Anneal)
    ensures r.iterations == s.iterations + 1
    ensures e < s.energy ==> r.X == candidate && r.energy == e && r.best == candidate && r.bestEnergy == e
    ensures e >= s.energy ==> r.best == s.best && r.bestEnergy == s.bestEnergy
    ensures e >= s.energy && !(s.temperature > 0.0 && draw) ==> r.X == s.X && r.energy == s.energy
    ensures (r.X == s.X && r.energy == s.energy) || (r.X == candidate && r.energy == e)
    ensures s.temperature == 0.0 ==> r.temperature == 0.0
  {
    var delta := e - s.energy;
    var best := if delta < 0 then candidate else s.best;
    var bestEnergy := if delta < 0 then e else s.bestEnergy;
    var accepted := delta < 0 || (s.temperature > 0.0 && draw);
    var it := s.iterations + 1;
    Anneal(if accepted then candidate else s.X, best, if accepted then e else s.energy,
           bestEnergy, Cool(s.temperature, cooldown, it), it)
  }

  /** The loop from state `s` on. `None` is an exception raised by the
      move. */
  function AnnealFrom(f: Matrix -> int, lower: Option<int>, cooldown: real, maxIt: int,
                      moves: seq<Move>, draws: seq<bool>, m: nat, n: nat, s: Anneal): (r: Option<Anneal>)
    requires Consistent(f, maxIt, moves, draws, m, n, s)
    ensures r.Some? ==> Consistent(f, maxIt, moves, draws, m, n, r.value)
    decreases Turns(maxIt) - s.iterations
  {
    if !Above(s.energy, lower) || s.iterations > maxIt then Some(s)
    else
      match Neighbour(s.X, moves[s.iterations].row, moves[s.iterations].raw)
      case None => None
      case Some(candidate) =>
        AnnealFrom(f, lower, cooldown, maxIt, moves, draws, m, n,
                   AnnealStep(cooldown, s, candidate, f(candidate), draws[s.iterations]))
  }

  /** The whole run from the initial array and temperature. */
  function Annealed(f: Matrix -> int, X0: Matrix, temperature: real, cooldown: real, lower: Option<int>,
                    maxIt: int, moves: seq<Move>, draws: seq<bool>): (r: Option<Anneal>)
    requires IsShape(X0, |X0|, Width(X0)) && DrawsFit(moves, |X0|, Width(X0))
    requires |moves| > maxIt && |draws| > maxIt
  {
    AnnealFrom(f, lower, cooldown, maxIt, moves, draws, |X0|, Width(X0),
               Anneal(X0, X0, f(X0), f(X0), temperature, 0))
  }

  /** The stopping rule is the hill climber's: the loop ends at or below the
      bound or after `Turns(max_iterations)` candidates, and draws nothing
      when it starts at or below the bound or with the budget spent. */
  lemma {:induction false} AnnealFromStops(f: Matrix -> int, lower: Option<int>, cooldown: real, maxIt: int,
                                           moves: seq<Move>, draws: seq<bool>, m: nat, n: nat, s: Anneal)
    requires Consistent(f, maxIt, moves, draws, m, n, s)
    ensures var r := AnnealFrom(f, lower, cooldown, maxIt, moves, draws, m, n, s);
      r.Some? ==> (!Above(r.value.energy, lower) || r.value.iterations == Turns(maxIt)) &&
                  s.iterations <= r.value.iterations
    ensures !Above(s.energy, lower) || s.iterations > maxIt ==>
      AnnealFrom(f, lower, cooldown, maxIt, moves, draws, m, n, s) == Some(s)
    decreases Turns(maxIt) - s.iterations
  {
    if Above(s.energy, lower) && s.iterations <= maxIt {
      var mv := moves[s.iterations];
      if Neighbour(s.X, mv.row, mv.raw).Some? {
        var candidate := Neighbour(s.X, mv.row, mv.raw).value;
        AnnealFromStops(f, lower, cooldown, maxIt, moves, draws, m, n,
                        AnnealStep(cooldown, s, candidate, f(candidate), draws[s.iterations]));
      }
    }
  }

  /** At temperature 0 annealing is hill climbing without an acceptance
      criterion: the same runs fail, the current array and energy agree
      with the climber's, the best array is the current one, and the
      temperature stays 0. */
  lemma {:induction false} AnnealAtZeroIsClimb(f: Matrix -> int, lower: Option<int>, cooldown: real, maxIt: int,
                                               moves: seq<Move>, draws: seq<bool>, m: nat, n: nat, s: Anneal)
    requires Consistent(f, maxIt, moves, draws, m, n, s)
    requires s.temperature == 0.0 && s.best == s.X
    ensures var a := AnnealFrom(f, lower, cooldown, maxIt, moves, draws, m, n, s);
            var c := ClimbFrom(f, lower, None, 0, maxIt, moves, m, n, Climb(s.X, s.energy, s.iterations));
      (a.Some? <==> c.Some?) &&
      (a.Some? ==> a.value.X == c.value.X && a.value.energy == c.value.energy &&
                   a.value.iterations == c.value.iterations &&
                   a.value.best == a.value.X && a.value.temperature == 0.0)
    decreases Turns(maxIt) - s.iterations
  {
    var cs := Climb(s.X, s.energy, s.iterations);
    assert Ready(f, maxIt, moves, m, n, cs);
    if Above(s.energy, lower) && s.iterations <= maxIt {
      var mv := moves[s.iterations];
      if Neighbour(s.X, mv.row, mv.raw).Some? {
        var candidate := Neighbour(s.X, mv.row, mv.raw).value;
        var next := AnnealStep(cooldown, s, candidate, f(candidate), draws[s.iterations]);
        assert Step(None, 0, cs, candidate, f(candidate)) == Climb(next.X, next.energy, next.iterations);
        AnnealAtZeroIsClimb(f, lower, cooldown, maxIt, moves, draws, m, n, next);
      }
    }
  }

  /** The whole-run form: `simulated_annealing` started at temperature 0
      returns what `hill_climber` without a criterion returns, and warns in
      the same cases. */
  lemma AnnealingAtZeroIsHillClimbing(f: Matrix -> int, X0: Matrix, cooldown: real, lower: Option<int>,
                                      maxIt: int, moves: seq<Move>, draws: seq<bool>)
    requires IsShape(X0, |X0|, Width(X0)) && DrawsFit(moves, |X0|, Width(X0))
    requires |moves| > maxIt && |draws| > maxIt
    ensures var a := Annealed(f, X0, 0.0, cooldown, lower, maxIt, moves, draws);
            var c := HillClimb(f, X0, lower, None, maxIt, moves);
      (a.Some? <==> c.Some?) &&
      (a.Some? ==> a.value.best == c.value.X && a.value.energy == c.value.energy)
  {
    AnnealAtZeroIsClimb(f, lower, cooldown, maxIt, moves, draws, |X0|, Width(X0),
                        Anneal(X0, X0, f(X0), f(X0), 0.0, 0));
  }

  /** Started on an assignment with events and at least two slots, the run
      never fails and both its current and its best array are
      assignments. */
  lemma {:induction false} AnnealKeepsAssignment(f: Matrix -> int, lower: Option<int>, cooldown: real, maxIt: int,
                                                 moves: seq<Move>, draws: seq<bool>, m: nat, n: nat, s: Anneal)
    requires Consistent(f, maxIt, moves, draws, m, n, s)
    requires IsAssignment(s.X, m, n) && IsAssignment(s.best, m, n) && m >= 1 && n >= 2
    ensures var r := AnnealFrom(f, lower, cooldown, maxIt, moves, draws, m, n, s);
      r.Some? && IsAssignment(r.value.X, m, n) && IsAssignment(r.value.best, m, n)
    decreases Turns(maxIt) - s.iterations
  {
    if Above(s.energy, lower) && s.iterations <= maxIt {
      var mv := moves[s.iterations];
      NeighbourKeepsAssignment(s.X, m, n, mv.row, mv.raw);
      var candidate := Neighbour(s.X, mv.row, mv.raw).value;
      AnnealKeepsAssignment(f, lower, cooldown, maxIt, moves, draws, m, n,
                            AnnealStep(cooldown, s, candidate, f(candidate), draws[s.iterations]));
    }
  }

  /** The rest of a turn once the candidate and its energy are known: the
      acceptance test and the cooling, as `AnnealStep` describes them. */
  method Turn(cooldown: real, X: Matrix, bestX: Matrix, energy: int, bestEnergy: int, temperature: real,
              iterations: nat, candidate: Matrix, candidateEnergy: int, draw: bool)
    returns (X': Matrix, bestX': Matrix, energy': int, bestEnergy': int, temperature': real)
    requires iterations >= 1
    ensures Anneal(X', bestX', energy', bestEnergy', temperature', iterations) ==
      AnnealStep(cooldown, Anneal(X, bestX, energy, bestEnergy, temperature, iterations - 1), candidate, candidateEnergy, draw)
  {
    X', bestX', energy', bestEnergy' := X, bestX, energy, bestEnergy;
    var delta := candidateEnergy - energy;
    if delta < 0 {
      bestEnergy' := candidateEnergy;
      bestX' := candidate;
    }
    if delta < 0 || (temperature > 0.0 && draw) {
      X' := candidate;
      energy' := candidateEnergy;
    }
    temperature' := Cool(temperature, cooldown, iterations);
  }

  /** `element_from_neighbourhood(X)` inside the loop, described by what it
      does to the run: a failed move ends the run with `None`, otherwise the
      run goes on from the turn this candidate makes. */
  method DrawCandidate(f: Matrix -> int, lower: Option<int>, cooldown: real, maxIt: int,
                       moves: seq<Move>, draws: seq<bool>, m: nat, n: nat, X: Matrix, move: Move, ghost s: Anneal)
    returns (candidate: Option<Matrix>)
    requires Consistent(f, maxIt, moves, draws, m, n, s) && s.iterations <= maxIt && Above(s.energy, lower)
    requires X == s.X && move == moves[s.iterations]
    ensures candidate.None? ==> AnnealFrom(f, lower, cooldown, maxIt, moves, draws, m, n, s).None?
    ensures candidate.Some? ==>
      Consistent(f, maxIt, moves, draws, m, n, AnnealStep(cooldown, s, candidate.value, f(candidate.value), draws[s.iterations])) &&
      AnnealFrom(f, lower, cooldown, maxIt, moves, draws, m, n, s) ==
      AnnealFrom(f, lower, cooldown, maxIt, moves, draws, m, n,
                 AnnealStep(cooldown, s, candidate.value, f(candidate.value), draws[s.iterations]))
  {
    candidate := ElementFromNeighbourhood(X, move.row, move.raw);
  }

  /** What a run returns: its best array, or `None` if a move raised. */
  function BestArray(a: Option<Anneal>): Option<Matrix> {
    if a.Some? then Some(a.value.best) else None
  }

  /** `simulated_annealing`: returns the best array (not the current one)
      and whether the lower-bound warning was issued, which is decided on
      the current energy. */
  method SimulatedAnnealing(f: Matrix -> int, X0: Matrix, initialTemperature: real, cooldown: real,
                            lower: Option<int>, maxIt: int, moves: seq<Move>, draws: seq<bool>)
    returns (r: Option<Matrix>, warned: bool)
    requires IsShape(X0, |X0|, Width(X0)) && DrawsFit(moves, |X0|, Width(X0))
    requires |moves| > maxIt && |draws| > maxIt
    ensures r == BestArray(Annealed(f, X0, initialTemperature, cooldown, lower, maxIt, moves, draws))
    ensures r.Some? ==>
      (warned <==> lower.Some? && Annealed(f, X0, initialTemperature, cooldown, lower, maxIt, moves, draws).value.energy != lower.value)
  {
    var m, n := |X0|, Width(X0);
    var X := X0;
    var bestX := X;
    var iterations: nat := 0;
    var energy := f(X);
    var bestEnergy := energy;
    var temperature := initialTemperature;
    ghost var run := Annealed(f, X0, initialTemperature, cooldown, lower, maxIt, moves, draws);
    while Above(energy, lower) && iterations <= maxIt
      invariant Consistent(f, maxIt, moves, draws, m, n, Anneal(X, bestX, energy, bestEnergy, temperature, iterations))
      invariant AnnealFrom(f, lower, cooldown, maxIt, moves, draws, m, n,
                           Anneal(X, bestX, energy, bestEnergy, temperature, iterations)) == run
      decreases Turns(maxIt) - iterations
    {
      ghost var s := Anneal(X, bestX, energy, bestEnergy, temperature, iterations);
      iterations := iterations + 1;
      var candidate := DrawCandidate(f, lower, cooldown, maxIt, moves, draws, m, n, X, moves[iterations - 1], s);
      if candidate.None? {
        return None, false;
      }
      var candidateEnergy := f(candidate.value);
      ghost var next := AnnealStep(cooldown, s, candidate.value, candidateEnergy, draws[s.iterations]);
      X, bestX, energy, bestEnergy, temperature :=
        Turn(cooldown, X, bestX, energy, bestEnergy, temperature, iterations, candidate.value, candidateEnergy, draws[iterations - 1]);
      assert Anneal(X, bestX, energy, bestEnergy, temperature, iterations) == next;
    }
    assert run == Some(Anneal(X, bestX, energy, bestEnergy, temperature, iterations));
    warned := lower.Some? && energy != lower.value;
    r := Some(bestX);
  }
}
