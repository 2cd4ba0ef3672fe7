/**
 * The ant: a walker with a visited list and a stack of crossroad objects, whose
 * find_route loop is proved to compute Walking.Run on the state it starts from.
 */
module Ants {
  import opened Primitives
  import opened Walking
  import opened Crossroads

  /** The values held by a stack of crossroad objects. */
  ghost function MarksOf(cs: seq<Crossroad>): (marks: seq<Mark>)
    reads cs
    ensures |marks| == |cs|
    ensures forall i :: 0 <= i < |cs| ==> marks[i] == Mark(cs[i].position, cs[i].steps)
  {
    if cs == [] then [] else MarksOf(cs[..|cs| - 1]) + [Mark(cs[|cs| - 1].position, cs[|cs| - 1].steps)]
  }

  /** Two weight lists that agree on every direction's index are equal. */
  lemma WeightsEqual(p: seq<real>, q: seq<real>)
    requires |p| == 4 && |q| == 4
    requires forall d :: p[DirToInt(d)] == q[DirToInt(d)]
    ensures p == q
  {
    assert p[DirToInt(East)] == q[DirToInt(East)] && p[DirToInt(North)] == q[DirToInt(North)];
    assert p[DirToInt(West)] == q[DirToInt(West)] && p[DirToInt(South)] == q[DirToInt(South)];
  }

  class Ant {
    /** The pheromone field of the maze, which nothing writes while the ant walks. */
    const field: Field
    const start: Coordinate
    const end: Coordinate
    var currentPosition: Coordinate
    /** The cells visited so far. */
    var tabuList: seq<Coordinate>
    /** The crossroads passed and not yet returned to, the last one on top. */
    var crossroads: seq<Crossroad>
    /** The ant and the crossroad objects it owns. */
    ghost var Repr: set<object>

    /**
     * The ant owns its crossroads, and no crossroad object is on the stack twice, so
     * raising one count changes one entry.
     */
    ghost predicate Valid()
      reads this
    {
      this in Repr &&
      (forall i :: 0 <= i < |crossroads| ==> crossroads[i] in Repr) &&
      (forall i, j :: 0 <= i < j < |crossroads| ==> crossroads[i] != crossroads[j])
    }

    /** The ant as a walker value, with the route its walk has built. */
    ghost function State(route: Route): Walker
      reads this, crossroads
    {
      Walker(currentPosition, tabuList, MarksOf(crossroads), route)
    }

    constructor (field: Field, start: Coordinate, end: Coordinate)
      ensures this.field == field && this.start == start && this.end == end
      ensures Valid() && State([]) == Initial(start) && fresh(Repr)
    {
      this.field := field;
      this.start := start;
      this.end := end;
      currentPosition := start;
      tabuList := [];
      crossroads := [];
      Repr := {this};
    }

    /** Whether the ant may move in direction: a non-zero entry towards a cell not yet visited. */
    method IsPossibleDirection(sp: SurroundingPheromone, direction: Direction) returns (b: bool)
      ensures b == IsPossible(sp, currentPosition, tabuList, direction)
    {
      var coord := currentPosition.AddDirection(direction);
      return sp.Get(direction) != 0.0 && coord !in tabuList;
    }

    /** The possible directions from the current position, in the order north, south, east, west. */
    method GetPossibleDirections(sp: SurroundingPheromone) returns (directions: seq<Direction>)
      ensures directions == PossibleDirections(sp, currentPosition, tabuList)
    {
      directions := [];
      var possible := IsPossibleDirection(sp, North);
      if possible {
        directions := directions + [North];
      }
      possible := IsPossibleDirection(sp, South);
      if possible {
        directions := directions + [South];
      }
      possible := IsPossibleDirection(sp, East);
      if possible {
        directions := directions + [East];
      }
      possible := IsPossibleDirection(sp, West);
      if possible {
        directions := directions + [West];
      }
    }

    /** Whether the current position is a crossroad: more than one possible direction. */
    method IsCrossroad(sp: SurroundingPheromone) returns (b: bool)
      ensures b == Walking.IsCrossroad(sp, currentPosition, tabuList)
    {
      var directions := GetPossibleDirections(sp);
      return |directions| > 1;
    }

    /** The weights of the possible directions, filled in one direction at a time. */
    method Weigh(sp: SurroundingPheromone, directions: seq<Direction>) returns (probabilities: seq<real>)
      requires directions != []
      ensures probabilities == Probabilities(sp, directions)
    {
      probabilities := [0.0, 0.0, 0.0, 0.0];
      assert forall d :: DirToInt(d) < 4 && probabilities[DirToInt(d)] == 0.0;
      for k := 0 to |directions|
        invariant |probabilities| == 4
        invariant forall d ::
          probabilities[DirToInt(d)] == if d in directions[..k] then sp.Get(d) / (|directions| as real) else 0.0
      {
        var direction := directions[k];
        probabilities := probabilities[DirToInt(direction) := sp.Get(direction) / (|directions| as real)];
        forall d
          ensures probabilities[DirToInt(d)] == if d in directions[..k + 1] then sp.Get(d) / (|directions| as real) else 0.0
        {
          assert directions[..k + 1] == directions[..k] + [direction];
          if d != direction {
            assert DirToInt(d) != DirToInt(direction) by {
              assert IntToDir(DirToInt(d)) == d;
            }
          }
        }
      }
      assert directions[..|directions|] == directions;
      WeightsEqual(probabilities, Probabilities(sp, directions));
    }

    /**
     * The dead-end branch of pick_direction: pop the top crossroad, jump back to it and
     * remove its step count from the end of the route, one pop at a time, failing when
     * the route runs out first.
     */
    method ReturnToCrossroad(ghost s: Walker, route: Route) returns (r: Result<Route, WalkError>)
      requires Valid() && State(route) == s && crossroads != []
      modifies this
      ensures Valid()
      ensures Repr == old(Repr)
      ensures |crossroads| <= |old(crossroads)| && forall i :: 0 <= i < |crossroads| ==> crossroads[i] == old(crossroads)[i]
      ensures var top := s.marks[|s.marks| - 1];
        (r.Failure? <==> top.steps > |route|) &&
        (r.Failure? ==> r.error == RouteUnderflow) &&
        (r.Success? ==> State(r.value) == s.(position := top.position, marks := s.marks[..|s.marks| - 1], route := route[..|route| - top.steps]))
    {
      var crossroad := crossroads[|crossroads| - 1];
      crossroads := crossroads[..|crossroads| - 1];
      currentPosition := crossroad.GetPosition();
      var steps := crossroad.GetSteps();
      var popped := route;
      for i := 0 to steps
        invariant |popped| == |route| - i
        invariant popped == route[..|route| - i]
      {
        if popped == [] {
          return Failure(RouteUnderflow);
        }
        popped := popped[..|popped| - 1];
      }
      assert MarksOf(crossroads) == MarksOf(old(crossroads))[..|old(crossroads)| - 1];
      return Success(popped);
    }

    /** The forward branch of pick_direction: weigh the possible directions, choose one and move one cell that way. */
    method StepAhead(ghost s: Walker, route: Route, sp: SurroundingPheromone, directions: seq<Direction>, rand: real, stochastic: bool)
      returns (next: Route)
      requires Valid() && State(route) == s && directions != []
      requires directions == PossibleDirections(sp, s.position, s.tabu)
      modifies this
      ensures Valid() && Repr == old(Repr) && crossroads == old(crossroads)
      ensures var d := Choose(sp, directions, rand, stochastic);
        next == route + [d] && State(next) == s.(position := s.position.AddDirection(d), route := s.route + [d])
    {
      var probabilities := Weigh(sp, directions);
      var direction;
      if stochastic {
        direction := RouletteWheel(probabilities, rand);
      } else {
        direction := IntToDir(FirstMaxIndex(probabilities));
      }
      currentPosition := currentPosition.AddDirection(direction);
      return route + [direction];
    }

    /**
     * pick_direction on the route built so far. At a dead end the ant returns to the top
     * crossroad; with no crossroad left the walk fails. Otherwise the ant moves one cell
     * in the chosen direction (by roulette with draw rand, or the first maximal weight)
     * and the route gains that direction. The boolean tells a forward step from a
     * backtrack.
     */
    method PickDirection(ghost s: Walker, route: Route, sp: SurroundingPheromone, rand: real, stochastic: bool)
      returns (r: Result<(Route, bool), WalkError>)
      requires Valid() && State(route) == s
      modifies this
      ensures Valid()
      ensures Repr == old(Repr)
      ensures |crossroads| <= |old(crossroads)| && forall i :: 0 <= i < |crossroads| ==> crossroads[i] == old(crossroads)[i]
      ensures var p := Pick(sp, s, rand, stochastic);
        (r.Failure? <==> p.Failure?) &&
        (r.Failure? ==> r.error == p.error) &&
        (r.Success? ==> r.value.1 == p.value.Stepped? && State(r.value.0) == p.value.w)
    {
      var directions := GetPossibleDirections(sp);
      if directions == [] {
        if crossroads == [] {
          return Failure(DeadEnd);
        }
        var returned := ReturnToCrossroad(s, route);
        if returned.Failure? {
          return Failure(returned.error);
        }
        return Success((returned.value, false));
      }
      var next := StepAhead(s, route, sp, directions, rand, stochastic);
      return Success((next, true));
    }

    /** update_crossroad: raises the top crossroad's count in place; the stack keeps the same objects. */
    method UpdateCrossroad()
      requires Valid()
      modifies this, crossroads
      ensures Valid() && crossroads == old(crossroads) && Repr == old(Repr)
      ensures currentPosition == old(currentPosition) && tabuList == old(tabuList)
      ensures MarksOf(crossroads) == Bump(old(MarksOf(crossroads)))
    {
      if crossroads == [] {
        return;
      }
      var crossroad := crossroads[|crossroads| - 1];
      crossroads := crossroads[..|crossroads| - 1];
      var raised := crossroad.IncreaseStep();
      crossroads := crossroads + [raised];
      assert crossroads == old(crossroads);
      assert MarksOf(crossroads)[..|crossroads| - 1] == old(MarksOf(crossroads))[..|crossroads| - 1];
    }

    /** Saves the current position on the crossroad stack with a count of 0. */
    method PushCrossroad(ghost s: Walker, ghost route: Route)
      requires Valid() && State(route) == s
      modifies this
      ensures Valid()
      ensures |crossroads| == |old(crossroads)| + 1 && crossroads[..|old(crossroads)|] == old(crossroads)
      ensures fresh(crossroads[|old(crossroads)|]) && fresh(Repr - old(Repr))
      ensures State(route) == s.(marks := s.marks + [Mark(s.position, 0)])
    {
      var c := new Crossroad(currentPosition, 0);
      crossroads := crossroads + [c];
      Repr := Repr + {c};
      assert crossroads[..|crossroads| - 1] == old(crossroads);
    }

    /**
     * The start of a find_route iteration: mark the current cell visited, read its
     * entries (failing outside the field) and push it as a crossroad when more than
     * one way is possible.
     */
    method EnterCell(ghost s: Walker, ghost route: Route) returns (r: Result<SurroundingPheromone, WalkError>)
      requires Valid() && State(route) == s
      modifies this
      ensures Valid()
      ensures fresh(Repr - old(Repr))
      ensures var e := Enter(field, s);
        (r.Failure? <==> e.Failure?) &&
        (r.Failure? ==> r.error == e.error) &&
        (r.Success? ==> r.value == e.value.1 && State(route) == e.value.0)
    {
      tabuList := tabuList + [currentPosition];
      if !InField(field, currentPosition) {
        return Failure(OutsideMaze);
      }
      var sp := field[currentPosition.x][currentPosition.y];
      ghost var w := s.(tabu := tabuList);
      assert State(route) == w;
      var crossroad := IsCrossroad(sp);
      if crossroad {
        PushCrossroad(w, route);
      }
      return Success(sp);
    }

    /** pick_direction followed by update_crossroad, which runs only after a forward step. */
    method Advance(ghost s: Walker, route: Route, sp: SurroundingPheromone, rand: real, stochastic: bool) returns (r: Result<Route, WalkError>)
      requires Valid() && State(route) == s
      modifies Repr
      ensures Valid()
      ensures Repr == old(Repr)
      ensures |crossroads| <= |old(crossroads)| && forall i :: 0 <= i < |crossroads| ==> crossroads[i] == old(crossroads)[i]
      ensures var p := Pick(sp, s, rand, stochastic);
        (r.Failure? <==> p.Failure?) &&
        (r.Failure? ==> r.error == p.error) &&
        (r.Success? && p.value.Stepped? ==> State(r.value) == p.value.w.(marks := Bump(p.value.w.marks))) &&
        (r.Success? && p.value.Backtracked? ==> State(r.value) == p.value.w)
    {
      var picked := PickDirection(s, route, sp, rand, stochastic);
      if picked.Failure? {
        return Failure(picked.error);
      }
      if picked.value.1 {
        assert forall i :: 0 <= i < |crossroads| ==> crossroads[i] in old(crossroads);
        UpdateCrossroad();
      }
      return Success(picked.value.0);
    }

    /** One iteration of the find_route loop on the route built so far. */
    method Iteration(ghost s: Walker, route: Route, rand: real, stochastic: bool) returns (r: Result<Route, WalkError>)
      requires Valid() && State(route) == s
      modifies Repr
      ensures Valid()
      ensures fresh(Repr - old(Repr))
      ensures var it := Iterate(field, s, rand, stochastic);
        (r.Failure? <==> it.Failure?) &&
        (r.Failure? ==> r.error == it.error) &&
        (r.Success? ==> State(r.value) == it.value)
    {
      IterateByParts(field, s, rand, stochastic);
      var entered := EnterCell(s, route);
      if entered.Failure? {
        return Failure(entered.error);
      }
      r := Advance(Enter(field, s).value.0, route, entered.value, rand, stochastic);
    }

    /** One iteration as a step of Run: away from end with draw k left, Run continues from the new state on the later draws. */
    method RunIteration(ghost s: Walker, draws: seq<real>, k: nat, route: Route, stochastic: bool, ghost goal: Result<Route, WalkError>)
      returns (r: Result<Route, WalkError>)
      requires Valid() && State(route) == s && s.position != end && k < |draws|
      requires Run(field, end, s, draws[k..], stochastic, false) == goal
      modifies Repr
      ensures Valid()
      ensures fresh(Repr - old(Repr))
      ensures r.Failure? ==> goal == Failure(r.error)
      ensures r.Success? ==> Run(field, end, State(r.value), draws[k + 1..], stochastic, false) == goal
    {
      RunUnfold(field, end, s, draws[k..], stochastic);
      assert draws[k..][1..] == draws[k + 1..];
      r := Iteration(s, route, draws[k], stochastic);
    }

    /**
     * find_route: until the ant stands on its end, mark the cell visited, push it as
     * a crossroad when more than one way is possible, pick a direction and, after a
     * forward step, count it on the top crossroad. Iteration k uses draws[k]; the walk
     * fails when the draws run out. The result is the walk Run defines from the
     * state the ant starts in.
     */
    method FindRoute(draws: seq<real>, stochastic: bool) returns (r: Result<Route, WalkError>)
      requires Valid()
      modifies Repr
      ensures r == Run(field, end, old(State([])), draws, stochastic, false)
    {
      ghost var goal := Run(field, end, State([]), draws, stochastic, false);
      ghost var w := State([]);
      var route: Route := [];
      var k := 0;
      while currentPosition != end
        invariant 0 <= k <= |draws|
        invariant Valid()
        invariant fresh(Repr - old(Repr))
        invariant State(route) == w
        invariant Run(field, end, w, draws[k..], stochastic, false) == goal
        decreases |draws| - k
      {
        if k == |draws| {
          RunOutOfDraws(field, end, w, draws[k..], stochastic);
          return Failure(OutOfDraws);
        }
        var next := RunIteration(w, draws, k, route, stochastic, goal);
        if next.Failure? {
          return Failure(next.error);
        }
        route := next.value;
        w := State(route);
        k := k + 1;
      }
      RunAtEnd(field, end, w, draws[k..], stochastic);
      return Success(route);
    }
  }
}
