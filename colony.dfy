/**
 * The ant colony optimisation driver: generations of ants walk the maze, the field
 * evaporates and takes their deposits, and the colony keeps the best route found.
 */
module Colony {
  import opened Primitives
  import opened Walking
  import opened Mazes
  import opened Ants

  /** Why a generation stops with an exception. */
  datatype ColonyError =
    | NoRoutes           // find_shortest on an empty generation
    | EmptyRoute         // depositing a route of length 0 divides by zero
    | AntFailed(e: WalkError)

  /** A route size or the initial infinity. */
  datatype Size = Infinity | Finite(n: nat)

  /** Whether size n is strictly below s (every size is below infinity). */
  predicate Below(n: nat, s: Size) {
    s.Infinity? || n < s.n
  }

  /**
   * The route find_shortest returns: scanning from the first route, a route replaces
   * the current one unless the current one is strictly shorter, so the result is the
   * last of the shortest routes. Route.shorter_than is taken to compare sizes.
   */
  function LastShortest(routes: seq<Route>): (s: Route)
    requires routes != []
    ensures s in routes
  {
    if |routes| == 1 then routes[0]
    else
      var s := LastShortest(routes[..|routes| - 1]);
      if |routes[|routes| - 1]| <= |s| then routes[|routes| - 1] else s
  }

  /** LastShortest is no longer than any route, and every route after it is strictly longer. */
  lemma {:induction false} LastShortestIsLastMinimum(routes: seq<Route>)
    requires routes != []
    ensures forall j :: 0 <= j < |routes| ==> |LastShortest(routes)| <= |routes[j]|
    ensures exists i ::
      0 <= i < |routes| && routes[i] == LastShortest(routes) &&
      forall j :: i < j < |routes| ==> |routes[j]| > |LastShortest(routes)|
  {
    if |routes| > 1 {
      var front := routes[..|routes| - 1];
      LastShortestIsLastMinimum(front);
      var i :| 0 <= i < |front| && front[i] == LastShortest(front) &&
        forall j :: i < j < |front| ==> |front[j]| > |LastShortest(front)|;
      var last := |routes| - 1;
      if |routes[last]| <= |LastShortest(front)| {
        assert routes[last] == LastShortest(routes);
      } else {
        assert routes[i] == LastShortest(routes);
        assert forall j :: i < j < |routes| ==> |routes[j]| > |LastShortest(routes)| by {
          assert forall j :: i < j < last ==> routes[j] == front[j];
        }
      }
    } else {
      assert routes[0] == LastShortest(routes);
    }
  }

  /** find_shortest: the loop over the routes, failing on an empty list. */
  method FindShortest(routes: seq<Route>) returns (r: Result<Route, ColonyError>)
    ensures r.Failure? <==> routes == []
    ensures r.Failure? ==> r.error == NoRoutes
    ensures r.Success? ==> r.value == LastShortest(routes)
  {
    if routes == [] {
      return Failure(NoRoutes);
    }
    var shortest := routes[0];
    for i := 0 to |routes|
      invariant shortest == if i == 0 then routes[0] else LastShortest(routes[..i])
    {
      var route := routes[i];
      if !(|shortest| < |route|) {
        shortest := route;
      }
      assert routes[..i + 1][..i] == routes[..i];
    }
    assert routes[..|routes|] == routes;
    return Success(shortest);
  }

  /** The sum of the route sizes. */
  function TotalSize(routes: seq<Route>): nat {
    if routes == [] then 0 else TotalSize(routes[..|routes| - 1]) + |routes[|routes| - 1]|
  }

  /** The loop of gen_of_ants that adds up the route sizes. */
  method SumSizes(routes: seq<Route>) returns (sum: nat)
    ensures sum == TotalSize(routes)
  {
    sum := 0;
    for i := 0 to |routes|
      invariant sum == TotalSize(routes[..i])
    {
      assert routes[..i + 1][..i] == routes[..i];
      sum := sum + |routes[i]|;
    }
    assert routes[..|routes|] == routes;
  }

  /** The index of the first smallest entry. */
  function FirstMinIndex(s: seq<nat>): (i: nat)
    requires s != []
    ensures i < |s|
    ensures forall j :: 0 <= j < |s| ==> s[i] <= s[j]
    ensures forall j :: 0 <= j < i ==> s[j] > s[i]
  {
    if |s| == 1 then 0
    else
      var k := FirstMinIndex(s[..|s| - 1]);
      if s[|s| - 1] < s[k] then |s| - 1 else k
  }

  /** Appending an entry moves the first minimum to it exactly when it is strictly smaller. */
  lemma FirstMinIndexAppend(s: seq<nat>, v: nat)
    requires s != []
    ensures FirstMinIndex(s + [v]) == if v < s[FirstMinIndex(s)] then |s| else FirstMinIndex(s)
  {
    assert (s + [v])[..|s|] == s;
  }

  /** One fresh ant on field, from start, finding its route with the given draws. */
  method WalkAnt(field: Field, start: Coordinate, end: Coordinate, draws: seq<real>) returns (r: Result<Route, WalkError>)
    ensures r == Run(field, end, Initial(start), draws, true, false)
  {
    var ant := new Ant(field, start, end);
    r := ant.FindRoute(draws, true);
  }

  /** The draws of entry n, none past the end. */
  function DrawsOf<T>(draws: seq<seq<T>>, n: nat): seq<T> {
    if n < |draws| then draws[n] else []
  }

  /** Route is what ant n of a generation finds: its run on the draws draws[n]. */
  ghost predicate AntWalked(field: Field, start: Coordinate, end: Coordinate, draws: seq<seq<real>>, n: nat, route: Route) {
    Success(route) == Run(field, end, Initial(start), DrawsOf(draws, n), true, false)
  }

  /**
   * The ants of one generation: count fresh ants walk field from start, ant n on the
   * draws draws[n] (none when draws runs short). The first ant that fails stops the
   * generation. Every route found leads to end through cells of the field.
   */
  method CollectRoutes(field: Field, count: nat, start: Coordinate, end: Coordinate, draws: seq<seq<real>>)
    returns (r: Result<seq<Route>, ColonyError>)
    ensures r.Success? ==> |r.value| == count
    ensures r.Success? ==> forall n :: 0 <= n < count ==> AntWalked(field, start, end, draws, n, r.value[n])
    ensures r.Success? ==> forall route :: route in r.value ==> Walk(start, route) == end && RouteInField(field, start, route)
  {
    var routes: seq<Route> := [];
    for n := 0 to count
      invariant |routes| == n
      invariant forall i :: 0 <= i < n ==> AntWalked(field, start, end, draws, i, routes[i])
    {
      var found := WalkAnt(field, start, end, DrawsOf(draws, n));
      if found.Failure? {
        return Failure(AntFailed(found.error));
      }
      assert AntWalked(field, start, end, draws, n, found.value);
      routes := routes + [found.value];
    }
    forall route | route in routes
      ensures Walk(start, route) == end && RouteInField(field, start, route)
    {
      var i :| 0 <= i < |routes| && routes[i] == route;
      FreshAntReachesEnd(field, start, end, DrawsOf(draws, i), true);
    }
    return Success(routes);
  }

  /** in_bounds on the maze is the bounds test of the field the ants read. */
  lemma SnapshotInBounds(maze: Maze, c: Coordinate)
    requires maze.Valid()
    ensures maze.InBounds(c) <==> InField(maze.Snapshot(), c)
  {
  }

  /** A route that stays in a snapshot of the maze's field can be deposited on the maze. */
  lemma SnapshotRouteInBounds(maze: Maze, start: Coordinate, route: Route)
    requires maze.Valid() && RouteInField(maze.Snapshot(), start, route)
    ensures maze.DepositWalkInBounds(start, route)
  {
    var field := maze.Snapshot();
    forall i | 0 <= i < DepositSteps(route)
      ensures maze.InBounds(Walk(start, route[..i]))
    {
      assert InField(field, Walk(start, route[..i]));
    }
  }

  class AntColonyOptimization {
    const maze: Maze
    const antsPerGen: nat
    const generations: nat
    const q: real
    const evaporation: real
    /** A stagnation bound the source stores but never consults. */
    const stoppingCri: int
    var bestRoute: Option<Route>
    var bestRouteSize: Size
    var generationsSinceBest: nat
    var avgPerGens: seq<real>
    var bestPerGens: seq<nat>

    /**
     * The bookkeeping invariant: the best size is the smallest generation best so far
     * (infinity before the first generation), the best route has that size, and the
     * stagnation counter counts the generations after the first one that reached it.
     */
    ghost predicate Valid()
      reads this, maze
    {
      maze.Valid() &&
      |avgPerGens| == |bestPerGens| &&
      if bestPerGens == [] then
        bestRoute == None && bestRouteSize == Infinity && generationsSinceBest == 0
      else
        var k := FirstMinIndex(bestPerGens);
        bestRoute.Some? && bestRouteSize == Finite(bestPerGens[k]) && |bestRoute.value| == bestPerGens[k] &&
        generationsSinceBest == |bestPerGens| - 1 - k
    }

    constructor (maze: Maze, antsPerGen: nat, generations: nat, q: real, evaporation: real, stoppingCri: int)
      requires maze.Valid()
      ensures this.maze == maze && this.antsPerGen == antsPerGen && this.generations == generations
      ensures this.q == q && this.evaporation == evaporation && this.stoppingCri == stoppingCri
      ensures bestRoute == None && bestRouteSize == Infinity && generationsSinceBest == 0
      ensures avgPerGens == [] && bestPerGens == []
      ensures Valid()
    {
      this.maze := maze;
      this.antsPerGen := antsPerGen;
      this.generations := generations;
      this.q := q;
      this.evaporation := evaporation;
      this.stoppingCri := stoppingCri;
      bestRoute := None;
      bestRouteSize := Infinity;
      generationsSinceBest := 0;
      avgPerGens := [];
      bestPerGens := [];
    }

    /** Evaporation once, then the deposit of every route (maze lines of gen_of_ants). */
    method UpdatePheromones(start: Coordinate, routes: seq<Route>) returns (ok: bool)
      requires maze.Valid()
      requires forall route :: route in routes ==> maze.DepositWalkInBounds(start, route)
      modifies maze.pheromones
      ensures ok <==> [] !in routes
      ensures forall x, y, d :: 0 <= x < maze.width && 0 <= y < maze.length ==>
        maze.pheromones[x, y].Get(d) ==
          maze.Evaporated(x, y, old(maze.pheromones[x, y]), evaporation).Get(d) +
          TotalDeposit(start, routes[..NonEmptyPrefix(routes)], q, Coordinate(x, y), d)
    {
      maze.Evaporate(evaporation);
      ok := maze.AddPheromoneRoutes(routes, q, start);
    }

    /**
     * The bookkeeping of gen_of_ants once the generation's shortest route is known:
     * append the mean and the shortest size, then take the new best on a strict
     * improvement or count one more generation without one.
     */
    method RecordGeneration(routes: seq<Route>, shortest: Route)
      requires Valid() && routes != [] && shortest == LastShortest(routes)
      modifies this
      ensures Valid()
      ensures avgPerGens == old(avgPerGens) + [TotalSize(routes) as real / |routes| as real]
      ensures bestPerGens == old(bestPerGens) + [|shortest|]
      ensures Below(|shortest|, old(bestRouteSize)) ==>
        bestRoute == Some(shortest) && bestRouteSize == Finite(|shortest|) && generationsSinceBest == 0
      ensures !Below(|shortest|, old(bestRouteSize)) ==>
        bestRoute == old(bestRoute) && bestRouteSize == old(bestRouteSize) &&
        generationsSinceBest == old(generationsSinceBest) + 1
    {
      var sum := SumSizes(routes);
      if bestPerGens != [] {
        FirstMinIndexAppend(bestPerGens, |shortest|);
      }
      avgPerGens := avgPerGens + [sum as real / |routes| as real];
      bestPerGens := bestPerGens + [|shortest|];
      if Below(|shortest|, bestRouteSize) {
        bestRoute := Some(shortest);
        generationsSinceBest := 0;
        bestRouteSize := Finite(|shortest|);
      } else {
        generationsSinceBest := generationsSinceBest + 1;
      }
    }

    /**
     * gen_of_ants on the routes of one generation: evaporate once, deposit every
     * route, then record the generation's mean and shortest sizes and update the
     * best route on a strict improvement, or count one more generation without one.
     * An empty route or an empty generation stops with an error after the field has
     * been updated as far as the source gets.
     */
    method GenOfAnts(start: Coordinate, routes: seq<Route>) returns (r: Result<seq<Route>, ColonyError>)
      requires Valid()
      requires forall route :: route in routes ==> maze.DepositWalkInBounds(start, route)
      modifies this, maze.pheromones
      ensures Valid()
      ensures forall x, y, d :: 0 <= x < maze.width && 0 <= y < maze.length ==>
        maze.pheromones[x, y].Get(d) ==
          maze.Evaporated(x, y, old(maze.pheromones[x, y]), evaporation).Get(d) +
          TotalDeposit(start, routes[..NonEmptyPrefix(routes)], q, Coordinate(x, y), d)
      ensures r.Failure? <==> routes == [] || [] in routes
      ensures r.Failure? ==> r.error == (if routes == [] then NoRoutes else EmptyRoute)
      ensures r.Failure? ==>
        bestRoute == old(bestRoute) && bestRouteSize == old(bestRouteSize) &&
        generationsSinceBest == old(generationsSinceBest) &&
        avgPerGens == old(avgPerGens) && bestPerGens == old(bestPerGens)
      ensures r.Success? ==>
        var shortest := LastShortest(routes);
        r.value == routes &&
        avgPerGens == old(avgPerGens) + [TotalSize(routes) as real / |routes| as real] &&
        bestPerGens == old(bestPerGens) + [|shortest|] &&
        if Below(|shortest|, old(bestRouteSize)) then
          bestRoute == Some(shortest) && bestRouteSize == Finite(|shortest|) && generationsSinceBest == 0
        else
          bestRoute == old(bestRoute) && bestRouteSize == old(bestRouteSize) &&
          generationsSinceBest == old(generationsSinceBest) + 1
    {
      var deposited := UpdatePheromones(start, routes);
      if !deposited {
        return Failure(EmptyRoute);
      }
      var found := FindShortest(routes);
      if found.Failure? {
        return Failure(NoRoutes);
      }
      RecordGeneration(routes, found.value);
      return Success(routes);
    }

    /**
     * find_shortest_route: exactly `generations` generations (the stagnation stop is
     * commented out in the source), generation g on the draws draws[g]; the result is
     * the best route. Every generation adds one entry to each history list.
     */
    method FindShortestRoute(start: Coordinate, end: Coordinate, draws: seq<seq<seq<real>>>) returns (r: Result<Option<Route>, ColonyError>)
      requires Valid()
      modifies this, maze.pheromones
      ensures Valid()
      ensures r.Success? ==> r == Success(bestRoute)
      ensures r.Success? ==> |bestPerGens| == |old(bestPerGens)| + generations
      ensures r.Success? && generations > 0 ==> bestRoute.Some?
      ensures r.Success? && bestRoute != old(bestRoute) ==> bestRoute.Some? && Walk(start, bestRoute.value) == end
    {
      for g := 0 to generations
        invariant Valid()
        invariant |bestPerGens| == |old(bestPerGens)| + g
        invariant g > 0 ==> bestRoute.Some?
        invariant bestRoute != old(bestRoute) ==> bestRoute.Some? && Walk(start, bestRoute.value) == end
      {
        var routes := CollectRoutes(maze.Snapshot(), antsPerGen, start, end, DrawsOf(draws, g));
        if routes.Failure? {
          return Failure(routes.error);
        }
        forall route | route in routes.value
          ensures maze.DepositWalkInBounds(start, route)
        {
          SnapshotRouteInBounds(maze, start, route);
        }
        var generation := GenOfAnts(start, routes.value);
        if generation.Failure? {
          return Failure(generation.error);
        }
      }
      return Success(bestRoute);
    }
  }
}
