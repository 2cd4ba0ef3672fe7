/**
 * The ant's walk as values: the direction choice of roulette_wheel, the possible
 * directions of a cell, one iteration of the find_route loop and the whole loop.
 * The Ant class in module Ants runs the same steps on its fields and is proved
 * to compute Run.
 */
module Walking {
  import opened Primitives

  /** The pheromone field an ant reads, indexed field[x][y]. */
  type Field = seq<seq<SurroundingPheromone>>

  predicate InField(f: Field, c: Coordinate) {
    0 <= c.x < |f| && 0 <= c.y < |f[c.x]|
  }

  /** The sum of the first k weights. */
  function Cumulative(p: seq<real>, k: nat): real
    requires k <= |p|
  {
    if k == 0 then 0.0 else Cumulative(p, k - 1) + p[k - 1]
  }

  /**
   * The cumulative-threshold choice over the order East, North, West, South: the
   * first direction whose running weight sum exceeds rand, and South when none does.
   */
  function RouletteWheel(p: seq<real>, rand: real): (d: Direction)
    requires |p| == 4
    ensures DirToInt(d) < 3 ==> rand < Cumulative(p, DirToInt(d) + 1)
    ensures forall j :: 1 <= j <= DirToInt(d) ==> rand >= Cumulative(p, j)
  {
    assert Cumulative(p, 2) == p[0] + p[1] by { assert Cumulative(p, 1) == p[0]; }
    assert Cumulative(p, 3) == p[0] + p[1] + p[2];
    var sum := p[0];
    if rand < sum then East
    else
      var sum := sum + p[1];
      if rand < sum then North
      else
        var sum := sum + p[2];
        if rand < sum then West
        else South
  }

  /** A draw below the total weight always lands on a direction of positive weight. */
  lemma RoulettePicksPositive(p: seq<real>, rand: real)
    requires |p| == 4
    requires 0.0 <= rand < Cumulative(p, 4)
    ensures p[DirToInt(RouletteWheel(p, rand))] > 0.0
  {
    var i := DirToInt(RouletteWheel(p, rand));
    if i == 3 {
      assert rand >= Cumulative(p, 3);
    } else if i > 0 {
      assert rand >= Cumulative(p, i);
    }
  }

  /**
   * With non-negative weights, a draw at or above the sum of the first three weights
   * falls through to South, whatever South's own weight (even 0).
   */
  lemma RouletteSouthFallback(p: seq<real>, rand: real)
    requires |p| == 4 && forall i :: 0 <= i < 4 ==> p[i] >= 0.0
    requires rand >= Cumulative(p, 3)
    ensures RouletteWheel(p, rand) == South
  {
    assert Cumulative(p, 1) <= Cumulative(p, 2) <= Cumulative(p, 3);
  }

  /** Whether the ant at position may move in direction d: a non-zero entry towards an unvisited cell. */
  predicate IsPossible(sp: SurroundingPheromone, position: Coordinate, tabu: seq<Coordinate>, d: Direction) {
    sp.Get(d) != 0.0 && position.AddDirection(d) !in tabu
  }

  /** The possible directions of a cell, in the order north, south, east, west. */
  function PossibleDirections(sp: SurroundingPheromone, position: Coordinate, tabu: seq<Coordinate>): seq<Direction> {
    (if IsPossible(sp, position, tabu, North) then [North] else []) +
    (if IsPossible(sp, position, tabu, South) then [South] else []) +
    (if IsPossible(sp, position, tabu, East) then [East] else []) +
    (if IsPossible(sp, position, tabu, West) then [West] else [])
  }

  /** The possible directions are exactly the directions allowed by IsPossible, each listed once. */
  lemma PossibleDirectionsAreThePossible(sp: SurroundingPheromone, position: Coordinate, tabu: seq<Coordinate>)
    ensures forall d :: d in PossibleDirections(sp, position, tabu) <==> IsPossible(sp, position, tabu, d)
    ensures var dirs := PossibleDirections(sp, position, tabu);
      forall i, j :: 0 <= i < j < |dirs| ==> dirs[i] != dirs[j]
  {
  }

  /** A cell is a crossroad when more than one direction is possible. */
  predicate IsCrossroad(sp: SurroundingPheromone, position: Coordinate, tabu: seq<Coordinate>) {
    |PossibleDirections(sp, position, tabu)| > 1
  }

  /** A crossroad is exactly a cell with two different possible directions. */
  lemma CrossroadIffTwoPossible(sp: SurroundingPheromone, position: Coordinate, tabu: seq<Coordinate>)
    ensures IsCrossroad(sp, position, tabu) <==>
            exists d, e :: d != e && IsPossible(sp, position, tabu, d) && IsPossible(sp, position, tabu, e)
  {
    var dirs := PossibleDirections(sp, position, tabu);
    PossibleDirectionsAreThePossible(sp, position, tabu);
    if IsCrossroad(sp, position, tabu) {
      assert dirs[0] != dirs[1] && dirs[0] in dirs && dirs[1] in dirs;
    } else {
      forall d, e | IsPossible(sp, position, tabu, d) && IsPossible(sp, position, tabu, e)
        ensures d == e
      {
        assert d in dirs && e in dirs;
      }
    }
  }

  /**
   * The weights of pick_direction, indexed East, North, West, South: a possible
   * direction gets its entry divided by the number of possible directions, every
   * other index gets 0. They are not normalised to sum to 1.
   */
  function Probabilities(sp: SurroundingPheromone, dirs: seq<Direction>): (p: seq<real>)
    ensures |p| == 4
    ensures forall d :: p[DirToInt(d)] == if d in dirs then sp.Get(d) / (|dirs| as real) else 0.0
  {
    seq(4, i requires 0 <= i < 4 =>
      var d := IntToDir(i);
      if d in dirs then sp.Get(d) / (|dirs| as real) else 0.0)
  }

  /** The weights listed in index order. */
  lemma ProbabilitiesInOrder(sp: SurroundingPheromone, dirs: seq<Direction>)
    ensures var n := |dirs| as real;
      Probabilities(sp, dirs) ==
        [if East in dirs then sp.Get(East) / n else 0.0, if North in dirs then sp.Get(North) / n else 0.0,
         if West in dirs then sp.Get(West) / n else 0.0, if South in dirs then sp.Get(South) / n else 0.0]
  {
    assert DirToInt(East) == 0 && DirToInt(North) == 1 && DirToInt(West) == 2 && DirToInt(South) == 3;
  }

  /** With non-negative entries, a weight is positive exactly for a possible direction. */
  lemma PositiveWeightIffPossible(sp: SurroundingPheromone, position: Coordinate, tabu: seq<Coordinate>, d: Direction)
    requires forall e :: sp.Get(e) >= 0.0
    ensures var p := Probabilities(sp, PossibleDirections(sp, position, tabu));
            p[DirToInt(d)] > 0.0 <==> IsPossible(sp, position, tabu, d)
  {
    var dirs := PossibleDirections(sp, position, tabu);
    PossibleDirectionsAreThePossible(sp, position, tabu);
    if d in dirs {
      assert |dirs| > 0;
      assert sp.Get(d) > 0.0;
    }
  }

  /**
   * With non-negative entries and a draw below the total weight, the stochastic
   * choice is a possible direction.
   */
  lemma StochasticChoiceIsPossible(sp: SurroundingPheromone, position: Coordinate, tabu: seq<Coordinate>, rand: real)
    requires forall e :: sp.Get(e) >= 0.0
    requires 0.0 <= rand < Cumulative(Probabilities(sp, PossibleDirections(sp, position, tabu)), 4)
    ensures IsPossible(sp, position, tabu, RouletteWheel(Probabilities(sp, PossibleDirections(sp, position, tabu)), rand))
  {
    var p := Probabilities(sp, PossibleDirections(sp, position, tabu));
    RoulettePicksPositive(p, rand);
    PositiveWeightIffPossible(sp, position, tabu, RouletteWheel(p, rand));
  }

  /** The index of the first maximal weight (list.index(max(list))). */
  function FirstMaxIndex(p: seq<real>): (i: nat)
    requires |p| > 0
    ensures i < |p|
    ensures forall j :: 0 <= j < |p| ==> p[j] <= p[i]
    ensures forall j :: 0 <= j < i ==> p[j] < p[i]
  {
    if |p| == 1 then 0
    else
      var k := FirstMaxIndex(p[..|p| - 1]);
      if p[|p| - 1] > p[k] then |p| - 1 else k
  }

  /** With non-negative entries, the greedy choice is a possible direction. */
  lemma GreedyChoiceIsPossible(sp: SurroundingPheromone, position: Coordinate, tabu: seq<Coordinate>)
    requires forall e :: sp.Get(e) >= 0.0
    requires PossibleDirections(sp, position, tabu) != []
    ensures IsPossible(sp, position, tabu, Choose(sp, PossibleDirections(sp, position, tabu), 0.0, false))
  {
    var dirs := PossibleDirections(sp, position, tabu);
    var p := Probabilities(sp, dirs);
    var i := FirstMaxIndex(p);
    PositiveWeightIffPossible(sp, position, tabu, dirs[0]);
    assert p[DirToInt(dirs[0])] <= p[i];
    PositiveWeightIffPossible(sp, position, tabu, IntToDir(i));
  }

  /** A crossroad on the backtracking stack, as a value. */
  datatype Mark = Mark(position: Coordinate, steps: nat)

  /** The state of one ant: position, visited cells, crossroad stack (top last) and route. */
  datatype Walker = Walker(position: Coordinate, tabu: seq<Coordinate>, marks: seq<Mark>, route: Route)

  /** Why a walk stops without reaching the end. */
  datatype WalkError =
    | DeadEnd        // a dead end with no crossroad to return to
    | OutsideMaze    // the ant stands on a cell outside the field
    | RouteUnderflow // backtracking pops more steps than the route holds
    | OutOfDraws     // the random draws given to the walk are used up

  /** The outcome of pick_direction: a forward step, or a return to the last crossroad. */
  datatype Picked = Stepped(w: Walker) | Backtracked(w: Walker)

  /** The direction the ant takes from a cell with possible directions dirs. */
  function Choose(sp: SurroundingPheromone, dirs: seq<Direction>, rand: real, stochastic: bool): Direction
    requires dirs != []
  {
    var p := Probabilities(sp, dirs);
    if stochastic then RouletteWheel(p, rand) else IntToDir(FirstMaxIndex(p))
  }

  /**
   * pick_direction: at a dead end, pop the top crossroad, jump to it and remove its
   * step count from the end of the route; otherwise move one cell in the chosen
   * direction and append it to the route.
   */
  function Pick(sp: SurroundingPheromone, s: Walker, rand: real, stochastic: bool): (r: Result<Picked, WalkError>)
    ensures r == Failure(DeadEnd) <==> PossibleDirections(sp, s.position, s.tabu) == [] && s.marks == []
    ensures r == Failure(RouteUnderflow) <==>
      PossibleDirections(sp, s.position, s.tabu) == [] && s.marks != [] && s.marks[|s.marks| - 1].steps > |s.route|
    ensures r.Success? && r.value.Stepped? ==>
      var dirs := PossibleDirections(sp, s.position, s.tabu);
      dirs != [] && |r.value.w.route| == |s.route| + 1 &&
      var d := r.value.w.route[|s.route|];
      d == Choose(sp, dirs, rand, stochastic) &&
      r.value.w == s.(position := s.position.AddDirection(d), route := s.route + [d])
    ensures r.Success? && r.value.Backtracked? ==>
      s.marks != [] &&
      var top := s.marks[|s.marks| - 1];
      PossibleDirections(sp, s.position, s.tabu) == [] && top.steps <= |s.route| &&
      r.value.w == s.(position := top.position, marks := s.marks[..|s.marks| - 1], route := s.route[..|s.route| - top.steps])
  {
    var dirs := PossibleDirections(sp, s.position, s.tabu);
    if dirs == [] then
      if s.marks == [] then Failure(DeadEnd)
      else
        var top := s.marks[|s.marks| - 1];
        if top.steps > |s.route| then Failure(RouteUnderflow)
        else Success(Backtracked(s.(position := top.position, marks := s.marks[..|s.marks| - 1], route := s.route[..|s.route| - top.steps])))
    else
      var d := Choose(sp, dirs, rand, stochastic);
      Success(Stepped(s.(position := s.position.AddDirection(d), route := s.route + [d])))
  }

  /** update_crossroad: one more step on the top crossroad; every other crossroad is unchanged. */
  function Bump(marks: seq<Mark>): (r: seq<Mark>)
    ensures |r| == |marks|
    ensures marks != [] ==>
      r[..|r| - 1] == marks[..|marks| - 1] &&
      r[|r| - 1] == Mark(marks[|marks| - 1].position, marks[|marks| - 1].steps + 1)
  {
    if marks == [] then []
    else marks[..|marks| - 1] + [Mark(marks[|marks| - 1].position, marks[|marks| - 1].steps + 1)]
  }

  /**
   * The part of a find_route iteration before pick_direction: mark the cell visited,
   * read its entries and push a crossroad when more than one direction is possible.
   */
  function Enter(f: Field, s: Walker): (r: Result<(Walker, SurroundingPheromone), WalkError>)
    ensures r.Failure? <==> !InField(f, s.position)
    ensures r.Success? ==>
      var (w, sp) := r.value;
      sp == f[s.position.x][s.position.y] &&
      w.position == s.position && w.route == s.route && w.tabu == s.tabu + [s.position] &&
      w.marks == if IsCrossroad(sp, s.position, w.tabu) then s.marks + [Mark(s.position, 0)] else s.marks
  {
    if !InField(f, s.position) then Failure(OutsideMaze)
    else
      var sp := f[s.position.x][s.position.y];
      var w := s.(tabu := s.tabu + [s.position]);
      if IsCrossroad(sp, w.position, w.tabu) then Success((w.(marks := w.marks + [Mark(w.position, 0)]), sp))
      else Success((w, sp))
  }

  /**
   * One iteration of the find_route loop as the source runs it: update_crossroad
   * runs after pick_direction whichever way it went, so after a backtrack it counts
   * a step the ant never took on the crossroad below the one it returned to.
   */
  function IterateAsWritten(f: Field, s: Walker, rand: real, stochastic: bool): Result<Walker, WalkError> {
    match Enter(f, s)
    case Failure(e) => Failure(e)
    case Success((w, sp)) =>
      match Pick(sp, w, rand, stochastic)
      case Failure(e) => Failure(e)
      case Success(picked) => Success(picked.w.(marks := Bump(picked.w.marks)))
  }

  /**
   * One iteration of the find_route loop with the top crossroad's count raised only
   * after a forward step, so that it always counts the steps taken since that crossroad.
   */
  function Iterate(f: Field, s: Walker, rand: real, stochastic: bool): Result<Walker, WalkError> {
    match Enter(f, s)
    case Failure(e) => Failure(e)
    case Success((w, sp)) =>
      match Pick(sp, w, rand, stochastic)
      case Failure(e) => Failure(e)
      case Success(Stepped(v)) => Success(v.(marks := Bump(v.marks)))
      case Success(Backtracked(v)) => Success(v)
  }

  /** Iterate in terms of its two parts, for callers that run them one at a time. */
  lemma IterateByParts(f: Field, s: Walker, rand: real, stochastic: bool)
    ensures Enter(f, s).Failure? ==> Iterate(f, s, rand, stochastic) == Failure(Enter(f, s).error)
    ensures Enter(f, s).Success? ==>
      var p := Pick(Enter(f, s).value.1, Enter(f, s).value.0, rand, stochastic);
      Iterate(f, s, rand, stochastic) ==
        if p.Failure? then Failure(p.error)
        else if p.value.Stepped? then Success(p.value.w.(marks := Bump(p.value.w.marks)))
        else Success(p.value.w)
  {
  }

  /**
   * The find_route loop: iterate until the ant stands on end, one draw per iteration
   * (a backtracking iteration leaves its draw unused). With asWritten the source's
   * IterateAsWritten is used, otherwise Iterate.
   */
  function Run(f: Field, end: Coordinate, s: Walker, draws: seq<real>, stochastic: bool, asWritten: bool): Result<Route, WalkError>
    decreases |draws|
  {
    if s.position == end then Success(s.route)
    else if draws == [] then Failure(OutOfDraws)
    else
      var next := if asWritten then IterateAsWritten(f, s, draws[0], stochastic) else Iterate(f, s, draws[0], stochastic);
      match next
      case Failure(e) => Failure(e)
      case Success(w) => Run(f, end, w, draws[1..], stochastic, asWritten)
  }

  /** A walker standing on end has arrived: Run returns its route. */
  lemma RunAtEnd(f: Field, end: Coordinate, s: Walker, draws: seq<real>, stochastic: bool)
    requires s.position == end
    ensures Run(f, end, s, draws, stochastic, false) == Success(s.route)
  {
  }

  /** Away from end with no draw left, Run fails. */
  lemma RunOutOfDraws(f: Field, end: Coordinate, s: Walker, draws: seq<real>, stochastic: bool)
    requires s.position != end && draws == []
    ensures Run(f, end, s, draws, stochastic, false) == Failure(OutOfDraws)
  {
  }

  /** Away from end and with a draw left, Run is one corrected iteration followed by Run on the rest. */
  lemma RunUnfold(f: Field, end: Coordinate, s: Walker, draws: seq<real>, stochastic: bool)
    requires s.position != end && draws != []
    ensures Iterate(f, s, draws[0], stochastic).Failure? ==>
      Run(f, end, s, draws, stochastic, false) == Failure(Iterate(f, s, draws[0], stochastic).error)
    ensures Iterate(f, s, draws[0], stochastic).Success? ==>
      Run(f, end, s, draws, stochastic, false) == Run(f, end, Iterate(f, s, draws[0], stochastic).value, draws[1..], stochastic, false)
  {
  }

  /**
   * Every crossroad on the stack counts exactly the steps of the route taken since
   * the ant left it (up to the next crossroad above it): removing that many steps
   * from the end of the route leads back to its cell.
   */
  ghost predicate MarksConsistent(start: Coordinate, route: Route, marks: seq<Mark>)
    decreases |marks|
  {
    marks == [] ||
    var top := marks[|marks| - 1];
    top.steps <= |route| &&
    top.position == Walk(start, route[..|route| - top.steps]) &&
    MarksConsistent(start, route[..|route| - top.steps], marks[..|marks| - 1])
  }

  /** Every cell the route passes through before its last step lies in the field. */
  ghost predicate RouteInField(f: Field, start: Coordinate, route: Route) {
    forall i :: 0 <= i < |route| ==> InField(f, Walk(start, route[..i]))
  }

  /** The invariant of the walk from start: the ant stands where its route leads. */
  ghost predicate Inv(f: Field, start: Coordinate, s: Walker) {
    s.position == Walk(start, s.route) && MarksConsistent(start, s.route, s.marks) && RouteInField(f, start, s.route)
  }

  /** The state of a fresh ant at start. */
  function Initial(start: Coordinate): Walker {
    Walker(start, [], [], [])
  }

  lemma InitialInv(f: Field, start: Coordinate)
    ensures Inv(f, start, Initial(start))
  {
  }

  /** A forward step keeps the stack consistent once the top crossroad counts it. */
  lemma StepKeepsMarks(start: Coordinate, route: Route, marks: seq<Mark>, d: Direction)
    requires MarksConsistent(start, route, marks)
    ensures MarksConsistent(start, route + [d], Bump(marks))
  {
    if marks != [] {
      var top := marks[|marks| - 1];
      assert (route + [d])[..|route| + 1 - (top.steps + 1)] == route[..|route| - top.steps];
      assert Bump(marks)[..|marks| - 1] == marks[..|marks| - 1];
    }
  }

  /** Pushing the current cell as a crossroad with count 0 keeps the stack consistent. */
  lemma PushKeepsMarks(start: Coordinate, route: Route, marks: seq<Mark>)
    requires MarksConsistent(start, route, marks)
    ensures MarksConsistent(start, route, marks + [Mark(Walk(start, route), 0)])
  {
    assert route[..|route| - 0] == route;
    assert (marks + [Mark(Walk(start, route), 0)])[..|marks|] == marks;
  }

  /** Entering the cell where the route leads keeps the invariant. */
  lemma EnterKeepsInv(f: Field, start: Coordinate, s: Walker)
    requires Inv(f, start, s) && InField(f, s.position)
    ensures Inv(f, start, Enter(f, s).value.0)
  {
    var (w, sp) := Enter(f, s).value;
    if IsCrossroad(sp, s.position, w.tabu) {
      PushKeepsMarks(start, s.route, s.marks);
    }
  }

  /** A step from a cell of the field keeps every earlier cell of the route in the field. */
  lemma StepKeepsRouteInField(f: Field, start: Coordinate, route: Route, d: Direction)
    requires RouteInField(f, start, route) && InField(f, Walk(start, route))
    ensures RouteInField(f, start, route + [d])
  {
    forall i | 0 <= i < |route| + 1
      ensures InField(f, Walk(start, (route + [d])[..i]))
    {
      if i < |route| {
        assert (route + [d])[..i] == route[..i];
      } else {
        assert (route + [d])[..i] == route;
      }
    }
  }

  /** Cutting steps off the end of the route keeps the rest of it in the field. */
  lemma PrefixKeepsRouteInField(f: Field, start: Coordinate, route: Route, n: nat)
    requires RouteInField(f, start, route) && n <= |route|
    ensures RouteInField(f, start, route[..n])
  {
    forall i | 0 <= i < n
      ensures InField(f, Walk(start, route[..n][..i]))
    {
      assert route[..n][..i] == route[..i];
    }
  }

  /** A forward step from a cell of the field, counted on the top crossroad, keeps the invariant. */
  lemma StepKeepsInv(f: Field, start: Coordinate, w: Walker, d: Direction)
    requires Inv(f, start, w) && InField(f, w.position)
    ensures Inv(f, start, Walker(w.position.AddDirection(d), w.tabu, Bump(w.marks), w.route + [d]))
  {
    StepKeepsMarks(start, w.route, w.marks, d);
    StepKeepsRouteInField(f, start, w.route, d);
    WalkAppend(start, w.route, d);
  }

  /** Under the invariant a backtrack to the top crossroad fits in the route and keeps the invariant. */
  lemma BackKeepsInv(f: Field, start: Coordinate, w: Walker)
    requires Inv(f, start, w) && w.marks != []
    ensures var top := w.marks[|w.marks| - 1];
      top.steps <= |w.route| &&
      Inv(f, start, Walker(top.position, w.tabu, w.marks[..|w.marks| - 1], w.route[..|w.route| - top.steps]))
  {
    var top := w.marks[|w.marks| - 1];
    PrefixKeepsRouteInField(f, start, w.route, |w.route| - top.steps);
  }

  /**
   * Iterate keeps the invariant, and under it no backtrack ever pops more steps than
   * the route holds.
   */
  lemma IterateKeepsInv(f: Field, start: Coordinate, s: Walker, rand: real, stochastic: bool)
    requires Inv(f, start, s)
    ensures Iterate(f, s, rand, stochastic) != Failure(RouteUnderflow)
    ensures Iterate(f, s, rand, stochastic).Success? ==> Inv(f, start, Iterate(f, s, rand, stochastic).value)
  {
    IterateByParts(f, s, rand, stochastic);
    if InField(f, s.position) {
      EnterKeepsInv(f, start, s);
      var (w, sp) := Enter(f, s).value;
      var picked := Pick(sp, w, rand, stochastic);
      if picked.Success? && picked.value.Stepped? {
        StepKeepsInv(f, start, w, picked.value.w.route[|w.route|]);
      } else if w.marks != [] {
        BackKeepsInv(f, start, w);
      }
    }
  }

  /**
   * find_route returns only when the ant stands on the end: a successful walk from a
   * state satisfying the invariant gives a route that leads from start to end and
   * crosses only cells of the field, and it never fails by popping an empty route.
   */
  lemma {:induction false} RunReachesEnd(f: Field, start: Coordinate, end: Coordinate, s: Walker, draws: seq<real>, stochastic: bool)
    requires Inv(f, start, s)
    ensures Run(f, end, s, draws, stochastic, false) != Failure(RouteUnderflow)
    ensures Run(f, end, s, draws, stochastic, false).Success? ==>
      var route := Run(f, end, s, draws, stochastic, false).value;
      Walk(start, route) == end && RouteInField(f, start, route)
    decreases |draws|
  {
    if s.position != end && draws != [] {
      IterateKeepsInv(f, start, s, draws[0], stochastic);
      var next := Iterate(f, s, draws[0], stochastic);
      if next.Success? {
        RunReachesEnd(f, start, end, next.value, draws[1..], stochastic);
      }
    }
  }

  /** A fresh ant's successful walk leads from its start to its end through cells of the field. */
  lemma FreshAntReachesEnd(f: Field, start: Coordinate, end: Coordinate, draws: seq<real>, stochastic: bool)
    ensures Run(f, end, Initial(start), draws, stochastic, false) != Failure(RouteUnderflow)
    ensures Run(f, end, Initial(start), draws, stochastic, false).Success? ==>
      var route := Run(f, end, Initial(start), draws, stochastic, false).value;
      Walk(start, route) == end && RouteInField(f, start, route)
  {
    InitialInv(f, start);
    RunReachesEnd(f, start, end, Initial(start), draws, stochastic);
  }

  /**
   * A 3 x 3 field whose possible moves form a small tree: from the start (1, 1) the
   * ant can go north to (1, 0) or south to the end (1, 2); from (1, 0) it can go
   * west to (0, 0) or east to (2, 0), both dead ends.
   */
  function TreeField(): Field {
    var z := Closed;
    [[SurroundingPheromone(0.0, 1.0, 0.0, 0.0), z, z],
     [SurroundingPheromone(0.0, 1.0, 1.0, 1.0), SurroundingPheromone(1.0, 0.0, 1.0, 0.0), SurroundingPheromone(1.0, 0.0, 0.0, 0.0)],
     [SurroundingPheromone(0.0, 0.0, 0.0, 1.0), z, z]]
  }

  /** The cells of TreeField that a walk from (1, 1) reads; the other cells may hold anything. */
  predicate IsTreeField(f: Field) {
    |f| == 3 && |f[0]| == 3 && |f[1]| == 3 && |f[2]| == 3 &&
    f[0][0] == SurroundingPheromone(0.0, 1.0, 0.0, 0.0) &&
    f[1][0] == SurroundingPheromone(0.0, 1.0, 1.0, 1.0) &&
    f[1][1] == SurroundingPheromone(1.0, 0.0, 1.0, 0.0) &&
    f[2][0] == SurroundingPheromone(0.0, 0.0, 0.0, 1.0)
  }

  lemma TreeFieldIsTree()
    ensures IsTreeField(TreeField())
  {
  }

  /** The stack after entering a cell with possible directions dirs. */
  function Entered(s: Walker, dirs: seq<Direction>): seq<Mark> {
    if |dirs| > 1 then s.marks + [Mark(s.position, 0)] else s.marks
  }

  /** An iteration that moves forward, in terms of the cell's possible directions. */
  lemma IterateForward(f: Field, s: Walker, rand: real, stochastic: bool, dirs: seq<Direction>, d: Direction)
    requires InField(f, s.position)
    requires dirs == PossibleDirections(f[s.position.x][s.position.y], s.position, s.tabu + [s.position]) && dirs != []
    requires Choose(f[s.position.x][s.position.y], dirs, rand, stochastic) == d
    ensures var w := Walker(s.position.AddDirection(d), s.tabu + [s.position], Bump(Entered(s, dirs)), s.route + [d]);
      Iterate(f, s, rand, stochastic) == Success(w) && IterateAsWritten(f, s, rand, stochastic) == Success(w)
  {
  }

  /** An iteration that ends in a dead end below a crossroad. */
  lemma IterateBack(f: Field, s: Walker, rand: real, stochastic: bool)
    requires InField(f, s.position)
    requires PossibleDirections(f[s.position.x][s.position.y], s.position, s.tabu + [s.position]) == []
    requires s.marks != [] && s.marks[|s.marks| - 1].steps <= |s.route|
    ensures var top := s.marks[|s.marks| - 1];
      var w := Walker(top.position, s.tabu + [s.position], s.marks[..|s.marks| - 1], s.route[..|s.route| - top.steps]);
      Iterate(f, s, rand, stochastic) == Success(w) && IterateAsWritten(f, s, rand, stochastic) == Success(w.(marks := Bump(w.marks)))
  {
  }

  /** Counting one more step on the top crossroad of a consistent stack makes it inconsistent. */
  lemma BumpBreaksMarks(start: Coordinate, route: Route, marks: seq<Mark>)
    requires MarksConsistent(start, route, marks) && marks != []
    ensures !MarksConsistent(start, route, Bump(marks))
  {
    var top := marks[|marks| - 1];
    if top.steps + 1 <= |route| {
      var prefix := route[..|route| - top.steps];
      var before := route[..|route| - (top.steps + 1)];
      assert prefix[..|prefix| - 1] == before;
      AddDirectionIsOneStep(Walk(start, before), prefix[|prefix| - 1]);
    }
  }

  /**
   * The source's extra count after a backtrack breaks the invariant whenever the ant
   * returns to a crossroad that has another crossroad below it: from any consistent
   * state at a dead end with two or more crossroads on the stack, Iterate keeps the
   * invariant and IterateAsWritten breaks it.
   */
  lemma AsWrittenBacktrackBreaksInv(f: Field, start: Coordinate, s: Walker, rand: real, stochastic: bool)
    requires Inv(f, start, s) && InField(f, s.position) && |s.marks| >= 2
    requires PossibleDirections(f[s.position.x][s.position.y], s.position, s.tabu + [s.position]) == []
    ensures Iterate(f, s, rand, stochastic).Success? && Inv(f, start, Iterate(f, s, rand, stochastic).value)
    ensures IterateAsWritten(f, s, rand, stochastic).Success? && !Inv(f, start, IterateAsWritten(f, s, rand, stochastic).value)
  {
    var top := s.marks[|s.marks| - 1];
    assert top.steps <= |s.route|;
    IterateBack(f, s, rand, stochastic);
    var route := s.route[..|s.route| - top.steps];
    var marks := s.marks[..|s.marks| - 1];
    BackKeepsInv(f, start, s);
    BumpBreaksMarks(start, route, marks);
  }

  /** Bump on a stack of one crossroad. */
  lemma BumpOne(a: Coordinate, n: nat)
    ensures Bump([Mark(a, n)]) == [Mark(a, n + 1)]
  {
    assert [Mark(a, n)][..0] == [];
  }

  /** Bump on a stack of two crossroads. */
  lemma BumpTwo(a: Coordinate, m: nat, b: Coordinate, n: nat)
    ensures Bump([Mark(a, m), Mark(b, n)]) == [Mark(a, m), Mark(b, n + 1)]
  {
    assert [Mark(a, m), Mark(b, n)][..1] == [Mark(a, m)];
  }

  /** At the start of a field shaped like TreeField both north and south are open, and the draw 0.2 goes north. */
  lemma StartChoice(sp: SurroundingPheromone)
    requires sp == SurroundingPheromone(1.0, 0.0, 1.0, 0.0)
    ensures PossibleDirections(sp, Coordinate(1, 1), [Coordinate(1, 1)]) == [North, South]
    ensures Choose(sp, [North, South], 0.2, true) == North
  {
    ProbabilitiesInOrder(sp, [North, South]);
    assert Probabilities(sp, [North, South]) == [0.0, 0.5, 0.0, 0.5];
  }

  /** At (1, 0), coming from the start, east and west are open, and the draw 0.7 goes west. */
  lemma UpperChoice(sp: SurroundingPheromone)
    requires sp == SurroundingPheromone(0.0, 1.0, 1.0, 1.0)
    ensures PossibleDirections(sp, Coordinate(1, 0), [Coordinate(1, 1), Coordinate(1, 0)]) == [East, West]
    ensures Choose(sp, [East, West], 0.7, true) == West
  {
    ProbabilitiesInOrder(sp, [East, West]);
    assert Probabilities(sp, [East, West]) == [0.5, 0.0, 0.5, 0.0];
  }

  /** Back at (1, 0) after the west dead end only east is left, and a draw of 0 takes it. */
  lemma UpperEastChoice(sp: SurroundingPheromone)
    requires sp == SurroundingPheromone(0.0, 1.0, 1.0, 1.0)
    ensures PossibleDirections(sp, Coordinate(1, 0), [Coordinate(1, 1), Coordinate(1, 0), Coordinate(0, 0), Coordinate(1, 0)]) == [East]
    ensures Choose(sp, [East], 0.0, true) == East
  {
    ProbabilitiesInOrder(sp, [East]);
    assert Probabilities(sp, [East]) == [1.0, 0.0, 0.0, 0.0];
  }

  /** Back at the start after both dead ends only south is left, and a draw of 0 takes it. */
  lemma StartSouthChoice(sp: SurroundingPheromone)
    requires sp == SurroundingPheromone(1.0, 0.0, 1.0, 0.0)
    ensures PossibleDirections(sp, Coordinate(1, 1), [Coordinate(1, 1), Coordinate(1, 0), Coordinate(0, 0), Coordinate(1, 0), Coordinate(2, 0), Coordinate(1, 1)]) == [South]
    ensures Choose(sp, [South], 0.0, true) == South
  {
    ProbabilitiesInOrder(sp, [South]);
    assert Probabilities(sp, [South]) == [0.0, 0.0, 0.0, 1.0];
  }

  /** On a field shaped like TreeField, first iteration: the start is a crossroad and the draw 0.2 goes north. */
  lemma TreeStep1(f: Field)
    requires IsTreeField(f)
    ensures Iterate(f, Initial(Coordinate(1, 1)), 0.2, true) == Success(Walker(Coordinate(1, 0), [Coordinate(1, 1)], [Mark(Coordinate(1, 1), 1)], [North]))
    ensures IterateAsWritten(f, Initial(Coordinate(1, 1)), 0.2, true) == Success(Walker(Coordinate(1, 0), [Coordinate(1, 1)], [Mark(Coordinate(1, 1), 1)], [North]))
  {
    var a := Coordinate(1, 1);
    var s := Walker(a, [], [], []);
    assert Initial(a) == s;
    assert s.tabu + [a] == [a] && s.route + [North] == [North];
    var dirs := PossibleDirections(f[1][1], a, [a]);
    StartChoice(f[1][1]);
    assert Entered(s, dirs) == [Mark(a, 0)];
    BumpOne(a, 0);
    assert a.AddDirection(North) == Coordinate(1, 0);
    assert s.position.AddDirection(North) == Coordinate(1, 0);
    assert s.tabu + [s.position] == [Coordinate(1, 1)];
    assert Bump(Entered(s, dirs)) == [Mark(Coordinate(1, 1), 1)];
    assert s.route + [North] == [North];
    assert Walker(s.position.AddDirection(North), s.tabu + [s.position], Bump(Entered(s, dirs)), s.route + [North]) ==
      Walker(Coordinate(1, 0), [Coordinate(1, 1)], [Mark(Coordinate(1, 1), 1)], [North]);
    IterateForward(f, s, 0.2, true, dirs, North);
  }

  /** On a field shaped like TreeField, second iteration: (1, 0) is a crossroad and the draw 0.7 goes west. */
  lemma TreeStep2(f: Field)
    requires IsTreeField(f)
    ensures Iterate(f, Walker(Coordinate(1, 0), [Coordinate(1, 1)], [Mark(Coordinate(1, 1), 1)], [North]), 0.7, true) == Success(Walker(Coordinate(0, 0), [Coordinate(1, 1), Coordinate(1, 0)], [Mark(Coordinate(1, 1), 1), Mark(Coordinate(1, 0), 1)], [North, West]))
    ensures IterateAsWritten(f, Walker(Coordinate(1, 0), [Coordinate(1, 1)], [Mark(Coordinate(1, 1), 1)], [North]), 0.7, true) == Success(Walker(Coordinate(0, 0), [Coordinate(1, 1), Coordinate(1, 0)], [Mark(Coordinate(1, 1), 1), Mark(Coordinate(1, 0), 1)], [North, West]))
  {
    var a, b := Coordinate(1, 1), Coordinate(1, 0);
    assert [a] + [b] == [a, b];
    assert [North] + [West] == [North, West];
    assert [Mark(a, 1)] + [Mark(b, 0)] == [Mark(a, 1), Mark(b, 0)];
    BumpTwo(a, 1, b, 0);
    UpperChoice(f[1][0]);
    IterateForward(f, Walker(Coordinate(1, 0), [Coordinate(1, 1)], [Mark(Coordinate(1, 1), 1)], [North]), 0.7, true, [East, West], West);
  }

  /** On a field shaped like TreeField, third iteration: (0, 0) is a dead end and the ant returns to (1, 0). */
  lemma TreeStep3(f: Field)
    requires IsTreeField(f)
    ensures Iterate(f, Walker(Coordinate(0, 0), [Coordinate(1, 1), Coordinate(1, 0)], [Mark(Coordinate(1, 1), 1), Mark(Coordinate(1, 0), 1)], [North, West]), 0.5, true) == Success(Walker(Coordinate(1, 0), [Coordinate(1, 1), Coordinate(1, 0), Coordinate(0, 0)], [Mark(Coordinate(1, 1), 1)], [North]))
    ensures IterateAsWritten(f, Walker(Coordinate(0, 0), [Coordinate(1, 1), Coordinate(1, 0)], [Mark(Coordinate(1, 1), 1), Mark(Coordinate(1, 0), 1)], [North, West]), 0.5, true) == Success(Walker(Coordinate(1, 0), [Coordinate(1, 1), Coordinate(1, 0), Coordinate(0, 0)], [Mark(Coordinate(1, 1), 2)], [North]))
  {
    var a, b, o := Coordinate(1, 1), Coordinate(1, 0), Coordinate(0, 0);
    assert [a, b] + [o] == [a, b, o];
    assert PossibleDirections(f[0][0], o, [a, b, o]) == [];
    IterateBack(f, Walker(Coordinate(0, 0), [Coordinate(1, 1), Coordinate(1, 0)], [Mark(Coordinate(1, 1), 1), Mark(Coordinate(1, 0), 1)], [North, West]), 0.5, true);
    assert [Mark(a, 1), Mark(b, 1)][..1] == [Mark(a, 1)];
    assert [North, West][..1] == [North];
  }

  /** On a field shaped like TreeField, fourth iteration: from (1, 0) only east is left, for both walks. */
  lemma TreeStep4(f: Field, n: nat)
    requires IsTreeField(f)
    ensures var s := Walker(Coordinate(1, 0), [Coordinate(1, 1), Coordinate(1, 0), Coordinate(0, 0)], [Mark(Coordinate(1, 1), n)], [North]);
      Iterate(f, s, 0.0, true) == IterateAsWritten(f, s, 0.0, true) ==
      Success(Walker(Coordinate(2, 0), [Coordinate(1, 1), Coordinate(1, 0), Coordinate(0, 0), Coordinate(1, 0)], [Mark(Coordinate(1, 1), n + 1)], [North, East]))
  {
    var a, b, o := Coordinate(1, 1), Coordinate(1, 0), Coordinate(0, 0);
    var s := Walker(b, [a, b, o], [Mark(a, n)], [North]);
    assert [a, b, o] + [b] == [a, b, o, b];
    assert [North] + [East] == [North, East];
    BumpOne(a, n);
    UpperEastChoice(f[1][0]);
    IterateForward(f, s, 0.0, true, [East], East);
  }

  /**
   * On a field shaped like TreeField, fifth iteration: (2, 0) is a dead end. The corrected walk returns to
   * the start with an empty route; the source's walk has the start crossroad claim
   * three steps of a two-step route.
   */
  lemma TreeStep5(f: Field)
    requires IsTreeField(f)
    ensures Iterate(f, Walker(Coordinate(2, 0), [Coordinate(1, 1), Coordinate(1, 0), Coordinate(0, 0), Coordinate(1, 0)], [Mark(Coordinate(1, 1), 2)], [North, East]), 0.5, true) == Success(Walker(Coordinate(1, 1), [Coordinate(1, 1), Coordinate(1, 0), Coordinate(0, 0), Coordinate(1, 0), Coordinate(2, 0)], [], []))
    ensures IterateAsWritten(f, Walker(Coordinate(2, 0), [Coordinate(1, 1), Coordinate(1, 0), Coordinate(0, 0), Coordinate(1, 0)], [Mark(Coordinate(1, 1), 3)], [North, East]), 0.5, true) == Failure(RouteUnderflow)
  {
    var a, b, o, c := Coordinate(1, 1), Coordinate(1, 0), Coordinate(0, 0), Coordinate(2, 0);
    assert [a, b, o, b] + [c] == [a, b, o, b, c];
    assert PossibleDirections(f[2][0], c, [a, b, o, b, c]) == [];
    IterateBack(f, Walker(Coordinate(2, 0), [Coordinate(1, 1), Coordinate(1, 0), Coordinate(0, 0), Coordinate(1, 0)], [Mark(Coordinate(1, 1), 2)], [North, East]), 0.5, true);
    assert [North, East][..0] == [];
  }

  /** On a field shaped like TreeField, sixth iteration of the corrected walk: from the start only south is left. */
  lemma TreeStep6(f: Field)
    requires IsTreeField(f)
    ensures Iterate(f, Walker(Coordinate(1, 1), [Coordinate(1, 1), Coordinate(1, 0), Coordinate(0, 0), Coordinate(1, 0), Coordinate(2, 0)], [], []), 0.0, true) == Success(Walker(Coordinate(1, 2), [Coordinate(1, 1), Coordinate(1, 0), Coordinate(0, 0), Coordinate(1, 0), Coordinate(2, 0), Coordinate(1, 1)], [], [South]))
  {
    var a, b, o, c := Coordinate(1, 1), Coordinate(1, 0), Coordinate(0, 0), Coordinate(2, 0);
    assert [a, b, o, b, c] + [a] == [a, b, o, b, c, a];
    assert [] + [South] == [South];
    StartSouthChoice(f[1][1]);
    IterateForward(f, Walker(Coordinate(1, 1), [Coordinate(1, 1), Coordinate(1, 0), Coordinate(0, 0), Coordinate(1, 0), Coordinate(2, 0)], [], []), 0.0, true, [South], South);
  }

  /**
   * On a field shaped like TreeField the source's walk ends by popping more steps than the route holds,
   * while the corrected walk returns to the start and reaches the end going south.
   */
  lemma AsWrittenUnderflows(f: Field)
    requires IsTreeField(f)
    ensures Run(f, Coordinate(1, 2), Initial(Coordinate(1, 1)), [0.2, 0.7, 0.5, 0.0, 0.5, 0.0], true, true) == Failure(RouteUnderflow)
    ensures Run(f, Coordinate(1, 2), Initial(Coordinate(1, 1)), [0.2, 0.7, 0.5, 0.0, 0.5, 0.0], true, false) == Success([South])
  {
    TreeStep1(f);
    TreeStep2(f);
    TreeStep3(f);
    TreeStep4(f, 1);
    TreeStep4(f, 2);
    TreeStep5(f);
    TreeStep6(f);
    var draws := [0.2, 0.7, 0.5, 0.0, 0.5, 0.0];
    assert draws[1..] == [0.7, 0.5, 0.0, 0.5, 0.0];
    assert draws[1..][1..] == [0.5, 0.0, 0.5, 0.0];
    assert draws[1..][1..][1..] == [0.0, 0.5, 0.0];
    assert draws[1..][1..][1..][1..] == [0.5, 0.0];
    assert draws[1..][1..][1..][1..][1..] == [0.0];
    assert draws[1..][1..][1..][1..][1..][1..] == [];
  }
}
