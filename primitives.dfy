/**
 * Minimal stand-ins for the value types the maze, the ant and the colony share:
 * directions, grid coordinates, the four pheromone entries of one cell and routes.
 * Their own source files (Direction, Coordinate, SurroundingPheromone, Route) are
 * not part of this model; only what the shown calls imply is stated here.
 */
module Primitives {

  /** The four grid directions. */
  datatype Direction = East | North | West | South

  /** The fixed integer of a direction, used to index probability lists: E=0, N=1, W=2, S=3. */
  function DirToInt(d: Direction): (i: nat)
    ensures i < 4
    ensures IntToDir(i) == d
  {
    match d
    case East => 0
    case North => 1
    case West => 2
    case South => 3
  }

  /** The direction with a given index (the inverse of DirToInt). */
  function IntToDir(i: nat): Direction
    requires i < 4
  {
    if i == 0 then East else if i == 1 then North else if i == 2 then West else South
  }

  /** A grid position; x grows to the east, y grows to the south. */
  datatype Coordinate = Coordinate(x: int, y: int) {
    /** The neighbouring position one step in direction d. */
    function AddDirection(d: Direction): Coordinate {
      match d
      case North => Coordinate(x, y - 1)
      case East => Coordinate(x + 1, y)
      case South => Coordinate(x, y + 1)
      case West => Coordinate(x - 1, y)
    }
  }

  /** The four directional pheromone entries of one cell. */
  datatype SurroundingPheromone = SurroundingPheromone(north: real, east: real, south: real, west: real) {

    function Get(d: Direction): real {
      match d
      case North => north
      case East => east
      case South => south
      case West => west
    }

    /** The cell with amount added to the entry for d. */
    function Add(d: Direction, amount: real): (r: SurroundingPheromone)
      ensures r.Get(d) == Get(d) + amount
      ensures forall e :: e != d ==> r.Get(e) == Get(e)
    {
      match d
      case North => this.(north := north + amount)
      case East => this.(east := east + amount)
      case South => this.(south := south + amount)
      case West => this.(west := west + amount)
    }

    /** Every entry multiplied by factor. */
    function Scale(factor: real): (r: SurroundingPheromone)
      ensures forall d :: r.Get(d) == Get(d) * factor
    {
      SurroundingPheromone(north * factor, east * factor, south * factor, west * factor)
    }

    /** The sum of the four entries (get_total_surrounding_pheromone). */
    function Total(): real {
      north + east + south + west
    }
  }

  /** The outcome of an operation that the source may abort with an exception. */
  datatype Result<T, E> = Success(value: T) | Failure(error: E)

  datatype Option<T> = None | Some(value: T)

  const Closed := SurroundingPheromone(0.0, 0.0, 0.0, 0.0)

  /** A route is the sequence of directions taken from a start coordinate. */
  type Route = seq<Direction>

  /** The coordinate reached from start after following route. */
  function Walk(start: Coordinate, route: Route): Coordinate {
    if route == [] then start
    else Walk(start, route[..|route| - 1]).AddDirection(route[|route| - 1])
  }

  /** Moving in a direction changes exactly one coordinate by exactly one. */
  lemma AddDirectionIsOneStep(c: Coordinate, d: Direction)
    ensures var n := c.AddDirection(d);
            (n.x == c.x && (n.y - c.y == 1 || c.y - n.y == 1)) ||
            (n.y == c.y && (n.x - c.x == 1 || c.x - n.x == 1))
  {
  }

  /** Distinct directions lead to distinct neighbours. */
  lemma AddDirectionInjective(c: Coordinate, d: Direction, e: Direction)
    requires d != e
    ensures c.AddDirection(d) != c.AddDirection(e)
  {
  }

  /** Walking a route and then one more step is walking the extended route. */
  lemma WalkAppend(start: Coordinate, route: Route, d: Direction)
    ensures Walk(start, route + [d]) == Walk(start, route).AddDirection(d)
  {
    assert (route + [d])[..|route|] == route;
  }
}
