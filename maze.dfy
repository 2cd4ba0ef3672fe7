/**
 * The maze: a width x length grid of open (1) and blocked cells and, for every cell,
 * four directional pheromone entries that the colony evaporates and reinforces.
 */
module Mazes {
  import opened Primitives

  /** Number of route steps on which pheromone is dropped: all but the last two. */
  function DepositSteps(route: Route): (n: nat)
    ensures n <= |route|
    ensures |route| <= 2 ==> n == 0
    ensures |route| > 2 ==> n == |route| - 2
  {
    if |route| > 2 then |route| - 2 else 0
  }

  /** How many of the first k steps of route leave cell c in direction d. */
  function Visits(start: Coordinate, route: Route, k: nat, c: Coordinate, d: Direction): nat
    requires k <= |route|
  {
    if k == 0 then 0
    else Visits(start, route, k - 1, c, d) + (if Walk(start, route[..k - 1]) == c && route[k - 1] == d then 1 else 0)
  }

  /** The pheromone laid on the entry for d at c by the first k steps, amount per step. */
  function Laid(start: Coordinate, route: Route, k: nat, amount: real, c: Coordinate, d: Direction): real
    requires k <= |route|
  {
    if k == 0 then 0.0
    else Laid(start, route, k - 1, amount, c, d) + (if Walk(start, route[..k - 1]) == c && route[k - 1] == d then amount else 0.0)
  }

  /** amount added n times over. */
  function Times(n: nat, amount: real): real {
    if n == 0 then 0.0 else Times(n - 1, amount) + amount
  }

  /** Adding amount n times is multiplying it by n. */
  lemma {:induction false} TimesIsProduct(n: nat, amount: real)
    ensures Times(n, amount) == (n as real) * amount
  {
    if n > 0 {
      TimesIsProduct(n - 1, amount);
      assert (n as real) * amount == ((n - 1) as real) * amount + amount;
    }
  }

  /** Laid adds amount once per counted step. */
  lemma {:induction false} LaidIsVisitsTimes(start: Coordinate, route: Route, k: nat, amount: real, c: Coordinate, d: Direction)
    requires k <= |route|
    ensures Laid(start, route, k, amount, c, d) == Times(Visits(start, route, k, c, d), amount)
  {
    if k > 0 {
      LaidIsVisitsTimes(start, route, k - 1, amount, c, d);
    }
  }

  /** Laying amount on every counted step lays amount times the number of such steps. */
  lemma LaidIsVisitsTimesAmount(start: Coordinate, route: Route, k: nat, amount: real, c: Coordinate, d: Direction)
    requires k <= |route|
    ensures Laid(start, route, k, amount, c, d) == (Visits(start, route, k, c, d) as real) * amount
  {
    LaidIsVisitsTimes(start, route, k, amount, c, d);
    TimesIsProduct(Visits(start, route, k, c, d), amount);
  }

  /**
   * The pheromone one deposit of route adds to the entry for d at cell c
   * (an empty route is never deposited: its deposit fails).
   */
  function Deposit(start: Coordinate, route: Route, q: real, c: Coordinate, d: Direction): real {
    if route == [] then 0.0
    else (Visits(start, route, DepositSteps(route), c, d) as real) * (q / (|route| as real))
  }

  /** A deposit lays q / |route| on each counted step. */
  lemma DepositIsLaid(start: Coordinate, route: Route, q: real, c: Coordinate, d: Direction)
    requires route != []
    ensures Deposit(start, route, q, c, d) == Laid(start, route, DepositSteps(route), q / (|route| as real), c, d)
  {
    LaidIsVisitsTimesAmount(start, route, DepositSteps(route), q / (|route| as real), c, d);
  }

  /** The pheromone a batch of routes adds to the entry for d at cell c. */
  function TotalDeposit(start: Coordinate, routes: seq<Route>, q: real, c: Coordinate, d: Direction): real {
    if routes == [] then 0.0
    else TotalDeposit(start, routes[..|routes| - 1], q, c, d) + Deposit(start, routes[|routes| - 1], q, c, d)
  }

  /** The number of leading non-empty routes (a deposit of an empty route divides by zero). */
  function NonEmptyPrefix(routes: seq<Route>): (k: nat)
    ensures k <= |routes|
    ensures forall i :: 0 <= i < k ==> |routes[i]| > 0
    ensures k < |routes| ==> routes[k] == []
  {
    if routes == [] || routes[0] == [] then 0 else 1 + NonEmptyPrefix(routes[1..])
  }

  /** A step count is positive exactly when some counted step leaves c in direction d. */
  lemma {:induction false} VisitsPositive(start: Coordinate, route: Route, k: nat, c: Coordinate, d: Direction)
    requires k <= |route|
    ensures Visits(start, route, k, c, d) > 0 <==>
            exists i :: 0 <= i < k && Walk(start, route[..i]) == c && route[i] == d
  {
    if k > 0 {
      VisitsPositive(start, route, k - 1, c, d);
      if Walk(start, route[..k - 1]) == c && route[k - 1] == d {
        assert 0 <= k - 1 < k && Walk(start, route[..k - 1]) == c && route[k - 1] == d;
      } else {
        forall i | 0 <= i < k && Walk(start, route[..i]) == c && route[i] == d
          ensures i < k - 1
        {
        }
      }
    }
  }

  /** A route of at most two steps deposits nothing anywhere. */
  lemma ShortRouteDepositsNothing(start: Coordinate, route: Route, q: real, c: Coordinate, d: Direction)
    requires |route| <= 2
    ensures Deposit(start, route, q, c, d) == 0.0
  {
  }

  /** Depositing two batches one after the other adds their separate totals. */
  lemma {:induction false} TotalDepositConcat(start: Coordinate, u: seq<Route>, v: seq<Route>, q: real, c: Coordinate, d: Direction)
    ensures TotalDeposit(start, u + v, q, c, d) == TotalDeposit(start, u, q, c, d) + TotalDeposit(start, v, q, c, d)
  {
    if v == [] {
      assert u + v == u;
    } else {
      var v' := v[..|v| - 1];
      assert (u + v)[..|u + v| - 1] == u + v';
      TotalDepositConcat(start, u, v', q, c, d);
    }
  }

  /** Taking one route out of a batch takes exactly its own deposit out of the total. */
  lemma TotalDepositRemove(start: Coordinate, b: seq<Route>, i: nat, q: real, c: Coordinate, d: Direction)
    requires i < |b|
    ensures TotalDeposit(start, b, q, c, d) == TotalDeposit(start, b[..i] + b[i + 1..], q, c, d) + Deposit(start, b[i], q, c, d)
  {
    var x := b[i];
    TotalDepositConcat(start, b[..i], [x] + b[i + 1..], q, c, d);
    TotalDepositConcat(start, [x], b[i + 1..], q, c, d);
    TotalDepositConcat(start, b[..i], b[i + 1..], q, c, d);
    assert [x][..0] == [];
    assert b[..i] + ([x] + b[i + 1..]) == b;
  }

  /** Removing one occurrence from two equal multisets leaves equal multisets. */
  lemma RemoveKeepsPermutation(a: seq<Route>, b: seq<Route>, i: nat)
    requires |a| > 0 && i < |b| && b[i] == a[|a| - 1]
    requires multiset(a) == multiset(b)
    ensures multiset(a[..|a| - 1]) == multiset(b[..i] + b[i + 1..])
  {
    var x := b[i];
    assert a == a[..|a| - 1] + [x];
    assert b == b[..i] + [x] + b[i + 1..];
    assert multiset(a) == multiset(a[..|a| - 1]) + multiset{x};
    assert multiset(b) == multiset(b[..i] + b[i + 1..]) + multiset{x} by {
      assert multiset(b) == multiset(b[..i]) + multiset{x} + multiset(b[i + 1..]);
    }
    var ma, mb := multiset(a[..|a| - 1]), multiset(b[..i] + b[i + 1..]);
    forall y ensures ma[y] == mb[y] {
      assert (ma + multiset{x})[y] == (mb + multiset{x})[y];
    }
  }

  /** The total deposit of a batch does not depend on the order of its routes. */
  lemma {:induction false} TotalDepositOrderFree(start: Coordinate, a: seq<Route>, b: seq<Route>, q: real, c: Coordinate, d: Direction)
    requires multiset(a) == multiset(b)
    ensures TotalDeposit(start, a, q, c, d) == TotalDeposit(start, b, q, c, d)
  {
    if a == [] {
      assert |b| == |multiset(b)| == 0;
    } else {
      var x := a[|a| - 1];
      assert x in multiset(b) by {
        assert x in multiset(a);
      }
      var i :| 0 <= i < |b| && b[i] == x;
      RemoveKeepsPermutation(a, b, i);
      TotalDepositOrderFree(start, a[..|a| - 1], b[..i] + b[i + 1..], q, c, d);
      TotalDepositRemove(start, b, i, q, c, d);
    }
  }

  /** Scaling by one changes nothing. */
  lemma ScaleByOne(cell: SurroundingPheromone)
    ensures cell.Scale(1.0) == cell
  {
  }

  /** Evaporation with a factor in [0, 1] keeps a non-negative entry non-negative and does not raise it. */
  lemma EvaporationBounds(v: real, rho: real)
    requires 0.0 <= rho <= 1.0 && 0.0 <= v
    ensures 0.0 <= v * (1.0 - rho) <= v
  {
    assert v * (1.0 - rho) == v - v * rho;
    assert v * rho >= 0.0;
  }

  class Maze {
    /** Accessible (1) and blocked (anything else) cells, indexed walls[x, y]. */
    const walls: array2<int>
    const width: nat
    const length: nat
    const start: Coordinate
    const end: Coordinate
    /**
     * The pheromone matrix. The source starts it from the wall matrix itself
     * (`pheromone_matrix = self.walls`) and so overwrites the walls; here it is a
     * separate array (of a different element type, so the two cannot alias).
     */
    var pheromones: array2<SurroundingPheromone>

    ghost predicate Valid()
      reads this
    {
      walls.Length0 == width && walls.Length1 == length &&
      pheromones.Length0 == width && pheromones.Length1 == length
    }

    /** Whether a coordinate lies on the grid. */
    predicate InBounds(c: Coordinate) {
      0 <= c.x < width && 0 <= c.y < length
    }

    /** Whether a coordinate is an accessible cell of the grid. */
    predicate IsOpen(c: Coordinate)
      reads walls
      requires walls.Length0 == width && walls.Length1 == length
    {
      InBounds(c) && walls[c.x, c.y] == 1
    }

    /**
     * Every non-zero entry belongs to an open cell and points to an open neighbour
     * on the grid. The ant relies on this: it never checks bounds before moving.
     */
    ghost predicate Sound()
      reads this, walls, pheromones
      requires Valid()
    {
      forall x, y, d :: 0 <= x < width && 0 <= y < length && pheromones[x, y].Get(d) != 0.0 ==>
        IsOpen(Coordinate(x, y)) && IsOpen(Coordinate(x, y).AddDirection(d))
    }

    ghost predicate NonNegative()
      reads this, pheromones
      requires Valid()
    {
      forall x, y, d :: 0 <= x < width && 0 <= y < length ==> pheromones[x, y].Get(d) >= 0.0
    }

    /** The entries initialisation gives cell (x, y). */
    ghost function InitialCell(x: nat, y: nat): SurroundingPheromone
      reads walls
      requires walls.Length0 == width && walls.Length1 == length
      requires x < width && y < length
    {
      var c := Coordinate(x, y);
      if walls[x, y] != 1 then Closed
      else SurroundingPheromone(
        if IsOpen(c.AddDirection(North)) then 1.0 else 0.0,
        if IsOpen(c.AddDirection(East)) then 1.0 else 0.0,
        if IsOpen(c.AddDirection(South)) then 1.0 else 0.0,
        if IsOpen(c.AddDirection(West)) then 1.0 else 0.0)
    }

    constructor (walls: array2<int>, width: nat, length: nat, start: Coordinate, end: Coordinate)
      requires walls.Length0 == width && walls.Length1 == length
      ensures this.walls == walls && this.width == width && this.length == length
      ensures this.start == start && this.end == end
      ensures Valid() && fresh(pheromones) && Sound() && NonNegative()
      ensures forall x, y :: 0 <= x < width && 0 <= y < length ==> pheromones[x, y] == InitialCell(x, y)
    {
      this.walls := walls;
      this.width := width;
      this.length := length;
      this.start := start;
      this.end := end;
      pheromones := new SurroundingPheromone[0, 0];
      new;
      InitializePheromones();
    }

    /**
     * Seeds every entry of an open cell with 1 when the neighbour that way is on the
     * grid and open, and with 0 otherwise; blocked cells get four zeros.
     * The source tests the east and south neighbours with `<=` against the width and
     * length, which reads one past the grid; this uses the grid test of InBounds.
     */
    method InitializePheromones()
      requires walls.Length0 == width && walls.Length1 == length
      modifies this
      ensures Valid() && fresh(pheromones)
      ensures forall x, y :: 0 <= x < width && 0 <= y < length ==> pheromones[x, y] == InitialCell(x, y)
      ensures forall x, y :: 0 <= x < width && 0 <= y < length && walls[x, y] != 1 ==> pheromones[x, y] == Closed
      ensures forall x, y, d :: 0 <= x < width && 0 <= y < length && walls[x, y] == 1 ==>
        (pheromones[x, y].Get(d) == if IsOpen(Coordinate(x, y).AddDirection(d)) then 1.0 else 0.0)
      ensures Sound() && NonNegative()
    {
      var matrix := new SurroundingPheromone[width, length];
      for x := 0 to width
        invariant forall i, j :: 0 <= i < x && 0 <= j < length ==> matrix[i, j] == InitialCell(i, j)
      {
        for y := 0 to length
          invariant forall i, j :: 0 <= i < x && 0 <= j < length ==> matrix[i, j] == InitialCell(i, j)
          invariant forall j :: 0 <= j < y ==> matrix[x, j] == InitialCell(x, j)
        {
          matrix[x, y] := SeedCell(x, y);
        }
      }
      pheromones := matrix;
      forall x, y, d | 0 <= x < width && 0 <= y < length
        ensures walls[x, y] != 1 ==> pheromones[x, y] == Closed
        ensures walls[x, y] == 1 ==> (pheromones[x, y].Get(d) == if IsOpen(Coordinate(x, y).AddDirection(d)) then 1.0 else 0.0)
        ensures pheromones[x, y].Get(d) != 0.0 ==> IsOpen(Coordinate(x, y)) && IsOpen(Coordinate(x, y).AddDirection(d))
        ensures pheromones[x, y].Get(d) >= 0.0
      {
        InitialCellSeeds(x, y, d);
      }
    }

    /** The seed of one cell, read off the walls of its neighbours. */
    method SeedCell(x: nat, y: nat) returns (cell: SurroundingPheromone)
      requires walls.Length0 == width && walls.Length1 == length
      requires x < width && y < length
      ensures cell == InitialCell(x, y)
    {
      if walls[x, y] == 1 {
        var north := if y - 1 >= 0 && walls[x, y - 1] == 1 then 1.0 else 0.0;
        var east := if x + 1 < width && walls[x + 1, y] == 1 then 1.0 else 0.0;
        var south := if y + 1 < length && walls[x, y + 1] == 1 then 1.0 else 0.0;
        var west := if x - 1 >= 0 && walls[x - 1, y] == 1 then 1.0 else 0.0;
        cell := SurroundingPheromone(north, east, south, west);
      } else {
        cell := Closed;
      }
    }

    /** A seeded entry is 1 exactly when its cell and the neighbour it points to are open, and 0 otherwise. */
    lemma InitialCellSeeds(x: nat, y: nat, d: Direction)
      requires walls.Length0 == width && walls.Length1 == length
      requires x < width && y < length
      ensures walls[x, y] != 1 ==> InitialCell(x, y) == Closed
      ensures walls[x, y] == 1 ==> (InitialCell(x, y).Get(d) == if IsOpen(Coordinate(x, y).AddDirection(d)) then 1.0 else 0.0)
      ensures InitialCell(x, y).Get(d) != 0.0 ==> IsOpen(Coordinate(x, y)) && IsOpen(Coordinate(x, y).AddDirection(d))
      ensures InitialCell(x, y).Get(d) >= 0.0
    {
    }

    /** The value evaporation gives cell (x, y), whose entries were cell before. */
    ghost function Evaporated(x: nat, y: nat, cell: SurroundingPheromone, rho: real): SurroundingPheromone
      reads walls
      requires walls.Length0 == width && walls.Length1 == length
      requires x < width && y < length
    {
      if walls[x, y] == 1 then cell.Scale(1.0 - rho) else cell
    }

    /**
     * Multiplies every entry of every open cell by (1 - rho); blocked cells are not touched.
     */
    method Evaporate(rho: real)
      requires Valid()
      modifies pheromones
      ensures forall x, y :: 0 <= x < width && 0 <= y < length ==>
        pheromones[x, y] == Evaporated(x, y, old(pheromones[x, y]), rho)
      ensures old(Sound()) ==> Sound()
      ensures rho == 0.0 ==> forall x, y :: 0 <= x < width && 0 <= y < length ==> pheromones[x, y] == old(pheromones[x, y])
      ensures 0.0 <= rho <= 1.0 && old(NonNegative()) ==>
        NonNegative() &&
        forall x, y, d :: 0 <= x < width && 0 <= y < length ==> pheromones[x, y].Get(d) <= old(pheromones[x, y].Get(d))
    {
      for x := 0 to width
        invariant forall i, j :: 0 <= i < width && 0 <= j < length ==>
          pheromones[i, j] == if i < x then Evaporated(i, j, old(pheromones[i, j]), rho) else old(pheromones[i, j])
      {
        EvaporateColumn(x, rho);
      }
      EvaporationKeepsSound(rho);
      EvaporationByZero(rho);
      EvaporationNeverRaises(rho);
    }

    /** Evaporation keeps every non-zero entry pointing to an open neighbour. */
    twostate lemma EvaporationKeepsSound(rho: real)
      requires old(Valid()) && Valid() && old(pheromones) == pheromones && unchanged(walls)
      requires forall x, y :: 0 <= x < width && 0 <= y < length ==>
        pheromones[x, y] == Evaporated(x, y, old(pheromones[x, y]), rho)
      ensures old(Sound()) ==> Sound()
    {
      if old(Sound()) {
        forall x, y, d | 0 <= x < width && 0 <= y < length && pheromones[x, y].Get(d) != 0.0
          ensures IsOpen(Coordinate(x, y)) && IsOpen(Coordinate(x, y).AddDirection(d))
        {
          assert old(pheromones[x, y].Get(d)) != 0.0;
        }
      }
    }

    /** Evaporation with rho = 0 leaves the field unchanged. */
    twostate lemma EvaporationByZero(rho: real)
      requires old(Valid()) && Valid() && old(pheromones) == pheromones && unchanged(walls)
      requires forall x, y :: 0 <= x < width && 0 <= y < length ==>
        pheromones[x, y] == Evaporated(x, y, old(pheromones[x, y]), rho)
      ensures rho == 0.0 ==> forall x, y :: 0 <= x < width && 0 <= y < length ==> pheromones[x, y] == old(pheromones[x, y])
    {
      if rho == 0.0 {
        forall x, y | 0 <= x < width && 0 <= y < length
          ensures pheromones[x, y] == old(pheromones[x, y])
        {
          ScaleByOne(old(pheromones[x, y]));
        }
      }
    }

    /** Evaporation with rho in [0, 1] keeps entries non-negative and raises none of them. */
    twostate lemma EvaporationNeverRaises(rho: real)
      requires old(Valid()) && Valid() && old(pheromones) == pheromones && unchanged(walls)
      requires forall x, y :: 0 <= x < width && 0 <= y < length ==>
        pheromones[x, y] == Evaporated(x, y, old(pheromones[x, y]), rho)
      ensures 0.0 <= rho <= 1.0 && old(NonNegative()) ==>
        NonNegative() &&
        forall x, y, d :: 0 <= x < width && 0 <= y < length ==> pheromones[x, y].Get(d) <= old(pheromones[x, y].Get(d))
    {
      if 0.0 <= rho <= 1.0 && old(NonNegative()) {
        forall x, y, d | 0 <= x < width && 0 <= y < length
          ensures 0.0 <= pheromones[x, y].Get(d) <= old(pheromones[x, y].Get(d))
        {
          var v := old(pheromones[x, y].Get(d));
          assert v >= 0.0;
          if walls[x, y] == 1 {
            EvaporationBounds(v, rho);
          }
        }
      }
    }

    /** One `for y` pass of Evaporate: evaporates column x and nothing else. */
    method EvaporateColumn(x: nat, rho: real)
      requires Valid() && x < width
      modifies pheromones
      ensures forall i, j :: 0 <= i < width && 0 <= j < length ==>
        pheromones[i, j] == if i == x then Evaporated(i, j, old(pheromones[i, j]), rho) else old(pheromones[i, j])
    {
      for y := 0 to length
        invariant forall i, j :: 0 <= i < width && 0 <= j < length ==>
          pheromones[i, j] == if i == x && j < y then Evaporated(i, j, old(pheromones[i, j]), rho) else old(pheromones[i, j])
      {
        if walls[x, y] == 1 {
          var cell := pheromones[x, y];
          var north := cell.Get(North) * (1.0 - rho);
          var east := cell.Get(East) * (1.0 - rho);
          var south := cell.Get(South) * (1.0 - rho);
          var west := cell.Get(West) * (1.0 - rho);
          pheromones[x, y] := SurroundingPheromone(north, east, south, west);
        }
      }
    }

    /** The entries of the cell at position. */
    function GetSurroundingPheromone(position: Coordinate): SurroundingPheromone
      reads this, pheromones
      requires Valid() && InBounds(position)
    {
      pheromones[position.x, position.y]
    }

    /**
     * The pheromone field as a value, for the ants of one generation: nothing writes the
     * field while they walk, so each reads the same entries as GetSurroundingPheromone.
     */
    function Snapshot(): (field: seq<seq<SurroundingPheromone>>)
      reads this, pheromones
      requires Valid()
      ensures |field| == width
      ensures forall x :: 0 <= x < width ==> |field[x]| == length
      ensures forall x, y :: 0 <= x < width && 0 <= y < length ==>
        field[x][y] == GetSurroundingPheromone(Coordinate(x, y))
    {
      var p := pheromones;
      seq(width, x requires 0 <= x < p.Length0 reads p =>
        seq(p.Length1, y requires 0 <= y < p.Length1 reads p => p[x, y]))
    }

    /** Every cell the deposit of route visits (all but its last two steps) lies on the grid. */
    predicate DepositWalkInBounds(start: Coordinate, route: Route) {
      forall i :: 0 <= i < DepositSteps(route) ==> InBounds(Walk(start, route[..i]))
    }

    /**
     * Lays q / |route| on the entry for step i's direction at the cell reached after i
     * steps from start, for every i < |route| - 2; nothing else changes. An empty route
     * fails (the source divides by its length). The source starts from the maze's own
     * start and adds to the Python builtin `dir` instead of the step's direction; here the
     * start is the caller's and the deposit goes on the step's direction.
     */
    method AddPheromoneRoute(route: Route, q: real, start: Coordinate) returns (ok: bool)
      requires Valid() && DepositWalkInBounds(start, route)
      modifies pheromones
      ensures ok <==> |route| > 0
      ensures !ok ==> forall x, y :: 0 <= x < width && 0 <= y < length ==> pheromones[x, y] == old(pheromones[x, y])
      ensures ok ==> forall x, y, d :: 0 <= x < width && 0 <= y < length ==>
        pheromones[x, y].Get(d) == old(pheromones[x, y].Get(d)) + Deposit(start, route, q, Coordinate(x, y), d)
    {
      if |route| == 0 {
        return false;
      }
      var pheromone := q / (|route| as real);
      var coordinate := start;
      for i := 0 to DepositSteps(route)
        invariant coordinate == Walk(start, route[..i])
        invariant forall x, y, d :: 0 <= x < width && 0 <= y < length ==>
          pheromones[x, y].Get(d) == old(pheromones[x, y].Get(d)) + Laid(start, route, i, pheromone, Coordinate(x, y), d)
      {
        var direction := route[i];
        assert InBounds(coordinate);
        pheromones[coordinate.x, coordinate.y] := pheromones[coordinate.x, coordinate.y].Add(direction, pheromone);
        forall x, y, d | 0 <= x < width && 0 <= y < length
          ensures pheromones[x, y].Get(d) == old(pheromones[x, y].Get(d)) + Laid(start, route, i + 1, pheromone, Coordinate(x, y), d)
        {
          assert Laid(start, route, i + 1, pheromone, Coordinate(x, y), d) ==
            Laid(start, route, i, pheromone, Coordinate(x, y), d) +
            (if coordinate == Coordinate(x, y) && direction == d then pheromone else 0.0);
        }
        assert route[..i + 1][..i] == route[..i];
        coordinate := coordinate.AddDirection(direction);
      }
      forall x, y, d | 0 <= x < width && 0 <= y < length
        ensures pheromones[x, y].Get(d) == old(pheromones[x, y].Get(d)) + Deposit(start, route, q, Coordinate(x, y), d)
      {
        DepositIsLaid(start, route, q, Coordinate(x, y), d);
      }
      return true;
    }

    /**
     * Applies AddPheromoneRoute to each route in turn. The first empty route stops the
     * batch with an error, after the routes before it have been deposited. The start is
     * the parameter the colony's call passes, which the source's definition lacks.
     */
    method AddPheromoneRoutes(routes: seq<Route>, q: real, start: Coordinate) returns (ok: bool)
      requires Valid()
      requires forall r :: r in routes ==> DepositWalkInBounds(start, r)
      modifies pheromones
      ensures ok <==> forall r :: r in routes ==> |r| > 0
      ensures forall x, y, d :: 0 <= x < width && 0 <= y < length ==>
        pheromones[x, y].Get(d) == old(pheromones[x, y].Get(d)) +
          TotalDeposit(start, routes[..NonEmptyPrefix(routes)], q, Coordinate(x, y), d)
    {
      var k := NonEmptyPrefix(routes);
      var i := 0;
      while i < |routes|
        invariant 0 <= i <= k
        invariant forall x, y, d :: 0 <= x < width && 0 <= y < length ==>
          pheromones[x, y].Get(d) == old(pheromones[x, y].Get(d)) + TotalDeposit(start, routes[..i], q, Coordinate(x, y), d)
      {
        ok := AddPheromoneRoute(routes[i], q, start);
        if !ok {
          assert routes[i] == [];
          return false;
        }
        assert routes[..i + 1][..i] == routes[..i];
        i := i + 1;
      }
      assert routes[..i] == routes;
      return true;
    }
  }
}
