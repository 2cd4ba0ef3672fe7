/** The crossroad record of the ant's backtracking stack. */
module Crossroads {
  import opened Primitives

  /** A cell where the ant had a choice, and the number of steps it has taken since. */
  class Crossroad {
    var position: Coordinate
    var steps: nat

    constructor (position: Coordinate, steps: nat)
      ensures this.position == position && this.steps == steps
    {
      this.position := position;
      this.steps := steps;
    }

    /** The stored position; the object is not changed. */
    method GetPosition() returns (p: Coordinate)
      ensures p == position
    {
      return position;
    }

    /** The stored step count; the object is not changed. */
    method GetSteps() returns (n: nat)
      ensures n == steps
    {
      return steps;
    }

    /**
     * Counts one more step in place and returns the object itself, so every
     * reference to this crossroad sees the new count.
     */
    method IncreaseStep() returns (self: Crossroad)
      modifies this
      ensures self == this
      ensures steps == old(steps) + 1 && position == old(position)
    {
      steps := steps + 1;
      return this;
    }
  }
}
