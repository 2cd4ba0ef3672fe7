/**
 * The operators of the genetic algorithm that orders the product waypoints: roulette
 * selection, parent selection, swap mutation, order crossover and the choice of the
 * fittest chromosomes. A chromosome is a list of product indices; its fitness depends
 * on route data that is not part of this model, so fitness is a parameter
 * (`fit: Chromosome -> real`) and the randomness is given as parameters: the values
 * random.uniform and random.sample return, and the cut points.
 */
module Genetic {
  import opened Primitives

  type Chromosome = seq<int>

  /** The constructor arguments of GeneticAlgorithm; none of them changes afterwards. */
  datatype GeneticAlgorithm = GeneticAlgorithm(
    generations: nat,
    popSize: nat,
    minDistanceCrossover: int,
    mutationChance: real,
    c: real,
    alpha: real,
    reproducingProb: real)

  /** The exceptions the operators can raise. */
  datatype GaError =
    | NoSelection       // select_one fell through and `index(None)` raised
    | DivisionByZero    // a population factor of 0
    | SampleTooLarge    // random.sample of 2 out of fewer than 2 indices
    | IndexOutOfRange   // a list was indexed past its end
    | EmptyRange        // random.randint over a range whose upper end is below its lower end

  /** The highest product index; chromosomes hold the indices 0 to ProductSize. */
  const ProductSize := 17

  /** The sum of a list of numbers (Python's sum). */
  function Sum(s: seq<real>): real {
    if s == [] then 0.0 else Sum(s[..|s| - 1]) + s[|s| - 1]
  }

  // ---------------------------------------------------------------- select_one

  /** Whether the running sum up to and including entry i reaches the roulette value. */
  predicate ReachedAt(fitness: seq<real>, i: nat, roulette: real)
    requires i < |fitness|
  {
    Sum(fitness[..i + 1]) >= roulette
  }

  /**
   * The index select_one stops at when it scans the first n entries: the first i whose
   * running sum fitness[0] + ... + fitness[i] reaches the roulette value.
   */
  function RouletteIndex(fitness: seq<real>, roulette: real, n: nat): (r: Option<nat>)
    requires n <= |fitness|
    ensures r.Some? ==> r.value < n
  {
    if n == 0 then None
    else
      var earlier := RouletteIndex(fitness, roulette, n - 1);
      if earlier.Some? then earlier
      else if Sum(fitness[..n]) >= roulette then Some(n - 1)
      else None
  }

  /** RouletteIndex finds the first index whose running sum reaches the roulette value, if any. */
  lemma {:induction false} RouletteIndexIsFirst(fitness: seq<real>, roulette: real, n: nat)
    requires n <= |fitness|
    ensures var r := RouletteIndex(fitness, roulette, n);
      r.Some? ==> r.value < n && ReachedAt(fitness, r.value, roulette)
    ensures var r := RouletteIndex(fitness, roulette, n);
      r.Some? ==> forall j :: 0 <= j < r.value ==> !ReachedAt(fitness, j, roulette)
    ensures var r := RouletteIndex(fitness, roulette, n);
      r.None? ==> forall j :: 0 <= j < n ==> !ReachedAt(fitness, j, roulette)
  {
    if n > 0 {
      RouletteIndexIsFirst(fitness, roulette, n - 1);
    }
  }

  /** Once the scan has stopped at an index, scanning further entries stops there too. */
  lemma {:induction false} RouletteIndexStops(fitness: seq<real>, roulette: real, m: nat, n: nat)
    requires m <= n <= |fitness| && RouletteIndex(fitness, roulette, m).Some?
    ensures RouletteIndex(fitness, roulette, n) == RouletteIndex(fitness, roulette, m)
    decreases n - m
  {
    if m < n {
      RouletteIndexStops(fitness, roulette, m, n - 1);
    }
  }

  /**
   * select_one: the running sum loop. The result is the chromosome at RouletteIndex, or
   * nothing when the loop falls through (Python returns None).
   */
  method SelectOne<T(==)>(population: seq<T>, fitness: seq<real>, roulette: real) returns (r: Option<T>)
    requires |population| <= |fitness|
    ensures r.None? <==> RouletteIndex(fitness, roulette, |population|).None?
    ensures r.Some? ==> r.value == population[RouletteIndex(fitness, roulette, |population|).value]
  {
    var current := 0.0;
    for i := 0 to |population|
      invariant current == Sum(fitness[..i])
      invariant RouletteIndex(fitness, roulette, i).None?
    {
      assert fitness[..i + 1][..i] == fitness[..i];
      current := current + fitness[i];
      assert Sum(fitness[..i + 1]) == current;
      if current >= roulette {
        assert RouletteIndex(fitness, roulette, i + 1) == Some(i);
        RouletteIndexStops(fitness, roulette, i + 1, |population|);
        return Some(population[i]);
      }
    }
    return None;
  }

  /** The sum of all entries is the running sum at the last one. */
  lemma SumOfPrefixes(fitness: seq<real>)
    ensures Sum(fitness[..|fitness|]) == Sum(fitness)
  {
    assert fitness[..|fitness|] == fitness;
  }

  /**
   * With as many fitness values as chromosomes and a roulette value no larger than
   * their sum, select_one always selects: the running sum at the last chromosome
   * is the whole sum.
   */
  lemma SelectOneSelects(fitness: seq<real>, roulette: real)
    requires fitness != [] && roulette <= Sum(fitness)
    ensures RouletteIndex(fitness, roulette, |fitness|).Some?
  {
    SumOfPrefixes(fitness);
    RouletteIndexIsFirst(fitness, roulette, |fitness|);
    assert ReachedAt(fitness, |fitness| - 1, roulette);
  }

  // ------------------------------------------------------------ select_parents

  /** The first index of x in s (list.index). */
  function IndexOf<T(==)>(s: seq<T>, x: T): (i: nat)
    requires x in s
    ensures i < |s| && s[i] == x
  {
    if s[0] == x then 0 else 1 + IndexOf(s[1..], x)
  }

  /** IndexOf finds the first occurrence: no earlier entry equals x. */
  lemma {:induction false} IndexOfIsFirst<T>(s: seq<T>, x: T)
    requires x in s
    ensures forall j :: 0 <= j < IndexOf(s, x) ==> s[j] != x
  {
    if s[0] != x {
      IndexOfIsFirst(s[1..], x);
    }
  }

  /** s without its entry at index i (list.pop(i), and list.remove of the first occurrence). */
  function RemoveAt<T>(s: seq<T>, i: nat): (r: seq<T>)
    requires i < |s|
    ensures |r| == |s| - 1
  {
    s[..i] + s[i + 1..]
  }

  /** int(pop_size / population_factor): a zero factor raises, a negative one picks none. */
  function PickCount(popSize: nat, factor: int): (r: Result<nat, GaError>)
    ensures r.Failure? <==> factor == 0
    ensures factor < 0 ==> r == Success(0)
    ensures factor > 0 ==> r.Success? && r.value * factor <= popSize < (r.value + 1) * factor
  {
    if factor == 0 then Failure(DivisionByZero)
    else if factor < 0 then Success(0)
    else Success(popSize / factor)
  }

  /** The two lists select_parents takes and shrinks: the chromosomes and their fitness. */
  class Pool<T> {
    var chromosomes: seq<T>
    var fitness: seq<real>

    constructor (chromosomes: seq<T>, fitness: seq<real>)
      ensures this.chromosomes == chromosomes && this.fitness == fitness
    {
      this.chromosomes := chromosomes;
      this.fitness := fitness;
    }
  }

  /** Where a run of picks ends: the parents picked, the lists left and the exception, if any. */
  datatype Selection<T> = Selection(parents: seq<T>, chromosomes: seq<T>, fitness: seq<real>, error: Option<GaError>)

  /**
   * The index one pick removes: select_one chooses the chromosome at RouletteIndex, and
   * list.index finds the first chromosome equal to it. None when select_one falls through.
   */
  function PickIndex<T(==)>(chromosomes: seq<T>, fitness: seq<real>, roulette: real): (r: Option<nat>)
    requires |chromosomes| <= |fitness|
    ensures r.Some? ==> r.value < |chromosomes|
  {
    var i := RouletteIndex(fitness, roulette, |chromosomes|);
    if i.None? then None else Some(IndexOf(chromosomes, chromosomes[i.value]))
  }

  /**
   * count picks, each with the next roulette value: the chromosome at PickIndex and the fitness at
   * the same index leave the lists, and the chromosome joins the parents. A failed
   * selection stops with the lists as they are.
   */
  function Picks<T(==)>(chromosomes: seq<T>, fitness: seq<real>, roulettes: seq<real>, count: nat): (r: Selection<T>)
    requires |chromosomes| <= |fitness| && count <= |roulettes|
    ensures |r.chromosomes| <= |r.fitness|
    ensures |fitness| - |chromosomes| == |r.fitness| - |r.chromosomes|
    decreases count
  {
    if count == 0 then Selection([], chromosomes, fitness, None)
    else
      var index := PickIndex(chromosomes, fitness, roulettes[0]);
      if index.None? then Selection([], chromosomes, fitness, Some(NoSelection))
      else
        var rest := Picks(RemoveAt(chromosomes, index.value), RemoveAt(fitness, index.value), roulettes[1..], count - 1);
        Prepend([chromosomes[index.value]], rest)
  }

  /** A selection with more parents in front. */
  function Prepend<T(==)>(parents: seq<T>, s: Selection<T>): Selection<T> {
    s.(parents := parents + s.parents)
  }

  lemma PrependTwice<T>(first: seq<T>, second: seq<T>, s: Selection<T>)
    ensures Prepend(first, Prepend(second, s)) == Prepend(first + second, s)
  {
    assert first + (second + s.parents) == (first + second) + s.parents;
  }

  /** goal is what is left of a run of Picks once parents are picked and roulette values k.. remain. */
  ghost predicate PicksFrom<T>(goal: Selection<T>, parents: seq<T>, chromosomes: seq<T>, fitness: seq<real>, roulettes: seq<real>, k: nat, count: nat)
    requires |chromosomes| <= |fitness| && k <= count <= |roulettes|
  {
    goal == Prepend(parents, Picks(chromosomes, fitness, roulettes[k..], count - k))
  }

  /** A run that has not started is the whole run. */
  lemma PicksFromStart<T>(chromosomes: seq<T>, fitness: seq<real>, roulettes: seq<real>, count: nat)
    requires |chromosomes| <= |fitness| && count <= |roulettes|
    ensures PicksFrom(Picks(chromosomes, fitness, roulettes, count), [], chromosomes, fitness, roulettes, 0, count)
  {
    assert roulettes[0..] == roulettes;
    var s := Picks(chromosomes, fitness, roulettes, count);
    assert [] + s.parents == s.parents;
  }

  /** A run with no roulette values left has picked all its parents without error. */
  lemma PicksFromEnd<T>(goal: Selection<T>, parents: seq<T>, chromosomes: seq<T>, fitness: seq<real>, roulettes: seq<real>, count: nat)
    requires |chromosomes| <= |fitness| && count <= |roulettes|
    requires PicksFrom(goal, parents, chromosomes, fitness, roulettes, count, count)
    ensures goal == Selection(parents, chromosomes, fitness, None)
  {
    assert parents + [] == parents;
  }

  /** One more pick moves one chromosome from the remaining run to the parents in front. */
  lemma PicksAdvance<T>(goal: Selection<T>, parents: seq<T>, chromosomes: seq<T>, fitness: seq<real>, roulettes: seq<real>, k: nat, count: nat)
    requires |chromosomes| <= |fitness| && k < count <= |roulettes|
    requires PicksFrom(goal, parents, chromosomes, fitness, roulettes, k, count)
    ensures var index := PickIndex(chromosomes, fitness, roulettes[k]);
      if index.None? then goal == Selection(parents, chromosomes, fitness, Some(NoSelection))
      else PicksFrom(goal, parents + [chromosomes[index.value]],
        RemoveAt(chromosomes, index.value), RemoveAt(fitness, index.value), roulettes, k + 1, count)
  {
    PicksStep(chromosomes, fitness, roulettes, k, count);
    var index := PickIndex(chromosomes, fitness, roulettes[k]);
    if index.None? {
      assert parents + [] == parents;
    } else {
      PrependTwice(parents, [chromosomes[index.value]],
        Picks(RemoveAt(chromosomes, index.value), RemoveAt(fitness, index.value), roulettes[k + 1..], count - k - 1));
    }
  }

  /** Picks from roulette value k on, one pick unfolded. */
  lemma PicksStep<T>(chromosomes: seq<T>, fitness: seq<real>, roulettes: seq<real>, k: nat, count: nat)
    requires |chromosomes| <= |fitness| && k < count <= |roulettes|
    ensures var index := PickIndex(chromosomes, fitness, roulettes[k]);
      Picks(chromosomes, fitness, roulettes[k..], count - k) ==
        if index.None? then Selection([], chromosomes, fitness, Some(NoSelection))
        else Prepend([chromosomes[index.value]], Picks(RemoveAt(chromosomes, index.value), RemoveAt(fitness, index.value), roulettes[k + 1..], count - k - 1))
  {
    assert roulettes[k..][0] == roulettes[k] && roulettes[k..][1..] == roulettes[k + 1..];
  }

  /** One pick of select_parents on the pool: select_one, then the removal from both lists. */
  method PickOne<T(==)>(pool: Pool<T>, roulette: real) returns (selected: Option<T>)
    requires |pool.chromosomes| <= |pool.fitness|
    modifies pool
    ensures var index := PickIndex(old(pool.chromosomes), old(pool.fitness), roulette);
      if index.None? then
        selected.None? && pool.chromosomes == old(pool.chromosomes) && pool.fitness == old(pool.fitness)
      else
        selected == Some(old(pool.chromosomes)[index.value]) &&
        pool.chromosomes == RemoveAt(old(pool.chromosomes), index.value) &&
        pool.fitness == RemoveAt(old(pool.fitness), index.value)
  {
    selected := SelectOne(pool.chromosomes, pool.fitness, roulette);
    if selected.None? {
      return;
    }
    var index := IndexOf(pool.chromosomes, selected.value);
    pool.chromosomes := RemoveAt(pool.chromosomes, index);
    pool.fitness := RemoveAt(pool.fitness, index);
  }

  /** count picks on the pool, each with the next roulette value: the loop of select_parents. */
  method PickMany<T(==)>(pool: Pool<T>, roulettes: seq<real>, count: nat) returns (r: Result<seq<T>, GaError>)
    requires |pool.chromosomes| <= |pool.fitness| && count <= |roulettes|
    modifies pool
    ensures var s := Picks(old(pool.chromosomes), old(pool.fitness), roulettes, count);
      pool.chromosomes == s.chromosomes && pool.fitness == s.fitness &&
      r == if s.error.Some? then Failure(s.error.value) else Success(s.parents)
  {
    var parents: seq<T> := [];
    ghost var goal := Picks(pool.chromosomes, pool.fitness, roulettes, count);
    PicksFromStart(pool.chromosomes, pool.fitness, roulettes, count);
    for k := 0 to count
      invariant |pool.chromosomes| <= |pool.fitness|
      invariant PicksFrom(goal, parents, pool.chromosomes, pool.fitness, roulettes, k, count)
    {
      PicksAdvance(goal, parents, pool.chromosomes, pool.fitness, roulettes, k, count);
      var selected := PickOne(pool, roulettes[k]);
      if selected.None? {
        return Failure(NoSelection);
      }
      parents := parents + [selected.value];
    }
    PicksFromEnd(goal, parents, pool.chromosomes, pool.fitness, roulettes, count);
    return Success(parents);
  }

  /**
   * select_parents: int(pop_size / population_factor) picks, removing every pick from
   * both of the pool's lists. On an exception the pool keeps the removals made so far.
   */
  method SelectParents<T(==)>(ga: GeneticAlgorithm, pool: Pool<T>, factor: int, roulettes: seq<real>) returns (r: Result<seq<T>, GaError>)
    requires |pool.chromosomes| <= |pool.fitness|
    requires PickCount(ga.popSize, factor).Success? ==> PickCount(ga.popSize, factor).value <= |roulettes|
    modifies pool
    ensures PickCount(ga.popSize, factor).Failure? ==>
      r == Failure(DivisionByZero) && pool.chromosomes == old(pool.chromosomes) && pool.fitness == old(pool.fitness)
    ensures PickCount(ga.popSize, factor).Success? ==>
      var s := Picks(old(pool.chromosomes), old(pool.fitness), roulettes, PickCount(ga.popSize, factor).value);
      pool.chromosomes == s.chromosomes && pool.fitness == s.fitness &&
      r == if s.error.Some? then Failure(s.error.value) else Success(s.parents)
  {
    var count := PickCount(ga.popSize, factor);
    if count.Failure? {
      return Failure(DivisionByZero);
    }
    r := PickMany(pool, roulettes, count.value);
  }

  /** Taking out one entry and adding it back gives the list's multiset. */
  lemma RemoveAtMultiset<T>(s: seq<T>, i: nat)
    requires i < |s|
    ensures multiset(RemoveAt(s, i)) + multiset{s[i]} == multiset(s)
  {
    assert s == s[..i] + [s[i]] + s[i + 1..];
  }

  /** The parents and the remaining chromosomes of s together make up all. */
  ghost predicate Conserves<T>(s: Selection<T>, all: seq<T>) {
    multiset(s.parents) + multiset(s.chromosomes) == multiset(all)
  }

  /** Every pick leaves the lists once: parents and remaining chromosomes make up the input. */
  lemma {:induction false} PicksConserve<T>(chromosomes: seq<T>, fitness: seq<real>, roulettes: seq<real>, count: nat)
    requires |chromosomes| <= |fitness| && count <= |roulettes|
    ensures Conserves(Picks(chromosomes, fitness, roulettes, count), chromosomes)
    decreases count, 1
  {
    if count > 0 && PickIndex(chromosomes, fitness, roulettes[0]).Some? {
      PickConserves(chromosomes, fitness, roulettes, count, PickIndex(chromosomes, fitness, roulettes[0]).value);
    }
  }

  /** One pick of PicksConserve: the chromosome at i goes in front of the selection from the rest. */
  lemma {:induction false} PickConserves<T>(chromosomes: seq<T>, fitness: seq<real>, roulettes: seq<real>, count: nat, i: nat)
    requires |chromosomes| <= |fitness| && 0 < count <= |roulettes|
    requires PickIndex(chromosomes, fitness, roulettes[0]) == Some(i)
    ensures Conserves(Picks(chromosomes, fitness, roulettes, count), chromosomes)
    decreases count, 0
  {
    PicksConserve(RemoveAt(chromosomes, i), RemoveAt(fitness, i), roulettes[1..], count - 1);
    PrependConserves(chromosomes, i, Picks(RemoveAt(chromosomes, i), RemoveAt(fitness, i), roulettes[1..], count - 1));
  }

  /** Putting the picked chromosome in front of a conserving selection of the rest conserves the whole. */
  lemma PrependConserves<T>(all: seq<T>, i: nat, rest: Selection<T>)
    requires i < |all|
    requires Conserves(rest, RemoveAt(all, i))
    ensures Conserves(Prepend([all[i]], rest), all)
  {
    RemoveAtMultiset(all, i);
    assert multiset([all[i]] + rest.parents) == multiset{all[i]} + multiset(rest.parents);
  }

  /** Without an exception there are exactly count parents. */
  lemma {:induction false} PicksCount<T>(chromosomes: seq<T>, fitness: seq<real>, roulettes: seq<real>, count: nat)
    requires |chromosomes| <= |fitness| && count <= |roulettes|
    ensures var s := Picks(chromosomes, fitness, roulettes, count);
      s.error.None? ==> |s.parents| == count && |s.chromosomes| == |chromosomes| - count
    decreases count
  {
    if count > 0 {
      var index := PickIndex(chromosomes, fitness, roulettes[0]);
      if index.Some? {
        PicksCount(RemoveAt(chromosomes, index.value), RemoveAt(fitness, index.value), roulettes[1..], count - 1);
      }
    }
  }

  /** Removing the same index from two aligned lists keeps them aligned. */
  lemma RemoveAtAligned<T>(chromosomes: seq<T>, fitness: seq<real>, fit: T -> real, index: nat)
    requires |chromosomes| == |fitness| && index < |chromosomes|
    requires forall k :: 0 <= k < |chromosomes| ==> fitness[k] == fit(chromosomes[k])
    ensures forall k :: 0 <= k < |chromosomes| - 1 ==>
      RemoveAt(fitness, index)[k] == fit(RemoveAt(chromosomes, index)[k])
  {
    forall k | 0 <= k < |chromosomes| - 1
      ensures RemoveAt(fitness, index)[k] == fit(RemoveAt(chromosomes, index)[k])
    {
      if k < index {
        assert RemoveAt(fitness, index)[k] == fitness[k];
        assert RemoveAt(chromosomes, index)[k] == chromosomes[k];
      } else {
        assert RemoveAt(fitness, index)[k] == fitness[k + 1];
        assert RemoveAt(chromosomes, index)[k] == chromosomes[k + 1];
      }
    }
  }

  /**
   * The fitness list stays the fitness of the chromosome list: both lose the entry at the
   * same index on every pick.
   */
  lemma {:induction false} PicksKeepAligned<T>(chromosomes: seq<T>, fitness: seq<real>, fit: T -> real, roulettes: seq<real>, count: nat)
    requires |chromosomes| == |fitness| && count <= |roulettes|
    requires forall k :: 0 <= k < |chromosomes| ==> fitness[k] == fit(chromosomes[k])
    ensures var s := Picks(chromosomes, fitness, roulettes, count);
      |s.chromosomes| == |s.fitness| && forall k :: 0 <= k < |s.chromosomes| ==> s.fitness[k] == fit(s.chromosomes[k])
    decreases count
  {
    if count > 0 {
      var index := PickIndex(chromosomes, fitness, roulettes[0]);
      if index.Some? {
        RemoveAtAligned(chromosomes, fitness, fit, index.value);
        PicksKeepAligned(RemoveAt(chromosomes, index.value), RemoveAt(fitness, index.value), fit, roulettes[1..], count - 1);
      }
    }
  }

  // -------------------------------------------------------------------- mutate

  /** What random.sample(range(bound), 2) can return: two distinct indices below bound. */
  predicate IsSample(pick: (int, int), bound: int) {
    0 <= pick.0 < bound && 0 <= pick.1 < bound && pick.0 != pick.1
  }

  /** child with the entries at i and j exchanged. */
  function Swap(child: seq<int>, i: nat, j: nat): (r: seq<int>)
    requires i < |child| && j < |child|
    ensures |r| == |child| && r[i] == child[j] && r[j] == child[i]
    ensures forall k :: 0 <= k < |child| && k != i && k != j ==> r[k] == child[k]
  {
    child[i := child[j]][j := child[i]]
  }

  /** Exchanging two entries keeps the multiset of a chromosome. */
  lemma SwapKeepsMultiset(child: seq<int>, i: nat, j: nat)
    requires i < |child| && j < |child|
    ensures multiset(Swap(child, i, j)) == multiset(child)
  {
    var once := child[i := child[j]];
    assert multiset(once) == multiset(child) - multiset{child[i]} + multiset{child[j]};
    assert once[j] == (if i == j then child[j] else child[j]);
  }

  /**
   * One child of mutate: below the mutation chance, two indices sampled from
   * range(bound) swap places; the sample raises when bound < 2, the swap when an
   * index lies past the child.
   */
  function MutateOne(child: seq<int>, rand: real, chance: real, pick: (int, int), bound: int): (r: Result<seq<int>, GaError>)
    requires bound >= 2 ==> IsSample(pick, bound)
    ensures r.Success? ==> multiset(r.value) == multiset(child)
    ensures r.Failure? <==> rand < chance && (bound < 2 || pick.0 >= |child| || pick.1 >= |child|)
    ensures r.Success? && rand < chance ==>
      0 <= pick.0 < |child| && 0 <= pick.1 < |child| && r.value == Swap(child, pick.0, pick.1)
    ensures rand >= chance ==> r == Success(child)
  {
    if rand < chance then
      if bound < 2 then Failure(SampleTooLarge)
      else if pick.0 >= |child| || pick.1 >= |child| then Failure(IndexOutOfRange)
      else
        SwapKeepsMultiset(child, pick.0, pick.1);
        Success(Swap(child, pick.0, pick.1))
    else Success(child)
  }

  /**
   * The range the swap indices are sampled from: the number of children in the source,
   * the length of the child itself in the corrected reading.
   */
  function SampleBound(children: seq<array<int>>, i: nat, asWritten: bool): int
    requires i < |children|
  {
    if asWritten then |children| else children[i].Length
  }

  /** No other position of children holds the same list object. */
  predicate Unshared<T(==)>(children: seq<T>, i: nat) {
    i < |children| && forall k :: 0 <= k < |children| && k != i ==> children[k] != children[i]
  }

  /** Whether the mutation of child i raises; it depends on the child's length only. */
  predicate MutationFails(children: seq<array<int>>, i: nat, chance: real, rands: seq<real>, picks: seq<(int, int)>, asWritten: bool)
    requires i < |children| && |rands| == |children| && |picks| == |children|
  {
    var bound := SampleBound(children, i, asWritten);
    rands[i] < chance && (bound < 2 || picks[i].0 >= children[i].Length || picks[i].1 >= children[i].Length)
  }

  /**
   * mutate: each child in turn, on its own draw and sample, is swapped in place and
   * returned in the same list. Children that are the same list object are swapped
   * once per occurrence. Every list keeps its multiset and length; a child that
   * occurs once ends as MutateOne makes it. Earlier swaps stay when a later child raises.
   */
  method Mutate(children: seq<array<int>>, chance: real, rands: seq<real>, picks: seq<(int, int)>, asWritten: bool)
    returns (r: Result<seq<array<int>>, GaError>)
    requires |rands| == |children| && |picks| == |children|
    requires forall i :: 0 <= i < |children| && SampleBound(children, i, asWritten) >= 2 ==>
      IsSample(picks[i], SampleBound(children, i, asWritten))
    modifies set i | 0 <= i < |children| :: children[i]
    ensures forall i :: 0 <= i < |children| ==> multiset(children[i][..]) == multiset(old(children[i][..]))
    ensures r.Failure? <==> exists i :: 0 <= i < |children| && MutationFails(children, i, chance, rands, picks, asWritten)
    ensures r.Success? ==> r.value == children
    ensures r.Success? ==> forall i :: 0 <= i < |children| && Unshared(children, i) ==>
      Success(children[i][..]) == MutateOne(old(children[i][..]), rands[i], chance, picks[i], SampleBound(children, i, asWritten))
  {
    var mutants: seq<array<int>> := [];
    for i := 0 to |children|
      invariant mutants == children[..i]
      invariant forall j :: 0 <= j < |children| ==> multiset(children[j][..]) == multiset(old(children[j][..]))
      invariant forall j :: 0 <= j < i ==> !MutationFails(children, j, chance, rands, picks, asWritten)
      invariant forall j :: 0 <= j < i && Unshared(children, j) ==>
        Success(children[j][..]) == MutateOne(old(children[j][..]), rands[j], chance, picks[j], SampleBound(children, j, asWritten))
      invariant forall j :: i <= j < |children| && Unshared(children, j) ==> children[j][..] == old(children[j][..])
    {
      var child := children[i];
      var error := MutateChild(child, rands[i], chance, picks[i], SampleBound(children, i, asWritten));
      if error.Some? {
        assert MutationFails(children, i, chance, rands, picks, asWritten);
        return Failure(error.value);
      }
      assert forall j :: 0 <= j < |children| && j != i && Unshared(children, j) ==> children[j] != child;
      mutants := mutants + [child];
    }
    return Success(mutants);
  }

  /** One child of mutate, swapped in place as MutateOne says; the error it raises, if any. */
  method MutateChild(child: array<int>, rand: real, chance: real, pick: (int, int), bound: int) returns (error: Option<GaError>)
    requires bound >= 2 ==> IsSample(pick, bound)
    modifies child
    ensures multiset(child[..]) == multiset(old(child[..]))
    ensures var expected := MutateOne(old(child[..]), rand, chance, pick, bound);
      if error.None? then expected == Success(child[..]) else expected == Failure(error.value)
  {
    if rand < chance {
      if bound < 2 {
        return Some(SampleTooLarge);
      }
      if pick.0 >= child.Length || pick.1 >= child.Length {
        return Some(IndexOutOfRange);
      }
      SwapMultiset(child, pick.0, pick.1);
    }
    return None;
  }

  /** The in-place swap of the source, on one list object. */
  method SwapMultiset(child: array<int>, i1: nat, i2: nat)
    requires i1 < child.Length && i2 < child.Length
    modifies child
    ensures child[..] == Swap(old(child[..]), i1, i2)
    ensures multiset(child[..]) == multiset(old(child[..]))
  {
    SwapKeepsMultiset(child[..], i1, i2);
    child[i1], child[i2] := child[i2], child[i1];
  }

  /**
   * As written, the swap indices come from range(len(children)), not from the child:
   * with three children of length two, the sample (0, 2) is one random.sample can
   * draw, and the swap raises.
   */
  lemma AsWrittenSampleOverruns()
    ensures IsSample((0, 2), 3)
    ensures MutateOne([5, 6], 0.0, 0.1, (0, 2), 3) == Failure(IndexOutOfRange)
  {
  }

  /**
   * As written, a swap moves only positions below the number of children: with the two
   * children crossover returns, only the first two genes of a chromosome can move.
   */
  lemma AsWrittenSwapsOnlyLeadingGenes(child: seq<int>, rand: real, chance: real, pick: (int, int), children: nat)
    requires children >= 2 ==> IsSample(pick, children)
    ensures MutateOne(child, rand, chance, pick, children).Success? ==>
      forall k :: children <= k < |child| ==> MutateOne(child, rand, chance, pick, children).value[k] == child[k]
  {
  }

  /**
   * With the indices sampled from the child itself, a child of two or more genes never
   * raises, and any two distinct positions can be swapped.
   */
  lemma CorrectedSampleFits(child: seq<int>, rand: real, chance: real, i: nat, j: nat)
    requires i < |child| && j < |child| && i != j
    ensures MutateOne(child, rand, chance, (i, j), |child|).Success?
    ensures rand < chance ==> MutateOne(child, rand, chance, (i, j), |child|).value == Swap(child, i, j)
  {
  }

  // ----------------------------------------------------------------- crossover

  /**
   * The cut points the draws can give: cross_point_1 from randint(0, 17 - min_distance);
   * cross_point_2 is 17 when exactly min_distance is left, otherwise from
   * randint(cross_point_1 + min_distance, 17).
   */
  predicate CutPoints(minDistance: int, cut1: int, cut2: int) {
    0 <= cut1 <= ProductSize - minDistance &&
    if ProductSize - cut1 == minDistance then cut2 == ProductSize
    else cut1 + minDistance <= cut2 <= ProductSize
  }

  /** The entries parent keeps between the cut points: indices cut1 + 1 to cut2. */
  function Segment(parent: Chromosome, cut1: nat, cut2: int): (keep: Chromosome)
    requires cut1 < cut2 ==> cut2 < |parent|
    ensures |keep| == if cut1 < cut2 then cut2 - cut1 else 0
  {
    if cut1 < cut2 then parent[cut1 + 1..cut2 + 1] else []
  }

  /** [x for x in s if x not in keep]. */
  function Without(s: Chromosome, keep: Chromosome): (r: Chromosome)
    ensures forall x :: x in r <==> x in s && x !in keep
  {
    if s == [] then []
    else if s[|s| - 1] in keep then Without(s[..|s| - 1], keep)
    else Without(s[..|s| - 1], keep) + [s[|s| - 1]]
  }

  /**
   * The children once the segments are known. Each child starts with the first
   * cut1 + 1 genes of the other parent's remainder, then its own segment, then the
   * rest of that remainder. Both fills run up to the length of the second remainder,
   * so a first remainder that is longer is cut short, and one that is shorter raises.
   */
  function Fill(rest1: Chromosome, rest2: Chromosome, keep1: Chromosome, keep2: Chromosome, cut1: nat): (r: Result<(Chromosome, Chromosome), GaError>)
    ensures r.Failure? <==> |rest1| <= cut1 || |rest2| <= cut1 || |rest1| < |rest2|
    ensures r.Success? ==>
      |r.value.0| == |rest2| + |keep1| && |r.value.1| == |rest2| + |keep2| &&
      r.value.0[cut1 + 1..cut1 + 1 + |keep1|] == keep1 &&
      r.value.1[cut1 + 1..cut1 + 1 + |keep2|] == keep2 &&
      r.value.0[..cut1 + 1] + r.value.0[cut1 + 1 + |keep1|..] == rest1[..|rest2|] &&
      r.value.1[..cut1 + 1] + r.value.1[cut1 + 1 + |keep2|..] == rest2
  {
    if |rest1| <= cut1 || |rest2| <= cut1 || |rest1| < |rest2| then Failure(IndexOutOfRange)
    else
      var child1 := rest1[..cut1 + 1] + keep1 + rest1[cut1 + 1..|rest2|];
      var child2 := rest2[..cut1 + 1] + keep2 + rest2[cut1 + 1..];
      assert child1[..cut1 + 1] == rest1[..cut1 + 1] && child1[cut1 + 1 + |keep1|..] == rest1[cut1 + 1..|rest2|];
      assert child2[..cut1 + 1] == rest2[..cut1 + 1] && child2[cut1 + 1 + |keep2|..] == rest2[cut1 + 1..];
      assert rest1[..cut1 + 1] + rest1[cut1 + 1..|rest2|] == rest1[..|rest2|];
      assert rest2[..cut1 + 1] + rest2[cut1 + 1..] == rest2;
      Success((child1, child2))
  }

  /** Whether collecting the segments runs past the end of a parent. */
  predicate SegmentOverruns(parent1: Chromosome, parent2: Chromosome, cut1: nat, cut2: int) {
    cut1 < cut2 && (|parent1| <= cut2 || |parent2| <= cut2)
  }

  /**
   * The order crossover. Each child keeps its own parent's genes between the cut points
   * in place and fills the positions outside them with the genes of the other parent
   * that are not in that segment, in the other parent's order.
   */
  function OrderCrossover(parent1: Chromosome, parent2: Chromosome, cut1: nat, cut2: int): (r: Result<(Chromosome, Chromosome), GaError>)
    ensures SegmentOverruns(parent1, parent2, cut1, cut2) ==> r == Failure(IndexOutOfRange)
    ensures r.Success? && cut1 < cut2 ==>
      cut2 < |r.value.0| && cut2 < |r.value.1| &&
      r.value.0[cut1 + 1..cut2 + 1] == parent1[cut1 + 1..cut2 + 1] &&
      r.value.1[cut1 + 1..cut2 + 1] == parent2[cut1 + 1..cut2 + 1]
    ensures r.Success? ==>
      var keep1, keep2 := Segment(parent1, cut1, cut2), Segment(parent2, cut1, cut2);
      var rest1, rest2 := Without(parent2, keep1), Without(parent1, keep2);
      cut1 < |rest2| <= |rest1| && |r.value.0| == |rest2| + |keep1| && |r.value.1| == |rest2| + |keep2|
    ensures r.Success? ==>
      var keep1, keep2 := Segment(parent1, cut1, cut2), Segment(parent2, cut1, cut2);
      r.value.0[..cut1 + 1] + r.value.0[cut1 + 1 + |keep1|..] == Without(parent2, keep1)[..|Without(parent1, keep2)|] &&
      r.value.1[..cut1 + 1] + r.value.1[cut1 + 1 + |keep2|..] == Without(parent1, keep2)
  {
    if SegmentOverruns(parent1, parent2, cut1, cut2) then Failure(IndexOutOfRange)
    else
      var keep1, keep2 := Segment(parent1, cut1, cut2), Segment(parent2, cut1, cut2);
      Fill(Without(parent2, keep1), Without(parent1, keep2), keep1, keep2, cut1)
  }

  /** The first loop of crossover: the genes at indices cut1 + 1 to cut2 of both parents. */
  method KeepSegments(parent1: Chromosome, parent2: Chromosome, cut1: nat, cut2: int)
    returns (r: Result<(Chromosome, Chromosome), GaError>)
    ensures r.Failure? <==> SegmentOverruns(parent1, parent2, cut1, cut2)
    ensures r.Success? ==> r.value == (Segment(parent1, cut1, cut2), Segment(parent2, cut1, cut2))
  {
    var keep1: Chromosome := [];
    var keep2: Chromosome := [];
    var i := cut1 + 1;
    while i < cut2 + 1
      invariant cut1 + 1 <= i && (cut1 < cut2 ==> i <= cut2 + 1) && (cut2 <= cut1 ==> i == cut1 + 1)
      invariant i == cut1 + 1 ==> keep1 == [] && keep2 == []
      invariant cut1 + 1 < i ==>
        i <= |parent1| && i <= |parent2| && keep1 == parent1[cut1 + 1..i] && keep2 == parent2[cut1 + 1..i]
    {
      if i >= |parent1| || i >= |parent2| {
        return Failure(IndexOutOfRange);
      }
      keep1 := keep1 + [parent1[i]];
      keep2 := keep2 + [parent2[i]];
      i := i + 1;
    }
    if cut1 < cut2 {
      assert i == cut2 + 1;
    }
    return Success((keep1, keep2));
  }

  /** The two filling loops of crossover around the segments. */
  method FillChildren(rest1: Chromosome, rest2: Chromosome, keep1: Chromosome, keep2: Chromosome, cut1: nat)
    returns (r: Result<(Chromosome, Chromosome), GaError>)
    ensures r == Fill(rest1, rest2, keep1, keep2, cut1)
  {
    var child1: Chromosome := [];
    var child2: Chromosome := [];
    for j := 0 to cut1 + 1
      invariant j <= |rest1| && j <= |rest2|
      invariant child1 == rest1[..j] && child2 == rest2[..j]
    {
      if j >= |rest1| || j >= |rest2| {
        return Failure(IndexOutOfRange);
      }
      child1 := child1 + [rest1[j]];
      child2 := child2 + [rest2[j]];
    }
    child1 := child1 + keep1;
    child2 := child2 + keep2;
    for j := cut1 + 1 to |rest2|
      invariant j <= |rest1|
      invariant child1 == rest1[..cut1 + 1] + keep1 + rest1[cut1 + 1..j]
      invariant child2 == rest2[..cut1 + 1] + keep2 + rest2[cut1 + 1..j]
    {
      if j >= |rest1| {
        return Failure(IndexOutOfRange);
      }
      child1 := child1 + [rest1[j]];
      child2 := child2 + [rest2[j]];
    }
    assert child2 == rest2[..cut1 + 1] + keep2 + rest2[cut1 + 1..];
    return Success((child1, child2));
  }

  /**
   * crossover: above the reproduction probability the parents come back unchanged;
   * a minimum distance above ProductSize leaves the first cut point no range to be
   * drawn from; otherwise the segments, the remainders (the filter comprehensions)
   * and the children.
   */
  method Crossover(ga: GeneticAlgorithm, parent1: Chromosome, parent2: Chromosome, rand: real, cut1: nat, cut2: int)
    returns (r: Result<(Chromosome, Chromosome), GaError>)
    requires rand <= ga.reproducingProb && ga.minDistanceCrossover <= ProductSize ==>
      CutPoints(ga.minDistanceCrossover, cut1, cut2)
    ensures rand > ga.reproducingProb ==> r == Success((parent1, parent2))
    ensures rand <= ga.reproducingProb && ga.minDistanceCrossover > ProductSize ==> r == Failure(EmptyRange)
    ensures rand <= ga.reproducingProb && ga.minDistanceCrossover <= ProductSize ==>
      r == OrderCrossover(parent1, parent2, cut1, cut2)
  {
    if rand > ga.reproducingProb {
      return Success((parent1, parent2));
    }
    if ProductSize - ga.minDistanceCrossover < 0 {
      return Failure(EmptyRange);
    }
    var keep := KeepSegments(parent1, parent2, cut1, cut2);
    if keep.Failure? {
      return Failure(IndexOutOfRange);
    }
    var (keep1, keep2) := keep.value;
    r := FillChildren(Without(parent2, keep1), Without(parent1, keep2), keep1, keep2, cut1);
  }

  /** A chromosome without repeated genes. */
  ghost predicate Distinct(s: Chromosome) {
    forall x :: multiset(s)[x] <= 1
  }

  /** The filter drops every occurrence of the kept genes and keeps the rest. */
  lemma {:induction false} WithoutCount(s: Chromosome, keep: Chromosome, x: int)
    ensures multiset(Without(s, keep))[x] == if x in keep then 0 else multiset(s)[x]
  {
    if s != [] {
      WithoutCount(s[..|s| - 1], keep, x);
      assert s == s[..|s| - 1] + [s[|s| - 1]];
    }
  }

  /** A distinct chromosome holds each of its genes once. */
  lemma DistinctCount(s: Chromosome, x: int)
    requires Distinct(s)
    ensures multiset(s)[x] == if x in s then 1 else 0
  {
  }

  /**
   * Taking a distinct parent's segment out of another arrangement of the same genes
   * leaves its other genes: remainder and segment together are the other parent.
   */
  lemma RemainderAndSegment(parent1: Chromosome, parent2: Chromosome, cut1: nat, cut2: int)
    requires Distinct(parent1) && multiset(parent1) == multiset(parent2)
    requires cut1 < cut2 ==> cut2 < |parent1|
    ensures multiset(Without(parent2, Segment(parent1, cut1, cut2))) + multiset(Segment(parent1, cut1, cut2)) == multiset(parent2)
  {
    var keep := Segment(parent1, cut1, cut2);
    if cut1 < cut2 {
      assert parent1 == parent1[..cut1 + 1] + keep + parent1[cut2 + 1..];
    }
    assert multiset(keep) <= multiset(parent1);
    forall x
      ensures multiset(Without(parent2, keep))[x] + multiset(keep)[x] == multiset(parent2)[x]
    {
      WithoutCount(parent2, keep, x);
      DistinctCount(parent1, x);
      if x in keep {
        assert multiset(keep)[x] >= 1;
      }
    }
    assert multiset(Without(parent2, keep)) + multiset(keep) == multiset(parent2);
  }

  /** Filling from remainders of equal length puts every gene of remainder and segment in. */
  lemma FillKeepsGenes(rest1: Chromosome, rest2: Chromosome, keep1: Chromosome, keep2: Chromosome, cut1: nat)
    requires cut1 < |rest1| == |rest2|
    ensures Fill(rest1, rest2, keep1, keep2, cut1).Success?
    ensures var children := Fill(rest1, rest2, keep1, keep2, cut1).value;
      multiset(children.0) == multiset(rest1) + multiset(keep1) &&
      multiset(children.1) == multiset(rest2) + multiset(keep2)
  {
    assert rest1[cut1 + 1..|rest2|] == rest1[cut1 + 1..];
    assert rest1 == rest1[..cut1 + 1] + rest1[cut1 + 1..];
    assert rest2 == rest2[..cut1 + 1] + rest2[cut1 + 1..];
  }

  /**
   * The crossover of two arrangements of the same distinct genes succeeds, and each
   * child is an arrangement of those genes again, of the parents' length.
   */
  lemma CrossoverKeepsPermutation(parent1: Chromosome, parent2: Chromosome, cut1: nat, cut2: int)
    requires Distinct(parent1) && multiset(parent1) == multiset(parent2)
    requires cut1 < |parent1| && cut2 < |parent1|
    ensures OrderCrossover(parent1, parent2, cut1, cut2).Success?
    ensures var children := OrderCrossover(parent1, parent2, cut1, cut2).value;
      multiset(children.0) == multiset(parent1) && multiset(children.1) == multiset(parent1) &&
      |children.0| == |parent1| && |children.1| == |parent1|
  {
    assert |parent2| == |multiset(parent2)| == |parent1|;
    assert Distinct(parent2);
    var keep1, keep2 := Segment(parent1, cut1, cut2), Segment(parent2, cut1, cut2);
    RemainderAndSegment(parent1, parent2, cut1, cut2);
    RemainderAndSegment(parent2, parent1, cut1, cut2);
    var rest1, rest2 := Without(parent2, keep1), Without(parent1, keep2);
    assert |rest1| + |keep1| == |parent1| by {
      assert |multiset(rest1) + multiset(keep1)| == |multiset(parent2)|;
    }
    assert |rest2| + |keep2| == |parent1| by {
      assert |multiset(rest2) + multiset(keep2)| == |multiset(parent1)|;
    }
    FillKeepsGenes(rest1, rest2, keep1, keep2, cut1);
    assert !SegmentOverruns(parent1, parent2, cut1, cut2);
    assert OrderCrossover(parent1, parent2, cut1, cut2) == Fill(rest1, rest2, keep1, keep2, cut1);
  }

  // ------------------------------------------------------- find_best_chromosome

  /**
   * What find_best_chromosome returns as written: best_fitness stays the fitness of the
   * first chromosome, so the result is the last chromosome fitter than the first one,
   * or the first one when none is. Scans the first n chromosomes.
   */
  function LastFitterThanFirst(chromosomes: seq<Chromosome>, fit: Chromosome -> real, n: nat): (i: nat)
    requires 0 < n <= |chromosomes|
    ensures i < n
    ensures i == 0 || fit(chromosomes[i]) > fit(chromosomes[0])
    ensures forall j :: i < j < n ==> fit(chromosomes[j]) <= fit(chromosomes[0])
  {
    if n == 1 then 0
    else if fit(chromosomes[n - 1]) > fit(chromosomes[0]) then n - 1
    else LastFitterThanFirst(chromosomes, fit, n - 1)
  }

  /** find_best_chromosome as written; an empty list raises at chromosomes[0]. */
  method FindBestChromosome(chromosomes: seq<Chromosome>, fit: Chromosome -> real) returns (r: Result<Chromosome, GaError>)
    ensures r.Failure? <==> chromosomes == []
    ensures r.Success? ==> r.value == chromosomes[LastFitterThanFirst(chromosomes, fit, |chromosomes|)]
  {
    if chromosomes == [] {
      return Failure(IndexOutOfRange);
    }
    var best := chromosomes[0];
    var bestIndex := 0;
    var bestFitness := fit(best);
    for i := 0 to |chromosomes|
      invariant i > 0 ==> bestIndex == LastFitterThanFirst(chromosomes, fit, i)
      invariant i == 0 ==> bestIndex == 0
      invariant best == chromosomes[bestIndex] && bestFitness == fit(chromosomes[0])
    {
      var value := fit(chromosomes[i]);
      if value > bestFitness {
        best := chromosomes[i];
        bestIndex := i;
      }
    }
    return Success(best);
  }

  /**
   * As written, find_best_chromosome can miss the fittest chromosome: with fitness
   * 1, 3 and 2 it returns the third.
   */
  lemma AsWrittenMissesFittest()
    ensures var chromosomes: seq<Chromosome> := [[1], [3], [2]];
      var fit := (c: Chromosome) => if c == [] then 0.0 else c[0] as real;
      var i := LastFitterThanFirst(chromosomes, fit, 3);
      i == 2 && fit(chromosomes[i]) < fit(chromosomes[1])
  {
  }

  /**
   * find_best_chromosome with best_fitness raised along with best: the first chromosome
   * of the highest fitness.
   */
  method FindFittestChromosome(chromosomes: seq<Chromosome>, fit: Chromosome -> real) returns (r: Result<Chromosome, GaError>)
    ensures r.Failure? <==> chromosomes == []
    ensures r.Success? ==> r.value in chromosomes && forall c :: c in chromosomes ==> fit(c) <= fit(r.value)
    ensures r.Success? ==>
      exists i :: 0 <= i < |chromosomes| && chromosomes[i] == r.value &&
        forall j :: 0 <= j < i ==> fit(chromosomes[j]) < fit(r.value)
  {
    if chromosomes == [] {
      return Failure(IndexOutOfRange);
    }
    var best := chromosomes[0];
    var bestIndex := 0;
    var bestFitness := fit(best);
    for i := 0 to |chromosomes|
      invariant bestIndex < |chromosomes| && best == chromosomes[bestIndex] && bestFitness == fit(best)
      invariant bestIndex <= i || bestIndex == 0
      invariant forall j :: 0 <= j < i ==> fit(chromosomes[j]) <= bestFitness
      invariant forall j :: 0 <= j < bestIndex ==> fit(chromosomes[j]) < bestFitness
    {
      var value := fit(chromosomes[i]);
      if value > bestFitness {
        best := chromosomes[i];
        bestIndex := i;
        bestFitness := value;
      }
    }
    return Success(best);
  }

  // ------------------------------------------------------ find_best_chromosomes

  /** Fitness never rises along s. */
  predicate NonIncreasing<T>(s: seq<T>, fit: T -> real) {
    forall i, j :: 0 <= i < j < |s| ==> fit(s[i]) >= fit(s[j])
  }

  /** x placed after every entry at least as fit (a stable descending insertion). */
  function InsertByFitness<T>(x: T, sorted: seq<T>, fit: T -> real): (r: seq<T>)
    requires NonIncreasing(sorted, fit)
    ensures multiset(r) == multiset(sorted) + multiset{x}
    ensures NonIncreasing(r, fit)
    ensures r != [] && (r[0] == x || (sorted != [] && r[0] == sorted[0]))
  {
    if sorted == [] || fit(sorted[0]) < fit(x) then
      ConsKeepsNonIncreasing(x, sorted, fit);
      [x] + sorted
    else
      var rest := InsertByFitness(x, sorted[1..], fit);
      assert sorted == [sorted[0]] + sorted[1..];
      assert |sorted| > 1 ==> fit(sorted[0]) >= fit(sorted[1]);
      ConsKeepsNonIncreasing(sorted[0], rest, fit);
      [sorted[0]] + rest
  }

  /** A head at least as fit as the first entry keeps a non-increasing list non-increasing. */
  lemma ConsKeepsNonIncreasing<T>(h: T, rest: seq<T>, fit: T -> real)
    requires NonIncreasing(rest, fit)
    requires rest != [] ==> fit(h) >= fit(rest[0])
    ensures NonIncreasing([h] + rest, fit)
  {
    forall i, j | 0 <= i < j < |[h] + rest|
      ensures fit(([h] + rest)[i]) >= fit(([h] + rest)[j])
    {
      if i == 0 && j > 1 {
        assert fit(rest[0]) >= fit(rest[j - 1]);
      }
    }
  }

  /** The chromosomes by non-increasing fitness, equal ones in their order (sort with reverse=True). */
  function SortByFitness<T>(s: seq<T>, fit: T -> real): (r: seq<T>)
    ensures multiset(r) == multiset(s)
    ensures NonIncreasing(r, fit)
  {
    if s == [] then []
    else
      assert s == s[..|s| - 1] + [s[|s| - 1]];
      InsertByFitness(s[|s| - 1], SortByFitness(s[..|s| - 1], fit), fit)
  }

  /**
   * find_best_chromosomes: the first pop_size chromosomes by fitness; more than there
   * are raises. No chromosome left out is fitter than one taken.
   */
  function FindBestChromosomes(ga: GeneticAlgorithm, chromosomes: seq<Chromosome>, fit: Chromosome -> real): (r: Result<seq<Chromosome>, GaError>)
    ensures r.Failure? <==> ga.popSize > |chromosomes|
    ensures r.Success? ==> |r.value| == ga.popSize
    ensures r.Success? ==> multiset(r.value) <= multiset(chromosomes)
    ensures r.Success? ==> NonIncreasing(r.value, fit)
    ensures r.Success? ==> forall x, y :: x in multiset(chromosomes) - multiset(r.value) && y in r.value ==> fit(x) <= fit(y)
  {
    if ga.popSize > |chromosomes| then Failure(IndexOutOfRange)
    else
      var sorted := SortByFitness(chromosomes, fit);
      assert |sorted| == |multiset(sorted)| == |multiset(chromosomes)| == |chromosomes|;
      TopOfSorted(sorted, fit, ga.popSize);
      Success(sorted[..ga.popSize])
  }

  /** In a sorted list the entries past k are no fitter than those before k. */
  lemma TopOfSorted<T>(sorted: seq<T>, fit: T -> real, k: nat)
    requires NonIncreasing(sorted, fit) && k <= |sorted|
    ensures multiset(sorted[..k]) <= multiset(sorted)
    ensures forall x, y :: x in multiset(sorted) - multiset(sorted[..k]) && y in sorted[..k] ==> fit(x) <= fit(y)
  {
    assert sorted == sorted[..k] + sorted[k..];
    assert multiset(sorted) - multiset(sorted[..k]) == multiset(sorted[k..]);
    forall x, y | x in multiset(sorted) - multiset(sorted[..k]) && y in sorted[..k]
      ensures fit(x) <= fit(y)
    {
      assert x in sorted[k..];
      var i :| 0 <= i < k && sorted[i] == y;
      var j :| k <= j < |sorted| && sorted[j] == x;
    }
  }
}
