# ACO-Python: a verified model of the ant colony and genetic algorithm core

ACO-Python finds short routes through a grid maze with ant colony optimisation, then
orders the visits to a set of products with a genetic algorithm. This project models
that core in Dafny and proves properties of the model.

- **Maze** (`maze.dfy`, module `Mazes`). It holds a matrix of pheromone entries: one
  entry per accessible cell and direction. Initialisation seeds an entry with 1 where the
  neighbour in that direction is accessible. Evaporation scales every entry of an
  accessible cell by `1 - rho`. A route of length `n` deposits `q / n` on the entry for
  each of its first `n - 2` steps.
- **Crossroad** (`crossroad.dfy`, module `Crossroads`). A position together with the
  number of steps taken since the ant left it.
- **Ant** (`walking.dfy` and `ant.dfy`). The ant walks from the start until it stands on
  the end:
  - It does not choose a direction towards a cell it has visited (the tabu list). It can
    still stand on a visited cell again: a backtrack returns it to a crossroad, and the
    roulette wheel's south fallback may step into a visited cell.
  - It chooses among the possible directions, either by a roulette wheel over the
    pheromone weights or greedily.
  - It keeps a stack of crossroads, cells with more than one possible direction.
  - At a dead end it returns to the last crossroad and removes the steps it took after
    leaving it.

  The walk is specified by functions on values in module `Walking`: `Pick`, `Iterate`
  and `Run`. Class `Ants.Ant` performs the same walk imperatively and is proved equal to
  `Run`.
- **Colony** (`colony.dfy`, module `Colony`). Each generation does the following:
  1. The ants walk.
  2. The field evaporates and takes the deposits of the ants' routes.
  3. The shortest route of the generation is recorded.
  4. The best route is updated when it strictly improves; otherwise the stagnation
     counter grows.
- **Genetic algorithm** (`genetic.dfy`, module `Genetic`):
  - roulette selection of one chromosome;
  - selection of parents, where each pick removes the chromosome from the pool;
  - a swap mutation;
  - order crossover between two cut points;
  - the choice of the best chromosome, and of the top chromosomes by fitness.
- **Primitives** (`primitives.dfy`). Stand-ins for the value types these files share.

Randomness is a parameter everywhere:
- a draw for each ant step;
- the roulette values;
- the mutation's two sampled positions;
- the crossover cut points.

Pheromone values and probabilities are `real`.

Where the model departs from the code as written:
- `Maze.py:31` starts the pheromone matrix from the wall matrix itself, which overwrites
  the walls. The model keeps the pheromones in an array of their own.
- `Maze.py:37-38` tests the east and south neighbours with `<=` against the width and
  length, which reads one cell past the grid. The model uses the grid bounds.
- `Maze.py:68` defines `add_pheromone_routes` without the `start` argument that
  `AntColonyOptimization.py:68` passes, so that call raises a TypeError as written.
  `add_pheromone_route` (`Maze.py:55-57`) starts from the maze's own start, stored at `Maze.py:24`.
- `Maze.py:62` adds the deposit to the Python builtin `dir` rather than to the step's
  direction.

  `Mazes.Maze.AddPheromoneRoutes` and `Mazes.Maze.AddPheromoneRoute` take the start as a
  parameter, which the colony passes from its path specification. The deposit goes on the
  step's direction.
- `Ant.py:58` raises the count of the top crossroad after a backtrack as well. This is
  the first Finding below. `Ants.Ant` follows the corrected `Walking.Iterate`.

## Model

| member | source | states |
|---|---|---|
| Primitives.DirToInt | ACO-Python-master/src/Ant.py:17-20 | the probability index of a direction is below 4, and IntToDir inverts it |
| Primitives.SurroundingPheromone.Add | ACO-Python-master/src/Maze.py:62 | adding to one direction's entry raises that entry by the amount and leaves the other three unchanged |
| Primitives.SurroundingPheromone.Scale | ACO-Python-master/src/Maze.py:85-89 | every entry is multiplied by the factor |
| Primitives.WalkAppend | ACO-Python-master/src/Maze.py:63 | walking a route and then one more step reaches the same cell as walking the extended route |
| Primitives.AddDirectionIsOneStep | ACO-Python-master/src/Ant.py:110 | a move changes exactly one coordinate, by exactly one |
| Crossroads.Crossroad.constructor | ACO-Python-master/src/Crossroad.py:3-5 | a new crossroad holds the given position and step count |
| Crossroads.Crossroad.GetPosition | ACO-Python-master/src/Crossroad.py:7-8 | returns the stored position |
| Crossroads.Crossroad.GetSteps | ACO-Python-master/src/Crossroad.py:10-11 | returns the stored step count |
| Crossroads.Crossroad.IncreaseStep | ACO-Python-master/src/Crossroad.py:13-15 | the step count grows by one, the position is kept, and the same object is returned |
| Mazes.Maze.constructor | ACO-Python-master/src/Maze.py:20-27 | stores walls, dimensions, start and end; the fresh pheromone matrix holds the initial seeding, is sound and is non-negative |
| Mazes.Maze.InitializePheromones | ACO-Python-master/src/Maze.py:30-46 | a blocked cell gets four zeros; an open cell gets 1 exactly in the directions of open neighbours on the grid; the result is sound (a non-zero entry leads from an open cell to an open cell) and non-negative |
| Mazes.Maze.SeedCell | ACO-Python-master/src/Maze.py:35-43 | computes the initial entries of one cell |
| Mazes.Maze.InitialCellSeeds | ACO-Python-master/src/Maze.py:35-43 | blocked cells are closed; an open cell's entry is 1 exactly towards an open neighbour; a non-zero entry joins two open cells; entries are non-negative |
| Mazes.Maze.Evaporate | ACO-Python-master/src/Maze.py:74-89 | every open cell's entries are scaled by 1 - rho and blocked cells are untouched; evaporation keeps soundness; rho = 0 changes nothing; with 0 <= rho <= 1 entries stay non-negative and never rise |
| Mazes.Maze.EvaporateColumn | ACO-Python-master/src/Maze.py:83-89 | one column is evaporated and every other column is unchanged |
| Mazes.EvaporationBounds | ACO-Python-master/src/Maze.py:85-88 | for 0 <= rho <= 1 an evaporated non-negative entry lies between 0 and its old value |
| Mazes.ScaleByOne | ACO-Python-master/src/Maze.py:85-89 | scaling by 1 (rho = 0) leaves a cell unchanged |
| Mazes.Maze.Snapshot | ACO-Python-master/src/Maze.py:104-105 | the field the ants read has the maze's dimensions, and each cell equals get_surrounding_pheromone at that coordinate |
| Mazes.Maze.GetSurroundingPheromone | ACO-Python-master/src/Maze.py:104-105 | a definition without an ensures: it computes the four entries stored at the position's cell, for an in-bounds position of a valid maze |
| Mazes.Maze.InBounds | ACO-Python-master/src/Maze.py:116-117 | a definition without an ensures: it computes whether 0 <= x < width and 0 <= y < length, with x_between and y_between taken as half-open ranges |
| Colony.SnapshotInBounds | ACO-Python-master/src/Maze.py:116-117 | a coordinate is in bounds exactly when it indexes a cell of the field the ants read |
| Mazes.DepositSteps | ACO-Python-master/src/Maze.py:60 | a route of length n deposits on n - 2 steps, and on none when it has at most 2 steps |
| Mazes.Maze.AddPheromoneRoute | ACO-Python-master/src/Maze.py:55-63 | an empty route fails (division by zero) and changes nothing; otherwise every entry grows by q divided by the route's length, times the number of counted steps that leave that cell in that direction, and nothing else changes |
| Mazes.VisitsPositive | ACO-Python-master/src/Maze.py:60-63 | an entry receives a deposit exactly when one of the counted steps leaves that cell in that direction |
| Mazes.LaidIsVisitsTimesAmount | ACO-Python-master/src/Maze.py:60-63 | the step-by-step deposit equals the visit count times the amount per step |
| Mazes.DepositIsLaid | ACO-Python-master/src/Maze.py:56-63 | the closed-form deposit of a route equals q divided by the route's length, laid on each counted step |
| Mazes.ShortRouteDepositsNothing | ACO-Python-master/src/Maze.py:60 | routes of at most two steps deposit nothing |
| Mazes.NonEmptyPrefix | ACO-Python-master/src/Maze.py:68-70 | the routes deposited before the first empty route, which raises |
| Mazes.Maze.AddPheromoneRoutes | ACO-Python-master/src/Maze.py:68-70 | succeeds exactly when no route is empty; each entry grows by the total deposit of the routes before the first empty one |
| Mazes.TotalDepositConcat | ACO-Python-master/src/Maze.py:68-70 | depositing two lists of routes in sequence adds their totals |
| Mazes.TotalDepositOrderFree | ACO-Python-master/src/Maze.py:68-70 | the total deposit does not depend on the order of the routes |
| Walking.RouletteWheel | ACO-Python-master/src/Ant.py:16-30 | the chosen direction's cumulative weight first exceeds the draw, with south as the fallback |
| Walking.RoulettePicksPositive | ACO-Python-master/src/Ant.py:16-30 | a draw in [0, total weight) picks a direction of positive weight |
| Walking.RouletteSouthFallback | ACO-Python-master/src/Ant.py:22-30 | with non-negative weights, any draw at or above the sum of the first three weights returns south, whatever south's own weight, since the fourth sum is never tested |
| Walking.PossibleDirectionsAreThePossible | ACO-Python-master/src/Ant.py:121-137 | the possible directions are exactly those with a non-zero entry towards a cell outside the tabu list, each listed once |
| Walking.CrossroadIffTwoPossible | ACO-Python-master/src/Ant.py:73-75 | a cell is a crossroad exactly when two different directions are possible |
| Walking.Probabilities | ACO-Python-master/src/Ant.py:94-100 | four weights; a possible direction weighs its entry divided by the number of possible directions, and any other direction weighs 0 |
| Walking.ProbabilitiesInOrder | ACO-Python-master/src/Ant.py:94-100 | the weights are listed in the order east, north, west, south |
| Walking.PositiveWeightIffPossible | ACO-Python-master/src/Ant.py:94-100 | with non-negative entries a direction has positive weight exactly when it is possible |
| Walking.StochasticChoiceIsPossible | ACO-Python-master/src/Ant.py:102-104 | a roulette draw within the total weight picks a possible direction |
| Walking.FirstMaxIndex | ACO-Python-master/src/Ant.py:107 | the index of the first maximum weight |
| Walking.GreedyChoiceIsPossible | ACO-Python-master/src/Ant.py:106-107 | the greedy choice is a possible direction |
| Walking.Pick | ACO-Python-master/src/Ant.py:80-111 | a dead end with an empty stack raises; a dead end pops the top crossroad, returns to it and removes its steps, failing when they exceed the route; otherwise the ant moves one step in the chosen direction and appends it to the route |
| Walking.Enter | ACO-Python-master/src/Ant.py:53-56 | adds the position to the tabu list, reads its cell, and pushes a crossroad with 0 steps exactly when the cell is a crossroad; fails outside the field |
| Walking.Bump | ACO-Python-master/src/Ant.py:114-118 | only the top crossroad's count grows by one |
| Walking.IterateAsWritten | ACO-Python-master/src/Ant.py:53-58 | a definition without an ensures: it computes one loop body as the source runs it, entering the cell, then picking a direction, then raising the top crossroad's count whether the ant stepped or backtracked; it fails with the first failing part. Walking.AsWrittenBacktrackBreaksInv and Walking.AsWrittenUnderflows state what the extra count breaks |
| Walking.Iterate | ACO-Python-master/src/Ant.py:53-58 | a definition without an ensures: it computes the corrected loop body, which raises the top crossroad's count only after a forward step. Walking.IterateByParts and Walking.IterateKeepsInv state its properties |
| Walking.IterateByParts | ACO-Python-master/src/Ant.py:52-58 | one corrected iteration is the entry into the cell, then the pick, then one more step on the top crossroad after a forward move |
| Walking.RunUnfold | ACO-Python-master/src/Ant.py:50-59 | away from the end, the walk is one iteration followed by the walk on the remaining draws |
| Walking.Run | ACO-Python-master/src/Ant.py:50-59 | a definition without an ensures: it computes the find_route loop, returning the route once the walker stands on the end, failing with OutOfDraws when the draws run out, and otherwise iterating once per draw until an iteration fails. Walking.RunUnfold and Walking.RunReachesEnd state its properties |
| Walking.IterateKeepsInv | ACO-Python-master/src/Ant.py:52-58 | a corrected iteration keeps three things: the position is where the route leads, each crossroad's count matches its position, and the route stays in the field; a backtrack never removes more steps than the route holds |
| Walking.RunReachesEnd | ACO-Python-master/src/Ant.py:50-59 | a walk that returns stands on the end: its route leads from the start to the end through cells of the field and never underflows |
| Walking.FreshAntReachesEnd | ACO-Python-master/src/Ant.py:39-59 | the same for a new ant at the start |
| Walking.BumpBreaksMarks | ACO-Python-master/src/Ant.py:58 | an extra count on a consistent crossroad stack makes it inconsistent |
| Walking.AsWrittenBacktrackBreaksInv | ACO-Python-master/src/Ant.py:58 | at a dead end with two crossroads stacked, the corrected iteration keeps the invariant and the iteration as written breaks it |
| Walking.AsWrittenUnderflows | ACO-Python-master/src/Ant.py:84-93 | on a field shaped like TreeField, one sequence of draws makes the walk as written pop more steps than the route holds, while the corrected walk reaches the end by going south |
| Ants.MarksOf | ACO-Python-master/src/Ant.py:46 | the crossroad objects read as (position, steps) marks, one per object |
| Ants.Ant.constructor | ACO-Python-master/src/Ant.py:39-46 | a new ant stands on the start with an empty tabu list and an empty crossroad stack |
| Ants.Ant.IsPossibleDirection | ACO-Python-master/src/Ant.py:134-137 | true exactly when the entry is non-zero and the neighbour is not in the tabu list |
| Ants.Ant.GetPossibleDirections | ACO-Python-master/src/Ant.py:121-132 | returns PossibleDirections, whose meaning Walking.PossibleDirectionsAreThePossible states |
| Ants.Ant.IsCrossroad | ACO-Python-master/src/Ant.py:73-75 | true exactly when more than one direction is possible |
| Ants.Ant.Weigh | ACO-Python-master/src/Ant.py:94-100 | the loop fills the weight list as Walking.Probabilities specifies |
| Ants.Ant.ReturnToCrossroad | ACO-Python-master/src/Ant.py:88-93 | pops the top crossroad, moves the ant to it and removes its steps from the route; fails when the route is shorter than the count |
| Ants.Ant.PickDirection | ACO-Python-master/src/Ant.py:80-111 | changes the ant's state exactly as Walking.Pick does, with the same failures |
| Ants.Ant.StepAhead | ACO-Python-master/src/Ant.py:94-112 | with possible directions left, the ant moves one cell in the direction Walking.Choose picks and the route gains that direction; the crossroad stack is untouched |
| Ants.Ant.UpdateCrossroad | ACO-Python-master/src/Ant.py:114-118 | the top crossroad's count grows by one and nothing else changes |
| Ants.Ant.PushCrossroad | ACO-Python-master/src/Ant.py:55-56 | pushes a fresh crossroad with 0 steps at the current position and keeps the ones below |
| Ants.Ant.EnterCell | ACO-Python-master/src/Ant.py:53-56 | changes the ant's state exactly as Walking.Enter does |
| Ants.Ant.Advance | ACO-Python-master/src/Ant.py:57-58 | picks, then counts a forward step on the top crossroad, matching the corrected iteration |
| Ants.Ant.Iteration | ACO-Python-master/src/Ant.py:53-58 | one loop body changes the ant's state exactly as Walking.Iterate does |
| Ants.Ant.RunIteration | ACO-Python-master/src/Ant.py:52-58 | one loop body moves the walk on by one draw without changing its outcome |
| Ants.Ant.FindRoute | ACO-Python-master/src/Ant.py:50-59 | the route found equals Walking.Run from the ant's initial state, so by Walking.FreshAntReachesEnd it leads from start to end |
| Colony.LastShortestIsLastMinimum | ACO-Python-master/src/AntColonyOptimization.py:14-21 | the result is no longer than any route, and no later route has the same size |
| Colony.LastShortest | ACO-Python-master/src/AntColonyOptimization.py:17-21 | the route find_shortest keeps is one of the routes; Colony.LastShortestIsLastMinimum states which one |
| Colony.FindShortest | ACO-Python-master/src/AntColonyOptimization.py:14-21 | raises exactly on an empty list; otherwise returns the last shortest route |
| Colony.SumSizes | ACO-Python-master/src/AntColonyOptimization.py:71-73 | the loop computes the total size of the routes |
| Colony.FirstMinIndex | ACO-Python-master/src/AntColonyOptimization.py:77-82 | the first generation whose best size is minimal |
| Colony.FirstMinIndexAppend | ACO-Python-master/src/AntColonyOptimization.py:77-82 | a new generation becomes the first minimum exactly when it is strictly smaller |
| Colony.WalkAnt | ACO-Python-master/src/AntColonyOptimization.py:65-66 | a new ant on the field returns the route of Walking.Run |
| Colony.CollectRoutes | ACO-Python-master/src/AntColonyOptimization.py:63-66 | one route per ant, each what its ant walked on its draws, each leading to the end through the field |
| Colony.SnapshotRouteInBounds | ACO-Python-master/src/AntColonyOptimization.py:66-68 | every counted step of a route walked on the maze's field starts in the maze's bounds |
| Colony.AntColonyOptimization.constructor | ACO-Python-master/src/AntColonyOptimization.py:34-45 | stores the parameters; there is no best route, the best size is infinite, the counter is 0 and the histories are empty |
| Colony.AntColonyOptimization.UpdatePheromones | ACO-Python-master/src/AntColonyOptimization.py:67-68 | every entry becomes its evaporated value plus the total deposit of the routes before the first empty one; this succeeds exactly when no route is empty |
| Colony.AntColonyOptimization.RecordGeneration | ACO-Python-master/src/AntColonyOptimization.py:71-82 | appends the mean size and the shortest size; a strictly shorter route becomes the best and resets the counter, otherwise the counter grows by one; the bookkeeping invariant holds |
| Colony.AntColonyOptimization.GenOfAnts | ACO-Python-master/src/AntColonyOptimization.py:62-84 | evaporation and deposit as in UpdatePheromones; an empty generation or an empty route raises; otherwise the generation is recorded as in RecordGeneration |
| Colony.AntColonyOptimization.FindShortestRoute | ACO-Python-master/src/AntColonyOptimization.py:50-55 | runs exactly `generations` generations and returns the best route; after at least one generation there is a best route, and a best route that changed leads to the end |
| Genetic.RouletteIndexIsFirst | ACO-Python-master/src/GeneticAlgorithm.py:74-81 | the selected index is the first whose running fitness sum reaches the roulette value; without one, no prefix reaches it |
| Genetic.RouletteIndex | ACO-Python-master/src/GeneticAlgorithm.py:74-81 | an index found lies among the entries scanned; Genetic.RouletteIndexIsFirst states that it is the first whose running sum reaches the roulette value |
| Genetic.RouletteIndexStops | ACO-Python-master/src/GeneticAlgorithm.py:76-80 | once found, later entries do not change the selection |
| Genetic.SelectOne | ACO-Python-master/src/GeneticAlgorithm.py:64-81 | returns the chromosome at the first index whose running sum reaches the roulette value, or none |
| Genetic.SelectOneSelects | ACO-Python-master/src/GeneticAlgorithm.py:74-81 | a roulette value at most the total fitness always selects a chromosome |
| Genetic.IndexOfIsFirst | ACO-Python-master/src/GeneticAlgorithm.py:58 | list.index finds the first occurrence |
| Genetic.Pool.constructor | ACO-Python-master/src/GeneticAlgorithm.py:44-54 | the pool holds the given chromosomes and fitness lists |
| Genetic.PickOne | ACO-Python-master/src/GeneticAlgorithm.py:56-60 | selects one chromosome and removes it and its fitness from the pool, or leaves the pool as it was |
| Genetic.PickCount | ACO-Python-master/src/GeneticAlgorithm.py:55 | the number of picks int(pop_size / population_factor): it fails exactly on a zero factor, a negative factor gives no picks, and a positive one gives the floor of the quotient |
| Genetic.Picks | ACO-Python-master/src/GeneticAlgorithm.py:55-60 | each pick removes one chromosome and the fitness at its index, so the two lists shrink by the same amount and the chromosomes never outnumber the fitness entries |
| Genetic.PickMany | ACO-Python-master/src/GeneticAlgorithm.py:55-61 | the loop of picks matches the specification Genetic.Picks |
| Genetic.SelectParents | ACO-Python-master/src/GeneticAlgorithm.py:44-62 | a zero factor raises; otherwise the parents and the shrunken pool are those of Picks with population size // factor picks |
| Genetic.PicksConserve | ACO-Python-master/src/GeneticAlgorithm.py:56-60 | together, the parents and the remaining chromosomes are the input multiset |
| Genetic.PicksCount | ACO-Python-master/src/GeneticAlgorithm.py:55-60 | a selection without error has exactly count parents and count fewer chromosomes |
| Genetic.PicksKeepAligned | ACO-Python-master/src/GeneticAlgorithm.py:58-60 | removing by the same index keeps each fitness entry with its chromosome |
| Genetic.Swap | ACO-Python-master/src/GeneticAlgorithm.py:99-101 | exchanges two genes and keeps all others |
| Genetic.SwapKeepsMultiset | ACO-Python-master/src/GeneticAlgorithm.py:99-101 | a swap keeps the multiset of genes |
| Genetic.MutateOne | ACO-Python-master/src/GeneticAlgorithm.py:93-101 | a mutated child is a permutation; it is unchanged unless the draw is below the chance; it fails exactly when a mutation is due and a sampled index is outside the child |
| Genetic.Mutate | ACO-Python-master/src/GeneticAlgorithm.py:83-103 | every child keeps its multiset; the call fails exactly when some child's mutation fails; a child held once is mutated as MutateOne says |
| Genetic.MutateChild | ACO-Python-master/src/GeneticAlgorithm.py:93-101 | the in-place mutation of one child matches MutateOne |
| Genetic.SwapMultiset | ACO-Python-master/src/GeneticAlgorithm.py:99-101 | the in-place swap matches Swap and keeps the multiset |
| Genetic.AsWrittenSampleOverruns | ACO-Python-master/src/GeneticAlgorithm.py:96-98 | an index sampled from the number of children can lie outside a shorter child and raise |
| Genetic.AsWrittenSwapsOnlyLeadingGenes | ACO-Python-master/src/GeneticAlgorithm.py:96-101 | as written, genes at positions at or past the number of children never move |
| Genetic.CorrectedSampleFits | ACO-Python-master/src/GeneticAlgorithm.py:96-101 | indices sampled from the child's length always succeed and swap |
| Genetic.Segment | ACO-Python-master/src/GeneticAlgorithm.py:135-137 | the segment kept between the cut points has cut2 - cut1 genes |
| Genetic.Without | ACO-Python-master/src/GeneticAlgorithm.py:139-140 | the filter keeps exactly the genes not in the segment |
| Genetic.Fill | ACO-Python-master/src/GeneticAlgorithm.py:142-151 | fails exactly when a remainder is too short; otherwise each child holds its segment in place and the other parent's remaining genes around it |
| Genetic.OrderCrossover | ACO-Python-master/src/GeneticAlgorithm.py:128-153 | a cut past a parent raises; each child keeps its parent's genes between the cuts in place and has the other parent's remaining genes, in order, outside them |
| Genetic.KeepSegments | ACO-Python-master/src/GeneticAlgorithm.py:135-137 | the loop copies both segments and fails exactly when a cut overruns a parent |
| Genetic.FillChildren | ACO-Python-master/src/GeneticAlgorithm.py:142-151 | the fill loops compute Fill |
| Genetic.Crossover | ACO-Python-master/src/GeneticAlgorithm.py:105-153 | above the reproduction probability the parents are returned unchanged; otherwise a minimum distance above 17 fails, as `random.randint` over an empty range raises ValueError, and any other configuration performs the order crossover at the given cuts |
| Genetic.WithoutCount | ACO-Python-master/src/GeneticAlgorithm.py:139-140 | the filter removes every occurrence of a kept gene and keeps the count of the others |
| Genetic.RemainderAndSegment | ACO-Python-master/src/GeneticAlgorithm.py:135-140 | for permutations, the remainder and the segment make up the other parent |
| Genetic.FillKeepsGenes | ACO-Python-master/src/GeneticAlgorithm.py:142-151 | filling keeps the genes of the remainder and of the segment |
| Genetic.CrossoverKeepsPermutation | ACO-Python-master/src/GeneticAlgorithm.py:105-153 | on two permutations of distinct genes with cuts inside them, both children are permutations of the parents |
| Genetic.LastFitterThanFirst | ACO-Python-master/src/GeneticAlgorithm.py:211-216 | the scan returns the last chromosome fitter than the first one (or the first), since the best fitness is never updated |
| Genetic.FindBestChromosome | ACO-Python-master/src/GeneticAlgorithm.py:204-217 | fails exactly on an empty list; otherwise returns the chromosome chosen as written |
| Genetic.AsWrittenMissesFittest | ACO-Python-master/src/GeneticAlgorithm.py:211-216 | for fitness values 1, 3, 2 the scan returns the chromosome of fitness 2 and not the fittest |
| Genetic.FindFittestChromosome | ACO-Python-master/src/GeneticAlgorithm.py:204-217 | the corrected scan fails exactly on an empty list and otherwise returns the first chromosome of maximal fitness |
| Genetic.InsertByFitness | ACO-Python-master/src/GeneticAlgorithm.py:228-237 | inserting into a list ordered by non-increasing fitness keeps the order and adds exactly the element |
| Genetic.SortByFitness | ACO-Python-master/src/GeneticAlgorithm.py:228-237 | the result is a permutation of the input with non-increasing fitness |
| Genetic.FindBestChromosomes | ACO-Python-master/src/GeneticAlgorithm.py:219-237 | fails exactly when fewer chromosomes than the population size are given; otherwise returns that many, ordered by non-increasing fitness, drawn from the input, and no chromosome left out is fitter than one kept |
| Genetic.TopOfSorted | ACO-Python-master/src/GeneticAlgorithm.py:228-237 | a prefix of a sorted list is a sub-multiset, and no element past it is fitter than one in it |

## Left out

- Fitness, `TSPData` and `solve_tsp` are not part of this model:
  - Route fitness comes from the distance data of `TSPData`, so fitness is a parameter (`fit`) or a list of reals.
  - The misaligned fitness list that `solve_tsp` builds is not modelled.
- Floating-point arithmetic is modelled as exact `real` arithmetic.
- `random.uniform`, `random.sample` and `random.randint` are replaced by parameters:
  - the draws of each ant step;
  - the roulette values;
  - the sampled index pairs;
  - the cut points and the reproduction and mutation draws.
- `Ants.Ant.FindRoute`: the source loops until the ant stands on the end, which may never happen. The model consumes one draw per iteration and fails with `OutOfDraws` when the draws run out, so the loop terminates.
- The stagnation stop in `find_shortest_route` is commented out in the source, so it is not modelled. `stoppingCri` is stored but never read.
- Printing and the statistics output are left out, as are file I/O and the program's drivers.
- `find_final_route`, `get_route`, `reset`, the getters, `get_pheromone` and the string form of the maze are left out. They are outside the modelled core.
- `Direction`, `Coordinate`, `Route`, `SurroundingPheromone` and `PathSpecification` are not part of this model. `primitives.dfy` states only what the calls in the core imply:
  - `Route.shorter_than` is taken to compare sizes;
  - `Route.pop` and `Route.add` act at the end of the route.
- Greedy mode passes the integer index of the maximum weight to `add_direction`. The model converts that index with `IntToDir`.
- A read outside the grid would wrap around with a negative numpy index or raise an IndexError. The model stops with `OutsideMaze` instead. Such a read does happen. The roulette wheel falls through to south for any draw at or above the first three weights (`Walking.RouletteSouthFallback`), even when south is not a possible direction. An ant on a cell with y = length - 1 can then step to y = length, and the walk stops with `OutsideMaze` where the source raises. For draws of at least 0, as `random.uniform(0, 1)` gives, the wheel takes east, north or west only when that weight is positive (`Walking.RoulettePicksPositive`), so on a sound field those moves stay on open cells. `Walking.RunReachesEnd` excludes only a route underflow, not `OutsideMaze`.
- `Colony.AntColonyOptimization.Valid` does not carry `Sound()` or `NonNegative()` from one generation to the next. Evaporation keeps them. That a deposit of the ants' routes keeps them is not proved: it would need each counted step of a returned route to join two open cells, and no lemma states that of the routes `Walking.Run` returns.
- `Mazes.Maze.AddPheromoneRoute` and `Mazes.Maze.AddPheromoneRoutes` require the deposit walk to stay on the grid (`DepositWalkInBounds`). The source writes through the numpy index wherever the walk goes: a negative index wraps around to the far side and an index past the grid raises an IndexError. The colony meets the requirement for the routes its ants return (`Colony.SnapshotRouteInBounds`), so the model does not capture deposits of routes that leave the grid.
- `select_one`'s docstring (`GeneticAlgorithm.py:71-72`) promises a random chromosome when the roulette selects none. The code falls off the loop and returns None instead, which `chromosomes.index` then rejects with a ValueError (`GeneticAlgorithm.py:57`). The model follows the code: `Genetic.SelectOne` returns none and the picks stop with `NoSelection`.
- The ants of a generation read one snapshot of the pheromone field. The field is not changed while they walk, so this is the same as reading the maze itself.
- `Colony.AntColonyOptimization.FindShortestRoute`: the contract states only two things about the best route. It exists after at least one generation, and a best route that changed leads to the end. It does not state which generation's route it is.
- `Genetic.Mutate`: the source's children list may hold the same array twice. A repeated child is then mutated twice, and its contract then states only that its multiset of genes is kept.

## Findings

| source | as written | input that shows it | evidently intended | confidence | as-written member | corrected member |
|---|---|---|---|---|---|---|
| ACO-Python-master/src/Ant.py:58 | `update_crossroad` also runs after a backtrack (Ant.py:84-93), so the crossroad below the one popped counts one step too many; a later backtrack to it pops more directions than were taken after it, and removes too much of the route or pops an empty one | the 3 x 3 field `Walking.TreeField`, start (1, 1), end (1, 2), draws 0.2, 0.7, 0.5, 0.0, 0.5, 0.0: north, west, back, east, back, then a pop of 3 steps from a route of 2 | count a step only when the ant moves forward, so a crossroad's count is always the number of steps taken since it | not executed | Walking.IterateAsWritten, Walking.AsWrittenUnderflows, Walking.AsWrittenBacktrackBreaksInv | Walking.Iterate, Walking.IterateKeepsInv, Walking.RunReachesEnd |
| ACO-Python-master/src/GeneticAlgorithm.py:211-216 | `best_fitness` is never updated, so the scan returns the last chromosome fitter than the first one | chromosomes with fitness 1, 3, 2 give the one with fitness 2 | return the fittest chromosome | not executed | Genetic.FindBestChromosome, Genetic.AsWrittenMissesFittest | Genetic.FindFittestChromosome |
| ACO-Python-master/src/GeneticAlgorithm.py:96-98 | the two positions to swap are sampled from the number of children, not from the child's length | three children of length 2 and the sample (0, 2) raise an IndexError; with ten children of length 17, genes at 10 and beyond are never swapped | sample two positions of the child | not executed | Genetic.AsWrittenSampleOverruns, Genetic.AsWrittenSwapsOnlyLeadingGenes | Genetic.CorrectedSampleFits, Genetic.Mutate |
