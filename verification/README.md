# Antenna placement by genetic search — a Dafny model

The system places one antenna of each given model on a grid so that the
buildings on the grid are served as well as possible. It does this in three
steps:

- **Scoring.** A placement earns, for every building, the best non-negative
  connection value among the antennas within their own range of it:
  speed score × antenna speed − latency score × Manhattan distance. It also
  earns a reward once, when every building is reached.
- **Meaningful positions.** These are the grid cells within the largest
  antenna range of at least one building. They are the pool that genes are
  drawn from.
- **Genetic search.** A chromosome is one cell per antenna. The first
  population is cut out of 100 positions popped from the pool. Then each
  generation:
  - sorts the population by score, best first;
  - halves it when it holds more than 100 chromosomes;
  - records the best score;
  - crosses adjacent pairs. Each pair yields the two parents and two children,
    which are mutated together on one coin flip.

The model has four modules:

- `Scoring` (scoring.dfy): distance and score.
- `Sorting` (sorting.dfy): Python's stable keyed sort, largest key first.
- `Genetics` (genetics.dfy): crossover, mutation, seeding, the generation loop
  and the whole run.
- `Positions` (positions.dfy): the meaningful-position scan.

Every random draw of the program is an explicit argument:

- the crossover cut;
- the mutation coin;
- each child's mutation point and pool index;
- the indices popped while seeding.

With the draws fixed, every operator is a function. Each lemma holds for
every choice of draws that the program's random calls could produce.

## Model

| member | source | states |
|---|---|---|
| Scoring.Distance | utils.py:1-2 | the distance is zero exactly when the two cells coincide, and bounds each coordinate difference |
| Scoring.DistanceSymmetric | utils.py:1-2 | distance does not depend on argument order |
| Scoring.Connects | utils.py:14-16 | an antenna with a negative range serves no building, and one placed on the building serves it exactly when its range is non-negative |
| Scoring.ConnectionScore | utils.py:24-26 | an antenna on the building is worth speed score times antenna speed, and with a non-negative latency score distance can only lower that |
| Scoring.ConnectedIds | utils.py:14-18 | the collected ids are exactly the antennas, in increasing index order, whose distance to the building is within their own range (inclusive) |
| Scoring.ConnectedIdsNonEmptyIffServed | utils.py:14-20 | a building has connected antennas exactly when some antenna of the placement reaches it |
| Scoring.MaxConnection | utils.py:21-29 | the running maximum started at 0 is non-negative and at least every visited connection score |
| Scoring.MaxConnectionAttained | utils.py:21-29 | the running maximum is 0 or the score of one of the visited connections |
| Scoring.Contribution | utils.py:20-31 | a building never contributes a negative amount |
| Scoring.ContributionIsBestConnection | utils.py:20-33 | an unserved building contributes 0; a served one contributes the best score among the antennas reaching it, or 0 when all of those are negative |
| Scoring.TallyBuildings | utils.py:10-33 | the running total over the building loop is never negative |
| Scoring.TallyFlagIffServed | utils.py:8-33 | the "all connected" flag stays true exactly when every visited building is reached by some antenna |
| Scoring.Score | utils.py:5-37 | with a non-negative reward the score is non-negative |
| Scoring.RewardOnlyWhenAllServed | utils.py:32-35 | the score is the reward-free score plus the reward exactly once, and only when every building is served |
| Scoring.NoBuildingsScoresReward | utils.py:8-35 | with no buildings the reward is granted and nothing else is earned |
| Scoring.ScoreAppendBuilding | utils.py:10-35 | one more building adds exactly its contribution, and an unserved one withholds the reward |
| Scoring.SingleAntennaScore | utils.py:7-37 | one building and one antenna score max(0, connection) plus the reward when in range, and 0 otherwise |
| Scoring.InRangeSingleScore | utils.py:14-35 | a building served by the only antenna at a positive connection score earns exactly that score plus the reward |
| Scoring.ScenarioAntennaOnBuilding | utils.py:14-35 | the antenna on the building at (2,2) scores 150 |
| Scoring.ScenarioAntennaAtRangeEdge | utils.py:14-35 | the antenna at distance 2 equal to its range still connects and scores 148 |
| Scoring.ScenarioAntennaOutOfRange | utils.py:14-35 | the antenna at distance 3 connects to nothing and scores 0 |
| Sorting.Insert | genetics.py:60-62 | inserting into a descending sequence keeps it descending and adds exactly the one element |
| Sorting.SortDesc | genetics.py:60-62 | the result is descending by key and a permutation of the input |
| Sorting.HeadIsMaximal | genetics.py:60-62 | the first sorted element comes from the input and has the largest key |
| Sorting.SortIsStable | genetics.py:60-62 | elements with equal keys keep their input order |
| Sorting.ItemsOfPermutation | genetics.py:60-62 | dropping keys from a permutation gives a permutation of the items |
| Genetics.PlacementProblem | genetics.py:60-62 | the fitness the search maximises is the placement score for every chromosome with one gene per antenna |
| Genetics.Splice | genetics.py:11-12 | a child of equal-length parents has the parents' length |
| Genetics.SpliceAt | genetics.py:11-12 | child gene i comes from the first parent before the cut and from the second from the cut on |
| Genetics.Mutate | genetics.py:21-25 | mutation keeps the chromosome's length |
| Genetics.MutateAt | genetics.py:21-25 | mutation changes no gene except the drawn one, which becomes a pool position |
| Genetics.Crossover | genetics.py:8-18 | exactly four chromosomes come back, the first two being the parents unchanged, and the children have the parents' length |
| Genetics.CrossoverChildren | genetics.py:8-18 | each child is the complementary splice of the parents; on one shared coin, both children or neither are changed, each at its drawn point only, to a pool position |
| Genetics.CrossoverGenes | genetics.py:8-18 | every gene of the quartet comes from a parent or from the pool |
| Genetics.CrossoverSwapsGenes | genetics.py:11-12 | without mutation the two children hold, at every index, exactly the two parent genes there |
| Genetics.CutZeroSwapsParents | genetics.py:9-12 | without mutation, cut 0 (the lowest draw) makes child 1 the second parent and child 2 the first |
| Genetics.MutationRate | genetics.py:35 | the rate is non-negative and is the pool size divided by 100, exactly |
| Genetics.LargePoolAlwaysMutates | genetics.py:35 | with more than 100 positions the unclamped rate exceeds every coin, so every crossover mutates |
| Genetics.Breed | genetics.py:70-75 | the next population is twice the survivors, and starts with the first survivor |
| Genetics.BreedQuartet | genetics.py:72-73 | block j of four is the crossover of survivors 2j and 2j+1 with draw j |
| Genetics.BreedKeepsParents | genetics.py:72-75 | the parents of every pair reappear, in order, at the head of their quartet |
| Genetics.BreedShape | genetics.py:72-75 | breeding keeps every chromosome at one gene per antenna |
| Genetics.BreedGenes | genetics.py:72-75 | breeding introduces no gene from outside the survivors and the pool |
| Genetics.SurvivorCount | genetics.py:64-65 | a population of at most 100 survives whole, and a larger one keeps half of itself, rounded down |
| Genetics.BalancedIsPreserved | genetics.py:64-75 | from a balanced size the survivors are even, between 2 and 100, and the bred population is balanced again, so pairing never runs off the end |
| Genetics.Decorate | genetics.py:60-62 | the key list has one entry per chromosome |
| Genetics.DecorateAt | genetics.py:60-62 | entry i is chromosome i keyed by its own fitness |
| Genetics.DecorateItems | genetics.py:60-62 | keying every chromosome by its fitness and dropping the keys gives back the population |
| Genetics.SortByFitness | genetics.py:60-62 | sorting keeps the population's size and chromosome length |
| Genetics.SortByFitnessPermutes | genetics.py:60-62 | the sorted population is a permutation of the population |
| Genetics.SortByFitnessOrders | genetics.py:60-62 | fitness never increases along the sorted population |
| Genetics.SortedHeadIsBest | genetics.py:60-62 | the first sorted chromosome is one of the population and at least as fit as every other |
| Genetics.Truncate | genetics.py:64-65 | the survivors are a prefix of the sorted population: half of it (rounded down) above 100, all of it otherwise |
| Genetics.TruncateKeepsFittest | genetics.py:60-65 | no chromosome cut off by the truncation is fitter than any survivor |
| Genetics.Step | genetics.py:60-75 | one generation breeds exactly twice the survivor count, all of one gene per antenna |
| Genetics.StepRecordsBest | genetics.py:60-69 | the recorded fitness is the population's best, and the chromosome having it is one of the population and heads the next one |
| Genetics.StepGenes | genetics.py:60-75 | a generation adds no gene from outside the population and the pool |
| Genetics.StepKeepsSurvivors | genetics.py:64-75 | the survivors, in order, are the parents of the next population |
| Genetics.PopEach | genetics.py:38-39 | the popped support and the remaining pool are together a permutation of the pool |
| Genetics.DrawSupport | genetics.py:36-39 | a pool of more than 100 gives 100 popped positions and leaves the rest; a smaller pool is left whole |
| Genetics.ChunkPrefix | genetics.py:41-47 | the completed chromosomes and the partial one, laid end to end, are the support walked so far; completed ones hold L genes and the partial one fewer |
| Genetics.ChunkCounts | genetics.py:41-47 | the partial chromosome left after the walk holds (support length mod L) genes |
| Genetics.Pad | genetics.py:49-53 | the full chromosomes stay in place, and a partial one is appended, completed to L genes with the first positions left in the pool |
| Genetics.MakeEven | genetics.py:55-56 | the population becomes even by keeping every chromosome in place and appending at most one, a copy of the first |
| Genetics.ChunkedPadFits | genetics.py:49-51 | under the padding condition the remaining pool holds the positions padding takes |
| Genetics.Seed | genetics.py:36-56 | the first population is even, has one gene per antenna (given at least one antenna), uses only pool positions, is empty when the pool has at most 100 positions and has a pairable size otherwise; the pool left for mutation is a sub-multiset of the pool |
| Genetics.SeedGenes | genetics.py:36-56 | every seeded gene is a pool position |
| Genetics.SeedShape | genetics.py:41-56 | every seeded chromosome has L genes when L is at least 1, and a pool of at most 100 seeds nothing |
| Genetics.SeedBalanced | genetics.py:36-56 | a pool of more than 100 seeds a population of even size between 2 and 100 |
| Genetics.PaddedIsBalanced | genetics.py:49-56 | 100 positions cut into L-gene chromosomes, padded and evened, give a pairable number of chromosomes |
| Genetics.SplitFromPool | genetics.py:36-39 | the popped positions and the remaining pool hold only positions of the pool they came from |
| Genetics.Generation | genetics.py:58-75 | every generation has one gene per antenna and a pairable size |
| Genetics.GenerationGenes | genetics.py:58-75 | no generation holds a gene from outside the first population and the pool |
| Genetics.GenerationStepGenes | genetics.py:60-75 | one generation adds no gene from outside the previous generation and the pool |
| Genetics.SeededRunnable | genetics.py:36-58 | the seeded population and reduced pool meet everything the generation loop needs |
| Genetics.GenerationRecordsBest | genetics.py:60-75 | the head of generation g + 1 is a chromosome of generation g that no other chromosome of g beats |
| Genetics.Recorded | genetics.py:67-69 | the fitness recorded for generation g is at least that of every chromosome of generation g |
| Genetics.Record | genetics.py:58-69 | the record has one entry per generation |
| Genetics.RecordGrows | genetics.py:67-69 | each generation appends exactly its own entry to the record |
| Genetics.RecordIsBest | genetics.py:58-69 | entry g is the maximum fitness over generation g: none is higher and one equals it |
| Genetics.RecordBoundsScore | genetics.py:58-69 | for the antenna search, no chromosome of generation g has a higher placement score than entry g of the record |
| Genetics.RecordScoreAttained | genetics.py:58-69 | for the antenna search, some chromosome of generation g has a placement score of exactly entry g of the record |
| Genetics.BestNeverDrops | genetics.py:60-75 | the best fitness of a generation is never above that of the next |
| Genetics.RecordIsMonotone | genetics.py:58-75 | the record is non-decreasing over the whole run |
| Genetics.DoGenetics | genetics.py:28-77 | the loop returns the record of maxLoops entries and the head of the last population, which has one gene per antenna, uses only pool positions and, when maxLoops > 0, is exactly as fit as the last entry |
| Positions.MaxRange | main.py:38 | the value is at least every antenna's range and is the range of one of them |
| Positions.AllFarIffNoneNear | main.py:42-43 | the scan's "all buildings farther" test fails exactly when some building is within the range |
| Positions.Column | main.py:41-44 | a column's kept cells lie in that column, in increasing y order |
| Positions.ColumnMembers | main.py:41-44 | a column keeps exactly its cells below the height that some building is within range of |
| Positions.Grid | main.py:40-44 | the kept cells of the first m columns lie in those columns, below h, and come in x-major, y-minor order |
| Positions.GridMembers | main.py:40-44 | the first m columns keep exactly their cells near some building |
| Positions.MeaningfulPositions | main.py:38-44 | every listed cell lies on the width x height grid |
| Positions.MeaningfulIff | main.py:38-44 | a cell is meaningful exactly when it is on the grid and within the largest range of some building |
| Positions.MeaningfulInScanOrder | main.py:40-44 | the list is strictly increasing x-major, y-minor, hence without duplicates |
| Positions.MeaningfulIsDetermined | main.py:38-44 | any duplicate-free scan-ordered list of exactly those cells is the meaningful list |
| Positions.ScanOrderIsUnique | main.py:40-44 | two scan-ordered lists with the same cells are equal |
| Positions.LeftOutServesNoOne | main.py:38-44 | a grid cell left out connects to no building under any antenna |
| Positions.BuildingCellsAreMeaningful | main.py:40-44 | a building's own cell on the grid is meaningful when the largest range is non-negative |
| Positions.NoBuildingsNoPositions | main.py:42-43 | with no buildings the list is empty |
| Positions.ScanPositions | main.py:38-44 | the nested x/y loop produces exactly the meaningful list |
| Positions.ScanColumn | main.py:41-44 | the inner loop produces exactly the kept cells of its column |

## Left out

- Reading the scenario file, writing the solution, plotting, the progress bar and `print` (main.py:21-34, 50-65; genetics.py:3, 34, 59). These are I/O with no bearing on the search.
- The random number generator. Each `randint`/`random()` result is an input:
  - a `CrossoverDraw` per pair: the cut, the coin, and a point and pool index per child;
  - one pop index per seeding draw.
- Draw bounds. `DrawFits` and `PopsFit` bound each draw to the range its Python call can return. Each generation receives `MaxPairs` (50) crossover draws and consumes as many as it has pairs.
- Python floats. The mutation rate `len(pool) / 100` and the coin are exact reals, so a coin within rounding distance of the rate may compare differently than with binary floats.
- The call at main.py:46-48. It passes 7 arguments to a function of 9 parameters, so it would fail as written. The model connects nothing there: `DoGenetics` takes the loop count and the draws directly. The `mutation_rate` parameter is overwritten at genetics.py:35 and is not an input.
- Crash paths, which become preconditions rather than error results:
  - `get_score` indexes antennas by placement index and fails when the placement is longer than the antenna list; it only reaches that index when there is at least one building, so `Score` demands the length bound only then;
  - `max([])` fails on an empty antenna list;
  - the run fails at `population[0]` with a pool of at most 100 positions, which seeds an empty population (`RunFits`);
  - `RunFits` also demands at least one antenna; the only caller computes `max(antennas_range)` at main.py:38 first, which already fails on an empty antenna list;
  - padding fails when the pool left after seeding is too short (`PaddingFits`).
- The shrinking of the caller's list. genetics.py:39 pops from the caller's `meaningful_positions` in place, so after `do_genetics` the caller's list has lost the 100 popped positions. `DoGenetics` takes the pool as a value and does not return the reduced pool; `Seed` exposes it as `rest`.
- Genetics.Splice: requires parents of equal length. The search only crosses chromosomes of one gene per antenna, so Python's clamping of out-of-range slices never occurs.
- Genetics.PlacementProblem: the score is stated for chromosomes of one gene per antenna only. Fitness is a field of `Problem`, so the loop lemmas hold for any fitness. `PlacementProblem` fixes it to the placement score. Chromosomes of any other length never occur and are given fitness 0.
- Genetics.Record: entry g is stated as the fitness of the chromosome heading generation g + 1. `StepRecordsBest` shows this equals the fitness of the first survivor that the loop records.

## Behaviour worth knowing

- Seeding pops 100 random positions out of the pool (genetics.py:36-39) and cuts only those into chromosomes.
- A short last chromosome is completed with the first positions left in the pool (genetics.py:49-51).
- The popped positions leave the pool, and mutation draws from what remains.
- The population is made even once, after seeding (genetics.py:55-56). Truncation never makes it odd again: `BalancedIsPreserved` shows every later size stays even.
- The mutation rate is the pool size divided by 100 (genetics.py:35). With more than 100 positions it exceeds 1, so every child mutates (`LargePoolAlwaysMutates`).
- The meaningful positions are cells of the grid only (main.py:40-41).
- The sort by fitness is stable: chromosomes of equal fitness keep their order (`SortIsStable`).
- The best fitness recorded each generation never decreases (`RecordIsMonotone`), because the best chromosome always survives and heads the next population.
