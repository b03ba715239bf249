/**
 The genetic search over antenna placements: single-point crossover,
 single-gene mutation, seeding of the first population from the pool of
 meaningful positions, and the generation loop (sort by fitness, halve an
 oversized population, record the best fitness, breed adjacent pairs).

 Every random draw of the search is an explicit argument: the crossover cut,
 the mutation coin, the mutation point and pool index of each child, and the
 pool indices popped while seeding. With the draws fixed every operator is a
 function.
 */
module Genetics {
  import opened Scoring
  import Sorting

  /** One position per antenna. */
  type Chromosome = seq<Pos>

  type Population = seq<Chromosome>

  /**
   What the search knows of the problem it solves: the antenna models (one
   gene per antenna) and the fitness of a chromosome.
   */
  datatype Problem = Problem(antennas: seq<Antenna>, fitness: Chromosome -> int)

  function Fitness(prob: Problem, c: Chromosome): int
  {
    prob.fitness(c)
  }

  /**
   The problem of the antenna search: a chromosome's fitness is the score of
   the placement it describes. The search only ever evaluates chromosomes of
   one gene per antenna; any other length is given fitness 0.
   */
  function PlacementProblem(buildings: seq<Building>, antennas: seq<Antenna>, reward: int): (prob: Problem)
    ensures prob.antennas == antennas
    ensures forall c: Chromosome :: |c| == |antennas| ==> Fitness(prob, c) == Score(buildings, c, antennas, reward)
  {
    Problem(antennas, c => if |c| == |antennas| then Score(buildings, c, antennas, reward) else 0)
  }

  /** Every chromosome has exactly L genes. */
  predicate Shaped(pop: Population, L: nat)
  {
    forall i :: 0 <= i < |pop| ==> |pop[i]| == L
  }

  /** Every gene of every chromosome is one of the positions in u. */
  predicate GenesIn(pop: Population, u: seq<Pos>)
  {
    forall i :: 0 <= i < |pop| ==> forall g :: g in pop[i] ==> g in u
  }

  // ---------------------------------------------------------------------------
  // Crossover and mutation
  // ---------------------------------------------------------------------------

  /**
   The genes of a before the cut followed by the genes of b from the cut on.
   Every crossover of the search crosses chromosomes of the same length, so
   Python's clamping of out-of-range slices never comes into play.
   */
  function Splice(a: Chromosome, b: Chromosome, cut: nat): (r: Chromosome)
    requires |a| == |b| && cut <= |a|
    ensures |r| == |a|
  {
    a[..cut] + b[cut..]
  }

  /** Overwrites the gene at `point` with the pool position at index `pick`. */
  function Mutate(individual: Chromosome, pool: seq<Pos>, point: nat, pick: nat): (r: Chromosome)
    requires point < |individual| && pick < |pool|
    ensures |r| == |individual|
  {
    individual[point := pool[pick]]
  }

  /** The draws one crossover consumes: the cut, the coin, and a point and pool index per child. */
  datatype CrossoverDraw = CrossoverDraw(cut: nat, coin: real, point1: nat, pick1: nat, point2: nat, pick2: nat)

  /** One coin per crossover decides whether both children are mutated. */
  predicate Mutates(d: CrossoverDraw, rate: real)
  {
    d.coin < rate
  }

  /**
   Draws that fit chromosomes of L genes and a pool of n positions: a cut in
   0..L-1, a coin in [0, 1), and, when the coin says mutate, a point in 0..L-1
   for each child and pool indices in 0..n-1.
   */
  predicate DrawFits(d: CrossoverDraw, L: nat, n: nat, rate: real)
  {
    && d.cut < L
    && 0.0 <= d.coin < 1.0
    && (Mutates(d, rate) ==> d.point1 < L && d.point2 < L && d.pick1 < n && d.pick2 < n)
  }

  /**
   Single-point crossover: both parents, unchanged, followed by the two
   children; the children are mutated together or not at all.
   */
  function Crossover(parent1: Chromosome, parent2: Chromosome, pool: seq<Pos>, rate: real, d: CrossoverDraw): (quartet: Population)
    requires |parent1| == |parent2| && DrawFits(d, |parent1|, |pool|, rate)
    ensures |quartet| == 4 && quartet[0] == parent1 && quartet[1] == parent2
    ensures |quartet[2]| == |parent1| && |quartet[3]| == |parent1|
  {
    var child1 := Splice(parent1, parent2, d.cut);
    var child2 := Splice(parent2, parent1, d.cut);
    if Mutates(d, rate) then
      [parent1, parent2, Mutate(child1, pool, d.point1, d.pick1), Mutate(child2, pool, d.point2, d.pick2)]
    else
      [parent1, parent2, child1, child2]
  }

  /** Gene i of a spliced chromosome comes from a before the cut and from b from the cut on. */
  lemma SpliceAt(a: Chromosome, b: Chromosome, cut: nat)
    requires |a| == |b| && cut <= |a|
    ensures forall i :: 0 <= i < |a| ==> Splice(a, b, cut)[i] == if i < cut then a[i] else b[i]
  {
  }

  /** A mutation changes only the gene at its point, and that gene becomes a pool position. */
  lemma MutateAt(individual: Chromosome, pool: seq<Pos>, point: nat, pick: nat)
    requires point < |individual| && pick < |pool|
    ensures forall k :: 0 <= k < |individual| && k != point ==> Mutate(individual, pool, point, pick)[k] == individual[k]
    ensures Mutate(individual, pool, point, pick)[point] in pool
  {
  }

  /**
   The children: child 1 takes parent 1's genes before the cut and parent 2's
   from the cut on, child 2 the other way round; a mutation changes only the
   drawn point of each child, to a position of the pool.
   */
  lemma CrossoverChildren(parent1: Chromosome, parent2: Chromosome, pool: seq<Pos>, rate: real, d: CrossoverDraw)
    requires |parent1| == |parent2| && DrawFits(d, |parent1|, |pool|, rate)
    ensures var q := Crossover(parent1, parent2, pool, rate, d);
      && (forall i :: 0 <= i < |parent1| && !(Mutates(d, rate) && i == d.point1) ==>
            q[2][i] == if i < d.cut then parent1[i] else parent2[i])
      && (forall i :: 0 <= i < |parent1| && !(Mutates(d, rate) && i == d.point2) ==>
            q[3][i] == if i < d.cut then parent2[i] else parent1[i])
      && (Mutates(d, rate) ==> q[2][d.point1] in pool && q[3][d.point2] in pool)
  {
    var child1 := Splice(parent1, parent2, d.cut);
    var child2 := Splice(parent2, parent1, d.cut);
    SpliceAt(parent1, parent2, d.cut);
    SpliceAt(parent2, parent1, d.cut);
    if Mutates(d, rate) {
      MutateAt(child1, pool, d.point1, d.pick1);
      MutateAt(child2, pool, d.point2, d.pick2);
    }
  }

  /** Every gene of the quartet comes from a parent or from the pool. */
  lemma CrossoverGenes(parent1: Chromosome, parent2: Chromosome, pool: seq<Pos>, rate: real, d: CrossoverDraw)
    requires |parent1| == |parent2| && DrawFits(d, |parent1|, |pool|, rate)
    ensures var q := Crossover(parent1, parent2, pool, rate, d);
      forall m :: 0 <= m < 4 ==> forall g :: g in q[m] ==> g in parent1 || g in parent2 || g in pool
  {
    var q := Crossover(parent1, parent2, pool, rate, d);
    CrossoverChildren(parent1, parent2, pool, rate, d);
    forall m, g | 0 <= m < 4 && g in q[m]
      ensures g in parent1 || g in parent2 || g in pool
    {
      if m >= 2 {
        var i :| 0 <= i < |q[m]| && q[m][i] == g;
      }
    }
  }

  /** Without mutation the children hold, at every index, the two parent genes between them. */
  lemma CrossoverSwapsGenes(parent1: Chromosome, parent2: Chromosome, pool: seq<Pos>, rate: real, d: CrossoverDraw)
    requires |parent1| == |parent2| && DrawFits(d, |parent1|, |pool|, rate) && !Mutates(d, rate)
    ensures forall i :: 0 <= i < |parent1| ==>
      multiset{Crossover(parent1, parent2, pool, rate, d)[2][i], Crossover(parent1, parent2, pool, rate, d)[3][i]}
        == multiset{parent1[i], parent2[i]}
  {
    CrossoverChildren(parent1, parent2, pool, rate, d);
  }

  /** A cut at 0 makes the children the parents, swapped. */
  lemma CutZeroSwapsParents(parent1: Chromosome, parent2: Chromosome, pool: seq<Pos>, rate: real, d: CrossoverDraw)
    requires |parent1| == |parent2| && DrawFits(d, |parent1|, |pool|, rate) && !Mutates(d, rate) && d.cut == 0
    ensures Crossover(parent1, parent2, pool, rate, d)[2] == parent2
    ensures Crossover(parent1, parent2, pool, rate, d)[3] == parent1
  {
  }

  /** The mutation rate of a run: the size of the pool, before seeding, divided by 100. */
  function MutationRate(poolSize: nat): (rate: real)
    ensures 0.0 <= rate && rate * 100.0 == poolSize as real
  {
    poolSize as real / 100.0
  }

  /** With more than 100 positions the rate exceeds 1, so every coin in [0, 1) says mutate. */
  lemma LargePoolAlwaysMutates(poolSize: nat, d: CrossoverDraw)
    requires poolSize > 100 && 0.0 <= d.coin < 1.0
    ensures Mutates(d, MutationRate(poolSize))
  {
  }

  // ---------------------------------------------------------------------------
  // Breeding
  // ---------------------------------------------------------------------------

  /** Every draw of the sequence fits chromosomes of L genes and a pool of n positions. */
  predicate AllFit(draws: seq<CrossoverDraw>, L: nat, n: nat, rate: real)
  {
    forall j :: 0 <= j < |draws| ==> DrawFits(draws[j], L, n, rate)
  }

  /**
   Crosses chromosomes 0 and 1, then 2 and 3, and so on, with one draw per
   pair, and concatenates the quartets in pair order.
   */
  function Breed(pop: Population, pool: seq<Pos>, rate: real, draws: seq<CrossoverDraw>, L: nat): (next: Population)
    requires |pop| % 2 == 0 && |pop| <= 2 * |draws|
    requires Shaped(pop, L) && AllFit(draws, L, |pool|, rate)
    ensures |next| == 2 * |pop|
    ensures |pop| > 0 ==> next[0] == pop[0]
    decreases |pop|
  {
    if |pop| == 0 then []
    else
      Crossover(pop[0], pop[1], pool, rate, draws[0]) + Breed(pop[2..], pool, rate, draws[1..], L)
  }

  /** The chromosomes at positions 0 and 1 of every block of four. */
  function Parents(next: Population): Population
  {
    if |next| < 4 then [] else next[..2] + Parents(next[4..])
  }

  /** Block j of four chromosomes of the result is the quartet of pair j, crossed with draw j. */
  lemma {:induction false} BreedQuartet(pop: Population, pool: seq<Pos>, rate: real, draws: seq<CrossoverDraw>, L: nat, j: nat)
    requires |pop| % 2 == 0 && |pop| <= 2 * |draws|
    requires Shaped(pop, L) && AllFit(draws, L, |pool|, rate)
    requires 2 * j + 1 < |pop|
    ensures Breed(pop, pool, rate, draws, L)[4 * j..4 * j + 4]
         == Crossover(pop[2 * j], pop[2 * j + 1], pool, rate, draws[j])
  {
    var q := Crossover(pop[0], pop[1], pool, rate, draws[0]);
    var rest := Breed(pop[2..], pool, rate, draws[1..], L);
    assert Breed(pop, pool, rate, draws, L) == q + rest;
    if j == 0 {
      assert (q + rest)[..4] == q;
    } else {
      var k := j - 1;
      BreedQuartet(pop[2..], pool, rate, draws[1..], L, k);
      SliceAfterBlock(q, rest, 4 * k);
      assert pop[2..][2 * k] == pop[2 * j] && pop[2..][2 * k + 1] == pop[2 * j + 1] by {
        DropIndex(pop, 2, 2 * k);
        DropIndex(pop, 2, 2 * k + 1);
      }
      DropIndex(draws, 1, k);
    }
  }

  lemma SliceAfterBlock<T>(q: seq<T>, rest: seq<T>, a: nat)
    requires |q| == 4 && a + 4 <= |rest|
    ensures (q + rest)[a + 4..a + 8] == rest[a..a + 4]
  {
  }

  lemma DropIndex<T>(s: seq<T>, n: nat, k: nat)
    requires n + k < |s|
    ensures s[n..][k] == s[n + k]
  {
  }

  /** Breeding keeps both parents of every pair, in order, at the head of their quartet. */
  lemma {:induction false} BreedKeepsParents(pop: Population, pool: seq<Pos>, rate: real, draws: seq<CrossoverDraw>, L: nat)
    requires |pop| % 2 == 0 && |pop| <= 2 * |draws|
    requires Shaped(pop, L) && AllFit(draws, L, |pool|, rate)
    ensures Parents(Breed(pop, pool, rate, draws, L)) == pop
    decreases |pop|
  {
    if |pop| > 0 {
      var q := Crossover(pop[0], pop[1], pool, rate, draws[0]);
      var rest := Breed(pop[2..], pool, rate, draws[1..], L);
      var next := q + rest;
      assert Breed(pop, pool, rate, draws, L) == next;
      BreedKeepsParents(pop[2..], pool, rate, draws[1..], L);
      assert next[..2] == pop[..2];
      assert next[4..] == rest;
      assert pop == pop[..2] + pop[2..];
    }
  }

  /** Breeding keeps every chromosome at L genes. */
  lemma {:induction false} BreedShape(pop: Population, pool: seq<Pos>, rate: real, draws: seq<CrossoverDraw>, L: nat)
    requires |pop| % 2 == 0 && |pop| <= 2 * |draws|
    requires Shaped(pop, L) && AllFit(draws, L, |pool|, rate)
    ensures Shaped(Breed(pop, pool, rate, draws, L), L)
    decreases |pop|
  {
    if |pop| > 0 {
      var q := Crossover(pop[0], pop[1], pool, rate, draws[0]);
      var rest := Breed(pop[2..], pool, rate, draws[1..], L);
      BreedShape(pop[2..], pool, rate, draws[1..], L);
      assert Breed(pop, pool, rate, draws, L) == q + rest;
    }
  }

  /** Breeding draws genes only from the parents and the pool. */
  lemma {:induction false} BreedGenes(pop: Population, pool: seq<Pos>, rate: real, draws: seq<CrossoverDraw>, L: nat, u: seq<Pos>)
    requires |pop| % 2 == 0 && |pop| <= 2 * |draws|
    requires Shaped(pop, L) && AllFit(draws, L, |pool|, rate)
    requires GenesIn(pop, u) && forall p :: p in pool ==> p in u
    ensures GenesIn(Breed(pop, pool, rate, draws, L), u)
    decreases |pop|
  {
    if |pop| > 0 {
      var q := Crossover(pop[0], pop[1], pool, rate, draws[0]);
      var rest := Breed(pop[2..], pool, rate, draws[1..], L);
      CrossoverGenes(pop[0], pop[1], pool, rate, draws[0]);
      assert GenesIn(q, u) by {
        forall m | 0 <= m < 4
          ensures forall g :: g in q[m] ==> g in u
        {
          forall g | g in q[m]
            ensures g in u
          {
            assert g in pop[0] || g in pop[1] || g in pool;
          }
        }
      }
      BreedGenes(pop[2..], pool, rate, draws[1..], L, u);
      assert Breed(pop, pool, rate, draws, L) == q + rest;
    }
  }

  // ---------------------------------------------------------------------------
  // One generation
  // ---------------------------------------------------------------------------

  /** Above this size the sorted population is halved. */
  const SoftCap: nat := 100

  /** The most pairs a generation crosses: its survivors never exceed the cap. */
  const MaxPairs: nat := SoftCap / 2

  /** How many chromosomes survive the truncation of a population of n. */
  function SurvivorCount(n: nat): (c: nat)
    ensures n <= SoftCap ==> c == n
    ensures n > SoftCap ==> c + c <= n <= c + c + 1
  {
    if n > SoftCap then n / 2 else n
  }

  /**
   The sizes the generation loop can meet: even, at least 2, and either at
   most the cap or at most twice the cap with an even half.
   */
  predicate Balanced(n: nat)
  {
    2 <= n && n % 2 == 0 && (n <= SoftCap || (n <= 2 * SoftCap && (n / 2) % 2 == 0))
  }

  /** A balanced population keeps an even number of survivors and breeds a balanced one. */
  lemma BalancedIsPreserved(n: nat)
    requires Balanced(n)
    ensures SurvivorCount(n) % 2 == 0 && 2 <= SurvivorCount(n) <= SoftCap
    ensures Balanced(2 * SurvivorCount(n))
  {
  }

  /** Each chromosome with its fitness as sort key, computed once per chromosome as Python's keyed sort does. */
  function Decorate(prob: Problem, pop: Population): (keyed: seq<Sorting.Keyed<Chromosome>>)
    requires Shaped(pop, |prob.antennas|)
    ensures |keyed| == |pop|
  {
    if |pop| == 0 then [] else [Sorting.Keyed(Fitness(prob, pop[0]), pop[0])] + Decorate(prob, pop[1..])
  }

  /** Element i of the decorated population is chromosome i keyed by its fitness. */
  lemma {:induction false} DecorateAt(prob: Problem, pop: Population, i: nat)
    requires Shaped(pop, |prob.antennas|) && i < |pop|
    ensures Decorate(prob, pop)[i] == Sorting.Keyed(Fitness(prob, pop[i]), pop[i])
  {
    if i > 0 {
      DecorateAt(prob, pop[1..], i - 1);
    }
  }

  /** Dropping the keys again gives back the population. */
  lemma {:induction false} DecorateItems(prob: Problem, pop: Population)
    requires Shaped(pop, |prob.antennas|)
    ensures Sorting.Items(Decorate(prob, pop)) == pop
  {
    if |pop| > 0 {
      DecorateItems(prob, pop[1..]);
      assert Decorate(prob, pop)[1..] == Decorate(prob, pop[1..]);
      assert pop == [pop[0]] + pop[1..];
    }
  }

  /** The population sorted best first. */
  function SortByFitness(prob: Problem, pop: Population): (sorted: Population)
    requires Shaped(pop, |prob.antennas|)
    ensures |sorted| == |pop|
    ensures Shaped(sorted, |prob.antennas|)
  {
    var keyed := Decorate(prob, pop);
    var sorted := Sorting.Items(Sorting.SortDesc(keyed));
    Sorting.ItemsOfPermutation(Sorting.SortDesc(keyed), keyed);
    DecorateItems(prob, pop);
    assert forall i :: 0 <= i < |sorted| ==> sorted[i] in multiset(pop);
    sorted
  }

  /** Every key of the sorted, decorated population is the fitness of its chromosome. */
  lemma SortedKeysAreFitness(prob: Problem, pop: Population, i: nat)
    requires Shaped(pop, |prob.antennas|) && i < |pop|
    ensures var e := Sorting.SortDesc(Decorate(prob, pop))[i];
      e.item in pop && e.key == Fitness(prob, e.item)
  {
    var keyed := Decorate(prob, pop);
    var e := Sorting.SortDesc(keyed)[i];
    assert e in multiset(keyed);
    var k :| 0 <= k < |keyed| && keyed[k] == e;
    DecorateAt(prob, pop, k);
  }

  /** Sorting permutes the population: the same chromosomes, as often as before. */
  lemma SortByFitnessPermutes(prob: Problem, pop: Population)
    requires Shaped(pop, |prob.antennas|)
    ensures multiset(SortByFitness(prob, pop)) == multiset(pop)
  {
    var keyed := Decorate(prob, pop);
    Sorting.ItemsOfPermutation(Sorting.SortDesc(keyed), keyed);
    DecorateItems(prob, pop);
  }

  /** Sorting puts fitter chromosomes first. */
  lemma SortByFitnessOrders(prob: Problem, pop: Population)
    requires Shaped(pop, |prob.antennas|)
    ensures forall i, j :: 0 <= i < j < |pop| ==>
        Fitness(prob, SortByFitness(prob, pop)[i]) >= Fitness(prob, SortByFitness(prob, pop)[j])
  {
    var sorted := SortByFitness(prob, pop);
    var keyed := Sorting.SortDesc(Decorate(prob, pop));
    forall i, j | 0 <= i < j < |pop|
      ensures Fitness(prob, sorted[i]) >= Fitness(prob, sorted[j])
    {
      SortedKeysAreFitness(prob, pop, i);
      SortedKeysAreFitness(prob, pop, j);
      Sorting.ItemsAt(keyed, i);
      Sorting.ItemsAt(keyed, j);
    }
  }

  /** The first chromosome after sorting is one of the population and at least as fit as every other. */
  lemma SortedHeadIsBest(prob: Problem, pop: Population)
    requires Shaped(pop, |prob.antennas|) && |pop| > 0
    ensures SortByFitness(prob, pop)[0] in pop
    ensures forall i :: 0 <= i < |pop| ==> Fitness(prob, pop[i]) <= Fitness(prob, SortByFitness(prob, pop)[0])
  {
    var sorted := SortByFitness(prob, pop);
    SortByFitnessOrders(prob, pop);
    SortByFitnessPermutes(prob, pop);
    forall i | 0 <= i < |pop|
      ensures Fitness(prob, pop[i]) <= Fitness(prob, sorted[0])
    {
      assert pop[i] in multiset(sorted);
      var k :| 0 <= k < |sorted| && sorted[k] == pop[i];
    }
    assert sorted[0] in multiset(pop);
  }

  /** The loop's survivor selection: the top half of the sorted population when it exceeds the cap. */
  function Truncate(sorted: Population): (survivors: Population)
    ensures |survivors| == SurvivorCount(|sorted|)
    ensures survivors <= sorted
  {
    if |sorted| > SoftCap then sorted[..|sorted| / 2] else sorted
  }

  /** Truncating the sorted population keeps the fittest: no dropped chromosome beats a survivor. */
  lemma TruncateKeepsFittest(prob: Problem, pop: Population)
    requires Shaped(pop, |prob.antennas|)
    ensures var sorted := SortByFitness(prob, pop);
      var survivors := Truncate(sorted);
      forall i, j :: 0 <= i < |survivors| <= j < |sorted| ==> Fitness(prob, survivors[i]) >= Fitness(prob, sorted[j])
  {
    SortByFitnessOrders(prob, pop);
  }

  /** What one generation produces: the fitness it records and the population it breeds. */
  datatype Generated = Generated(best: int, next: Population)

  /** What one generation needs: chromosomes of L >= 1 genes, an even number of survivors, a fitting draw per pair. */
  predicate Steppable(prob: Problem, pop: Population, pool: seq<Pos>, rate: real, draws: seq<CrossoverDraw>)
  {
    && |prob.antennas| >= 1 && Shaped(pop, |prob.antennas|)
    && |pop| > 0 && SurvivorCount(|pop|) % 2 == 0 && SurvivorCount(|pop|) <= 2 * |draws|
    && AllFit(draws, |prob.antennas|, |pool|, rate)
  }

  /**
   One generation: sort best first, truncate, record the fitness of the
   first survivor, and breed the survivors pair by pair.
   */
  function Step(prob: Problem, pop: Population, pool: seq<Pos>, rate: real, draws: seq<CrossoverDraw>): (gen: Generated)
    requires Steppable(prob, pop, pool, rate, draws)
    ensures |gen.next| == 2 * SurvivorCount(|pop|)
    ensures Shaped(gen.next, |prob.antennas|)
  {
    var survivors := Truncate(SortByFitness(prob, pop));
    BreedShape(survivors, pool, rate, draws, |prob.antennas|);
    Generated(Fitness(prob, survivors[0]), Breed(survivors, pool, rate, draws, |prob.antennas|))
  }

  /**
   Elitism: the fitness a generation records is the best in the population,
   and the chromosome that has it heads the next population.
   */
  lemma StepRecordsBest(prob: Problem, pop: Population, pool: seq<Pos>, rate: real, draws: seq<CrossoverDraw>)
    requires Steppable(prob, pop, pool, rate, draws)
    ensures forall i :: 0 <= i < |pop| ==> Fitness(prob, pop[i]) <= Step(prob, pop, pool, rate, draws).best
    ensures Step(prob, pop, pool, rate, draws).next[0] in pop
    ensures Fitness(prob, Step(prob, pop, pool, rate, draws).next[0]) == Step(prob, pop, pool, rate, draws).best
  {
    SortedHeadIsBest(prob, pop);
  }

  /** Breeding adds no gene from outside the population and the pool. */
  lemma StepGenes(prob: Problem, pop: Population, pool: seq<Pos>, rate: real, draws: seq<CrossoverDraw>, u: seq<Pos>)
    requires Steppable(prob, pop, pool, rate, draws)
    requires GenesIn(pop, u) && forall p :: p in pool ==> p in u
    ensures GenesIn(Step(prob, pop, pool, rate, draws).next, u)
  {
    var sorted := SortByFitness(prob, pop);
    var survivors := Truncate(sorted);
    SortByFitnessPermutes(prob, pop);
    forall i | 0 <= i < |survivors|
      ensures forall g :: g in survivors[i] ==> g in u
    {
      assert survivors[i] == sorted[i];
      assert sorted[i] in multiset(pop);
      var k :| 0 <= k < |pop| && pop[k] == sorted[i];
    }
    BreedGenes(survivors, pool, rate, draws, |prob.antennas|, u);
  }

  /** The survivors of a generation are kept, in order, as the parents of the next one. */
  lemma StepKeepsSurvivors(prob: Problem, pop: Population, pool: seq<Pos>, rate: real, draws: seq<CrossoverDraw>)
    requires Steppable(prob, pop, pool, rate, draws)
    ensures Parents(Step(prob, pop, pool, rate, draws).next) == Truncate(SortByFitness(prob, pop))
  {
    BreedKeepsParents(Truncate(SortByFitness(prob, pop)), pool, rate, draws, |prob.antennas|);
  }

  // ---------------------------------------------------------------------------
  // Seeding
  // ---------------------------------------------------------------------------

  /** How many positions seeding draws out of the pool. */
  const SeedCount: nat := 100

  /** Each draw indexes the pool as it is at that moment, after the earlier pops. */
  predicate PopsFit(idx: seq<nat>, poolSize: nat)
  {
    forall k :: 0 <= k < |idx| ==> idx[k] < poolSize - k
  }

  /** The positions drawn for seeding and what remains of the pool. */
  datatype Split = Split(support: seq<Pos>, rest: seq<Pos>)

  /** Pops pool[idx[0]], then idx[1] of what is left, and so on, appending each to the support. */
  function PopEach(pool: seq<Pos>, idx: seq<nat>): (sp: Split)
    requires PopsFit(idx, |pool|)
    ensures |sp.support| == |idx| && |sp.support| + |sp.rest| == |pool|
    ensures multiset(sp.support) + multiset(sp.rest) == multiset(pool)
    decreases |idx|
  {
    if |idx| == 0 then Split([], pool)
    else
      var i := idx[0];
      var left := pool[..i] + pool[i + 1..];
      assert pool == pool[..i] + [pool[i]] + pool[i + 1..];
      assert PopsFit(idx[1..], |left|) by {
        forall k | 0 <= k < |idx[1..]|
          ensures idx[1..][k] < |left| - k
        {
          assert idx[1..][k] == idx[k + 1];
        }
      }
      var sp := PopEach(left, idx[1..]);
      assert multiset(left) + multiset{pool[i]} == multiset(pool) by {
        assert multiset(pool) == multiset(pool[..i]) + multiset{pool[i]} + multiset(pool[i + 1..]);
      }
      assert multiset([pool[i]] + sp.support) == multiset{pool[i]} + multiset(sp.support);
      Split([pool[i]] + sp.support, sp.rest)
  }

  /** Only a pool of more than SeedCount positions is drawn from, SeedCount times. */
  function DrawSupport(pool: seq<Pos>, idx: seq<nat>): (sp: Split)
    requires |pool| > SeedCount ==> |idx| == SeedCount && PopsFit(idx, |pool|)
    ensures multiset(sp.support) + multiset(sp.rest) == multiset(pool)
    ensures |pool| > SeedCount ==> |sp.support| == SeedCount && |sp.rest| == |pool| - SeedCount
    ensures |pool| <= SeedCount ==> sp.support == []
  {
    if |pool| > SeedCount then PopEach(pool, idx) else Split([], pool)
  }

  /** All chromosomes laid end to end. */
  function Flatten(pop: Population): seq<Pos>
  {
    if |pop| == 0 then [] else Flatten(pop[..|pop| - 1]) + pop[|pop| - 1]
  }

  /** The chromosomes completed so far and the one being filled. */
  datatype Chunks = Chunks(full: Population, last: Chromosome)

  /**
   Walks the first n support positions, appending each to the chromosome
   being filled and closing it once it holds L genes.
   */
  function ChunkPrefix(support: seq<Pos>, L: nat, n: nat): (ch: Chunks)
    requires n <= |support|
    ensures Flatten(ch.full) + ch.last == support[..n]
    ensures 1 <= L ==> Shaped(ch.full, L) && |ch.last| < L
    ensures L == 0 ==> ch.full == []
  {
    if n == 0 then Chunks([], [])
    else
      var ch := ChunkPrefix(support, L, n - 1);
      var last := ch.last + [support[n - 1]];
      assert support[..n] == support[..n - 1] + [support[n - 1]];
      assert Flatten(ch.full) + last == support[..n];
      if |last| == L then
        var full := ch.full + [last];
        assert full[..|full| - 1] == ch.full;
        assert Flatten(full) == Flatten(ch.full) + last;
        Chunks(full, [])
      else
        Chunks(ch.full, last)
  }

  /** A short last chromosome can be completed from rest. */
  predicate PadFits(ch: Chunks, L: nat, rest: seq<Pos>)
  {
    0 < |ch.last| < L ==> L - |ch.last| <= |rest|
  }

  /** A short last chromosome is completed with the first positions left in the pool. */
  function Pad(ch: Chunks, L: nat, rest: seq<Pos>): (padded: Population)
    requires PadFits(ch, L, rest)
    ensures ch.full <= padded && |padded| == |ch.full| + (if |ch.last| > 0 then 1 else 0)
    ensures |ch.last| > 0 ==>
      var last := padded[|padded| - 1];
      && |last| == (if |ch.last| < L then L else |ch.last|)
      && last == ch.last + rest[..|last| - |ch.last|]
  {
    if |ch.last| > 0 then
      ch.full + [ch.last + (if |ch.last| < L then rest[..L - |ch.last|] else [])]
    else
      ch.full
  }

  /** An odd population gets a copy of its first chromosome. */
  function MakeEven(pop: Population): (r: Population)
    ensures |r| % 2 == 0
    ensures forall i :: 0 <= i < |r| ==> r[i] in pop
    ensures pop <= r && |r| <= |pop| + 1
    ensures forall i :: |pop| <= i < |r| ==> r[i] == pop[0]
  {
    if |pop| % 2 != 0 then pop + [pop[0]] else pop
  }

  /** The first population and the pool that mutation draws from afterwards. */
  datatype Seeded = Seeded(population: Population, rest: seq<Pos>)

  /**
   The padding needs, when SeedCount is not a multiple of L, the L - SeedCount % L
   positions that complete the last chromosome to be left in the pool.
   */
  predicate PaddingFits(poolSize: nat, L: nat)
  {
    poolSize <= SeedCount || L == 0 || SeedCount % L == 0 || L - SeedCount % L <= poolSize - SeedCount
  }

  /** The chunked support fills |full| chromosomes and leaves |last| == n % L over. */
  lemma {:induction false} ChunkCounts(support: seq<Pos>, L: nat, n: nat)
    requires n <= |support| && 1 <= L
    ensures |ChunkPrefix(support, L, n).full| * L + |ChunkPrefix(support, L, n).last| == n
    ensures |ChunkPrefix(support, L, n).last| == n % L
  {
    var ch := ChunkPrefix(support, L, n);
    FlattenLength(ch.full, L);
    assert |Flatten(ch.full)| + |ch.last| == n;
    ModOfMultiplePlus(|ch.full|, L, |ch.last|);
  }

  lemma {:induction false} FlattenLength(pop: Population, L: nat)
    requires Shaped(pop, L)
    ensures |Flatten(pop)| == |pop| * L
  {
    if |pop| > 0 {
      FlattenLength(pop[..|pop| - 1], L);
    }
  }

  /** Euclidean division is unique: x == q * L + r with 0 <= r < L leaves remainder r. */
  lemma ModOfMultiplePlus(q: nat, L: nat, r: nat)
    requires 1 <= L && r < L
    ensures (q * L + r) % L == r
  {
    var x := q * L + r;
    var d: int := x / L - q;
    assert x == L * (x / L) + x % L;
    assert L * d == r - x % L;
    MultipleBounds(L, d);
  }

  /** A non-zero multiple of L is at least L away from 0. */
  lemma MultipleBounds(L: nat, d: int)
    requires 1 <= L
    ensures d >= 1 ==> L * d >= L
    ensures d <= -1 ==> L * d <= -(L as int)
  {
  }

  lemma {:induction false} FlattenGenes(pop: Population, i: nat)
    requires i < |pop|
    ensures forall g :: g in pop[i] ==> g in Flatten(pop)
  {
    if i < |pop| - 1 {
      FlattenGenes(pop[..|pop| - 1], i);
    }
  }

  /** What seeding needs: SeedCount fitting pops when the pool is drawn from, and room to pad. */
  predicate SeedFits(pool: seq<Pos>, idx: seq<nat>, L: nat)
  {
    && (|pool| > SeedCount ==> |idx| == SeedCount && PopsFit(idx, |pool|))
    && PaddingFits(|pool|, L)
  }

  /** The drawn support cut into chromosomes of L genes. */
  function Chunked(pool: seq<Pos>, idx: seq<nat>, L: nat): Chunks
    requires |pool| > SeedCount ==> |idx| == SeedCount && PopsFit(idx, |pool|)
  {
    var support := DrawSupport(pool, idx).support;
    ChunkPrefix(support, L, |support|)
  }

  /**
   Seeding: draw the support, cut it into chromosomes of L genes, complete the
   last one from the remaining pool, and make the population even.
   */
  function Seed(pool: seq<Pos>, idx: seq<nat>, L: nat): (s: Seeded)
    requires SeedFits(pool, idx, L)
    ensures |s.population| % 2 == 0
    ensures GenesIn(s.population, pool)
    ensures multiset(s.rest) <= multiset(pool)
    ensures |pool| > SeedCount ==> |s.rest| == |pool| - SeedCount
    ensures |pool| <= SeedCount ==> s.population == []
    ensures 1 <= L ==> Shaped(s.population, L)
    ensures 1 <= L && |pool| > SeedCount ==> Balanced(|s.population|)
  {
    var rest := DrawSupport(pool, idx).rest;
    ChunkedPadFits(pool, idx, L);
    SeedGenes(pool, idx, L);
    SeedShape(pool, idx, L);
    SeedBalanced(pool, idx, L);
    Seeded(MakeEven(Pad(Chunked(pool, idx, L), L, rest)), rest)
  }

  /** The pool left after the draws always holds the positions the padding takes. */
  lemma ChunkedPadFits(pool: seq<Pos>, idx: seq<nat>, L: nat)
    requires SeedFits(pool, idx, L)
    ensures PadFits(Chunked(pool, idx, L), L, DrawSupport(pool, idx).rest)
  {
    var sp := DrawSupport(pool, idx);
    if 1 <= L && |pool| > SeedCount {
      ChunkCounts(sp.support, L, |sp.support|);
    }
  }

  /** Every gene of the first population is a pool position. */
  lemma SeedGenes(pool: seq<Pos>, idx: seq<nat>, L: nat)
    requires SeedFits(pool, idx, L)
    requires PadFits(Chunked(pool, idx, L), L, DrawSupport(pool, idx).rest)
    ensures GenesIn(MakeEven(Pad(Chunked(pool, idx, L), L, DrawSupport(pool, idx).rest)), pool)
  {
    var sp := DrawSupport(pool, idx);
    var ch := Chunked(pool, idx, L);
    assert Flatten(ch.full) + ch.last == sp.support by {
      assert sp.support[..|sp.support|] == sp.support;
    }
    SplitFromPool(pool, idx);
    PadGenes(ch, L, sp.rest, pool);
    MakeEvenKeeps(Pad(ch, L, sp.rest), L, pool);
  }

  /** The first population has chromosomes of L genes, and none at all when the pool is too small to draw from. */
  lemma SeedShape(pool: seq<Pos>, idx: seq<nat>, L: nat)
    requires SeedFits(pool, idx, L)
    requires PadFits(Chunked(pool, idx, L), L, DrawSupport(pool, idx).rest)
    ensures var pop := MakeEven(Pad(Chunked(pool, idx, L), L, DrawSupport(pool, idx).rest));
      && (|pool| <= SeedCount ==> pop == [])
      && (1 <= L ==> Shaped(pop, L))
  {
    var sp := DrawSupport(pool, idx);
    var ch := Chunked(pool, idx, L);
    if 1 <= L {
      PadShape(ch, L, sp.rest);
      MakeEvenKeeps(Pad(ch, L, sp.rest), L, pool);
    }
  }

  /** Drawn from a large enough pool, the first population has a size the generation loop can pair. */
  lemma SeedBalanced(pool: seq<Pos>, idx: seq<nat>, L: nat)
    requires SeedFits(pool, idx, L)
    requires PadFits(Chunked(pool, idx, L), L, DrawSupport(pool, idx).rest)
    ensures 1 <= L && |pool| > SeedCount ==>
      Balanced(|MakeEven(Pad(Chunked(pool, idx, L), L, DrawSupport(pool, idx).rest))|)
  {
    if 1 <= L && |pool| > SeedCount {
      var sp := DrawSupport(pool, idx);
      ChunkCounts(sp.support, L, |sp.support|);
      PaddedIsBalanced(Chunked(pool, idx, L), L, sp.rest);
    }
  }

  /** Chunks of SeedCount positions, padded and made even, make a population of a size the loop can pair. */
  lemma PaddedIsBalanced(ch: Chunks, L: nat, rest: seq<Pos>)
    requires 1 <= L && Shaped(ch.full, L) && |ch.last| < L && PadFits(ch, L, rest)
    requires |ch.full| * L + |ch.last| == SeedCount
    ensures Balanced(|MakeEven(Pad(ch, L, rest))|)
  {
    var padded := Pad(ch, L, rest);
    PadShape(ch, L, rest);
    MakeEvenKeeps(padded, L, rest);
    ChunkTotal(|ch.full|, L, |ch.last|);
    EvenedIsBalanced(|padded|);
  }

  /** The support and the rest hold only positions of the pool. */
  lemma SplitFromPool(pool: seq<Pos>, idx: seq<nat>)
    requires |pool| > SeedCount ==> |idx| == SeedCount && PopsFit(idx, |pool|)
    ensures forall p :: p in DrawSupport(pool, idx).support ==> p in pool
    ensures forall p :: p in DrawSupport(pool, idx).rest ==> p in pool
  {
    var sp := DrawSupport(pool, idx);
    forall p | p in sp.support
      ensures p in pool
    {
      assert p in multiset(sp.support);
      assert p in multiset(pool);
    }
    forall p | p in sp.rest
      ensures p in pool
    {
      assert p in multiset(sp.rest);
      assert p in multiset(pool);
    }
  }

  /** SeedCount positions cut into chromosomes of L genes give between 1 and SeedCount chromosomes. */
  lemma ChunkTotal(full: nat, L: nat, last: nat)
    requires 1 <= L && last < L && full * L + last == SeedCount
    ensures 1 <= full + (if last > 0 then 1 else 0) <= SeedCount
  {
    AtLeastFactor(full, L);
  }

  /** Rounding a size between 1 and the cap up to even gives a balanced size. */
  lemma EvenedIsBalanced(n: nat)
    requires 1 <= n <= SoftCap
    ensures Balanced(n + n % 2)
  {
  }

  lemma AtLeastFactor(a: nat, L: nat)
    requires 1 <= L
    ensures a <= a * L
  {
  }

  /** Padding yields chromosomes of L genes, one more than the full ones when a short one was left. */
  lemma PadShape(ch: Chunks, L: nat, rest: seq<Pos>)
    requires 1 <= L && Shaped(ch.full, L) && |ch.last| < L && PadFits(ch, L, rest)
    ensures Shaped(Pad(ch, L, rest), L)
    ensures |Pad(ch, L, rest)| == |ch.full| + (if |ch.last| > 0 then 1 else 0)
  {
  }

  /** Padding takes genes only from the chunks and the rest of the pool. */
  lemma PadGenes(ch: Chunks, L: nat, rest: seq<Pos>, u: seq<Pos>)
    requires PadFits(ch, L, rest)
    requires forall p :: p in Flatten(ch.full) + ch.last ==> p in u
    requires forall p :: p in rest ==> p in u
    ensures GenesIn(Pad(ch, L, rest), u)
  {
    var padded := Pad(ch, L, rest);
    forall i | 0 <= i < |padded|
      ensures forall g :: g in padded[i] ==> g in u
    {
      if i < |ch.full| {
        FlattenGenes(ch.full, i);
      }
    }
  }

  /** Making the population even keeps its shape and its genes. */
  lemma MakeEvenKeeps(pop: Population, L: nat, u: seq<Pos>)
    ensures Shaped(pop, L) ==> Shaped(MakeEven(pop), L)
    ensures GenesIn(pop, u) ==> GenesIn(MakeEven(pop), u)
    ensures |MakeEven(pop)| == |pop| + |pop| % 2
  {
  }

  // ---------------------------------------------------------------------------
  // The generation loop
  // ---------------------------------------------------------------------------

  /** Draws for each generation of a run: MaxPairs of them, each fitting. */
  predicate DrawsFit(draws: seq<seq<CrossoverDraw>>, L: nat, n: nat, rate: real)
  {
    forall g :: 0 <= g < |draws| ==> |draws[g]| == MaxPairs && AllFit(draws[g], L, n, rate)
  }

  /** What a run needs of its first population, its pool and its draws. */
  predicate Runnable(prob: Problem, pop0: Population, pool: seq<Pos>, rate: real, draws: seq<seq<CrossoverDraw>>)
  {
    && |prob.antennas| >= 1
    && Shaped(pop0, |prob.antennas|)
    && Balanced(|pop0|)
    && DrawsFit(draws, |prob.antennas|, |pool|, rate)
  }

  /** A balanced population of L-gene chromosomes can run generation g with the draws of g. */
  lemma BalancedSteppable(prob: Problem, pop: Population, pool: seq<Pos>, rate: real, draws: seq<seq<CrossoverDraw>>, g: nat)
    requires |prob.antennas| >= 1 && Shaped(pop, |prob.antennas|) && Balanced(|pop|)
    requires DrawsFit(draws, |prob.antennas|, |pool|, rate) && g < |draws|
    ensures Steppable(prob, pop, pool, rate, draws[g])
  {
    BalancedIsPreserved(|pop|);
  }

  /** The population at the start of generation g; draws[g] feeds the crossovers of generation g. */
  function Generation(prob: Problem, pop0: Population, pool: seq<Pos>, rate: real, draws: seq<seq<CrossoverDraw>>, g: nat): (pop: Population)
    requires Runnable(prob, pop0, pool, rate, draws) && g <= |draws|
    ensures Shaped(pop, |prob.antennas|) && Balanced(|pop|)
  {
    if g == 0 then pop0
    else
      var prev := Generation(prob, pop0, pool, rate, draws, g - 1);
      BalancedSteppable(prob, prev, pool, rate, draws, g - 1);
      BalancedIsPreserved(|prev|);
      Step(prob, prev, pool, rate, draws[g - 1]).next
  }

  /** No generation holds a gene from outside the first population and the pool. */
  lemma {:induction false} GenerationGenes(prob: Problem, pop0: Population, pool: seq<Pos>, rate: real, draws: seq<seq<CrossoverDraw>>, g: nat, u: seq<Pos>)
    requires Runnable(prob, pop0, pool, rate, draws) && g <= |draws|
    requires GenesIn(pop0, u) && forall p :: p in pool ==> p in u
    ensures GenesIn(Generation(prob, pop0, pool, rate, draws, g), u)
  {
    if g > 0 {
      GenerationGenes(prob, pop0, pool, rate, draws, g - 1, u);
      GenerationStepGenes(prob, pop0, pool, rate, draws, g, u);
    }
  }

  /** One generation adds no gene from outside the previous one and the pool. */
  lemma GenerationStepGenes(prob: Problem, pop0: Population, pool: seq<Pos>, rate: real, draws: seq<seq<CrossoverDraw>>, g: nat, u: seq<Pos>)
    requires Runnable(prob, pop0, pool, rate, draws) && 0 < g <= |draws|
    requires GenesIn(Generation(prob, pop0, pool, rate, draws, g - 1), u) && forall p :: p in pool ==> p in u
    ensures GenesIn(Generation(prob, pop0, pool, rate, draws, g), u)
  {
    var prev := Generation(prob, pop0, pool, rate, draws, g - 1);
    BalancedSteppable(prob, prev, pool, rate, draws, g - 1);
    StepGenes(prob, prev, pool, rate, draws[g - 1], u);
  }

  /** What a whole run demands: a pool seeding draws from, pops that fit it, and fitting crossover draws. */
  predicate RunFits(prob: Problem, pool: seq<Pos>, pops: seq<nat>, draws: seq<seq<CrossoverDraw>>)
  {
    && |prob.antennas| >= 1
    && |pool| > SeedCount
    && |pops| == SeedCount && SeedFits(pool, pops, |prob.antennas|)
    && DrawsFit(draws, |prob.antennas|, |pool| - SeedCount, MutationRate(|pool|))
  }

  /**
   Seeding a run that fits gives a first population the generation loop can
   run from, with every gene, and every position left for mutation, in the pool.
   */
  lemma SeededRunnable(prob: Problem, pool: seq<Pos>, pops: seq<nat>, draws: seq<seq<CrossoverDraw>>)
    requires RunFits(prob, pool, pops, draws)
    ensures var s := Seed(pool, pops, |prob.antennas|);
      && Runnable(prob, s.population, s.rest, MutationRate(|pool|), draws)
      && GenesIn(s.population, pool)
      && forall p :: p in s.rest ==> p in pool
  {
    var s := Seed(pool, pops, |prob.antennas|);
    forall p | p in s.rest
      ensures p in pool
    {
      assert p in multiset(s.rest);
    }
  }

  /**
   Generation g records the fitness of the chromosome that heads generation
   g + 1: no chromosome of generation g is fitter, and it is one of them.
   */
  lemma GenerationRecordsBest(prob: Problem, pop0: Population, pool: seq<Pos>, rate: real, draws: seq<seq<CrossoverDraw>>, g: nat)
    requires Runnable(prob, pop0, pool, rate, draws) && g < |draws|
    ensures var pop := Generation(prob, pop0, pool, rate, draws, g);
      var head := Generation(prob, pop0, pool, rate, draws, g + 1)[0];
      && (forall i :: 0 <= i < |pop| ==> Fitness(prob, pop[i]) <= Fitness(prob, head))
      && head in pop
  {
    var pop := Generation(prob, pop0, pool, rate, draws, g);
    BalancedSteppable(prob, pop, pool, rate, draws, g);
    StepRecordsBest(prob, pop, pool, rate, draws[g]);
  }

  /** The best fitness recorded by generation g: that of the chromosome heading generation g + 1. */
  function Recorded(prob: Problem, pop0: Population, pool: seq<Pos>, rate: real, draws: seq<seq<CrossoverDraw>>, g: nat): (best: int)
    requires Runnable(prob, pop0, pool, rate, draws) && g < |draws|
    ensures var pop := Generation(prob, pop0, pool, rate, draws, g);
      forall i :: 0 <= i < |pop| ==> Fitness(prob, pop[i]) <= best
  {
    GenerationRecordsBest(prob, pop0, pool, rate, draws, g);
    Fitness(prob, Generation(prob, pop0, pool, rate, draws, g + 1)[0])
  }

  /** The fitnesses recorded by the first n generations, in order. */
  function Record(prob: Problem, pop0: Population, pool: seq<Pos>, rate: real, draws: seq<seq<CrossoverDraw>>, n: nat): (record: seq<int>)
    requires Runnable(prob, pop0, pool, rate, draws) && n <= |draws|
    ensures |record| == n
  {
    seq(n, g requires 0 <= g < n => Recorded(prob, pop0, pool, rate, draws, g))
  }

  /** Running one more generation appends what it records to the record. */
  lemma RecordGrows(prob: Problem, pop0: Population, pool: seq<Pos>, rate: real, draws: seq<seq<CrossoverDraw>>, n: nat)
    requires Runnable(prob, pop0, pool, rate, draws) && n < |draws|
    ensures Record(prob, pop0, pool, rate, draws, n + 1) == Record(prob, pop0, pool, rate, draws, n) + [Recorded(prob, pop0, pool, rate, draws, n)]
  {
    var longer, shorter := Record(prob, pop0, pool, rate, draws, n + 1), Record(prob, pop0, pool, rate, draws, n);
    assert forall k :: 0 <= k < n ==> longer[k] == shorter[k];
    Snoc(longer, shorter);
  }

  /** A sequence one longer than b that agrees with b on b's indices is b followed by its last entry. */
  lemma Snoc<T>(a: seq<T>, b: seq<T>)
    requires |a| == |b| + 1 && forall k :: 0 <= k < |b| ==> a[k] == b[k]
    ensures a == b + [a[|b|]]
  {
  }

  /**
   Entry g of the record is the best fitness of generation g: no chromosome
   of that generation is fitter, and one of them is exactly that fit.
   */
  lemma RecordIsBest(prob: Problem, pop0: Population, pool: seq<Pos>, rate: real, draws: seq<seq<CrossoverDraw>>, n: nat, g: nat)
    requires Runnable(prob, pop0, pool, rate, draws) && n <= |draws| && g < n
    ensures forall i :: 0 <= i < |Generation(prob, pop0, pool, rate, draws, g)| ==>
      Fitness(prob, Generation(prob, pop0, pool, rate, draws, g)[i]) <= Record(prob, pop0, pool, rate, draws, n)[g]
    ensures exists i :: (0 <= i < |Generation(prob, pop0, pool, rate, draws, g)| &&
      Fitness(prob, Generation(prob, pop0, pool, rate, draws, g)[i]) == Record(prob, pop0, pool, rate, draws, n)[g])
  {
    GenerationRecordsBest(prob, pop0, pool, rate, draws, g);
    var pop := Generation(prob, pop0, pool, rate, draws, g);
    var head := Generation(prob, pop0, pool, rate, draws, g + 1)[0];
    var i :| 0 <= i < |pop| && pop[i] == head;
    assert Fitness(prob, pop[i]) == Record(prob, pop0, pool, rate, draws, n)[g];
  }

  /** For the antenna search itself, no chromosome of generation g scores more than entry g of the record. */
  lemma RecordBoundsScore(buildings: seq<Building>, antennas: seq<Antenna>, reward: int, pop0: Population, pool: seq<Pos>, rate: real, draws: seq<seq<CrossoverDraw>>, n: nat, g: nat, i: nat)
    requires Runnable(PlacementProblem(buildings, antennas, reward), pop0, pool, rate, draws) && n <= |draws| && g < n
    requires i < |Generation(PlacementProblem(buildings, antennas, reward), pop0, pool, rate, draws, g)|
    ensures var prob := PlacementProblem(buildings, antennas, reward);
      Score(buildings, Generation(prob, pop0, pool, rate, draws, g)[i], antennas, reward) <= Record(prob, pop0, pool, rate, draws, n)[g]
  {
    var prob := PlacementProblem(buildings, antennas, reward);
    var c := Generation(prob, pop0, pool, rate, draws, g)[i];
    RecordIsBest(prob, pop0, pool, rate, draws, n, g);
    assert Fitness(prob, c) == Score(buildings, c, antennas, reward);
  }

  /** For the antenna search itself, some chromosome of generation g scores exactly entry g of the record. */
  lemma RecordScoreAttained(buildings: seq<Building>, antennas: seq<Antenna>, reward: int, pop0: Population, pool: seq<Pos>, rate: real, draws: seq<seq<CrossoverDraw>>, n: nat, g: nat)
    requires Runnable(PlacementProblem(buildings, antennas, reward), pop0, pool, rate, draws) && n <= |draws| && g < n
    ensures var prob := PlacementProblem(buildings, antennas, reward);
      var pop := Generation(prob, pop0, pool, rate, draws, g);
      exists i :: 0 <= i < |pop| && Score(buildings, pop[i], antennas, reward) == Record(prob, pop0, pool, rate, draws, n)[g]
  {
    var prob := PlacementProblem(buildings, antennas, reward);
    var pop := Generation(prob, pop0, pool, rate, draws, g);
    RecordIsBest(prob, pop0, pool, rate, draws, n, g);
    var k :| 0 <= k < |pop| && Fitness(prob, pop[k]) == Record(prob, pop0, pool, rate, draws, n)[g];
    assert Fitness(prob, pop[k]) == Score(buildings, pop[k], antennas, reward);
  }

  /** The best chromosome of generation g heads generation g + 1, so the best fitness never drops. */
  lemma BestNeverDrops(prob: Problem, pop0: Population, pool: seq<Pos>, rate: real, draws: seq<seq<CrossoverDraw>>, g: nat)
    requires Runnable(prob, pop0, pool, rate, draws) && g + 1 < |draws|
    ensures Recorded(prob, pop0, pool, rate, draws, g) <= Recorded(prob, pop0, pool, rate, draws, g + 1)
  {
    GenerationRecordsBest(prob, pop0, pool, rate, draws, g + 1);
  }

  /**
   The record never decreases: the best chromosome of a generation survives
   as a parent into the next one, so the next best is at least as fit.
   */
  lemma RecordIsMonotone(prob: Problem, pop0: Population, pool: seq<Pos>, rate: real, draws: seq<seq<CrossoverDraw>>, n: nat)
    requires Runnable(prob, pop0, pool, rate, draws) && n <= |draws|
    ensures NonDecreasing(Record(prob, pop0, pool, rate, draws, n))
  {
    RecordStepsUp(prob, pop0, pool, rate, draws, n);
    StepsNonDecreasing(Record(prob, pop0, pool, rate, draws, n));
  }

  /** No entry of the record is below the one before it. */
  lemma RecordStepsUp(prob: Problem, pop0: Population, pool: seq<Pos>, rate: real, draws: seq<seq<CrossoverDraw>>, n: nat)
    requires Runnable(prob, pop0, pool, rate, draws) && n <= |draws|
    ensures forall g :: 0 <= g < n - 1 ==> Record(prob, pop0, pool, rate, draws, n)[g] <= Record(prob, pop0, pool, rate, draws, n)[g + 1]
  {
    forall g | 0 <= g < n - 1
      ensures Recorded(prob, pop0, pool, rate, draws, g) <= Recorded(prob, pop0, pool, rate, draws, g + 1)
    {
      BestNeverDrops(prob, pop0, pool, rate, draws, g);
    }
  }

  /** A sequence that never drops from one entry to the next never drops at all. */
  lemma {:induction false} StepsNonDecreasing(s: seq<int>)
    requires forall g :: 0 <= g < |s| - 1 ==> s[g] <= s[g + 1]
    ensures NonDecreasing(s)
  {
    if |s| > 1 {
      var t := s[..|s| - 1];
      assert forall g :: 0 <= g < |t| - 1 ==> t[g] <= t[g + 1];
      StepsNonDecreasing(t);
      assert s == t + [s[|s| - 1]];
      AppendNotSmaller(t, s[|s| - 1]);
    }
  }

  predicate NonDecreasing(s: seq<int>)
  {
    forall g, h :: 0 <= g < h < |s| ==> s[g] <= s[h]
  }

  lemma AppendNotSmaller(s: seq<int>, x: int)
    requires NonDecreasing(s) && (|s| > 0 ==> s[|s| - 1] <= x)
    ensures NonDecreasing(s + [x])
  {
    var t := s + [x];
    forall g, h | 0 <= g < h < |t|
      ensures t[g] <= t[h]
    {
      if h == |s| && g < |s| - 1 {
        assert s[g] <= s[|s| - 1];
      }
    }
  }

  /** The chromosome the search returns is exactly as fit as the last recorded fitness. */
  lemma ReturnedIsRecorded(prob: Problem, pop0: Population, pool: seq<Pos>, rate: real, draws: seq<seq<CrossoverDraw>>, n: nat)
    requires Runnable(prob, pop0, pool, rate, draws) && 0 < n <= |draws|
    ensures Fitness(prob, Generation(prob, pop0, pool, rate, draws, n)[0]) == Record(prob, pop0, pool, rate, draws, n)[n - 1]
  {
  }

  /**
   The search: seed, then run maxLoops generations, recording the best
   fitness of each, and return the first chromosome of the last population.
   */
  method DoGenetics(prob: Problem, pool: seq<Pos>, maxLoops: nat, pops: seq<nat>, draws: seq<seq<CrossoverDraw>>)
    returns (best: Chromosome, record: seq<int>)
    requires RunFits(prob, pool, pops, draws) && maxLoops <= |draws|
    ensures var s := Seed(pool, pops, |prob.antennas|);
      && Runnable(prob, s.population, s.rest, MutationRate(|pool|), draws)
      && record == Record(prob, s.population, s.rest, MutationRate(|pool|), draws, maxLoops)
      && best == Generation(prob, s.population, s.rest, MutationRate(|pool|), draws, maxLoops)[0]
    ensures |best| == |prob.antennas| && forall p :: p in best ==> p in pool
    ensures maxLoops > 0 ==> Fitness(prob, best) == record[maxLoops - 1]
  {
    var seeded := Seed(pool, pops, |prob.antennas|);
    var rate := MutationRate(|pool|);
    SeededRunnable(prob, pool, pops, draws);
    var population := seeded.population;
    record := [];
    var i := 0;
    while i < maxLoops
      invariant 0 <= i <= maxLoops
      invariant population == Generation(prob, seeded.population, seeded.rest, rate, draws, i)
      invariant record == Record(prob, seeded.population, seeded.rest, rate, draws, i)
    {
      BalancedSteppable(prob, population, seeded.rest, rate, draws, i);
      var gen := Step(prob, population, seeded.rest, rate, draws[i]);
      StepRecordsBest(prob, population, seeded.rest, rate, draws[i]);
      RecordGrows(prob, seeded.population, seeded.rest, rate, draws, i);
      record := record + [gen.best];
      population := gen.next;
      i := i + 1;
    }
    best := population[0];
    GenerationGenes(prob, seeded.population, seeded.rest, rate, draws, maxLoops, pool);
    if maxLoops > 0 {
      ReturnedIsRecorded(prob, seeded.population, seeded.rest, rate, draws, maxLoops);
    }
  }
}
