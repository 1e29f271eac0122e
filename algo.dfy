/** The functional genetic algorithm of musigen/algo/algo.py: population generation, mutation,
    fitness weighting, selection, sorting and the generational loop. Crossover is
    Operators.SinglePointCrossover and genome generation Genome.GenerateGenome. */
module Ga {

  import opened Wrappers
  import opened Bits
  import opened Genome
  import opened Sorting
  import opened Weighting
  import opened Operators

  /** generate_population: one generated genome per row of coin outcomes. */
  function GeneratePopulation(size: int, length: int, coins: seq<seq<bool>>): (r: seq<Genome>)
    requires |coins| == Clamp(size)
    requires forall k :: 0 <= k < |coins| ==> |coins[k]| == Clamp(length)
    ensures |r| == Clamp(size)
    ensures Uniform(r, Clamp(length))
    ensures forall k :: 0 <= k < |r| ==> forall i :: 0 <= i < Clamp(length) ==> (r[k][i] == 1 <==> coins[k][i])
  {
    seq(|coins|, k requires 0 <= k < |coins| => GenerateGenome(length, coins[k]))
  }

  /** mutation: `rounds` rounds, each drawing an index with random.randrange(len(genome)) and
      flipping that bit in place when its coin succeeds. Each draw's index is reduced modulo the
      genome length; an empty genome makes the first round fail. */
  method Mutation(genome: array<int>, rounds: int, draws: seq<MutationDraw>) returns (outcome: Outcome)
    requires rounds >= 0 ==> |draws| == rounds
    modifies genome
    ensures outcome == Fail(NegativeRounds) <==> rounds < 0
    ensures outcome == Fail(EmptyRange) <==> rounds > 0 && genome.Length == 0
    ensures outcome.Pass? <==> rounds >= 0 && (rounds == 0 || genome.Length > 0)
    ensures outcome.Fail? ==> genome[..] == old(genome[..])
    ensures outcome.Pass? ==> MutateChild(old(genome[..]), draws) == Ok(genome[..])
  {
    if rounds < 0 {
      return Fail(NegativeRounds);
    }
    if rounds > 0 && genome.Length == 0 {
      return Fail(EmptyRange);
    }
    if genome.Length == 0 {
      return Pass;
    }
    ghost var g0 := genome[..];
    ghost var reduced := Reduce(draws, genome.Length);
    var k := 0;
    while k < rounds
      invariant 0 <= k <= rounds
      invariant genome[..] == Mutated(g0, reduced[..k])
    {
      var index := draws[k].index % genome.Length;
      if draws[k].flip {
        genome[index] := Flip(genome[index]);
      }
      assert reduced[..k + 1][..k] == reduced[..k];
      k := k + 1;
    }
    assert reduced[..rounds] == reduced;
    return Pass;
  }

  /** population_fitness: sum(f(g) for g in population). */
  function PopulationFitness(population: seq<Genome>, f: Genome -> int): (total: int)
    ensures |population| == 1 ==> total == f(population[0])
    ensures (forall k :: 0 <= k < |population| ==> f(population[k]) >= 0) ==> total >= 0
  {
    SumByAppend(population, [], f);
    SumByNonNegative(population, f);
    SumBy(population, f)
  }

  /** Population fitness adds up genome by genome, and does not depend on the order of the
      population. */
  lemma PopulationFitnessSum(a: seq<Genome>, b: seq<Genome>, g: Genome, f: Genome -> int)
    ensures PopulationFitness([], f) == 0
    ensures PopulationFitness([g], f) == f(g)
    ensures PopulationFitness(a + b, f) == PopulationFitness(a, f) + PopulationFitness(b, f)
    ensures PopulationFitness(SortPopulation(a, f), f) == PopulationFitness(a, f)
  {
    SumByAppend([g], [], f);
    SumByAppend(a, b, f);
    SumBySortDesc(a, f, f);
  }

  /** generate_weighted_distribution: extends the result, genome by genome, with f(g) + 1
      copies of g. */
  method GenerateWeightedDistribution(population: seq<Genome>, f: Genome -> int) returns (result: seq<Genome>)
    ensures result == Weighted(population, f)
    ensures forall g :: multiset(result)[g] == multiset(population)[g] * Clamp(f(g) + 1)
  {
    result := [];
    for i := 0 to |population|
      invariant result == Weighted(population[..i], f)
    {
      var gene := population[i];
      var geneVariation := Repeat(gene, f(gene) + 1);
      WeightedPrefix(population, f, i);
      result := result + geneVariation;
    }
    assert population[..|population|] == population;
    forall g ensures multiset(result)[g] == multiset(population)[g] * Clamp(f(g) + 1) {
      WeightedCount(population, f, g);
    }
  }

  /** selection_pair: random.sample of two distinct positions of the weighted pool. It fails
      when the pool has fewer than two entries; otherwise both parents are members of the
      population whose fitness is not negative. */
  function SelectionPair(population: seq<Genome>, f: Genome -> int, first: nat, second: nat): (r: Result<(Genome, Genome)>)
    ensures r.Err? <==> |Weighted(population, f)| < 2
    ensures r.Err? ==> r.error == SampleLargerThanPool
    ensures r.Ok? ==> exists i, j :: 0 <= i < |Weighted(population, f)| && 0 <= j < |Weighted(population, f)| && i != j &&
                        r.value == (Weighted(population, f)[i], Weighted(population, f)[j])
    ensures r.Ok? ==> r.value.0 in population && r.value.1 in population && f(r.value.0) >= 0 && f(r.value.1) >= 0
  {
    var pool := Weighted(population, f);
    if |pool| < 2 then Err(SampleLargerThanPool)
    else
      var (i, j) := SamplePositions(|pool|, first, second);
      WeightedMembers(population, f, pool[i]);
      WeightedMembers(population, f, pool[j]);
      Ok((pool[i], pool[j]))
  }

  /** sort_population: sorted(population, key=f, reverse=True). */
  function SortPopulation(population: seq<Genome>, f: Genome -> int): (r: seq<Genome>)
    ensures |r| == |population| && multiset(r) == multiset(population)
    ensures NonIncreasing(r, f)
    ensures forall k :: WithKey(r, f, k) == WithKey(population, f, k)
  {
    SortDescSortedPermutation(population, f);
    forall k ensures WithKey(SortDesc(population, f), f, k) == WithKey(population, f, k) {
      SortDescStable(population, f, k);
    }
    SortDesc(population, f)
  }

  /** How many of a generation's best survive unchanged: population[0:2]. */
  function Elite(n: nat): nat
  {
    if n < 2 then n else 2
  }

  /** How many offspring pairs a generation of n breeds: range(n // 2 - 1). */
  function Pairs(n: nat): nat
  {
    Clamp(n / 2 - 1)
  }

  /** The next generation of a sorted population: its two best, then the offspring pairs bred
      from the weighted pool, the m-th pair using draws(m). */
  function NextGeneration(sorted: seq<Genome>, f: Genome -> int, draws: nat -> PairDraw): (r: Result<seq<Genome>>)
    requires NoSingleBit(sorted)
    ensures r.Ok? ==> |r.value| == Elite(|sorted|) + 2 * Pairs(|sorted|)
    ensures r.Ok? ==> r.value[..Elite(|sorted|)] == sorted[..Elite(|sorted|)]
    ensures r.Ok? && |sorted| >= 2 ==> |r.value| == |sorted| - |sorted| % 2
  {
    NoSingleBitWeighted(sorted, f);
    match Breed(Weighted(sorted, f), draws, Pairs(|sorted|))
    case Err(e) => Err(e)
    case Ok(kids) => Ok(sorted[..Elite(|sorted|)] + kids)
  }

  lemma NoSingleBitWeighted(gs: seq<Genome>, f: Genome -> int)
    requires NoSingleBit(gs)
    ensures NoSingleBit(Weighted(gs, f))
  {
    var pool := Weighted(gs, f);
    forall k | 0 <= k < |pool| ensures |pool[k]| != 1 {
      WeightedMembers(gs, f, pool[k]);
    }
  }

  lemma NoSingleBitSorted(gs: seq<Genome>, f: Genome -> int)
    requires NoSingleBit(gs)
    ensures NoSingleBit(SortPopulation(gs, f))
  {
    var s := SortPopulation(gs, f);
    forall k | 0 <= k < |s| ensures |s[k]| != 1 {
      assert s[k] in multiset(s);
    }
  }

  lemma NoSingleBitNext(sorted: seq<Genome>, f: Genome -> int, draws: nat -> PairDraw)
    requires NoSingleBit(sorted)
    ensures NextGeneration(sorted, f, draws).Ok? ==> NoSingleBit(NextGeneration(sorted, f, draws).value)
  {
    NoSingleBitWeighted(sorted, f);
    BreedNoSingleBit(Weighted(sorted, f), draws, Pairs(|sorted|));
  }

  /** run_evolution from generation `it` on: sort, stop when the best reaches the limit, else
      breed the next generation with the draws draws(it); after the last generation the result
      carries generation_limit. An empty population fails at population[0]. */
  function Evolve(population: seq<Genome>, f: Genome -> int, fitnessLimit: int, generationLimit: int,
                  draws: nat -> nat -> PairDraw, it: nat): (r: Result<(seq<Genome>, int)>)
    requires NoSingleBit(population)
    ensures r.Err? ==> r.error == IndexOutOfRange || r.error == SampleLargerThanPool ||
                       r.error == LengthMismatch || r.error == EmptyRange
    decreases generationLimit - it
  {
    if it >= generationLimit then Ok((population, generationLimit))
    else
      var sorted := SortPopulation(population, f);
      if |sorted| == 0 then Err(IndexOutOfRange)
      else if f(sorted[0]) >= fitnessLimit then Ok((sorted, it))
      else
        NoSingleBitSorted(population, f);
        NoSingleBitNext(sorted, f, draws(it));
        match NextGeneration(sorted, f, draws(it))
        case Err(e) => Err(e)
        case Ok(next) => Evolve(next, f, fitnessLimit, generationLimit, draws, it + 1)
  }

  /** The population that enters iteration k of the loop begun at iteration `it`, when every
      generation before it is bred whatever its fitness: None once a population is empty or
      fails to breed. */
  function Generation(population: seq<Genome>, f: Genome -> int, draws: nat -> nat -> PairDraw,
                      it: nat, k: nat): (r: Option<seq<Genome>>)
    requires NoSingleBit(population)
    ensures r.Some? ==> NoSingleBit(r.value)
    ensures k <= it ==> r == Some(population)
    decreases k - it
  {
    if k <= it then Some(population)
    else
      var sorted := SortPopulation(population, f);
      if |sorted| == 0 then None
      else
        NoSingleBitSorted(population, f);
        NoSingleBitNext(sorted, f, draws(it));
        match NextGeneration(sorted, f, draws(it))
        case Err(_) => None
        case Ok(next) => Generation(next, f, draws, it + 1, k)
  }

  /** The best of the sorted population is below the fitness limit, so the loop goes on. */
  predicate Unfinished(population: seq<Genome>, f: Genome -> int, fitnessLimit: int)
  {
    var sorted := SortPopulation(population, f);
    |sorted| > 0 && f(sorted[0]) < fitnessLimit
  }

  /** The loop returns the sorted population of the first iteration whose best genome reaches
      the fitness limit, every earlier generation being below it; or, when no generation reaches
      it, the population entering iteration generation_limit together with generation_limit.
      With no generation to run the population comes back untouched. */
  lemma {:induction false} EvolveOutcome(population: seq<Genome>, f: Genome -> int, fitnessLimit: int,
                                         generationLimit: int, draws: nat -> nat -> PairDraw, it: nat)
    requires NoSingleBit(population)
    ensures it >= generationLimit ==> Evolve(population, f, fitnessLimit, generationLimit, draws, it) == Ok((population, generationLimit))
    ensures var r := Evolve(population, f, fitnessLimit, generationLimit, draws, it);
            r.Ok? ==> r.value.1 == generationLimit ||
                      (it <= r.value.1 < generationLimit && |r.value.0| > 0 && f(r.value.0[0]) >= fitnessLimit &&
                       NonIncreasing(r.value.0, f))
    ensures var r := Evolve(population, f, fitnessLimit, generationLimit, draws, it);
            r.Ok? ==> forall k :: it <= k < r.value.1 ==>
                        Generation(population, f, draws, it, k).Some? &&
                        Unfinished(Generation(population, f, draws, it, k).value, f, fitnessLimit)
    ensures var r := Evolve(population, f, fitnessLimit, generationLimit, draws, it);
            r.Ok? && r.value.1 < generationLimit ==>
              Generation(population, f, draws, it, r.value.1).Some? &&
              r.value.0 == SortPopulation(Generation(population, f, draws, it, r.value.1).value, f)
    ensures var r := Evolve(population, f, fitnessLimit, generationLimit, draws, it);
            r.Ok? && r.value.1 == generationLimit && it <= generationLimit ==>
              Generation(population, f, draws, it, generationLimit) == Some(r.value.0)
    decreases generationLimit - it
  {
    if it < generationLimit {
      var sorted := SortPopulation(population, f);
      if |sorted| > 0 && f(sorted[0]) < fitnessLimit {
        NoSingleBitSorted(population, f);
        NoSingleBitNext(sorted, f, draws(it));
        var next := NextGeneration(sorted, f, draws(it));
        if next.Ok? {
          EvolveOutcome(next.value, f, fitnessLimit, generationLimit, draws, it + 1);
          GenerationStep(population, f, draws, it, next.value);
        }
      }
    }
  }

  /** Past iteration `it`, the generations of a population are those of its successor. */
  lemma GenerationStep(population: seq<Genome>, f: Genome -> int, draws: nat -> nat -> PairDraw,
                       it: nat, next: seq<Genome>)
    requires NoSingleBit(population) && |SortPopulation(population, f)| > 0
    requires NoSingleBit(SortPopulation(population, f))
    requires NextGeneration(SortPopulation(population, f), f, draws(it)) == Ok(next)
    ensures NoSingleBit(next)
    ensures forall k :: k > it ==> Generation(population, f, draws, it, k) == Generation(next, f, draws, it + 1, k)
  {
    NoSingleBitNext(SortPopulation(population, f), f, draws(it));
  }

  /** A population of 0/1 genomes of one length other than 1 stays one: every generation the
      loop returns consists of 0/1 genomes of the initial length. */
  lemma {:induction false} EvolveUniform(population: seq<Genome>, f: Genome -> int, fitnessLimit: int,
                                         generationLimit: int, draws: nat -> nat -> PairDraw, it: nat, n: nat)
    requires Uniform(population, n) && n != 1
    ensures NoSingleBit(population)
    ensures var r := Evolve(population, f, fitnessLimit, generationLimit, draws, it);
            r.Ok? ==> Uniform(r.value.0, n)
    decreases generationLimit - it
  {
    var sorted := SortPopulation(population, f);
    forall k | 0 <= k < |sorted| ensures |sorted[k]| == n && IsBits(sorted[k]) {
      assert sorted[k] in multiset(population);
    }
    if it < generationLimit && |sorted| > 0 && f(sorted[0]) < fitnessLimit {
      NoSingleBitSorted(population, f);
      NoSingleBitNext(sorted, f, draws(it));
      var pool := Weighted(sorted, f);
      forall k | 0 <= k < |pool| ensures |pool[k]| == n && IsBits(pool[k]) {
        WeightedMembers(sorted, f, pool[k]);
      }
      BreedUniform(pool, draws(it), Pairs(|sorted|), n);
      var next := NextGeneration(sorted, f, draws(it));
      if next.Ok? {
        var elite := sorted[..Elite(|sorted|)];
        assert forall k :: 0 <= k < |elite| ==> elite[k] == sorted[k];
        EvolveUniform(next.value, f, fitnessLimit, generationLimit, draws, it + 1, n);
      }
    }
  }

  /** The inner loop of run_evolution: `count` times select two parents from the pool, cross
      them over, mutate each child for one round and extend the next generation with them. */
  method BreedPairs(pool: seq<Genome>, draws: nat -> PairDraw, count: nat) returns (r: Result<seq<Genome>>)
    requires NoSingleBit(pool)
    ensures r == Breed(pool, draws, count)
  {
    var kids: seq<Genome> := [];
    var m := 0;
    while m < count
      invariant 0 <= m <= count
      invariant Breed(pool, draws, m) == Ok(kids)
    {
      var d := draws(m);
      if |pool| < 2 {
        assert Offspring(pool, d) == Err(SampleLargerThanPool);
        BreedStops(pool, draws, m, count, SampleLargerThanPool);
        return Err(SampleLargerThanPool);
      }
      var (i, j) := SamplePositions(|pool|, d.first, d.second);
      var parentA, parentB := pool[i], pool[j];
      var crossed := SinglePointCrossover(parentA, parentB, CutPoint(|parentA|, d.cut));
      if crossed.Err? {
        assert Offspring(pool, d) == Err(crossed.error);
        BreedStops(pool, draws, m, count, crossed.error);
        return Err(crossed.error);
      }
      var offspringA := MutateChild(crossed.value.0, d.mutateA);
      if offspringA.Err? {
        assert Offspring(pool, d) == Err(offspringA.error);
        BreedStops(pool, draws, m, count, offspringA.error);
        return Err(offspringA.error);
      }
      var offspringB := MutateChild(crossed.value.1, d.mutateB);
      if offspringB.Err? {
        assert Offspring(pool, d) == Err(offspringB.error);
        BreedStops(pool, draws, m, count, offspringB.error);
        return Err(offspringB.error);
      }
      assert Offspring(pool, d) == Ok((offspringA.value, offspringB.value));
      kids := kids + [offspringA.value, offspringB.value];
      m := m + 1;
    }
    return Ok(kids);
  }

  /** run_evolution with the default operators: selection_pair, single_point_crossover and
      mutation with one round. The initial population is what populate_fn returns; draws(it)(m)
      makes the choices for pair m of generation it. */
  method RunEvolution(initial: seq<Genome>, f: Genome -> int, fitnessLimit: int, generationLimit: int,
                      draws: nat -> nat -> PairDraw) returns (r: Result<(seq<Genome>, int)>)
    requires NoSingleBit(initial)
    requires forall it: nat, m: nat :: |draws(it)(m).mutateA| == 1 && |draws(it)(m).mutateB| == 1
    ensures r == Evolve(initial, f, fitnessLimit, generationLimit, draws, 0)
  {
    var population := initial;
    var iteration := 0;
    while iteration < generationLimit
      invariant 0 <= iteration && NoSingleBit(population)
      invariant Evolve(initial, f, fitnessLimit, generationLimit, draws, 0)
             == Evolve(population, f, fitnessLimit, generationLimit, draws, iteration)
      decreases generationLimit - iteration
    {
      var sorted := SortPopulation(population, f);
      if |sorted| == 0 {
        return Err(IndexOutOfRange);
      }
      if f(sorted[0]) >= fitnessLimit {
        return Ok((sorted, iteration));
      }
      NoSingleBitSorted(population, f);
      NoSingleBitWeighted(sorted, f);
      var nextGeneration := sorted[..Elite(|sorted|)];
      // selection_pair rebuilds this same pool for every pair
      var pool := GenerateWeightedDistribution(sorted, f);
      var offspring := BreedPairs(pool, draws(iteration), Pairs(|sorted|));
      if offspring.Err? {
        return Err(offspring.error);
      }
      NoSingleBitNext(sorted, f, draws(iteration));
      population := nextGeneration + offspring.value;
      iteration := iteration + 1;
    }
    return Ok((population, generationLimit));
  }
}
