/** The Evolution class of musigen/algo/evolution.py: fixed settings, in-place mutation, and one
    generation step over a Population of musigen/algo/population.py (AlgoPopulation).
    Crossover is Operators.SinglePointCrossover, which the class's static method repeats. */
module Engine {

  import opened Wrappers
  import opened Bits
  import opened Genome
  import opened Sorting
  import opened Operators
  import opened FitnessTable
  import AlgoPopulation
  import Ga

  /** The settings never change after construction, so an Evolution is a value. */
  datatype Evolution = Evolution(mutationProbability: real, numMutationRounds: nat,
                                 fitnessLimit: int, generationLimit: int)

  /** __init__: stores the four settings, refusing a negative number of mutation rounds. */
  function NewEvolution(mutationProbability: real, numMutationRounds: int,
                        fitnessLimit: int, generationLimit: int): (r: Result<Evolution>)
    ensures r.Err? <==> numMutationRounds < 0
    ensures r.Err? ==> r.error == NegativeRounds
    ensures r.Ok? ==> r.value.mutationProbability == mutationProbability &&
                      r.value.numMutationRounds == numMutationRounds &&
                      r.value.fitnessLimit == fitnessLimit && r.value.generationLimit == generationLimit
  {
    if numMutationRounds < 0 then Err(NegativeRounds)
    else Ok(Evolution(mutationProbability, numMutationRounds, fitnessLimit, generationLimit))
  }

  /** create_mutations: num_mutation_rounds rounds flipping bits of the caller's list in place.
      Each round's index is reduced modulo the genome length; on an empty genome the first
      round fails. */
  method CreateMutations(evo: Evolution, genome: array<int>, draws: seq<MutationDraw>) returns (outcome: Outcome)
    requires |draws| == evo.numMutationRounds
    modifies genome
    ensures outcome.Fail? <==> evo.numMutationRounds > 0 && genome.Length == 0
    ensures outcome.Fail? ==> outcome.error == EmptyRange && genome[..] == old(genome[..])
    ensures outcome.Pass? ==> MutateChild(old(genome[..]), draws) == Ok(genome[..])
  {
    if evo.numMutationRounds > 0 && genome.Length == 0 {
      return Fail(EmptyRange);
    }
    if genome.Length == 0 {
      return Pass;
    }
    ghost var g0 := genome[..];
    ghost var reduced := Reduce(draws, genome.Length);
    for k := 0 to evo.numMutationRounds
      invariant genome[..] == Mutated(g0, reduced[..k])
    {
      var mutationBitIndex := draws[k].index % genome.Length;
      if draws[k].flip {
        genome[mutationBitIndex] := Flip(genome[mutationBitIndex]);
      }
      assert reduced[..k + 1][..k] == reduced[..k];
    }
    assert reduced[..evo.numMutationRounds] == reduced;
    return Pass;
  }

  /** One call of run_evolution on a population with genomes, scores and the pool it holds:
      sort the genomes in place, stop (None) when the score stored first reaches the limit,
      otherwise breed len // 2 - 1 pairs from the stored pool behind the two best genomes. The
      score read is fitness[0], which the sort does not reorder. */
  function Advance(evo: Evolution, genomes: seq<Genome>, fitness: seq<int>, pool: seq<Genome>,
                   draws: nat -> PairDraw): (r: Result<Option<seq<Genome>>>)
    requires NoSingleBit(pool)
    ensures r == Ok(None) <==> Scored(genomes, fitness) && |fitness| > 0 && fitness[0] >= evo.fitnessLimit
  {
    match SortByFitness(genomes, fitness)
    case Err(e) => Err(e)
    case Ok(sorted) =>
      match ElementAt(fitness, 0)
      case Err(e) => Err(e)
      case Ok(best) =>
        if best >= evo.fitnessLimit then Ok(None)
        else
          match Breed(pool, draws, Ga.Pairs(|sorted|))
          case Err(e) => Err(e)
          case Ok(kids) => Ok(Some(sorted[..Ga.Elite(|sorted|)] + kids))
  }

  /** A new generation starts with the two best genomes unchanged and has
      min(n, 2) + 2 * max(0, n // 2 - 1) members. */
  lemma AdvanceNext(evo: Evolution, genomes: seq<Genome>, fitness: seq<int>, pool: seq<Genome>,
                    draws: nat -> PairDraw)
    requires NoSingleBit(pool)
    ensures var r := Advance(evo, genomes, fitness, pool, draws);
            r.Ok? && r.value.Some? ==>
              var sorted := SortByFitness(genomes, fitness).value;
              |r.value.value| == Ga.Elite(|genomes|) + 2 * Ga.Pairs(|genomes|) &&
              r.value.value[..Ga.Elite(|genomes|)] == sorted[..Ga.Elite(|genomes|)] &&
              NonIncreasing(sorted, Key(genomes, fitness))
  {
    var r := Advance(evo, genomes, fitness, pool, draws);
    if r.Ok? && r.value.Some? {
      var sorted := SortByFitness(genomes, fitness).value;
      var kids := Breed(pool, draws, Ga.Pairs(|sorted|)).value;
      assert r.value.value == sorted[..Ga.Elite(|sorted|)] + kids;
    }
  }

  /** Bred from a pool of 0/1 genomes of one length other than 1, a new generation of such
      genomes consists of 0/1 genomes of that length. */
  lemma AdvanceUniform(evo: Evolution, genomes: seq<Genome>, fitness: seq<int>, pool: seq<Genome>,
                       draws: nat -> PairDraw, n: nat)
    requires NoSingleBit(pool)
    ensures var r := Advance(evo, genomes, fitness, pool, draws);
            r.Ok? && r.value.Some? && Uniform(genomes, n) && Uniform(pool, n) && n != 1 ==> Uniform(r.value.value, n)
  {
    var r := Advance(evo, genomes, fitness, pool, draws);
    if r.Ok? && r.value.Some? && Uniform(genomes, n) && Uniform(pool, n) && n != 1 {
      var sorted := SortByFitness(genomes, fitness).value;
      var count := Ga.Pairs(|sorted|);
      var kids := Breed(pool, draws, count).value;
      assert r.value.value == sorted[..Ga.Elite(|sorted|)] + kids;
      BreedUniform(pool, draws, count, n);
      SortedUniform(genomes, sorted, n);
      UniformConcat(sorted[..Ga.Elite(|sorted|)], kids, n);
    }
  }

  lemma SortedUniform(genomes: seq<Genome>, sorted: seq<Genome>, n: nat)
    requires Uniform(genomes, n) && multiset(sorted) == multiset(genomes)
    ensures Uniform(sorted, n)
  {
    forall k | 0 <= k < |sorted| ensures |sorted[k]| == n && IsBits(sorted[k]) {
      assert sorted[k] in multiset(genomes);
    }
  }

  lemma UniformConcat(a: seq<Genome>, b: seq<Genome>, n: nat)
    requires Uniform(a, n) && Uniform(b, n)
    ensures Uniform(a + b, n)
  {
    forall k | 0 <= k < |a + b| ensures |(a + b)[k]| == n && IsBits((a + b)[k]) {
      if k >= |a| {
        assert (a + b)[k] == b[k - |a|];
      }
    }
  }

  /** The stale termination check: the step goes on breeding while the score stored first is
      below the limit, even when some genome's looked-up score is at or above it. This is a
      corollary of Advance's contract, whose stop condition reads only fitness[0]; the `g`
      hypotheses only name the situation, and FitnessTable.StaleLookupAfterSort shows that it
      occurs: [[0, 0], [1, 1]] with scores [0, 5] and a limit of 5. */
  lemma StaleTermination(evo: Evolution, genomes: seq<Genome>, fitness: seq<int>, pool: seq<Genome>,
                         draws: nat -> PairDraw, g: Genome)
    requires NoSingleBit(pool) && Scored(genomes, fitness) && |fitness| > 0 && fitness[0] < evo.fitnessLimit
    requires EvalFitness(genomes, fitness, g).Ok? && EvalFitness(genomes, fitness, g).value >= evo.fitnessLimit
    ensures Advance(evo, genomes, fitness, pool, draws) != Ok(None)
  {
  }

  /** One pass of the breeding loop of run_evolution: pair_selection from the population's
      stored pool, crossover, then create_mutations on each child in place. */
  method BreedPair(evo: Evolution, ppl: AlgoPopulation.Population, d: PairDraw) returns (r: Result<(Genome, Genome)>)
    requires NoSingleBit(ppl.weightedPopulation)
    requires |d.mutateA| == evo.numMutationRounds && |d.mutateB| == evo.numMutationRounds
    ensures r == Offspring(ppl.weightedPopulation, d)
  {
    var parents := ppl.PairSelection(d.first, d.second);
    if parents.Err? {
      return Err(parents.error);
    }
    var (parentA, parentB) := parents.value;
    var crossed := SinglePointCrossover(parentA, parentB, CutPoint(|parentA|, d.cut));
    if crossed.Err? {
      return Err(crossed.error);
    }
    var (offspringA, offspringB) := crossed.value;
    var a := new int[|offspringA|](i requires 0 <= i < |offspringA| => offspringA[i]);
    assert a[..] == offspringA;
    var mutatedA := CreateMutations(evo, a, d.mutateA);
    if mutatedA.Fail? {
      return Err(mutatedA.error);
    }
    var b := new int[|offspringB|](i requires 0 <= i < |offspringB| => offspringB[i]);
    assert b[..] == offspringB;
    var mutatedB := CreateMutations(evo, b, d.mutateB);
    // the second child has the first one's length and rounds, so it cannot fail here
    assert mutatedB.Pass?;
    return Ok((a[..], b[..]));
  }

  /** The breeding loop of run_evolution: `count` pairs, extending the next generation. */
  method BreedOffspring(evo: Evolution, ppl: AlgoPopulation.Population, draws: nat -> PairDraw, count: nat)
      returns (r: Result<seq<Genome>>)
    requires NoSingleBit(ppl.weightedPopulation)
    requires forall m: nat :: |draws(m).mutateA| == evo.numMutationRounds && |draws(m).mutateB| == evo.numMutationRounds
    ensures r == Breed(ppl.weightedPopulation, draws, count)
  {
    var kids: seq<Genome> := [];
    var m := 0;
    while m < count
      invariant 0 <= m <= count
      invariant Breed(ppl.weightedPopulation, draws, m) == Ok(kids)
    {
      var pair := BreedPair(evo, ppl, draws(m));
      if pair.Err? {
        BreedStops(ppl.weightedPopulation, draws, m, count, pair.error);
        return Err(pair.error);
      }
      kids := kids + [pair.value.0, pair.value.1];
      m := m + 1;
    }
    return Ok(kids);
  }

  /** run_evolution: None when the population has reached the limit, else the next
      generation. The in-place sort is the only change to the population. */
  method RunEvolution(evo: Evolution, ppl: AlgoPopulation.Population, draws: nat -> PairDraw)
      returns (r: Result<Option<seq<Genome>>>)
    requires NoSingleBit(ppl.weightedPopulation)
    requires forall m: nat :: |draws(m).mutateA| == evo.numMutationRounds && |draws(m).mutateB| == evo.numMutationRounds
    modifies ppl
    ensures r == Advance(evo, old(ppl.genomes), old(ppl.fitness), old(ppl.weightedPopulation), draws)
    ensures ppl.genomes == match SortByFitness(old(ppl.genomes), old(ppl.fitness))
                           case Ok(sorted) => sorted
                           case Err(_) => old(ppl.genomes)
    ensures ppl.fitness == old(ppl.fitness) && ppl.weightedPopulation == old(ppl.weightedPopulation)
  {
    var sorted := ppl.SortPopulation(true);
    if sorted.Err? {
      return Err(sorted.error);
    }
    var best := ppl.GetGenomeFitness(0);
    if best.Err? {
      return Err(best.error);
    }
    if best.value >= evo.fitnessLimit {
      return Ok(None);
    }
    var nextGeneration := ppl.genomes[..Ga.Elite(|ppl.genomes|)];
    var offspring := BreedOffspring(evo, ppl, draws, Ga.Pairs(ppl.Length()));
    if offspring.Err? {
      return Err(offspring.error);
    }
    return Ok(Some(nextGeneration + offspring.value));
  }
}
