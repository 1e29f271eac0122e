/** The Population class of musigen/algo/population.py: genomes, a parallel list of fitness
    scores and the fitness-weighted selection pool. This revision declares no constructor; its
    lists are unset until generate_population and generate_weighted_distribution assign them,
    so a fresh object's fields are left arbitrary here. */
module AlgoPopulation {

  import opened Wrappers
  import opened Bits
  import opened Genome
  import opened Weighting
  import opened Operators
  import opened FitnessTable

  class Population {
    var weightedPopulation: seq<Genome>
    var genomes: seq<Genome>
    var fitness: seq<int>

    /** __len__ */
    function Length(): (n: nat)
      reads this
      ensures n == |genomes|
    {
      |genomes|
    }

    /** eval_genome_fitness: the score at the first position holding the genome. */
    function EvalGenomeFitness(genome: Genome): (r: Result<int>)
      reads this
      ensures r.Ok? <==> genome in genomes && Position(genomes, genome) < |fitness|
      ensures r.Ok? ==> r.value == fitness[Position(genomes, genome)]
      ensures r.Err? ==> r.error == (if genome in genomes then IndexOutOfRange else NotInList)
    {
      EvalFitness(genomes, fitness, genome)
    }

    /** pair_selection: the entries at two distinct positions of the pool, drawn by
        random.sample(k=2), which fails on a pool of fewer than two entries. */
    function PairSelection(first: nat, second: nat): (r: Result<(Genome, Genome)>)
      reads this
      ensures r.Err? <==> |weightedPopulation| < 2
      ensures r.Err? ==> r.error == SampleLargerThanPool
      ensures r.Ok? ==> exists i, j :: 0 <= i < |weightedPopulation| && 0 <= j < |weightedPopulation| && i != j &&
                          r.value == (weightedPopulation[i], weightedPopulation[j])
    {
      if |weightedPopulation| < 2 then Err(SampleLargerThanPool)
      else
        var (i, j) := SamplePositions(|weightedPopulation|, first, second);
        Ok((weightedPopulation[i], weightedPopulation[j]))
    }

    /** get_genome_fitness: self.fitness[index], negative indices counting from the end. */
    function GetGenomeFitness(index: int): (r: Result<int>)
      reads this
      ensures r.Ok? <==> -|fitness| <= index < |fitness|
      ensures r.Ok? && index >= 0 ==> r.value == fitness[index]
      ensures r.Ok? && index < 0 ==> r.value == fitness[|fitness| + index]
    {
      ElementAt(fitness, index)
    }

    /** generate_weighted_distribution: resets the pool, then extends it genome by genome with
        (score + 1) copies. A genome without a score raises and leaves the pool holding the
        copies of the genomes before it, the scored prefix. */
    method GenerateWeightedDistribution() returns (outcome: Outcome)
      modifies this
      ensures genomes == old(genomes) && fitness == old(fitness)
      ensures outcome.Pass? <==> Scored(genomes, fitness)
      ensures outcome.Fail? ==> outcome.error == IndexOutOfRange
      ensures weightedPopulation == Weighted(genomes[..ScoredPrefix(genomes, fitness)], Key(genomes, fitness))
    {
      weightedPopulation := [];
      var copies;
      copies, outcome := WeightedCopies(genomes, fitness);
      weightedPopulation := weightedPopulation + copies;
    }

    /** sort_population: the genomes sorted by their looked-up score, highest first. In place,
        only the genome list is replaced: the scores keep their old order. */
    method SortPopulation(inplace: bool) returns (r: Result<seq<Genome>>)
      modifies this
      ensures r == SortByFitness(old(genomes), old(fitness))
      ensures genomes == if inplace && r.Ok? then r.value else old(genomes)
      ensures fitness == old(fitness) && weightedPopulation == old(weightedPopulation)
    {
      r := SortByFitness(genomes, fitness);
      if r.Err? {
        return;
      }
      if inplace {
        genomes := r.value;
      }
    }

    /** generate_population: population_size generated genomes, with one coin row per genome,
        and population_size zero scores. */
    method GeneratePopulation(populationSize: int, genomeLength: int, coins: seq<seq<bool>>)
      requires |coins| == Clamp(populationSize)
      requires forall k :: 0 <= k < |coins| ==> |coins[k]| == Clamp(genomeLength)
      modifies this
      ensures |genomes| == Clamp(populationSize) && Uniform(genomes, Clamp(genomeLength))
      ensures forall k :: 0 <= k < |genomes| ==> genomes[k] == GenerateGenome(genomeLength, coins[k])
      ensures fitness == Repeat(0, populationSize) && |fitness| == |genomes|
      ensures weightedPopulation == old(weightedPopulation)
    {
      genomes := seq(|coins|, k requires 0 <= k < |coins| => GenerateGenome(genomeLength, coins[k]));
      fitness := Repeat(0, populationSize);
    }

    /** population_fitness: sum(self.fitness). For distinct genomes with parallel scores this
        is the sum of their looked-up fitness. */
    function PopulationFitness(): (total: int)
      reads this
      ensures Distinct(genomes) && |fitness| == |genomes| ==> total == SumBy(genomes, Key(genomes, fitness))
      ensures fitness == Repeat(0, |fitness|) ==> total == 0
    {
      SumFacts(genomes, fitness);
      Sum(fitness)
    }
  }
}
