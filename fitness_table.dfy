/** The fitness bookkeeping shared by both revisions of the Population class
    (musigen/algo/population.py and musigen/core/population.py): a list of genomes with a
    parallel list of fitness scores, looked up by the first position holding a genome. */
module FitnessTable {

  import opened Wrappers
  import opened Genome
  import opened Sorting
  import opened Weighting

  /** list.index: the first position holding g. */
  function Position(gs: seq<Genome>, g: Genome): (k: nat)
    requires g in gs
    ensures k < |gs| && gs[k] == g
    ensures forall j :: 0 <= j < k ==> gs[j] != g
  {
    if gs[0] == g then 0 else 1 + Position(gs[1..], g)
  }

  /** eval_genome_fitness: the score stored at the first position of g. list.index fails for a
      genome that is not in the population, and the fitness list may be too short. */
  function EvalFitness(genomes: seq<Genome>, fitness: seq<int>, g: Genome): (r: Result<int>)
    ensures r.Err? <==> g !in genomes || Position(genomes, g) >= |fitness|
    ensures r.Err? ==> r.error == (if g in genomes then IndexOutOfRange else NotInList)
    ensures r.Ok? ==> r.value == fitness[Position(genomes, g)]
  {
    if g !in genomes then Err(NotInList)
    else
      var k := Position(genomes, g);
      if k < |fitness| then Ok(fitness[k]) else Err(IndexOutOfRange)
  }

  /** All genomes pairwise different. */
  predicate Distinct(gs: seq<Genome>)
  {
    forall i, j :: 0 <= i < j < |gs| ==> gs[i] != gs[j]
  }

  /** With parallel lists every genome has a score; with distinct genomes it is the score at
      its own position, while a repeated genome always reads the score of its first copy. */
  lemma EvalFitnessAligned(genomes: seq<Genome>, fitness: seq<int>, k: nat)
    requires |fitness| == |genomes| && k < |genomes|
    ensures EvalFitness(genomes, fitness, genomes[k]).Ok?
    ensures Distinct(genomes) ==> EvalFitness(genomes, fitness, genomes[k]) == Ok(fitness[k])
  {
  }

  /** Every genome of the population has a score. */
  predicate Scored(genomes: seq<Genome>, fitness: seq<int>)
  {
    forall k :: 0 <= k < |genomes| ==> Position(genomes, genomes[k]) < |fitness|
  }

  /** How many genomes, from the front, have a score: the loop over the genomes that looks each
      one up stops at this position. */
  function ScoredPrefix(genomes: seq<Genome>, fitness: seq<int>): (n: nat)
    ensures n <= |genomes|
    ensures forall k :: 0 <= k < n ==> Position(genomes, genomes[k]) < |fitness|
    ensures n < |genomes| ==> Position(genomes, genomes[n]) >= |fitness|
    ensures n == |genomes| <==> Scored(genomes, fitness)
  {
    UnscoredFrom(genomes, fitness, 0)
  }

  /** The first position at or after i whose genome has no score, else |genomes|. */
  function UnscoredFrom(genomes: seq<Genome>, fitness: seq<int>, i: nat): (n: nat)
    requires i <= |genomes|
    ensures i <= n <= |genomes|
    ensures forall k :: i <= k < n ==> Position(genomes, genomes[k]) < |fitness|
    ensures n < |genomes| ==> Position(genomes, genomes[n]) >= |fitness|
    decreases |genomes| - i
  {
    if i == |genomes| then i
    else if Position(genomes, genomes[i]) >= |fitness| then i
    else UnscoredFrom(genomes, fitness, i + 1)
  }

  /** The loop of generate_weighted_distribution: for each genome in order, look up its score
      and collect (score + 1) copies of it, which the caller appends to its pool. A genome
      without a score raises; the copies collected before it are still appended. */
  method WeightedCopies(genomes: seq<Genome>, fitness: seq<int>) returns (copies: seq<Genome>, outcome: Outcome)
    ensures outcome.Pass? <==> Scored(genomes, fitness)
    ensures outcome.Fail? ==> outcome.error == IndexOutOfRange
    ensures copies == Weighted(genomes[..ScoredPrefix(genomes, fitness)], Key(genomes, fitness))
  {
    var key := Key(genomes, fitness);
    copies := [];
    var i := 0;
    while i < |genomes|
      invariant 0 <= i <= |genomes|
      invariant UnscoredFrom(genomes, fitness, i) == ScoredPrefix(genomes, fitness)
      invariant copies == Weighted(genomes[..i], key)
    {
      var genome := genomes[i];
      var score := EvalFitness(genomes, fitness, genome);
      if score.Err? {
        return copies, Fail(score.error);
      }
      WeightedPrefix(genomes, key, i);
      copies := copies + Repeat(genome, score.value + 1);
      i := i + 1;
    }
    assert genomes[..i] == genomes;
    return copies, Pass;
  }

  /** The sort key self.eval_genome_fitness as a total function: it is only ever applied to
      scored genomes, the 0 elsewhere is never observed. */
  function Key(genomes: seq<Genome>, fitness: seq<int>): Genome -> int
  {
    g => if g in genomes && Position(genomes, g) < |fitness| then fitness[Position(genomes, g)] else 0
  }

  lemma KeyIsEvalFitness(genomes: seq<Genome>, fitness: seq<int>, g: Genome)
    requires EvalFitness(genomes, fitness, g).Ok?
    ensures Key(genomes, fitness)(g) == EvalFitness(genomes, fitness, g).value
  {
  }

  /** sorted(self.genomes, key=self.eval_genome_fitness, reverse=True): it fails when some
      genome has no score, and is otherwise a stable permutation into non-increasing fitness. */
  function SortByFitness(genomes: seq<Genome>, fitness: seq<int>): (r: Result<seq<Genome>>)
    ensures r.Err? <==> !Scored(genomes, fitness)
    ensures r.Err? ==> r.error == IndexOutOfRange
    ensures r.Ok? ==> |r.value| == |genomes| && multiset(r.value) == multiset(genomes)
    ensures r.Ok? ==> NonIncreasing(r.value, Key(genomes, fitness))
    ensures r.Ok? ==> forall k :: WithKey(r.value, Key(genomes, fitness), k) == WithKey(genomes, Key(genomes, fitness), k)
  {
    if !Scored(genomes, fitness) then Err(IndexOutOfRange)
    else
      var key := Key(genomes, fitness);
      SortDescSortedPermutation(genomes, key);
      forall k ensures WithKey(SortDesc(genomes, key), key, k) == WithKey(genomes, key, k) {
        SortDescStable(genomes, key, k);
      }
      Ok(SortDesc(genomes, key))
  }

  /** Python's xs[index]: negative indices count from the end. */
  function ElementAt(xs: seq<int>, index: int): (r: Result<int>)
    ensures r.Ok? <==> -|xs| <= index < |xs|
    ensures r.Err? ==> r.error == IndexOutOfRange
    ensures r.Ok? && index >= 0 ==> r.value == xs[index]
    ensures r.Ok? && index < 0 ==> r.value == xs[|xs| + index]
  {
    if 0 <= index < |xs| then Ok(xs[index])
    else if -|xs| <= index < 0 then Ok(xs[|xs| + index])
    else Err(IndexOutOfRange)
  }

  /** sum(xs), added up left to right. */
  function Sum(xs: seq<int>): int
  {
    if xs == [] then 0 else Sum(xs[..|xs| - 1]) + xs[|xs| - 1]
  }

  /** The sum of a fresh all-zero fitness list is 0. */
  lemma {:induction false} SumOfZeros(n: int)
    ensures Sum(Repeat(0, n)) == 0
  {
    if n > 0 {
      SumOfZeros(n - 1);
      var r, init := Repeat(0, n), Repeat(0, n - 1);
      assert r == init + [0];
      assert r[..|r| - 1] == init;
      assert r[|r| - 1] == 0;
    }
  }

  /** For distinct genomes with parallel scores, the sum of the fitness list is the sum of
      the genomes' looked-up fitness. */
  lemma SumOfLookups(genomes: seq<Genome>, fitness: seq<int>)
    requires Distinct(genomes) && |fitness| == |genomes|
    ensures Sum(fitness) == SumBy(genomes, Key(genomes, fitness))
  {
    SumOfLookupsPrefix(genomes, fitness, |genomes|);
    assert genomes[..|genomes|] == genomes && fitness[..|fitness|] == fitness;
  }

  lemma {:induction false} SumOfLookupsPrefix(genomes: seq<Genome>, fitness: seq<int>, i: nat)
    requires Distinct(genomes) && |fitness| == |genomes| && i <= |genomes|
    ensures Sum(fitness[..i]) == SumBy(genomes[..i], Key(genomes, fitness))
  {
    if i > 0 {
      SumOfLookupsPrefix(genomes, fitness, i - 1);
      EvalFitnessAligned(genomes, fitness, i - 1);
      assert fitness[..i][..i - 1] == fitness[..i - 1];
      assert genomes[..i][..i - 1] == genomes[..i - 1];
    }
  }

  lemma SumFacts(genomes: seq<Genome>, fitness: seq<int>)
    ensures Distinct(genomes) && |fitness| == |genomes| ==> Sum(fitness) == SumBy(genomes, Key(genomes, fitness))
    ensures fitness == Repeat(0, |fitness|) ==> Sum(fitness) == 0
  {
    if Distinct(genomes) && |fitness| == |genomes| {
      SumOfLookups(genomes, fitness);
    }
    SumOfZeros(|fitness|);
  }

  /** A freshly generated population scores every genome 0, so its weighted pool is the
      population itself. */
  lemma FreshPool(genomes: seq<Genome>)
    ensures Weighted(genomes, Key(genomes, Repeat(0, |genomes|))) == genomes
  {
    var fitness := Repeat(0, |genomes|);
    forall i | 0 <= i < |genomes| ensures Key(genomes, fitness)(genomes[i]) == 0 {
      EvalFitnessAligned(genomes, fitness, i);
    }
    WeightedOfZero(genomes, Key(genomes, fitness));
  }

  /** The in-place sort reorders the genomes but not their scores, so afterwards a lookup
      reads another genome's score: with scores [0, 5], genome [1, 1] scores 5 before the sort
      and 0 after it. */
  lemma StaleLookupAfterSort()
    ensures var genomes, fitness := [[0, 0], [1, 1]], [0, 5];
            EvalFitness(genomes, fitness, [1, 1]) == Ok(5) &&
            SortByFitness(genomes, fitness) == Ok([[1, 1], [0, 0]]) &&
            EvalFitness([[1, 1], [0, 0]], fitness, [1, 1]) == Ok(0)
  {
    var genomes: seq<Genome>, fitness := [[0, 0], [1, 1]], [0, 5];
    var key := Key(genomes, fitness);
    assert Position(genomes, [1, 1]) == 1;
    assert Position(genomes, [0, 0]) == 0;
    assert key([0, 0]) == 0 && key([1, 1]) == 5;
    assert Scored(genomes, fitness);
    assert genomes[..1] == [[0, 0]];
    assert SortDesc(genomes[..1], key) == [[0, 0]];
    assert Insert([[0, 0]], [1, 1], key) == [[1, 1], [0, 0]];
    assert Position([[1, 1], [0, 0]], [1, 1]) == 0;
  }
}
