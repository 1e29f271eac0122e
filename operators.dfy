/** The genetic operators shared by the functional engine (musigen/algo/algo.py) and the
    Evolution class (musigen/algo/evolution.py): single-point crossover, bit-flip mutation, and
    the breeding of one pair of offspring from a weighted pool. */
module Operators {

  import opened Wrappers
  import opened Bits
  import opened Genome

  /** single_point_crossover, with the cut point random.randint(1, len - 1) given as `cut`. */
  function SinglePointCrossover(a: Genome, b: Genome, cut: int): (r: Result<(Genome, Genome)>)
    requires |a| == |b| && |a| >= 2 ==> 1 <= cut < |a|
    ensures r.Err? <==> |a| != |b|
    ensures r.Err? ==> r.error == LengthMismatch
    ensures |a| == |b| && |a| < 2 ==> r == Ok((a, b))
    ensures r.Ok? ==> |r.value.0| == |a| && |r.value.1| == |a|
    ensures r.Ok? && |a| >= 2 ==> forall i :: 0 <= i < |a| ==>
      if i < cut then r.value.0[i] == a[i] && r.value.1[i] == b[i]
      else r.value.0[i] == b[i] && r.value.1[i] == a[i]
  {
    if |a| != |b| then Err(LengthMismatch)
    else if |a| < 2 then Ok((a, b))
    else Ok((a[..cut] + b[cut..], b[..cut] + a[cut..]))
  }

  /** Crossing the two children again at the same cut point gives back the parents. */
  lemma CrossoverSwapsBack(a: Genome, b: Genome, cut: int)
    requires |a| == |b| && (|a| >= 2 ==> 1 <= cut < |a|)
    ensures SinglePointCrossover(a, b, cut).Ok?
    ensures var c := SinglePointCrossover(a, b, cut).value;
            SinglePointCrossover(c.0, c.1, cut) == Ok((a, b))
  {
    var c := SinglePointCrossover(a, b, cut).value;
    var d := SinglePointCrossover(c.0, c.1, cut).value;
    if |a| >= 2 {
      assert d.0 == a && d.1 == b;
    }
  }

  /** Children of 0/1 parents are 0/1 genomes. */
  lemma CrossoverKeepsBits(a: Genome, b: Genome, cut: int)
    requires |a| == |b| && (|a| >= 2 ==> 1 <= cut < |a|)
    requires IsBits(a) && IsBits(b)
    ensures var c := SinglePointCrossover(a, b, cut).value; IsBits(c.0) && IsBits(c.1)
  {
    var c := SinglePointCrossover(a, b, cut).value;
    if |a| >= 2 {
      assert forall i :: 0 <= i < |a| ==> c.0[i] in {a[i], b[i]} && c.1[i] in {a[i], b[i]};
    }
  }

  /** Python's x ^ 1: the lowest bit toggled, the higher bits kept. */
  function Flip(x: int): (r: int)
    ensures r / 2 == x / 2 && r % 2 == 1 - x % 2
  {
    if x % 2 == 0 then x + 1 else x - 1
  }

  lemma FlipFacts(x: int)
    ensures Flip(Flip(x)) == x
    ensures x == 0 ==> Flip(x) == 1
    ensures x == 1 ==> Flip(x) == 0
  {
  }

  /** One mutation round: the bit index drawn by random.randrange(len(genome)) and whether the
      draw random.random() < mutation_probability succeeded. */
  datatype MutationDraw = MutationDraw(index: nat, flip: bool)

  predicate IndicesBelow(ds: seq<MutationDraw>, n: nat)
  {
    forall k :: 0 <= k < |ds| ==> ds[k].index < n
  }

  /** The genome after the rounds `ds`, applied in order: a successful round XOR-flips its
      index, an unsuccessful one changes nothing. */
  function Mutated(g: Genome, ds: seq<MutationDraw>): (r: Genome)
    requires IndicesBelow(ds, |g|)
    ensures |r| == |g|
  {
    if ds == [] then g
    else
      var h := Mutated(g, ds[..|ds| - 1]);
      var d := ds[|ds| - 1];
      if d.flip then h[d.index := Flip(h[d.index])] else h
  }

  /** How many successful rounds chose position i. */
  function FlipCount(ds: seq<MutationDraw>, i: nat): nat
  {
    if ds == [] then 0
    else FlipCount(ds[..|ds| - 1], i) + (if ds[|ds| - 1].flip && ds[|ds| - 1].index == i then 1 else 0)
  }

  /** Position i ends up flipped exactly when an odd number of successful rounds chose it: rounds
      may land on the same index and flip it back. */
  lemma {:induction false} MutatedAt(g: Genome, ds: seq<MutationDraw>, i: nat)
    requires IndicesBelow(ds, |g|) && i < |g|
    ensures Mutated(g, ds)[i] == if FlipCount(ds, i) % 2 == 1 then Flip(g[i]) else g[i]
  {
    if ds != [] {
      var init := ds[..|ds| - 1];
      assert IndicesBelow(init, |g|);
      MutatedAt(g, init, i);
      FlipFacts(g[i]);
    }
  }

  /** With no successful round (in particular with zero rounds) the genome is unchanged. */
  lemma MutatedWithoutFlips(g: Genome, ds: seq<MutationDraw>)
    requires IndicesBelow(ds, |g|)
    requires forall k :: 0 <= k < |ds| ==> !ds[k].flip
    ensures Mutated(g, ds) == g
  {
    forall i | 0 <= i < |g| ensures Mutated(g, ds)[i] == g[i] {
      NoFlipsCountZero(ds, i);
      MutatedAt(g, ds, i);
    }
  }

  lemma {:induction false} NoFlipsCountZero(ds: seq<MutationDraw>, i: nat)
    requires forall k :: 0 <= k < |ds| ==> !ds[k].flip
    ensures FlipCount(ds, i) == 0
  {
    if ds != [] {
      NoFlipsCountZero(ds[..|ds| - 1], i);
    }
  }

  /** The positions where two genomes differ. */
  function Changed(g: Genome, h: Genome): set<nat>
    requires |g| == |h|
  {
    set i: nat | i < |g| && g[i] != h[i]
  }

  /** The positions chosen by successful rounds. */
  function FlippedIndices(ds: seq<MutationDraw>): set<nat>
  {
    set k | 0 <= k < |ds| && ds[k].flip :: ds[k].index
  }

  lemma {:induction false} FlippedIndicesSize(ds: seq<MutationDraw>)
    ensures |FlippedIndices(ds)| <= |ds|
  {
    if ds != [] {
      var init := ds[..|ds| - 1];
      FlippedIndicesSize(init);
      var d := ds[|ds| - 1];
      assert FlippedIndices(ds) == FlippedIndices(init) + (if d.flip then {d.index} else {});
    }
  }

  /** Each round flips at most one bit: the genome changes only at successfully chosen indices,
      so in at most |ds| positions. */
  lemma MutatedDistance(g: Genome, ds: seq<MutationDraw>)
    requires IndicesBelow(ds, |g|)
    ensures Changed(g, Mutated(g, ds)) <= FlippedIndices(ds)
    ensures |Changed(g, Mutated(g, ds))| <= |ds|
  {
    var h := Mutated(g, ds);
    forall i | i in Changed(g, h) ensures i in FlippedIndices(ds) {
      MutatedAt(g, ds, i);
      FlipCountWitness(ds, i);
    }
    FlippedIndicesSize(ds);
    SubsetSize(Changed(g, h), FlippedIndices(ds));
  }

  lemma SubsetSize(a: set<nat>, b: set<nat>)
    requires a <= b
    ensures |a| <= |b|
  {
    assert b == a + (b - a);
  }

  lemma {:induction false} FlipCountWitness(ds: seq<MutationDraw>, i: nat)
    requires FlipCount(ds, i) > 0
    ensures i in FlippedIndices(ds)
  {
    var init, d := ds[..|ds| - 1], ds[|ds| - 1];
    if d.flip && d.index == i {
      assert i == ds[|ds| - 1].index;
    } else {
      FlipCountWitness(init, i);
      var k :| 0 <= k < |init| && init[k].flip && init[k].index == i;
      assert ds[k] == init[k];
    }
  }

  /** Mutation keeps a 0/1 genome a 0/1 genome. */
  lemma MutatedKeepsBits(g: Genome, ds: seq<MutationDraw>)
    requires IndicesBelow(ds, |g|) && IsBits(g)
    ensures IsBits(Mutated(g, ds))
  {
    forall i | 0 <= i < |g| ensures Mutated(g, ds)[i] == 0 || Mutated(g, ds)[i] == 1 {
      MutatedAt(g, ds, i);
      FlipFacts(g[i]);
    }
  }

  /** The random choices made while breeding one pair of offspring: the two draws behind
      random.sample(pool, k=2), the crossover cut and the mutation rounds of each child. Every
      draw is a natural number naming one of the possible outcomes, counted modulo their
      number. */
  datatype PairDraw = PairDraw(first: nat, second: nat, cut: nat,
                               mutateA: seq<MutationDraw>, mutateB: seq<MutationDraw>)

  /** The two distinct pool positions random.sample(pool, k=2) returns. */
  function SamplePositions(size: nat, first: nat, second: nat): (p: (nat, nat))
    requires size >= 2
    ensures p.0 < size && p.1 < size && p.0 != p.1
  {
    var i := first % size;
    (i, (i + 1 + second % (size - 1)) % size)
  }

  /** Every ordered pair of distinct positions is drawn by some pair of draws. */
  lemma SamplePositionsOnto(size: nat, i: nat, j: nat)
    requires size >= 2 && i < size && j < size && i != j
    ensures exists first: nat, second: nat :: SamplePositions(size, first, second) == (i, j)
  {
    var s: nat := if j > i then j - i - 1 else j + size - i - 1;
    SmallMod(s, size - 1);
    SmallMod(i, size);
    if j > i {
      SmallMod(j, size);
    } else {
      ShiftMod(j, size);
    }
    assert SamplePositions(size, i, s) == (i, j);
  }

  lemma SmallMod(x: nat, m: nat)
    requires x < m
    ensures x % m == x
  {
  }

  lemma ShiftMod(x: nat, m: nat)
    requires x < m
    ensures (x + m) % m == x
  {
    assert x + m == m * 1 + x;
  }

  /** The cut point random.randint(1, len - 1) for a drawn natural number. */
  function CutPoint(len: nat, d: nat): (p: int)
    ensures len >= 2 ==> 1 <= p < len
  {
    if len < 2 then 0 else 1 + d % (len - 1)
  }

  /** The rounds with their indices reduced to random.randrange(n). */
  function Reduce(ds: seq<MutationDraw>, n: nat): (r: seq<MutationDraw>)
    requires n > 0
    ensures |r| == |ds| && IndicesBelow(r, n)
  {
    seq(|ds|, k requires 0 <= k < |ds| => MutationDraw(ds[k].index % n, ds[k].flip))
  }

  /** One call of the mutation operator with |ds| rounds: random.randrange(0) fails on an empty
      genome as soon as there is a round to perform. */
  function MutateChild(g: Genome, ds: seq<MutationDraw>): (r: Result<Genome>)
    ensures r.Err? <==> |ds| > 0 && |g| == 0
    ensures r.Err? ==> r.error == EmptyRange
    ensures r.Ok? ==> |r.value| == |g|
  {
    if |ds| > 0 && |g| == 0 then Err(EmptyRange)
    else if |g| == 0 then Ok(g)
    else Ok(Mutated(g, Reduce(ds, |g|)))
  }

  lemma MutateChildKeepsBits(g: Genome, ds: seq<MutationDraw>)
    requires IsBits(g) && MutateChild(g, ds).Ok?
    ensures IsBits(MutateChild(g, ds).value)
  {
    if |g| > 0 {
      MutatedKeepsBits(g, Reduce(ds, |g|));
    }
  }

  /** No genome has exactly one bit. For such genomes crossover hands back the parent objects
      themselves and the in-place mutation would then change members of the population, which
      this value model does not capture. */
  predicate NoSingleBit(gs: seq<Genome>)
  {
    forall k :: 0 <= k < |gs| ==> |gs[k]| != 1
  }

  /** All genomes are 0/1 genomes of length n. */
  predicate Uniform(gs: seq<Genome>, n: nat)
  {
    forall k :: 0 <= k < |gs| ==> |gs[k]| == n && IsBits(gs[k])
  }

  /** One pass of the breeding loop: sample two parents from the pool, cross them over, then
      mutate the first child and then the second. */
  function Offspring(pool: seq<Genome>, d: PairDraw): (r: Result<(Genome, Genome)>)
    requires NoSingleBit(pool)
    ensures r.Err? <==> |pool| < 2 ||
                        (var (i, j) := SamplePositions(|pool|, d.first, d.second);
                         |pool[i]| != |pool[j]| || (|pool[i]| == 0 && (|d.mutateA| > 0 || |d.mutateB| > 0)))
    ensures r.Err? ==> r.error == SampleLargerThanPool || r.error == LengthMismatch || r.error == EmptyRange
    ensures r.Ok? ==> var (i, j) := SamplePositions(|pool|, d.first, d.second);
                      |r.value.0| == |pool[i]| && |r.value.1| == |pool[j]|
  {
    if |pool| < 2 then Err(SampleLargerThanPool)
    else
      var (i, j) := SamplePositions(|pool|, d.first, d.second);
      var a, b := pool[i], pool[j];
      match SinglePointCrossover(a, b, CutPoint(|a|, d.cut))
      case Err(e) => Err(e)
      case Ok(children) =>
        match MutateChild(children.0, d.mutateA)
        case Err(e) => Err(e)
        case Ok(x) =>
          match MutateChild(children.1, d.mutateB)
          case Err(e) => Err(e)
          case Ok(y) => Ok((x, y))
  }

  /** From a pool of 0/1 genomes of one length other than 1, breeding fails only when the pool
      has fewer than two entries, or when the genomes are empty and a mutation round is due; the
      children are again 0/1 genomes of that length. */
  lemma OffspringUniform(pool: seq<Genome>, d: PairDraw, n: nat)
    requires Uniform(pool, n) && n != 1
    ensures NoSingleBit(pool)
    ensures Offspring(pool, d).Err? <==>
              |pool| < 2 || (n == 0 && (|d.mutateA| > 0 || |d.mutateB| > 0))
    ensures Offspring(pool, d).Ok? ==> Uniform([Offspring(pool, d).value.0, Offspring(pool, d).value.1], n)
  {
    if |pool| >= 2 {
      var (i, j) := SamplePositions(|pool|, d.first, d.second);
      var a, b := pool[i], pool[j];
      var cut := CutPoint(|a|, d.cut);
      CrossoverKeepsBits(a, b, cut);
      var c := SinglePointCrossover(a, b, cut).value;
      if MutateChild(c.0, d.mutateA).Ok? {
        MutateChildKeepsBits(c.0, d.mutateA);
      }
      if MutateChild(c.1, d.mutateB).Ok? {
        MutateChildKeepsBits(c.1, d.mutateB);
      }
    }
  }

  /** `count` passes of the breeding loop, the m-th using draws(m); the children are appended
      pair by pair. */
  function Breed(pool: seq<Genome>, draws: nat -> PairDraw, count: nat): (r: Result<seq<Genome>>)
    requires NoSingleBit(pool)
    ensures r.Ok? ==> |r.value| == 2 * count
    ensures r.Err? ==> r.error == SampleLargerThanPool || r.error == LengthMismatch || r.error == EmptyRange
  {
    if count == 0 then Ok([])
    else
      match Breed(pool, draws, count - 1)
      case Err(e) => Err(e)
      case Ok(kids) =>
        match Offspring(pool, draws(count - 1))
        case Err(e) => Err(e)
        case Ok(pair) => Ok(kids + [pair.0, pair.1])
  }

  /** Breeding from a pool of 0/1 genomes of length n yields 0/1 genomes of length n. */
  lemma {:induction false} BreedUniform(pool: seq<Genome>, draws: nat -> PairDraw, count: nat, n: nat)
    requires Uniform(pool, n) && n != 1
    ensures NoSingleBit(pool)
    ensures Breed(pool, draws, count).Ok? ==> Uniform(Breed(pool, draws, count).value, n)
  {
    if count > 0 {
      BreedUniform(pool, draws, count - 1, n);
      OffspringUniform(pool, draws(count - 1), n);
    }
  }

  /** Both children have the length of the first parent, one of the pool's genomes. */
  lemma OffspringLength(pool: seq<Genome>, d: PairDraw)
    requires NoSingleBit(pool) && Offspring(pool, d).Ok?
    ensures exists k :: 0 <= k < |pool| && |Offspring(pool, d).value.0| == |pool[k]| == |Offspring(pool, d).value.1|
  {
    var (i, j) := SamplePositions(|pool|, d.first, d.second);
    assert |Offspring(pool, d).value.0| == |pool[i]|;
  }

  /** Breeding from genomes none of which has one bit yields none with one bit. */
  lemma {:induction false} BreedNoSingleBit(pool: seq<Genome>, draws: nat -> PairDraw, count: nat)
    requires NoSingleBit(pool)
    ensures Breed(pool, draws, count).Ok? ==> NoSingleBit(Breed(pool, draws, count).value)
  {
    if count > 0 && Breed(pool, draws, count).Ok? {
      BreedNoSingleBit(pool, draws, count - 1);
      OffspringLength(pool, draws(count - 1));
    }
  }

  /** The first failing pair ends the whole breeding loop with its error. */
  lemma {:induction false} BreedStops(pool: seq<Genome>, draws: nat -> PairDraw, m: nat, count: nat, e: Error)
    requires NoSingleBit(pool) && m < count
    requires Breed(pool, draws, m).Ok? && Offspring(pool, draws(m)) == Err(e)
    ensures Breed(pool, draws, count) == Err(e)
  {
    if count > m + 1 {
      BreedStops(pool, draws, m, count - 1, e);
    }
  }
}
