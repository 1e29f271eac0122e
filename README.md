# musigen in Dafny

musigen composes short melodies with a genetic algorithm. A genome is a list of 0/1 bits. A
population of genomes is scored by a listener, and the scores drive fitness-weighted selection,
single-point crossover and bit-flip mutation over successive generations. A genome is heard by
cutting it into note-sized chunks, reading each chunk as a little-endian number, and turning the
numbers into note events. Repeated values merge into longer notes, and values at or above a
threshold become rests. The notes are then projected onto a scale once per harmonic step. Two
small codecs pack a pad grid, a scale and a bpm into a share URL.

This project models that core and proves what it promises:

- `Ga`: the functional engine.
- `AlgoPopulation` and `CorePopulation`: the two revisions of the `Population` class.
- `Engine`: the `Evolution` class.
- `Decoding`, `MelodyDecoder` and `Player`: the two genome-to-melody decoders.
- `Bits`: `int_from_bits`.
- `Genome`: genome generation and printing.
- `Text`, `HashUrl` and `MintUrl`: the URL codecs, together with the Python string functions they rely on.

Shared helpers:

- `Operators`: crossover, mutation and breeding.
- `FitnessTable`: score lookups and the fitness-keyed sort.
- `Sorting`: a stable descending sort.
- `Weighting`: the copy-weighted pool.
- `Wrappers`: `Option`, `Result`, and one `Error` per exception the code raises.

Modelling choices:

- **Randomness.** Every random choice is a parameter.
  - `random.randint` for the cut point, `random.randrange` for the mutation index, and the two draws of `random.sample(pool, k=2)` are natural numbers, reduced modulo the number of outcomes.
  - `random.random() < p` is a boolean coin per round.
  - `random.choices([0, 1])` is one boolean per bit.
  - `SamplePositionsOnto` shows that every ordered pair of distinct pool positions can be drawn.
- **Exceptions.** Every point where the code raises becomes an `Err`/`Fail` result:
  - unequal crossover lengths;
  - negative or impossible mutation rounds;
  - `random.sample` on fewer than two entries;
  - `list.index` on an absent genome;
  - an index past the end;
  - `4 / num_notes` with no notes;
  - `1 << n` with negative `n`;
  - `% len(scale)` on an empty scale;
  - `pop` from a short list;
  - `int(row, 16)` on a bad literal.
- **Python behaviour modelled exactly:**
  - `[x] * n` (empty for `n <= 0`);
  - `x ^ 1`;
  - negative list indices;
  - the stable `sorted(..., reverse=True)`;
  - `str.split`, `str.rsplit(maxsplit=2)`, `"-".join`, `hex(n)[2:]`;
  - `int(s, 16)` for ASCII input, including surrounding whitespace, a sign, an optional `0x`/`0X` prefix and single underscores between digits.
- **Beats** are counts of note slots. A beat of `k` slots lasts `k * 4 / num_notes`.
- **Little-endian chunks.** `int_from_bits` weights bit i by 2^i, so the chunk `1 0 0 0` reads as 1, not 8 (`Decoding.ScenarioDecode`).

Two behaviours are modelled as the code has them:

- **Stale scores after the in-place sort.** `sort_population(inplace=True)` reorders `genomes` but not `fitness`. So `Evolution.run_evolution` checks the score stored first, not the best genome's score, and later lookups read another genome's score (`FitnessTable.StaleLookupAfterSort`).
- **Pool rebuilding differs between revisions.** The `core` revision of `generate_weighted_distribution` appends to the pool. The `algo` revision replaces it.

## Model

| member | source | states |
|---|---|---|
| Ga.GeneratePopulation | musigen/algo/algo.py:19-35 | population_size genomes (none for a negative size), each of genome_length bits, bit i of genome k being 1 exactly when its coin is set |
| Ga.Mutation | musigen/algo/algo.py:83-91 | negative rounds raise and leave the genome alone; a round on an empty genome raises; otherwise the array afterwards is the old genome with each drawn index XOR-flipped when its coin is set |
| Ga.PopulationFitness | musigen/algo/algo.py:94-101 | the fitness of a one-genome population is that genome's score, and a population whose scores are all non-negative has non-negative fitness |
| Ga.PopulationFitnessSum | musigen/algo/algo.py:94-101 | population fitness of the empty population is 0, of one genome its score, is additive over concatenation and does not change when the population is sorted |
| Ga.GenerateWeightedDistribution | musigen/algo/algo.py:104-113 | the result is, in population order, max(0, f(g)+1) copies of each genome; every genome occurs (its multiplicity) * max(0, f(g)+1) times |
| Ga.SelectionPair | musigen/algo/algo.py:116-119 | fails exactly when the weighted pool has fewer than two entries; otherwise returns the entries at two distinct positions of the pool, both population members with non-negative fitness |
| Ga.SortPopulation | musigen/algo/algo.py:122-123 | a permutation of the population, non-increasing in fitness, with every group of equal-fitness genomes kept in input order |
| Ga.NextGeneration | musigen/algo/algo.py:176-185 | the next generation starts with the sorted population's first two genomes and has min(n,2) + 2*max(0, n//2-1) members, which is n - n%2 for n >= 2 |
| Ga.NoSingleBitWeighted | musigen/algo/algo.py:109-111 | weighting copies genomes, so it introduces no genome of length 1 |
| Ga.NoSingleBitSorted | musigen/algo/algo.py:166-168 | sorting introduces no genome of length 1 |
| Ga.NoSingleBitNext | musigen/algo/algo.py:176-183 | a next generation bred from genomes of lengths other than 1 has none of length 1 |
| Ga.Generation | musigen/algo/algo.py:165-185 | the population after the generations from it up to k: unchanged for k <= it, and always free of genomes of length 1 |
| Ga.GenerationStep | musigen/algo/algo.py:165-185 | one bred generation advances the generation sequence by one: every later generation is the same whether counted from the old population or from the bred one |
| Ga.Evolve | musigen/algo/algo.py:165-187 | the loop fails only with population[0] on an empty population or with a selection, crossover or mutation error |
| Ga.EvolveOutcome | musigen/algo/algo.py:165-187 | on success the returned iteration i is the first one that stops: every generation before i exists and its sorted population starts below the fitness limit; when i < generation_limit the result is the sorted generation i (which starts at or above the limit), and when i == generation_limit the result is generation generation_limit itself (the input untouched when no generation runs); the result is non-increasing in fitness whenever i < generation_limit |
| Ga.EvolveUniform | musigen/algo/algo.py:165-187 | starting from 0/1 genomes of one length other than 1, every population the loop returns consists of 0/1 genomes of that length |
| Ga.BreedPairs | musigen/algo/algo.py:178-183 | the breeding loop extends the next generation with the two mutated children of each selected pair, in order, and stops at the first failing pair |
| Ga.RunEvolution | musigen/algo/algo.py:149-187 | the generation loop computes the recursive definition checked by EvolveOutcome and EvolveUniform |
| AlgoPopulation.Population.Length | musigen/algo/population.py:11-12 | the length of a population is the number of its genomes |
| AlgoPopulation.Population.EvalGenomeFitness | musigen/algo/population.py:14-21 | the score at the first position holding the genome; NotInList when it is absent, IndexOutOfRange when the score list is shorter |
| AlgoPopulation.Population.PairSelection | musigen/algo/population.py:23-29 | fails exactly when the pool has fewer than two entries; otherwise the entries at two distinct pool positions |
| AlgoPopulation.Population.GetGenomeFitness | musigen/algo/population.py:31-38 | fitness[index], negative indices counting from the end, IndexOutOfRange outside -len..len-1 |
| AlgoPopulation.Population.GenerateWeightedDistribution | musigen/algo/population.py:40-56 | the pool is replaced by (looked-up score + 1) copies of each genome in order; the loop fails at the first genome whose score is missing, keeping the copies made so far; genomes and scores unchanged |
| AlgoPopulation.Population.SortPopulation | musigen/algo/population.py:58-70 | returns the genomes stably sorted by looked-up score, highest first; in place only the genomes are replaced, the scores and the pool stay as they were |
| AlgoPopulation.Population.GeneratePopulation | musigen/algo/population.py:72-80 | population_size generated genomes of genome_length bits and as many zero scores; the pool is untouched |
| AlgoPopulation.Population.PopulationFitness | musigen/algo/population.py:82-90 | sum(fitness): the sum of the looked-up scores for distinct genomes with parallel scores, and 0 right after generate_population |
| CorePopulation.Population.constructor | musigen/core/population.py:7-10 | a new population has an empty pool, no genomes and no scores |
| CorePopulation.Population.Length | musigen/core/population.py:12-13 | the length of a population is the number of its genomes |
| CorePopulation.Population.EvalGenomeFitness | musigen/core/population.py:15-22 | the score at the first position holding the genome; NotInList when it is absent, IndexOutOfRange when the score list is shorter |
| CorePopulation.Population.PairSelection | musigen/core/population.py:24-30 | fails exactly when the pool has fewer than two entries; otherwise the entries at two distinct pool positions |
| CorePopulation.Population.GetGenomeFitness | musigen/core/population.py:32-39 | fitness[index], negative indices counting from the end, IndexOutOfRange outside -len..len-1 |
| CorePopulation.Population.GenerateWeightedDistribution | musigen/core/population.py:41-55 | the new pool is the old pool followed by (looked-up score + 1) copies of each genome in order, up to the first genome whose score is missing; genomes and scores unchanged |
| CorePopulation.Population.SortPopulation | musigen/core/population.py:57-69 | returns the genomes stably sorted by looked-up score, highest first; in place only the genomes are replaced |
| CorePopulation.Population.GeneratePopulation | musigen/core/population.py:71-79 | population_size generated genomes of genome_length bits and as many zero scores; the pool is untouched |
| CorePopulation.Population.PopulationFitness | musigen/core/population.py:81-89 | sum(fitness): the sum of the looked-up scores for distinct genomes with parallel scores, and 0 right after generate_population |
| Engine.NewEvolution | musigen/algo/evolution.py:8-21 | refuses a negative number of mutation rounds and otherwise stores all four settings unchanged |
| Engine.CreateMutations | musigen/algo/evolution.py:62-76 | exactly num_mutation_rounds rounds on the caller's list: fails (unchanged) when a round is due on an empty genome, else each drawn index is XOR-flipped when its coin is set |
| Engine.Advance | musigen/algo/evolution.py:78-103 | run_evolution signals termination (None) exactly when every genome has a score and the score stored first reaches fitness_limit |
| Engine.AdvanceNext | musigen/algo/evolution.py:92-103 | a new generation starts with the first two genomes of the sorted population and has min(n,2) + 2*max(0, n//2-1) members |
| Engine.AdvanceUniform | musigen/algo/evolution.py:92-103 | bred from 0/1 genomes of one length other than 1, the new generation consists of 0/1 genomes of that length |
| Engine.StaleTermination | musigen/algo/evolution.py:86-89 | while the score stored first is below the limit, run_evolution keeps breeding even when some genome's looked-up score reaches the limit |
| Engine.BreedPair | musigen/algo/evolution.py:95-101 | one pass of the breeding loop: pair selection from the stored pool, crossover, then mutation of each child |
| Engine.BreedOffspring | musigen/algo/evolution.py:94-101 | the loop runs len // 2 - 1 passes, extending the next generation pair by pair and stopping at the first failure |
| Engine.RunEvolution | musigen/algo/evolution.py:78-103 | the population's genomes are sorted in place (scores and pool untouched) and the result is the one Advance describes |
| Operators.SinglePointCrossover | musigen/algo/algo.py:57-66 | unequal lengths raise; below length 2 the parents come back unchanged; otherwise both children keep the length and take position i from the first parent before the cut and from the other after it |
| Operators.CrossoverSwapsBack | musigen/algo/evolution.py:55-59 | crossing the two children again at the same point gives back the parents |
| Operators.CrossoverKeepsBits | musigen/algo/evolution.py:45-59 | children of 0/1 parents are 0/1 genomes |
| Operators.Flip | musigen/algo/algo.py:89 | x ^ 1 keeps every bit of x but the lowest, which it toggles |
| Operators.FlipFacts | musigen/algo/algo.py:89 | flipping twice is the identity and flipping exchanges 0 and 1 |
| Operators.MutatedAt | musigen/algo/algo.py:86-89 | after the rounds, position i holds its old bit flipped exactly when it was drawn an odd number of times with the coin set |
| Operators.MutatedWithoutFlips | musigen/algo/algo.py:88-89 | when no coin succeeds the genome is unchanged |
| Operators.MutatedDistance | musigen/algo/algo.py:86-89 | only drawn positions change, so the mutated genome differs in at most as many positions as there are rounds |
| Operators.MutatedKeepsBits | musigen/algo/algo.py:86-89 | mutation keeps a 0/1 genome a 0/1 genome |
| Operators.Mutated | musigen/algo/algo.py:86-89 | the mutation rounds keep the genome's length |
| Operators.SamplePositions | musigen/algo/algo.py:117-119 | the two sampled pool positions are in range and distinct |
| Operators.SamplePositionsOnto | musigen/algo/algo.py:117-119 | every ordered pair of distinct positions is sampled by some draw |
| Operators.CutPoint | musigen/algo/algo.py:65 | for a genome of length at least 2 the cut point lies in 1..len-1 |
| Operators.MutateChild | musigen/algo/algo.py:86-91 | fails exactly when a round is due on an empty genome, otherwise keeps the length |
| Operators.MutateChildKeepsBits | musigen/algo/algo.py:86-91 | a mutated 0/1 genome is a 0/1 genome |
| Operators.Offspring | musigen/algo/algo.py:179-182 | one breeding pass fails exactly when the pool has fewer than two entries, the sampled parents differ in length, or they are empty with a mutation round due; it fails only with those errors, and the children have the parents' lengths |
| Operators.OffspringUniform | musigen/algo/algo.py:179-182 | from 0/1 genomes of one length other than 1, breeding a pair fails only on a pool smaller than two or on empty genomes with a round due, and the children are again such genomes |
| Operators.Breed | musigen/algo/algo.py:178-183 | a successful breeding loop of count passes yields 2 * count children; a failing one fails with a sampling, crossover or mutation error |
| Operators.BreedUniform | musigen/algo/algo.py:178-183 | the children of 0/1 genomes of length n are 0/1 genomes of length n |
| Operators.OffspringLength | musigen/algo/algo.py:179-180 | both children have the length of a pool genome |
| Operators.BreedNoSingleBit | musigen/algo/algo.py:178-183 | breeding from genomes of lengths other than 1 yields none of length 1 |
| Operators.BreedStops | musigen/algo/algo.py:178-183 | the first failing pass fails the whole loop with its error |
| FitnessTable.Position | musigen/algo/population.py:20 | list.index: the first position holding the genome |
| FitnessTable.EvalFitness | musigen/algo/population.py:20-21 | the score at the first position holding the genome, NotInList when absent, IndexOutOfRange when the scores are too short |
| FitnessTable.EvalFitnessAligned | musigen/core/population.py:21-22 | with parallel scores every genome has a score, and for distinct genomes it is the one at its own position |
| FitnessTable.ScoredPrefix | musigen/algo/population.py:54-56 | the genomes before the first one whose score lookup fails; all of them exactly when every genome has a score |
| FitnessTable.WeightedCopies | musigen/algo/population.py:54-56 | the extend loop makes (score + 1) copies of each genome in order and fails exactly at the first genome without a score |
| FitnessTable.KeyIsEvalFitness | musigen/algo/population.py:65-66 | the sort key is eval_genome_fitness wherever that succeeds |
| FitnessTable.SortByFitness | musigen/algo/population.py:65-66 | fails when a genome has no score, else a permutation of the genomes non-increasing in looked-up score and stable within each score |
| FitnessTable.ElementAt | musigen/algo/population.py:38 | fitness[index] with Python's negative indices and IndexError outside the list |
| FitnessTable.SumOfZeros | musigen/algo/population.py:79-80 | the scores of a freshly generated population sum to 0 |
| FitnessTable.SumOfLookups | musigen/algo/population.py:82-90 | for distinct genomes with parallel scores, sum(fitness) is the sum of the looked-up scores |
| FitnessTable.SumFacts | musigen/core/population.py:81-89 | sum(fitness) is the sum of the looked-up scores for distinct genomes with parallel scores, and 0 when every score is 0 |
| FitnessTable.FreshPool | musigen/algo/population.py:52-56 | with all scores 0 the weighted pool is one copy of each genome, in order |
| FitnessTable.StaleLookupAfterSort | musigen/algo/population.py:65-70 | after the in-place sort a lookup can read another genome's score: [1, 1] scores 5 before and 0 after |
| Sorting.SortDescSortedPermutation | musigen/algo/algo.py:122-123 | the descending sort is non-increasing in the key and a permutation of its input |
| Sorting.SortDescStable | musigen/algo/algo.py:122-123 | the genomes of each key value keep their input order |
| Sorting.SortDescSorted | musigen/algo/algo.py:166-168 | sorting an already non-increasing population leaves it unchanged |
| Weighting.Repeat | musigen/algo/algo.py:110 | [x] * n has max(0, n) entries, all equal to x |
| Weighting.WeightedLength | musigen/algo/algo.py:104-113 | the weighted pool has the sum of max(0, f(g)+1) entries |
| Weighting.WeightedLengthNonNegative | musigen/algo/algo.py:104-113 | with non-negative fitness the pool has sum(f(g)) + len(population) entries |
| Weighting.WeightedCount | musigen/algo/algo.py:104-113 | each genome occurs in the pool its multiplicity times max(0, f(g)+1) times |
| Weighting.WeightedMembers | musigen/algo/algo.py:104-113 | a genome is in the pool exactly when it is in the population with non-negative fitness |
| Weighting.WeightedOfZero | musigen/algo/algo.py:104-113 | with all fitness 0 the pool is the population itself |
| Weighting.WeightedPrefix | musigen/algo/algo.py:109-111 | each loop pass extends the pool with the copies of one more genome |
| Weighting.SumByAppend | musigen/algo/algo.py:94-101 | the fitness sum is 0 for no genomes, f(g) for one, and additive over concatenation |
| Weighting.SumByNonNegative | musigen/algo/algo.py:101 | a sum of non-negative scores is non-negative |
| Weighting.SumBySortDesc | musigen/algo/algo.py:122-123 | sorting does not change a population's fitness sum |
| Bits.IntFromBits | musigen/utils/helper.py:1-2 | the sum of bit * 2^index equals the reading by Horner's rule from the first bit (Bits.LittleEndian): the first bit plus twice the value of the rest |
| Bits.LittleEndianSnoc | musigen/utils/helper.py:1-2 | the Horner reading gives a bit appended at the end the weight 2^len, as int_from_bits does |
| Bits.IntFromBitsSnoc | musigen/utils/helper.py:1-2 | int_from_bits([]) is 0 and a bit appended at the end adds x * 2^len(b) |
| Bits.IntFromBitsAppend | musigen/misc/helper.py:1-2 | int_from_bits(a + b) == int_from_bits(a) + 2^len(a) * int_from_bits(b) |
| Bits.IntFromBitsCons | musigen/misc/helper.py:1-2 | int_from_bits([x] + b) == x + 2 * int_from_bits(b), so the first bit is the least significant |
| Bits.IntFromBitsBounds | musigen/utils/helper.py:1-2 | a 0/1 list of length n reads as a number in [0, 2^n) |
| Bits.ToBitsRoundTrip | musigen/utils/helper.py:1-2 | every number below 2^n is the reading of some 0/1 list of length n |
| Bits.FromBitsRoundTrip | musigen/misc/helper.py:1-2 | a 0/1 list is determined by its reading and its length |
| Genome.GenerateGenome | musigen/core/genome.py:6-12 | a generated genome has the requested length (0 for a negative one), only 0/1 and a 1 exactly where its coin is set |
| Genome.GenomeToString | musigen/core/genome.py:15-16 | every entry contributes at least one character, so the string is at least as long as the genome |
| Genome.GenomeToStringAppend | musigen/core/genome.py:15-16 | the empty genome prints as "" and printing distributes over concatenation |
| Genome.GenomeToStringOfBits | musigen/core/genome.py:15-16 | a 0/1 genome prints as one character per bit, '1' for 1 and '0' for 0 |
| Genome.GenomeToStringRoundTrip | musigen/core/genome.py:15-16 | the printed form of a 0/1 genome determines the genome |
| Decoding.Slice | musigen/player/melody.py:24 | genome[lo:hi] with Python's clipping at the end of the list |
| Decoding.Chunks | musigen/player/melody.py:23-26 | num_bars * num_notes chunks, none for a non-positive count |
| Decoding.ChunkExact | musigen/player/player.py:62-65 | when the genome is long enough chunk i is exactly genome[i*b:(i+1)*b] |
| Decoding.ChunksFlatten | musigen/player/melody.py:23-26 | the chunks of a long enough genome concatenate to its first count*b bits |
| Decoding.ChunksBits | musigen/player/melody.py:23-26 | chunks of a 0/1 genome are 0/1 lists |
| Decoding.ChunkValues | musigen/player/melody.py:35-39 | one value per chunk, int_from_bits of it, reduced modulo the threshold when pauses are off |
| Decoding.SlotValues | musigen/player/melody.py:23-39 | one value per note slot of the tune |
| Decoding.SlotValueNonNegative | musigen/player/melody.py:36-39 | chunks of a 0/1 genome never read as the -1 sentinel |
| Decoding.SlotValuesBounds | musigen/player/melody.py:29-39 | the values of a 0/1 genome lie in [0, 2^b), and below the threshold 2^(b-1) when pauses are off, so no rest is produced |
| Decoding.AddSlot | musigen/player/melody.py:42-54 | each chunk keeps note values, velocities and beats the same length |
| Decoding.Decode | musigen/player/melody.py:35-54 | the decoded lists stay aligned and there are never more events than chunks |
| Decoding.DecodePrefix | musigen/player/melody.py:35-54 | reading one more chunk is one more loop pass |
| Decoding.DecodeVelocity | musigen/player/melody.py:44-53 | every velocity is 0 or 127 |
| Decoding.DecodeAllSounding | musigen/player/melody.py:38-53 | with every value below the threshold every event sounds at velocity 127 |
| Decoding.DecodeNoRepeats | musigen/player/melody.py:49-54 | merging is maximal: neighbouring events share a value only when the second is silent |
| Decoding.DecodeRunLength | musigen/player/melody.py:42-54 | every chunk adds one slot, so the beats sum to the number of chunks, and expanding each value by its beat gives the heard value of every chunk |
| Decoding.RestAbsorbsZero | musigen/player/melody.py:42-50 | a 0 right after a rest lengthens the rest |
| Decoding.DecodeDistinct | musigen/player/melody.py:49-54 | values that all sound and differ from their left neighbours decode one to one, each a note of one slot |
| Decoding.ScenarioDecode | musigen/player/melody.py:23-54 | genome 0000 1000 0000 1000 reads little-endian as 0, 1, 0, 1 and gives four notes |
| Decoding.Project | musigen/player/melody.py:58-63 | num_steps rows, each with one note per note value, every note on the scale |
| Decoding.StepNotes | musigen/player/melody.py:59-62 | entry j of step s is scale[(note_values[j] + 2s) % len(scale)] |
| Decoding.Harmonize | musigen/player/melody.py:58-63 | the steps loop fails with ZeroDivisionError exactly on an empty scale with notes and steps to place, else gives num_steps rows of one note per value |
| Decoding.ProjectStep | musigen/player/melody.py:58-63 | each step appends one row |
| Decoding.StepPeriodic | musigen/player/melody.py:60 | the rows repeat every len(scale) steps, and every len(scale)/2 steps for an even scale |
| Decoding.LittleEndianNibble | musigen/misc/helper.py:1-2 | a chunk with only its first bit set to x reads as x |
| MelodyDecoder.Melody.constructor | musigen/player/melody.py:9-13 | a new melody has no notes, velocities or beats and keeps bits_per_note |
| MelodyDecoder.Melody.FromGenome | musigen/player/melody.py:15-63 | num_notes == 0 raises and bits_per_note < 1 fails the shift before anything changes; otherwise velocities and beats gain the decoded events and notes gain the num_steps rows, or nothing when the scale is empty |
| MelodyDecoder.Melody.AppendEvents | musigen/player/melody.py:32-54 | the chunk loop returns the sentinel followed by the decoded note values and appends the decoded velocities and beats to the melody's |
| MelodyDecoder.Melody.AddValue | musigen/player/melody.py:42-54 | one pass: a rest, a lengthened last event or a new note, as the decoder defines |
| MelodyDecoder.Melody.AppendSteps | musigen/player/melody.py:58-63 | appends the harmonized rows to the melody's notes, or fails on an empty scale leaving them as they were |
| Player.MelodyOf | musigen/player/player.py:61-98 | ZeroDivisionError exactly when num_notes is 0 or notes must go on an empty scale; otherwise num_steps rows of scale notes, each as long as the velocities, and beats summing to num_bars * num_notes slots |
| Player.GenomeToMelody | musigen/player/player.py:61-98 | genome_to_melody computes MelodyOf |
| Player.DecodeChunks | musigen/player/player.py:73-89 | the chunk loop builds exactly the decoded events |
| Player.AddNote | musigen/player/player.py:79-89 | one pass: a rest, a lengthened last note or a new note |
| Player.StepRows | musigen/player/player.py:91-97 | the steps loop builds exactly the harmonized rows |
| Player.NoPausesAllSound | musigen/player/player.py:76-77 | with pauses off every event of a 0/1 genome sounds at velocity 127 |
| Text.DigitsRoundTrip | musigen/api/mint.py:32 | the digits of n in a base read back as n |
| Text.HexValueOfDigitChar | musigen/api/mint.py:28-32 | every hex character that hex() writes parses back as its digit |
| Text.IndexOf | musigen/api/mint.py:25 | the first position of the separator, or the length when it is absent |
| Text.LastIndexOf | musigen/api/hash.py:2 | the last position of the separator, absent exactly when the separator is |
| Text.CountAppend | musigen/api/hash.py:10 | separators in a concatenation add up |
| Text.CountZero | musigen/api/hash.py:2 | no separator is counted exactly when none occurs |
| Text.Split | musigen/api/mint.py:25 | str.split gives at least one piece, none holding the separator |
| Text.SplitJoin | musigen/api/mint.py:25-33 | splitting the join of pieces free of the separator gives the pieces back |
| Text.JoinSplit | musigen/api/mint.py:25-33 | joining the pieces of a split gives the string back |
| Text.JoinSnoc | musigen/api/mint.py:33-34 | a joined list with one more piece is the joined list, the separator and the piece |
| Text.JoinThree | musigen/api/hash.py:10 | three pieces join as the first, separator, second, separator, third |
| Text.Strip | musigen/api/mint.py:28 | stripping never lengthens and leaves a string without whitespace unchanged |
| Text.RSplit | musigen/api/hash.py:2 | rsplit with maxsplit gives between 1 and maxsplit+1 pieces, only the first possibly holding the separator |
| Text.RSplitJoin | musigen/api/hash.py:2 | joining the pieces of rsplit gives the string back |
| Text.RSplitCount | musigen/api/hash.py:2-5 | rsplit gives 1 + min(count, maxsplit) pieces |
| Text.LastIndexOfJoin | musigen/api/hash.py:2 | the last separator of p + sep + t, t free of it, is at len(p) |
| Text.HexDigitRun | musigen/api/mint.py:28 | a digit run accepted by int(s, 16) is a non-empty list of hex digits |
| Text.HexDigitRunRender | musigen/api/mint.py:28-32 | int(s, 16)'s digit reader reads the hex rendering of any digit list back as that list |
| Text.HexPrefix | musigen/api/mint.py:32 | hex(n)[2:] of a non-negative n is its lower-case hex digits, free of '-' |
| Text.HexNegative | musigen/api/mint.py:32 | hex(n)[2:] of a negative n is "x" followed by the digits of -n, free of '-' |
| Text.HexRoundTrip | musigen/api/mint.py:28-32 | int(hex(n)[2:], 16) == n for every n >= 0 |
| Text.ParseHexInt | musigen/api/mint.py:28 | int(s, 16) refuses a field that is empty or all whitespace, and yields a negative value only for a field whose stripped form starts with '-' |
| Text.ParsePlain | musigen/api/mint.py:28 | a field without whitespace, sign or 0x prefix parses as the value of its digit run |
| Text.PlainDigits | musigen/api/mint.py:32 | hex digits hold no whitespace, sign or x |
| HashUrl.Decode | musigen/api/hash.py:1-6 | fails with IndexError exactly when the URL has fewer than two dashes; scale and bpm never hold a dash |
| HashUrl.Encode | musigen/api/hash.py:9-11 | the URL holds the fields' dashes plus the two separators |
| HashUrl.DecodeEncode | musigen/api/hash.py:1-11 | decodeUrl(encodeUrl(g, s, b)) == (g, s, b) when s and b hold no dash, whatever g holds |
| HashUrl.EncodeDecode | musigen/api/hash.py:1-11 | every URL that decodes is the encoding of its fields |
| MintUrl.ParseRows | musigen/api/mint.py:28 | the comprehension gives one value per row or fails with ValueError |
| MintUrl.ParseRowsPointwise | musigen/api/mint.py:28 | the grid parses exactly when every row does, value k being int(row k, 16) |
| MintUrl.RowsParsed | musigen/api/mint.py:28 | rows that each parse give the grid of their values |
| MintUrl.RowsRefused | musigen/api/mint.py:28 | one bad row fails the whole grid |
| MintUrl.Decode | musigen/api/mint.py:24-29 | IndexError exactly for a URL without a dash, otherwise ValueError or a grid with a dash-free scale and bpm |
| MintUrl.HexRow | musigen/api/mint.py:32 | hex(row)[2:]: the digits for rows >= 0, "x" and the digits for negative rows, never a dash |
| MintUrl.HexRows | musigen/api/mint.py:32 | one rendering per row, in order |
| MintUrl.SplitMany | musigen/api/mint.py:25-27 | split gives at least two pieces exactly when the URL holds a dash |
| MintUrl.Encode | musigen/api/mint.py:31-35 | every URL ends with "-", the scale, "-" and the bpm, whatever the grid |
| MintUrl.EncodeJoin | musigen/api/mint.py:31-35 | a non-empty grid encodes as the rows, scale and bpm joined by dashes |
| MintUrl.SplitEncode | musigen/api/mint.py:25-35 | splitting an encoded URL gives back the rendered rows, the scale and the bpm |
| MintUrl.DecodeEncode | musigen/api/mint.py:24-35 | decodeUrl(encodeUrl(grid, s, b)) == (grid, s, b) for a non-empty grid of non-negative rows, s and b free of dashes |
| MintUrl.DecodeParts | musigen/api/mint.py:24-29 | a URL splitting into parsable rows, a scale and a bpm decodes to them |
| MintUrl.DecodeRefused | musigen/api/mint.py:24-29 | a URL whose rows do not parse fails with ValueError |
| MintUrl.GridParsed | musigen/api/mint.py:28-32 | the rendered rows of a non-negative grid parse back as the grid |
| MintUrl.EmptyGridFails | musigen/api/mint.py:31-35 | the empty grid encodes as "-s-b", which fails to decode because int('', 16) is invalid |
| MintUrl.EmptyLiteral | musigen/api/mint.py:28 | int('', 16) is invalid |
| MintUrl.NegativeRowFails | musigen/api/mint.py:32 | a grid with a negative row does not round-trip: its URL fails to decode |
| MintUrl.XRowRefused | musigen/api/mint.py:28-32 | the "x..." rendering of a negative row is not a hex literal |
| MintUrl.NotCanonical | musigen/api/mint.py:24-35 | decoding accepts non-canonical rows: "0A-s-b" decodes to [10], whose encoding is "a-s-b" |

## Left out

- Floating point. `mutation_probability` and `random.random() < p` become one boolean coin per round. `note_length = 4 / num_notes` becomes a count of note slots, and only the division by zero is kept.
- The random source. Cut points, mutation indices, coins, sampled positions and generated bits are parameters, and no probability distribution is modelled.
- Audio, MIDI, web and interaction.
  - `pyo` playback: `genome_to_events`, `play_tune`, `play_metronome`, the server.
  - MIDI writing with its alignment check. Player.MelodyOf proves the alignment that check tests.
  - The FastAPI and CORS wiring: `read_item`, `fn`.
  - The CLI loops, `input()` ratings, `get_fitness_score`, logging and every `print_stats`.
  - Fitness is a parameter: a function `f`, or the `fitness` list.
- `pyo.EventScale`. The scale is a parameter given as a sequence of note numbers. Its construction from key, scale name and root is not part of this model.
- `Population.from_hash` and `to_hash` are not defined in any modelled file.
- Duplicate code is modelled once.
  - `int_from_bits` in the two helper files is Bits.IntFromBits.
  - `single_point_crossover` of `algo.py` and of `Evolution` is Operators.SinglePointCrossover.
  - `generate_genome` of `algo.py` and `core/genome.py` is Genome.GenerateGenome.
  - `genome_to_string` of `algo.py` and `core/genome.py` is Genome.GenomeToString.
- Ga.RunEvolution, Ga.NextGeneration, Ga.BreedPairs, Ga.Evolve, Ga.EvolveOutcome, Ga.Generation, Engine.RunEvolution, Engine.Advance, Engine.BreedOffspring, Engine.BreedPair, Operators.Breed and Operators.Offspring require that no genome in the pool has exactly one bit. For such genomes crossover returns the parent objects themselves, and the in-place mutation then changes members of the population. This value model does not capture that aliasing. Populations of 0/1 genomes of one length other than 1 keep this property (Ga.EvolveUniform).
- Ga.RunEvolution: runs with the default `selection_pair`, `single_point_crossover` and `mutation` with one round per child. Custom `selection_fn`, `crossover_fn` and `mutation_fn` arguments and the `printer` callback are not modelled.
- MelodyDecoder.Melody.FromGenome requires a 0/1 genome. Other integers could read as −1 and collide with the sentinel that `note_values.remove(-1)` removes; this is not modelled.
- AlgoPopulation.Population: the `algo` revision declares no constructor. Its attributes are `None` until assigned, and this model has no `None` state for them.
- Engine.StaleTermination has no checked witness of its own. It is a corollary of Engine.Advance's contract: when the score stored first is below the limit, run_evolution keeps breeding even though some genome's looked-up score reaches the limit. FitnessTable.StaleLookupAfterSort exhibits such a genome.
- Text.ParseHexInt: `int(s, 16)` also accepts non-ASCII Unicode decimal digits. The model accepts only the ASCII hex digits, with Python's full set of whitespace around them.
- MintUrl.Decode states its error cases and the shape of its result. The full contents of the grid are stated separately by MintUrl.ParseRowsPointwise.
