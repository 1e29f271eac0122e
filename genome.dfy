/** Genomes: lists of bits, their generation and their textual form (musigen/core/genome.py). */
module Genome {

  import opened Bits
  import opened Text

  /** A genome is a Python list of ints; those the program builds hold only 0 and 1. */
  type Genome = seq<int>

  /** Python's max(0, n): how many items range(n), [x] * n and random.choices(k=n) produce. */
  function Clamp(n: int): nat
  {
    if n < 0 then 0 else n
  }

  /** generate_genome(length): random.choices([0, 1], k=length); the coin outcomes are supplied
      by the caller, coin i deciding bit i. */
  function GenerateGenome(length: int, coins: seq<bool>): (g: Genome)
    requires |coins| == Clamp(length)
    ensures |g| == Clamp(length)
    ensures IsBits(g)
    ensures forall i :: 0 <= i < |g| ==> (g[i] == 1 <==> coins[i])
  {
    seq(|coins|, i requires 0 <= i < |coins| => if coins[i] then 1 else 0)
  }

  /** genome_to_string: the decimal form of every entry, concatenated. */
  function GenomeToString(g: Genome): (s: string)
    ensures |s| >= |g|
  {
    if g == [] then "" else DecimalString(g[0]) + GenomeToString(g[1..])
  }

  /** The textual form of a concatenation is the concatenation of the textual forms. */
  lemma {:induction false} GenomeToStringAppend(a: Genome, b: Genome)
    ensures GenomeToString([]) == ""
    ensures GenomeToString(a + b) == GenomeToString(a) + GenomeToString(b)
  {
    if a != [] {
      var ab := a + b;
      assert ab[0] == a[0] && ab[1..] == a[1..] + b;
      GenomeToStringAppend(a[1..], b);
      assert GenomeToString(ab) == DecimalString(a[0]) + GenomeToString(a[1..] + b);
      assert GenomeToString(a) == DecimalString(a[0]) + GenomeToString(a[1..]);
    } else {
      assert a + b == b;
    }
  }

  /** For a 0/1 genome there is one character per bit, the digit of that bit. */
  lemma {:induction false} GenomeToStringOfBits(g: Genome)
    requires IsBits(g)
    ensures |GenomeToString(g)| == |g|
    ensures forall i :: 0 <= i < |g| ==> GenomeToString(g)[i] == (if g[i] == 1 then '1' else '0')
  {
    if g != [] {
      assert IsBits(g[1..]);
      GenomeToStringOfBits(g[1..]);
      assert DigitsOf(g[0], 10) == [g[0]];
      assert DecimalString(g[0]) == [if g[0] == 1 then '1' else '0'];
      var s := GenomeToString(g);
      forall i | 0 <= i < |g|
        ensures s[i] == (if g[i] == 1 then '1' else '0')
      {
        if i > 0 {
          assert s[i] == GenomeToString(g[1..])[i - 1];
        }
      }
    }
  }

  /** Reading a string of '0' and '1' characters back as a genome. */
  function ParseBits(s: string): (g: Genome)
    ensures |g| == |s| && IsBits(g)
  {
    seq(|s|, i requires 0 <= i < |s| => if s[i] == '1' then 1 else 0)
  }

  /** genome_to_string loses nothing on 0/1 genomes. */
  lemma GenomeToStringRoundTrip(g: Genome)
    requires IsBits(g)
    ensures ParseBits(GenomeToString(g)) == g
  {
    GenomeToStringOfBits(g);
  }
}
