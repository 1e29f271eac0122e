/** The genome-to-melody reading shared by Melody.from_genome (musigen/player/melody.py) and
    MusicPlayer.genome_to_melody (musigen/player/player.py): the genome is cut into note-sized
    chunks, each chunk read as a little-endian number, the numbers turned into note events that
    merge repeated values and mark rests, and the note values projected onto a scale once per
    harmonic step. A beat counts note slots: its length in beats is that count times
    4 / num_notes. */
module Decoding {

  import opened Wrappers
  import opened Bits
  import opened Genome
  import opened Weighting

  /** The tune metadata record (TuneMetadata in musigen/player/tune.py, Tune in
      musigen/player/player.py). */
  datatype Tune = Tune(numBars: int, numNotes: int, numSteps: int, pauses: bool,
                       key: string, scale: string, root: int, bpm: int)

  function Min(a: nat, b: nat): nat
  {
    if a < b then a else b
  }

  /** Python's g[lo:hi] for 0 <= lo <= hi: both ends are cut back to the length. */
  function Slice(g: Genome, lo: nat, hi: nat): (s: Genome)
    requires lo <= hi
    ensures |s| == Min(hi, |g|) - Min(lo, |g|)
    ensures forall i :: 0 <= i < |s| ==> s[i] == g[lo + i]
  {
    g[Min(lo, |g|)..Min(hi, |g|)]
  }

  /** The first `count` chunks of b bits: genome[i * b : (i + 1) * b]. */
  function Chunks(g: Genome, b: nat, count: int): (cs: seq<Genome>)
    ensures |cs| == Clamp(count)
  {
    seq(Clamp(count), i requires 0 <= i < Clamp(count) => Slice(g, i * b, (i + 1) * b))
  }

  /** When the genome is long enough the chunks laid end to end are the genome's first
      count * b bits: no bit is skipped or read twice. */
  lemma {:induction false} ChunksFlatten(g: Genome, b: nat, count: nat)
    requires count * b <= |g|
    ensures Flatten(Chunks(g, b, count)) == g[..count * b]
  {
    if count > 0 {
      ChunkBound(count - 1, b, count);
      ChunksFlatten(g, b, count - 1);
      ChunksPrefix(g, b, count);
      ChunkExact(g, b, count, count - 1);
      var m := (count - 1) * b;
      assert m + b == count * b;
      FlattenLast(Chunks(g, b, count));
      assert g[..m] + g[m..count * b] == g[..count * b];
    }
  }

  /** When the genome is long enough, chunk i is exactly bits i * b up to (i + 1) * b. */
  lemma ChunkExact(g: Genome, b: nat, count: nat, i: nat)
    requires count * b <= |g| && i < count
    ensures (i + 1) * b <= |g|
    ensures Chunks(g, b, count)[i] == g[i * b..(i + 1) * b]
  {
    ChunkBound(i, b, count);
  }

  lemma ChunksPrefix(g: Genome, b: nat, count: nat)
    requires count > 0
    ensures Chunks(g, b, count)[..count - 1] == Chunks(g, b, count - 1)
  {
  }

  lemma FlattenLast(cs: seq<Genome>)
    requires |cs| > 0
    ensures Flatten(cs) == Flatten(cs[..|cs| - 1]) + cs[|cs| - 1]
  {
  }

  lemma ChunkBound(i: nat, b: nat, count: nat)
    requires i < count
    ensures (i + 1) * b <= count * b
  {
    assert count * b == (i + 1) * b + (count - i - 1) * b;
  }

  function Flatten(cs: seq<Genome>): Genome
  {
    if cs == [] then [] else Flatten(cs[..|cs| - 1]) + cs[|cs| - 1]
  }

  /** The value of one chunk: int_from_bits, reduced modulo the pause threshold
      2^(b - 1) when pauses are off. */
  function SlotValue(chunk: Genome, b: nat, pauses: bool): int
    requires b >= 1
  {
    if pauses then IntFromBits(chunk) else IntFromBits(chunk) % Pow2(b - 1)
  }

  /** The values of a list of chunks. */
  function ChunkValues(cs: seq<Genome>, b: nat, pauses: bool): (vs: seq<int>)
    requires b >= 1
    ensures |vs| == |cs|
    ensures forall i :: 0 <= i < |cs| ==> vs[i] == SlotValue(cs[i], b, pauses)
  {
    seq(|cs|, i requires 0 <= i < |cs| => SlotValue(cs[i], b, pauses))
  }

  /** The values of the num_bars * num_notes chunks of a tune. */
  function SlotValues(g: Genome, b: nat, tune: Tune): (vs: seq<int>)
    requires b >= 1
    ensures |vs| == Clamp(tune.numBars * tune.numNotes)
  {
    ChunkValues(Chunks(g, b, tune.numBars * tune.numNotes), b, tune.pauses)
  }

  /** Every chunk of a 0/1 genome is a 0/1 list. */
  lemma ChunksBits(g: Genome, b: nat, count: int)
    requires IsBits(g)
    ensures forall i :: 0 <= i < |Chunks(g, b, count)| ==> IsBits(Chunks(g, b, count)[i])
  {
  }

  /** The value of a 0/1 chunk is never negative. */
  lemma SlotValueNonNegative(c: Genome, b: nat, pauses: bool)
    requires b >= 1 && IsBits(c)
    ensures SlotValue(c, b, pauses) >= 0
  {
    IntFromBitsBounds(c);
  }

  /** Chunk values of a 0/1 genome lie in [0, 2^b), and in [0, 2^(b-1)) with pauses off: no
      chunk is then a rest. */
  lemma SlotValuesBounds(g: Genome, b: nat, tune: Tune)
    requires b >= 1 && IsBits(g)
    ensures forall i :: 0 <= i < |SlotValues(g, b, tune)| ==> 0 <= SlotValues(g, b, tune)[i] < Pow2(b)
    ensures !tune.pauses ==> forall i :: 0 <= i < |SlotValues(g, b, tune)| ==> SlotValues(g, b, tune)[i] < Pow2(b - 1)
  {
    var cs := Chunks(g, b, tune.numBars * tune.numNotes);
    forall i | 0 <= i < |cs| ensures 0 <= SlotValues(g, b, tune)[i] < Pow2(b) {
      var c := cs[i];
      assert IsBits(c);
      IntFromBitsBounds(c);
      assert |c| <= b;
      Pow2Monotone(|c|, b);
      Pow2Add(b - 1, 1);
    }
  }

  lemma {:induction false} Pow2Monotone(m: nat, n: nat)
    requires m <= n
    ensures Pow2(m) <= Pow2(n)
  {
    if m < n {
      Pow2Monotone(m, n - 1);
    }
  }

  /** The events decoded so far: note values, velocities and beats, one entry per event. */
  datatype Events = Events(values: seq<int>, velocity: seq<int>, beat: seq<nat>)

  predicate Aligned(e: Events)
  {
    |e.values| == |e.velocity| == |e.beat|
  }

  /** One chunk value v: a rest at or above the threshold appends value 0 at velocity 0, a
      value equal to the last recorded one lengthens the last event, any other value appends a
      note at velocity 127. Each adds one slot. */
  function AddSlot(e: Events, v: int, threshold: int): (r: Events)
    requires Aligned(e)
    ensures Aligned(r)
  {
    var n := |e.values|;
    if v >= threshold then Events(e.values + [0], e.velocity + [0], e.beat + [1])
    else if n > 0 && e.values[n - 1] == v then Events(e.values, e.velocity, e.beat[..n - 1] + [e.beat[n - 1] + 1])
    else Events(e.values + [v], e.velocity + [127], e.beat + [1])
  }

  /** The events of a sequence of chunk values, read left to right. */
  function Decode(vs: seq<int>, threshold: int): (e: Events)
    ensures Aligned(e)
    ensures |e.values| <= |vs|
  {
    if vs == [] then Events([], [], []) else AddSlot(Decode(vs[..|vs| - 1], threshold), vs[|vs| - 1], threshold)
  }

  /** Reading one more value is one more AddSlot. */
  lemma DecodePrefix(vs: seq<int>, i: nat, threshold: int)
    requires i < |vs|
    ensures Decode(vs[..i + 1], threshold) == AddSlot(Decode(vs[..i], threshold), vs[i], threshold)
  {
    assert vs[..i + 1][..i] == vs[..i];
  }

  /** Every velocity is 0 (a rest) or 127 (a note). */
  lemma {:induction false} DecodeVelocity(vs: seq<int>, threshold: int)
    ensures forall j :: 0 <= j < |Decode(vs, threshold).velocity| ==>
              Decode(vs, threshold).velocity[j] == 0 || Decode(vs, threshold).velocity[j] == 127
  {
    if vs != [] {
      DecodeVelocity(vs[..|vs| - 1], threshold);
    }
  }

  /** When no value reaches the threshold (pauses off) every event is a sounding note. */
  lemma {:induction false} DecodeAllSounding(vs: seq<int>, threshold: int)
    requires forall i :: 0 <= i < |vs| ==> vs[i] < threshold
    ensures forall j :: 0 <= j < |Decode(vs, threshold).velocity| ==> Decode(vs, threshold).velocity[j] == 127
  {
    if vs != [] {
      DecodeAllSounding(vs[..|vs| - 1], threshold);
    }
  }

  /** Merging is maximal: two neighbouring events carry the same value only when the second is
      silent (a rest, or a 0 absorbed into one). */
  predicate Merged(e: Events)
    requires Aligned(e)
  {
    forall j :: 0 < j < |e.values| && e.values[j] == e.values[j - 1] ==> e.velocity[j] == 0
  }

  lemma {:induction false} DecodeNoRepeats(vs: seq<int>, threshold: int)
    ensures Merged(Decode(vs, threshold))
  {
    if vs != [] {
      var init, v := vs[..|vs| - 1], vs[|vs| - 1];
      DecodeNoRepeats(init, threshold);
      var e := Decode(init, threshold);
      var r := Decode(vs, threshold);
      var n := |e.values|;
      assert r == AddSlot(e, v, threshold);
      if v >= threshold {
        assert r.values == e.values + [0] && r.velocity == e.velocity + [0];
        forall j | 0 < j < |r.values| && r.values[j] == r.values[j - 1]
          ensures r.velocity[j] == 0
        {
          if j < n {
            assert r.values[j] == e.values[j] && r.values[j - 1] == e.values[j - 1];
            assert r.velocity[j] == e.velocity[j];
          }
        }
      } else if n > 0 && e.values[n - 1] == v {
        assert r.values == e.values && r.velocity == e.velocity;
      } else {
        assert r.values == e.values + [v] && r.velocity == e.velocity + [127];
        forall j | 0 < j < |r.values| && r.values[j] == r.values[j - 1]
          ensures r.velocity[j] == 0
        {
          assert j < n;
          assert r.values[j] == e.values[j] && r.values[j - 1] == e.values[j - 1];
          assert r.velocity[j] == e.velocity[j];
        }
      }
    }
  }

  /** The sum of the beats. */
  function Total(beat: seq<nat>): nat
  {
    if beat == [] then 0 else Total(beat[..|beat| - 1]) + beat[|beat| - 1]
  }

  /** Each value is played for its own slot count. */
  function Expand(values: seq<int>, beat: seq<nat>): seq<int>
    requires |values| == |beat|
  {
    if values == [] then []
    else Expand(values[..|values| - 1], beat[..|beat| - 1]) + Repeat(values[|values| - 1], beat[|beat| - 1])
  }

  lemma ExpandLonger(values: seq<int>, beat: seq<nat>)
    requires |values| == |beat| && |values| > 0
    ensures var n := |values|;
            Expand(values, beat[..n - 1] + [beat[n - 1] + 1]) == Expand(values, beat) + [values[n - 1]]
  {
    var n := |values|;
    var v := values[n - 1];
    var longer := beat[..n - 1] + [beat[n - 1] + 1];
    assert longer[..n - 1] == beat[..n - 1];
    ExpandLast(values, longer);
    ExpandLast(values, beat);
    var front := Expand(values[..n - 1], beat[..n - 1]);
    var r := Repeat(v, beat[n - 1]);
    RepeatSnoc(v, beat[n - 1]);
    Assoc(front, r, [v]);
  }

  lemma ExpandLast(values: seq<int>, beat: seq<nat>)
    requires |values| == |beat| && |values| > 0
    ensures Expand(values, beat) == Expand(values[..|values| - 1], beat[..|beat| - 1]) + Repeat(values[|values| - 1], beat[|beat| - 1])
  {
  }

  lemma Assoc<T>(a: seq<T>, b: seq<T>, c: seq<T>)
    ensures a + (b + c) == (a + b) + c
  {
  }

  lemma ExpandAppend(values: seq<int>, beat: seq<nat>, v: int)
    requires |values| == |beat|
    ensures Expand(values + [v], beat + [1]) == Expand(values, beat) + [v]
  {
    assert (values + [v])[..|values|] == values;
    assert (beat + [1])[..|beat|] == beat;
    assert Repeat(v, 1) == [v];
  }

  lemma TotalLonger(beat: seq<nat>)
    requires |beat| > 0
    ensures Total(beat[..|beat| - 1] + [beat[|beat| - 1] + 1]) == Total(beat) + 1
  {
    var longer := beat[..|beat| - 1] + [beat[|beat| - 1] + 1];
    assert longer[..|longer| - 1] == beat[..|beat| - 1];
  }

  lemma TotalAppend(beat: seq<nat>)
    ensures Total(beat + [1]) == Total(beat) + 1
  {
    assert (beat + [1])[..|beat|] == beat;
  }

  /** What is heard slot by slot: the chunk value, or 0 for a rest. */
  function Heard(vs: seq<int>, threshold: int): (hs: seq<int>)
    ensures |hs| == |vs|
  {
    seq(|vs|, i requires 0 <= i < |vs| => if vs[i] >= threshold then 0 else vs[i])
  }

  /** Decoding is a run-length encoding: every chunk adds exactly one slot, so the beats add
      up to the number of chunks, and replaying each value for its beats gives back the value
      heard in every slot. */
  lemma {:induction false} DecodeRunLength(vs: seq<int>, threshold: int)
    ensures Total(Decode(vs, threshold).beat) == |vs|
    ensures Expand(Decode(vs, threshold).values, Decode(vs, threshold).beat) == Heard(vs, threshold)
  {
    if vs != [] {
      var init, v := vs[..|vs| - 1], vs[|vs| - 1];
      DecodeRunLength(init, threshold);
      var e := Decode(init, threshold);
      var n := |e.values|;
      assert Decode(vs, threshold) == AddSlot(e, v, threshold);
      HeardLast(vs, threshold);
      if v >= threshold {
        ExpandAppend(e.values, e.beat, 0);
        TotalAppend(e.beat);
      } else if n > 0 && e.values[n - 1] == v {
        ExpandLonger(e.values, e.beat);
        TotalLonger(e.beat);
      } else {
        ExpandAppend(e.values, e.beat, v);
        TotalAppend(e.beat);
      }
    }
  }

  lemma HeardLast(vs: seq<int>, threshold: int)
    requires |vs| > 0
    ensures Heard(vs, threshold) == Heard(vs[..|vs| - 1], threshold) + [if vs[|vs| - 1] >= threshold then 0 else vs[|vs| - 1]]
  {
  }

  /** A rest followed by the value 0 is one longer rest. */
  lemma RestAbsorbsZero()
    ensures Decode([8, 0], 8) == Events([0], [0], [2])
  {
    assert [8, 0][..1] == [8];
    assert [8][..0] == [];
  }

  /** Note values projected onto the scale: for every step s, the list of
      scale[(v + 2 s) mod |scale|] over the note values. An empty scale is only usable when
      there are no values to place on it. */
  function Project(values: seq<int>, scale: seq<int>, steps: int): (notes: seq<seq<int>>)
    requires |scale| > 0 || |values| == 0
    ensures |notes| == Clamp(steps)
    ensures forall s :: 0 <= s < |notes| ==> |notes[s]| == |values|
    ensures forall s, j :: 0 <= s < |notes| && 0 <= j < |values| ==> notes[s][j] in scale
  {
    seq(Clamp(steps), s requires 0 <= s < Clamp(steps) => StepNotes(values, scale, s))
  }

  /** The notes of one harmonic step: the values shifted up the scale by 2 s degrees. */
  function StepNotes(values: seq<int>, scale: seq<int>, s: nat): (row: seq<int>)
    requires |scale| > 0 || |values| == 0
    ensures |row| == |values|
    ensures forall j :: 0 <= j < |values| ==> row[j] == scale[(values[j] + 2 * s) % |scale|]
  {
    seq(|values|, j requires 0 <= j < |values| => scale[(values[j] + 2 * s) % |scale|])
  }

  /** The steps loop of both decoders: Err(ZeroDivision) exactly when a note value has to be
      placed on an empty scale, the projection otherwise. */
  function Harmonize(values: seq<int>, scale: seq<int>, steps: int): (r: Result<seq<seq<int>>>)
    ensures r.Err? <==> |scale| == 0 && |values| > 0 && steps > 0
    ensures r.Err? ==> r.error == ZeroDivision
    ensures r.Ok? ==> |r.value| == Clamp(steps)
    ensures r.Ok? ==> forall s :: 0 <= s < |r.value| ==> |r.value[s]| == |values|
  {
    if steps <= 0 then Ok([])
    else if |scale| == 0 && |values| > 0 then Err(ZeroDivision)
    else Ok(Project(values, scale, steps))
  }

  /** Projecting one more step appends that step's row. */
  lemma ProjectStep(values: seq<int>, scale: seq<int>, s: nat)
    requires |scale| > 0 || |values| == 0
    ensures Project(values, scale, s + 1) == Project(values, scale, s) + [StepNotes(values, scale, s)]
  {
    assert Project(values, scale, s + 1)[..s] == Project(values, scale, s);
  }

  /** Shifting by a whole octave of the scale changes nothing: step s and step s + |scale| play
      the same notes, and for |scale| even, so do s and s + |scale| / 2. */
  lemma StepPeriodic(values: seq<int>, scale: seq<int>, s: nat)
    requires |scale| > 0
    ensures StepNotes(values, scale, s + |scale|) == StepNotes(values, scale, s)
    ensures |scale| % 2 == 0 ==> StepNotes(values, scale, s + |scale| / 2) == StepNotes(values, scale, s)
  {
    var n := |scale|;
    forall j | 0 <= j < |values|
      ensures (values[j] + 2 * (s + n)) % n == (values[j] + 2 * s) % n
      ensures n % 2 == 0 ==> (values[j] + 2 * (s + n / 2)) % n == (values[j] + 2 * s) % n
    {
      var x := values[j] + 2 * s;
      ModAddN(x, n);
      ModAddN(x + n, n);
      assert values[j] + 2 * (s + n) == x + n + n;
      if n % 2 == 0 {
        assert values[j] + 2 * (s + n / 2) == x + n;
      }
    }
  }

  lemma ModAddN(x: int, n: nat)
    requires n > 0
    ensures (x + n) % n == x % n
  {
    ModUnique(x + n, n, x / n + 1, x % n);
  }

  /** Euclidean division leaves one remainder: a == n * q + r with 0 <= r < n fixes r. */
  lemma ModUnique(a: int, n: int, q: int, r: int)
    requires n > 0 && 0 <= r < n && a == n * q + r
    ensures a % n == r
  {
    var q2 := a / n;
    if q2 < q {
      MulAtLeast(n, q - q2);
      assert false;
    }
    if q2 > q {
      MulAtLeast(n, q2 - q);
      assert false;
    }
  }

  lemma MulAtLeast(n: nat, k: int)
    requires k >= 1
    ensures n * k >= n
    decreases k
  {
    if k > 1 {
      MulAtLeast(n, k - 1);
      assert n * k == n * (k - 1) + n;
    }
  }

  /** A worked decoding: with 4-bit chunks, genome 0000 1000 0000 1000
      reads the chunks little-endian as 0, 1, 0, 1, which yields four separate notes. */
  lemma ScenarioDecode()
    ensures var g := [0, 0, 0, 0, 1, 0, 0, 0, 0, 0, 0, 0, 1, 0, 0, 0];
            SlotValues(g, 4, Tune(1, 4, 1, true, "C", "major", 60, 120)) == [0, 1, 0, 1]
    ensures Decode([0, 1, 0, 1], 8) == Events([0, 1, 0, 1], [127, 127, 127, 127], [1, 1, 1, 1])
  {
    ScenarioChunks();
    LittleEndianNibble(0);
    LittleEndianNibble(1);
    ScenarioEvents();
  }

  lemma ScenarioChunks()
    ensures var cs := Chunks([0, 0, 0, 0, 1, 0, 0, 0, 0, 0, 0, 0, 1, 0, 0, 0], 4, 4);
            cs == [[0, 0, 0, 0], [1, 0, 0, 0], [0, 0, 0, 0], [1, 0, 0, 0]]
  {
    var g := [0, 0, 0, 0, 1, 0, 0, 0, 0, 0, 0, 0, 1, 0, 0, 0];
    assert Slice(g, 0, 4) == [0, 0, 0, 0];
    assert Slice(g, 4, 8) == [1, 0, 0, 0];
    assert Slice(g, 8, 12) == [0, 0, 0, 0];
    assert Slice(g, 12, 16) == [1, 0, 0, 0];
  }

  lemma ScenarioEvents()
    ensures Decode([0, 1, 0, 1], 8) == Events([0, 1, 0, 1], [127, 127, 127, 127], [1, 1, 1, 1])
  {
    DecodeDistinct([0, 1, 0, 1], 8);
    assert Repeat(127, 4) == [127, 127, 127, 127];
    assert Repeat(1, 4) == [1, 1, 1, 1];
  }

  /** Chunk values below the threshold that differ from their left neighbour decode one to one:
      the values themselves, each a note of one slot. */
  lemma {:induction false} DecodeDistinct(vs: seq<int>, threshold: int)
    requires forall i :: 0 <= i < |vs| ==> vs[i] < threshold
    requires forall i :: 0 < i < |vs| ==> vs[i] != vs[i - 1]
    ensures Decode(vs, threshold) == Events(vs, Repeat(127, |vs|), Repeat(1, |vs|))
  {
    if vs != [] {
      var init := vs[..|vs| - 1];
      DecodeDistinct(init, threshold);
      assert init + [vs[|vs| - 1]] == vs;
      RepeatSnoc(127, |init|);
      RepeatSnoc(1, |init|);
    }
  }

  lemma WholePrefix(s: seq<int>)
    ensures s[..|s|] == s
  {
  }

  lemma RepeatSnoc<T>(x: T, n: nat)
    ensures Repeat(x, n + 1) == Repeat(x, n) + [x]
  {
  }

  lemma LittleEndianNibble(x: int)
    ensures IntFromBits([x, 0, 0, 0]) == x
  {
    IntFromBitsSnoc([], 0);
    assert [0] == [] + [0];
    IntFromBitsSnoc([0], 0);
    assert [0, 0] == [0] + [0];
    IntFromBitsSnoc([0, 0], 0);
    assert [0, 0, 0] == [0, 0] + [0];
    IntFromBitsCons(x, [0, 0, 0]);
    assert [x, 0, 0, 0] == [x] + [0, 0, 0];
  }
}
