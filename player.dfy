/** MusicPlayer.genome_to_melody (musigen/player/player.py): a genome read with four bits per
    note into a fresh melody record. */
module Player {

  import opened Wrappers
  import opened Bits
  import opened Genome
  import opened Weighting
  import opened Decoding

  const BITS_PER_NOTE := 4

  /** The pause threshold pow(2, BITS_PER_NOTE - 1). */
  const THRESHOLD := 8

  /** The melody record: one row of scale notes per harmonic step, and one velocity and one
      beat (a note-slot count) per event. */
  datatype Melody = Melody(notes: seq<seq<int>>, velocity: seq<int>, beat: seq<nat>)

  /** The melody of a genome under a tune: Err(ZeroDivision) when num_notes is 0 (the note
      length division) or when a note must be placed on an empty scale; otherwise the decoded
      velocities and beats with the note values projected onto the scale. Every row has one
      note per event, every note lies on the scale, and the beats add up to the tune's
      num_bars * num_notes slots. */
  function MelodyOf(genome: Genome, tune: Tune, scale: seq<int>): (r: Result<Melody>)
    ensures r.Err? <==> tune.numNotes == 0 ||
                        (|scale| == 0 && tune.numSteps > 0 && |Decode(SlotValues(genome, BITS_PER_NOTE, tune), THRESHOLD).values| > 0)
    ensures r.Err? ==> r.error == ZeroDivision
    ensures r.Ok? ==> |r.value.notes| == Clamp(tune.numSteps) && |r.value.velocity| == |r.value.beat|
    ensures r.Ok? ==> forall s :: 0 <= s < |r.value.notes| ==> |r.value.notes[s]| == |r.value.velocity|
    ensures r.Ok? ==> forall s, j :: 0 <= s < |r.value.notes| && 0 <= j < |r.value.notes[s]| ==> r.value.notes[s][j] in scale
    ensures r.Ok? ==> Total(r.value.beat) == Clamp(tune.numBars * tune.numNotes)
  {
    if tune.numNotes == 0 then Err(ZeroDivision)
    else
      var vs := SlotValues(genome, BITS_PER_NOTE, tune);
      var e := Decode(vs, THRESHOLD);
      DecodeRunLength(vs, THRESHOLD);
      match Harmonize(e.values, scale, tune.numSteps)
      case Err(error) => Err(error)
      case Ok(rows) => Ok(Melody(rows, e.velocity, e.beat))
  }

  method GenomeToMelody(genome: Genome, tune: Tune, scale: seq<int>) returns (r: Result<Melody>)
    ensures r == MelodyOf(genome, tune, scale)
  {
    assert Pow2(BITS_PER_NOTE - 1) == THRESHOLD;
    var notes := Chunks(genome, BITS_PER_NOTE, tune.numBars * tune.numNotes);
    if tune.numNotes == 0 {
      return Err(ZeroDivision);
    }
    var e := DecodeChunks(notes, tune.pauses);
    var steps := StepRows(e.values, scale, tune.numSteps);
    match steps {
      case Err(error) => return Err(error);
      case Ok(rows) => return Ok(Melody(rows, e.velocity, e.beat));
    }
  }

  /** The chunk loop: the record's note values, velocities and beats after every chunk. */
  method DecodeChunks(notes: seq<Genome>, pauses: bool) returns (e: Events)
    ensures e == Decode(ChunkValues(notes, BITS_PER_NOTE, pauses), THRESHOLD)
  {
    ghost var vs := ChunkValues(notes, BITS_PER_NOTE, pauses);
    var values: seq<int> := [];
    var velocity: seq<int> := [];
    var beat: seq<nat> := [];
    ghost var d := Decode([], THRESHOLD);
    var i := 0;
    while i < |notes|
      invariant 0 <= i <= |notes| == |vs|
      invariant d == Decode(vs[..i], THRESHOLD)
      invariant values == d.values && velocity == d.velocity && beat == d.beat
    {
      // int_from_bits of the chunk, reduced modulo 2^(BITS_PER_NOTE - 1) when pauses are off
      var integer := SlotValue(notes[i], BITS_PER_NOTE, pauses);
      DecodePrefix(vs, i, THRESHOLD);
      values, velocity, beat := AddNote(values, velocity, beat, integer);
      d := AddSlot(d, integer, THRESHOLD);
      i := i + 1;
    }
    WholePrefix(vs);
    e := Events(values, velocity, beat);
  }

  /** One pass of the chunk loop: a rest, a prolonged note or a new note. */
  method AddNote(values: seq<int>, velocity: seq<int>, beat: seq<nat>, integer: int)
    returns (values': seq<int>, velocity': seq<int>, beat': seq<nat>)
    requires |values| == |velocity| == |beat|
    ensures Events(values', velocity', beat') == AddSlot(Events(values, velocity, beat), integer, THRESHOLD)
  {
    var n := |values|;
    if integer >= THRESHOLD {
      values', velocity', beat' := values + [0], velocity + [0], beat + [1];
    } else if n > 0 && values[n - 1] == integer {
      values', velocity', beat' := values, velocity, beat[..n - 1] + [beat[n - 1] + 1];
    } else {
      values', velocity', beat' := values + [integer], velocity + [127], beat + [1];
    }
  }

  /** The steps loop: one row per harmonic step, each value moved up the scale by 2 * step. */
  method StepRows(values: seq<int>, scale: seq<int>, numSteps: int) returns (r: Result<seq<seq<int>>>)
    ensures r == Harmonize(values, scale, numSteps)
  {
    var steps: seq<seq<int>> := [];
    var step := 0;
    while step < numSteps
      invariant 0 <= step <= Clamp(numSteps)
      invariant |scale| > 0 || |values| == 0 || step == 0
      invariant step == 0 ==> steps == []
      invariant |scale| > 0 || |values| == 0 ==> steps == Project(values, scale, step)
    {
      if |scale| == 0 && |values| > 0 {
        return Err(ZeroDivision);
      }
      ProjectStep(values, scale, step);
      steps := steps + [StepNotes(values, scale, step)];
      step := step + 1;
    }
    assert step == Clamp(numSteps);
    return Ok(steps);
  }

  /** Pauses off: every event of the melody of a 0/1 genome sounds, at velocity 127. */
  lemma NoPausesAllSound(genome: Genome, tune: Tune, scale: seq<int>)
    requires IsBits(genome) && !tune.pauses && MelodyOf(genome, tune, scale).Ok?
    ensures var m := MelodyOf(genome, tune, scale).value;
            forall j :: 0 <= j < |m.velocity| ==> m.velocity[j] == 127
  {
    SlotValuesBounds(genome, BITS_PER_NOTE, tune);
    assert Pow2(BITS_PER_NOTE - 1) == THRESHOLD;
    DecodeAllSounding(SlotValues(genome, BITS_PER_NOTE, tune), THRESHOLD);
  }
}
