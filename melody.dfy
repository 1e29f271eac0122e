/** Melody (musigen/player/melody.py): an object that collects note events, decoded from a
    genome, into its own lists. Each call to FromGenome appends to what earlier calls left. */
module MelodyDecoder {

  import opened Wrappers
  import opened Bits
  import opened Genome
  import opened Weighting
  import opened Decoding

  class Melody {
    /** One list of scale notes per harmonic step. */
    var notes: seq<seq<int>>
    var velocity: seq<int>
    /** Beats, as note-slot counts. */
    var beat: seq<nat>
    var bitsPerNote: int

    constructor(bitsPerNote: int)
      ensures notes == [] && velocity == [] && beat == []
      ensures this.bitsPerNote == bitsPerNote
    {
      notes := [];
      velocity := [];
      beat := [];
      this.bitsPerNote := bitsPerNote;
    }

    /** Decodes the genome and appends its events: num_notes == 0 fails the note length
        division and bits_per_note < 1 the threshold shift, both before anything changes; an
        empty scale fails the projection after the velocities and beats are appended. */
    method FromGenome(genome: Genome, tune: Tune, scale: seq<int>) returns (outcome: Outcome)
      requires IsBits(genome)
      modifies this
      ensures bitsPerNote == old(bitsPerNote)
      ensures tune.numNotes == 0 ==> outcome == Fail(ZeroDivision)
      ensures tune.numNotes != 0 && bitsPerNote < 1 ==> outcome == Fail(NegativeShift)
      ensures tune.numNotes == 0 || bitsPerNote < 1 ==>
                notes == old(notes) && velocity == old(velocity) && beat == old(beat)
      ensures tune.numNotes != 0 && bitsPerNote >= 1 ==>
                var e := Decode(SlotValues(genome, bitsPerNote, tune), Pow2(bitsPerNote - 1));
                velocity == old(velocity) + e.velocity && beat == old(beat) + e.beat &&
                match Harmonize(e.values, scale, tune.numSteps)
                case Err(error) => outcome == Fail(error) && notes == old(notes)
                case Ok(rows) => outcome == Pass && notes == old(notes) + rows
    {
      if tune.numNotes == 0 {
        return Fail(ZeroDivision);
      }
      if bitsPerNote < 1 {
        return Fail(NegativeShift);
      }
      var b: nat := bitsPerNote;
      var subsequences := Chunks(genome, b, tune.numBars * tune.numNotes);
      ChunksBits(genome, b, tune.numBars * tune.numNotes);
      var noteValues := AppendEvents(subsequences, tune.pauses);
      // list.remove(-1) drops the first -1, the sentinel at the front
      DropFront(-1, noteValues[1..]);
      noteValues := noteValues[1..];
      outcome := AppendSteps(noteValues, scale, tune.numSteps);
    }

    /** The chunk loop: appends each event's velocity and beat, and returns the sentinel
        followed by the note values. */
    method AppendEvents(subsequences: seq<Genome>, pauses: bool) returns (noteValues: seq<int>)
      requires bitsPerNote >= 1
      requires forall k :: 0 <= k < |subsequences| ==> IsBits(subsequences[k])
      modifies this
      ensures bitsPerNote == old(bitsPerNote) && notes == old(notes)
      ensures var e := Decode(ChunkValues(subsequences, bitsPerNote, pauses), Pow2(bitsPerNote - 1));
              noteValues == [-1] + e.values && velocity == old(velocity) + e.velocity && beat == old(beat) + e.beat
    {
      var b: nat := bitsPerNote;
      var threshold := Pow2(b - 1);
      ghost var vs := ChunkValues(subsequences, b, pauses);
      // -1 stands in for "no previous value"; no chunk of a 0/1 genome reads as -1
      noteValues := [-1];
      ghost var v0, b0 := velocity, beat;
      ghost var d := Decode([], threshold);
      var i := 0;
      while i < |subsequences|
        invariant 0 <= i <= |subsequences| == |vs|
        invariant bitsPerNote == b && notes == old(notes)
        invariant d == Decode(vs[..i], threshold)
        invariant noteValues == [-1] + d.values
        invariant velocity == v0 + d.velocity
        invariant beat == b0 + d.beat
      {
        DecodePrefix(vs, i, threshold);
        assert vs[i] == SlotValue(subsequences[i], b, pauses);
        noteValues := ReadChunk(noteValues, subsequences[i], b, pauses, d, v0, b0);
        d := AddSlot(d, SlotValue(subsequences[i], b, pauses), threshold);
        i := i + 1;
      }
      WholePrefix(vs);
    }

    /** One pass of the chunk loop on a 0/1 chunk: int_from_bits of the chunk, reduced modulo
        the threshold when pauses are off, recorded as an event. */
    method ReadChunk(noteValues: seq<int>, chunk: Genome, b: nat, pauses: bool, ghost d: Events,
                     ghost v0: seq<int>, ghost b0: seq<nat>) returns (next: seq<int>)
      requires b >= 1 && IsBits(chunk) && Aligned(d)
      requires noteValues == [-1] + d.values && velocity == v0 + d.velocity && beat == b0 + d.beat
      modifies this
      ensures bitsPerNote == old(bitsPerNote) && notes == old(notes)
      ensures var r := AddSlot(d, SlotValue(chunk, b, pauses), Pow2(b - 1));
              next == [-1] + r.values && velocity == v0 + r.velocity && beat == b0 + r.beat
    {
      var value := SlotValue(chunk, b, pauses);
      SlotValueNonNegative(chunk, b, pauses);
      next := AddValue(noteValues, value, Pow2(b - 1), d, v0, b0);
    }

    /** One pass of the chunk loop: a rest, a prolonged note or a new note. `noteValues` holds
        the sentinel and then the values of the events `d` decoded so far. */
    method AddValue(noteValues: seq<int>, value: int, threshold: int, ghost d: Events,
                    ghost v0: seq<int>, ghost b0: seq<nat>) returns (next: seq<int>)
      requires Aligned(d) && value >= 0
      requires noteValues == [-1] + d.values && velocity == v0 + d.velocity && beat == b0 + d.beat
      modifies this
      ensures bitsPerNote == old(bitsPerNote) && notes == old(notes)
      ensures var r := AddSlot(d, value, threshold);
              next == [-1] + r.values && velocity == v0 + r.velocity && beat == b0 + r.beat
    {
      var n := |d.values|;
      if value >= threshold {
        next := noteValues + [0];
        velocity := velocity + [0];
        beat := beat + [1];
        assert AddSlot(d, value, threshold) == Events(d.values + [0], d.velocity + [0], d.beat + [1]);
      } else if noteValues[|noteValues| - 1] == value {
        assert n > 0 && d.values[n - 1] == value;
        next := noteValues;
        beat := beat[..|beat| - 1] + [beat[|beat| - 1] + 1];
        assert beat == b0 + (d.beat[..n - 1] + [d.beat[n - 1] + 1]);
      } else {
        assert !(n > 0 && d.values[n - 1] == value);
        next := noteValues + [value];
        velocity := velocity + [127];
        beat := beat + [1];
        assert AddSlot(d, value, threshold) == Events(d.values + [value], d.velocity + [127], d.beat + [1]);
      }
    }

    /** The steps loop: appends one row of scale notes per harmonic step. */
    method AppendSteps(noteValues: seq<int>, scale: seq<int>, numSteps: int) returns (outcome: Outcome)
      modifies this
      ensures bitsPerNote == old(bitsPerNote) && velocity == old(velocity) && beat == old(beat)
      ensures match Harmonize(noteValues, scale, numSteps)
              case Err(error) => outcome == Fail(error) && notes == old(notes)
              case Ok(rows) => outcome == Pass && notes == old(notes) + rows
    {
      var step := 0;
      while step < numSteps
        invariant 0 <= step <= Clamp(numSteps)
        invariant bitsPerNote == old(bitsPerNote)
        invariant velocity == old(velocity) && beat == old(beat)
        invariant |scale| > 0 || |noteValues| == 0 || step == 0
        invariant |scale| > 0 || |noteValues| == 0 ==> notes == old(notes) + Project(noteValues, scale, step)
        invariant notes == old(notes) || |scale| > 0 || |noteValues| == 0
      {
        if |scale| == 0 && |noteValues| > 0 {
          return Fail(ZeroDivision);
        }
        var note := StepNotes(noteValues, scale, step);
        ProjectStep(noteValues, scale, step);
        notes := notes + [note];
        step := step + 1;
      }
      assert Clamp(numSteps) == step;
      return Pass;
    }
  }

  lemma DropFront(x: int, s: seq<int>)
    ensures ([x] + s)[1..] == s
  {
  }
}
