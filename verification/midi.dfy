/** The decoded MIDI data that the timeline reconstruction consumes: events
    grouped in tracks, each carrying a delta time in ticks relative to the
    previous event of the same track, and the onset records it produces.
    Decoding the file itself is not part of this model. */
module Midi {

  /** Tempo, in microseconds per beat, in force before any set_tempo event
      has been seen (120 beats per minute). */
  const DefaultTempo: int := 500000

  /** Microseconds per second, the unit conversion inside tick-to-second. */
  const MicrosPerSecond: int := 1000000

  /** One decoded message. Only the two kinds the reconstruction inspects are
      distinguished; every other message (note_off, control change, meta
      events other than set_tempo, ...) only advances the track clock. */
  datatype Event =
    | SetTempo(delta: int, tempo: int)
    | NoteOn(delta: int, note: int, velocity: int)
    | Other(delta: int)

  type Track = seq<Event>

  /** A reconstructed onset: pitch, absolute tick on its track, and the
      tick converted to seconds with the tempo in force when it was reached. */
  datatype Onset = Onset(note: int, tick: int, seconds: real)

  /** A note_on with non-zero velocity starts a note; one with velocity 0 is
      a release by MIDI convention and produces nothing. */
  predicate StartsNote(e: Event) {
    e.NoteOn? && e.velocity > 0
  }

  /** Converts an absolute tick to seconds: `ticks` beats of
      `tempo / ticksPerBeat` microseconds each. The real result is exact; the
      floating-point rounding done by mr_copy.py is not modelled. */
  function TickToSecond(ticks: int, ticksPerBeat: int, tempo: int): (seconds: real)
    requires ticksPerBeat != 0
    ensures seconds * (MicrosPerSecond * ticksPerBeat) as real == (ticks * tempo) as real
  {
    (ticks * tempo) as real / (MicrosPerSecond * ticksPerBeat) as real
  }

  /** With a fixed non-negative tempo and a positive resolution, a later tick
      is never converted to an earlier second. */
  lemma TickToSecondMonotone(t1: int, t2: int, ticksPerBeat: int, tempo: int)
    requires ticksPerBeat > 0 && tempo >= 0
    requires t1 <= t2
    ensures TickToSecond(t1, ticksPerBeat, tempo) <= TickToSecond(t2, ticksPerBeat, tempo)
  {
  }
}
