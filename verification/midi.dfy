/** The note event every MIDI source publishes (MidiNoteEvent.cs). The capture
    timestamp is left out: nothing in the bridge reads it. */
module Midi {

  datatype MidiNoteEvent = MidiNoteEvent(isNoteOn: bool, channel: int, note: int, velocity: int)

  /** The ranges a decoded event always lies in: a 1-based channel 1..16 and
      7-bit note and velocity. */
  predicate WellRanged(e: MidiNoteEvent) {
    && 1 <= e.channel <= 16
    && 0 <= e.note <= 127
    && 0 <= e.velocity <= 127
  }

  /** The MIDI 1.0 convention the sources apply: a "Note On" with velocity 0
      is published as a release, so an activation always has velocity > 0. */
  predicate Normalised(e: MidiNoteEvent) {
    e.isNoteOn ==> e.velocity > 0
  }
}
