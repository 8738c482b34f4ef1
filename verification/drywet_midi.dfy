/** The DryWetMidi source (DryWetMidiSource.OnEventReceived and FireNote):
    the library's events become note events. The library's channel is
    0-based; the published channel is 1-based. */
module DryWetMidi {
  import opened Wrappers
  import opened Midi
  import UmpDecoder

  /** The events the library raises, with the fields the bridge reads:
      a 4-bit channel and 7-bit note number and velocity. */
  datatype LibraryEvent =
    | NoteOnEvent(channel: int, noteNumber: int, velocity: int)
    | NoteOffEvent(channel: int, noteNumber: int, velocity: int)
    | OtherEvent

  /** The ranges the library's number types (`FourBitNumber`,
      `SevenBitNumber`) guarantee. */
  predicate InRange(e: LibraryEvent) {
    !e.OtherEvent? ==> 0 <= e.channel < 16 && 0 <= e.noteNumber < 128 && 0 <= e.velocity < 128
  }

  /** FireNote: the event published for the given kind, 0-based channel,
      note and velocity. */
  function FireNote(isNoteOn: bool, channel: int, note: int, velocity: int): MidiNoteEvent {
    MidiNoteEvent(isNoteOn, channel + 1, note, velocity)
  }

  /** OnEventReceived: a Note On with positive velocity is an activation; a
      Note On with velocity 0 is a release with velocity 0; a Note Off is a
      release that keeps its velocity; anything else publishes nothing. */
  function OnEventReceived(e: LibraryEvent): (r: Option<MidiNoteEvent>)
    ensures r.Some? <==> !e.OtherEvent?
    ensures r.Some? ==> r.value.channel == e.channel + 1 && r.value.note == e.noteNumber
    ensures r.Some? ==> r.value.velocity == if e.NoteOnEvent? && e.velocity <= 0 then 0 else e.velocity
    ensures r.Some? ==> (r.value.isNoteOn <==> e.NoteOnEvent? && e.velocity > 0)
    ensures InRange(e) && r.Some? ==> WellRanged(r.value) && Normalised(r.value)
  {
    match e
    case NoteOnEvent(c, n, v) =>
      if v > 0 then Some(FireNote(true, c, n, v)) else Some(FireNote(false, c, n, 0))
    case NoteOffEvent(c, n, v) => Some(FireNote(false, c, n, v))
    case OtherEvent => None
  }

  /** The library event a device sends for a note event: Note On for an
      activation, Note Off for a release, on the 0-based channel. */
  function ToLibrary(evt: MidiNoteEvent): (e: LibraryEvent)
    requires WellRanged(evt)
    ensures InRange(e) && !e.OtherEvent?
  {
    if evt.isNoteOn then NoteOnEvent(evt.channel - 1, evt.note, evt.velocity)
    else NoteOffEvent(evt.channel - 1, evt.note, evt.velocity)
  }

  /** Every well-ranged, normalised note event comes back unchanged. */
  lemma OnEventReceivedToLibrary(evt: MidiNoteEvent)
    requires WellRanged(evt) && Normalised(evt)
    ensures OnEventReceived(ToLibrary(evt)) == Some(evt)
  {
  }

  /** A Note On with velocity 0 publishes exactly what a Note Off with
      velocity 0 publishes. */
  lemma SilentNoteOnIsNoteOff(channel: int, note: int)
    ensures OnEventReceived(NoteOnEvent(channel, note, 0)) == OnEventReceived(NoteOffEvent(channel, note, 0))
    ensures OnEventReceived(NoteOnEvent(channel, note, 0)).value.isNoteOn == false
  {
  }

  /** The UMP word the same device message arrives as under Windows MIDI
      Services, on the given group. */
  function ToUmpFields(e: LibraryEvent, group: int): (f: UmpDecoder.Fields)
    requires InRange(e) && !e.OtherEvent? && 0 <= group < 16
    ensures UmpDecoder.FieldsInRange(f)
  {
    UmpDecoder.Fields(UmpDecoder.ChannelVoiceType, group,
      if e.NoteOnEvent? then UmpDecoder.NoteOnStatus else UmpDecoder.NoteOffStatus,
      e.channel, e.noteNumber, e.velocity)
  }

  /** The two MIDI sources agree: a note message publishes the same event
      whether it arrives through DryWetMidi or as a Universal MIDI Packet. */
  lemma SourcesAgree(e: LibraryEvent, group: int)
    requires InRange(e) && !e.OtherEvent? && 0 <= group < 16
    ensures UmpDecoder.Decode(UmpDecoder.Pack(ToUmpFields(e, group))) == OnEventReceived(e)
  {
    UmpDecoder.DecodePack(ToUmpFields(e, group));
    FieldsAgree(e, group);
  }

  lemma FieldsAgree(e: LibraryEvent, group: int)
    requires InRange(e) && !e.OtherEvent? && 0 <= group < 16
    ensures UmpDecoder.DecodeFields(ToUmpFields(e, group)) == OnEventReceived(e)
  {
  }
}
