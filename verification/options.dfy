/** The configuration records of BridgeOptions.cs with their defaults, and the
    start-up normalisation of blank `NoteType` values done by Program.cs.
    The C# `int` properties are modelled as unbounded integers: the 32-bit
    range only bounds what the configuration binder can produce. */
module Options {
  import opened Wrappers
  import Text

  /** Section "Midi": the virtual device's identity. */
  datatype MidiOptions = MidiOptions(deviceName: string, productInstanceId: string)

  /** Section "Obs": where the remote endpoint is and how long the reconnect
      backoff may grow, in seconds. */
  datatype ObsOptions = ObsOptions(host: string, port: int, password: Option<string>, reconnectMaxSeconds: int)

  /** Section "Behavior": the disconnected-warning interval in seconds and
      the "skip when already on the scene" switch. */
  datatype BehaviorOptions = BehaviorOptions(obsDisconnectedLogIntervalSeconds: int, ignoreIfAlreadyOnScene: bool)

  /** One rule of the "Mappings" list. `noteType` is a nullable string; the
      other properties are plain values. */
  datatype MappingEntry = MappingEntry(noteType: Option<string>, channel: int, note: int, velocity: int, scene: string)

  /** The rule velocity that matches every event velocity. */
  const WildcardVelocity: int := -1

  const DefaultMidiOptions: MidiOptions := MidiOptions("ProPresenter-OBS Bridge", "com.julmar.pp-obs-bridge")
  const DefaultObsOptions: ObsOptions := ObsOptions("", 4455, None, 30)
  const DefaultBehaviorOptions: BehaviorOptions := BehaviorOptions(10, false)
  const DefaultMappingEntry: MappingEntry := MappingEntry(Some("On"), 0, 0, WildcardVelocity, "")

  /** The documented defaults, as a reader of the configuration sees them. */
  lemma Defaults()
    ensures DefaultMappingEntry.noteType == Some("On") && DefaultMappingEntry.velocity == WildcardVelocity
    ensures DefaultMappingEntry.scene == "" && DefaultMappingEntry.channel == 0 && DefaultMappingEntry.note == 0
    ensures DefaultObsOptions.host == "" && DefaultObsOptions.port == 4455
    ensures DefaultObsOptions.password.None? && DefaultObsOptions.reconnectMaxSeconds == 30
    ensures DefaultBehaviorOptions.obsDisconnectedLogIntervalSeconds == 10 && !DefaultBehaviorOptions.ignoreIfAlreadyOnScene
  {
  }

  /** A `NoteType` that is null or whitespace only. */
  predicate BlankNoteType(nt: Option<string>) {
    nt.None? || Text.IsBlank(nt.value)
  }

  /** One rule after start-up normalisation: a blank `NoteType` becomes "On". */
  function NormalizeNoteType(m: MappingEntry): MappingEntry {
    if BlankNoteType(m.noteType) then m.(noteType := Some("On")) else m
  }

  /** "On" is not blank, so a normalised `NoteType` never is. */
  lemma OnIsNotBlank()
    ensures !BlankNoteType(Some("On"))
  {
    assert !Text.IsWhiteSpace("On"[0]);
  }

  /** The whole rule list after start-up normalisation: order and every
      field but a blank `NoteType` are kept, a blank one becomes "On", no
      rule is left blank, and every rule is already normalised. */
  function NormalizeNoteTypes(ms: seq<MappingEntry>): (r: seq<MappingEntry>)
    ensures |r| == |ms|
    ensures forall i :: 0 <= i < |ms| ==>
      && r[i].channel == ms[i].channel && r[i].note == ms[i].note
      && r[i].velocity == ms[i].velocity && r[i].scene == ms[i].scene
      && (BlankNoteType(ms[i].noteType) ==> r[i].noteType == Some("On"))
      && (!BlankNoteType(ms[i].noteType) ==> r[i].noteType == ms[i].noteType)
    ensures forall i :: 0 <= i < |r| ==> !BlankNoteType(r[i].noteType) && NormalizeNoteType(r[i]) == r[i]
  {
    OnIsNotBlank();
    seq(|ms|, i requires 0 <= i < |ms| => NormalizeNoteType(ms[i]))
  }

  /** Normalising twice changes nothing. */
  lemma NormalizeNoteTypesIdempotent(ms: seq<MappingEntry>)
    ensures NormalizeNoteTypes(NormalizeNoteTypes(ms)) == NormalizeNoteTypes(ms)
  {
  }
}
