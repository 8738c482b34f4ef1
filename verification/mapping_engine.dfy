/** MappingEngine.TryMap: the first rule, in list order, that matches a note
    event decides the scene; a missing or empty scene means "no mapping".
    The rule list is the one the options monitor currently holds, passed in
    explicitly. */
module MappingEngine {
  import opened Wrappers
  import Text
  import opened Options
  import opened Midi
  import ConfigValidator

  /** The note type an event is compared under. */
  function NoteTypeName(isNoteOn: bool): string {
    if isNoteOn then "On" else "Off"
  }

  /** The rule predicate handed to `FirstOrDefault`: note type compared
      ordinally ignoring case (a null `NoteType` equals no non-null string),
      exact channel and note, and exact velocity unless the rule's velocity
      is the wildcard -1. */
  predicate RuleMatches(m: MappingEntry, evt: MidiNoteEvent) {
    && m.noteType.Some?
    && Text.EqualsIgnoreCase(m.noteType.value, NoteTypeName(evt.isNoteOn))
    && m.channel == evt.channel
    && m.note == evt.note
    && (m.velocity == WildcardVelocity || m.velocity == evt.velocity)
  }

  /** Rule `k` matches and no earlier rule does. */
  predicate IsFirstMatch(rules: seq<MappingEntry>, evt: MidiNoteEvent, k: int) {
    && 0 <= k < |rules|
    && RuleMatches(rules[k], evt)
    && forall j :: 0 <= j < k ==> !RuleMatches(rules[j], evt)
  }

  /** `FirstOrDefault`: the index of the first matching rule, if any. */
  function FirstMatch(rules: seq<MappingEntry>, evt: MidiNoteEvent): (r: Option<nat>)
    ensures r.Some? ==> IsFirstMatch(rules, evt, r.value)
    ensures r.None? ==> forall k :: 0 <= k < |rules| ==> !RuleMatches(rules[k], evt)
    decreases |rules|
  {
    if |rules| == 0 then None
    else if RuleMatches(rules[0], evt) then Some(0)
    else
      match FirstMatch(rules[1..], evt)
      case None => None
      case Some(k) => Some(k + 1)
  }

  /** The result of TryMap: the returned flag and the `out` scene. */
  datatype MapResult = MapResult(found: bool, scene: string)

  /** MappingEngine.TryMap. The scene is the first matching rule's scene, or
      the empty string when nothing matches; the flag is false exactly when
      that scene is empty. */
  function TryMap(rules: seq<MappingEntry>, evt: MidiNoteEvent): (r: MapResult)
    ensures r.found ==> r.scene != [] && exists k :: IsFirstMatch(rules, evt, k) && r.scene == rules[k].scene
    ensures !r.found ==> r.scene == [] && forall k :: IsFirstMatch(rules, evt, k) ==> rules[k].scene == []
  {
    var scene := match FirstMatch(rules, evt) case Some(k) => rules[k].scene case None => "";
    FirstMatchUnique(rules, evt);
    MapResult(scene != [], scene)
  }

  /** At most one index is the first match. */
  lemma FirstMatchUnique(rules: seq<MappingEntry>, evt: MidiNoteEvent)
    ensures forall j, k :: IsFirstMatch(rules, evt, j) && IsFirstMatch(rules, evt, k) ==> j == k
  {
  }

  /** TryMap returns the scene of the first matching rule, whatever the rest
      of the list holds. */
  lemma TryMapFirstMatchWins(rules: seq<MappingEntry>, evt: MidiNoteEvent, k: nat)
    requires IsFirstMatch(rules, evt, k)
    ensures TryMap(rules, evt) == MapResult(rules[k].scene != [], rules[k].scene)
  {
    FirstMatchUnique(rules, evt);
  }

  /** When no rule matches, and in particular when there are no rules, the
      result is "not found" with an empty scene. */
  lemma NoMatchingRuleMeansNoScene(rules: seq<MappingEntry>, evt: MidiNoteEvent)
    requires forall k :: 0 <= k < |rules| ==> !RuleMatches(rules[k], evt)
    ensures TryMap(rules, evt) == MapResult(false, "")
  {
  }

  lemma NoRulesMeansNoScene(evt: MidiNoteEvent)
    ensures TryMap([], evt) == MapResult(false, "")
  {
  }

  /** A first match whose scene is empty hides every later match: the result
      is "not found" even when a later rule matches with a non-empty scene. */
  lemma EmptySceneShadowsLaterRules(rules: seq<MappingEntry>, evt: MidiNoteEvent, k: nat, later: nat)
    requires IsFirstMatch(rules, evt, k) && rules[k].scene == []
    requires k < later < |rules| && RuleMatches(rules[later], evt) && rules[later].scene != []
    ensures TryMap(rules, evt) == MapResult(false, "")
  {
    TryMapFirstMatchWins(rules, evt, k);
  }

  /** Of two rules that both match, the one listed first wins; swapping them
      swaps the winner (a wildcard rule before an exact one, or the reverse). */
  lemma OrderDecidesBetweenOverlappingRules(a: MappingEntry, b: MappingEntry, evt: MidiNoteEvent)
    requires RuleMatches(a, evt) && RuleMatches(b, evt)
    ensures TryMap([a, b], evt) == MapResult(a.scene != [], a.scene)
    ensures TryMap([b, a], evt) == MapResult(b.scene != [], b.scene)
  {
    TryMapFirstMatchWins([a, b], evt, 0);
    TryMapFirstMatchWins([b, a], evt, 0);
  }

  /** An exact rule listed first that does not match falls through to a
      later wildcard rule. */
  lemma WildcardCatchesWhatExactMisses(exact: MappingEntry, wildcard: MappingEntry, evt: MidiNoteEvent)
    requires exact.velocity != WildcardVelocity && exact.velocity != evt.velocity
    requires RuleMatches(wildcard, evt)
    ensures TryMap([exact, wildcard], evt) == MapResult(wildcard.scene != [], wildcard.scene)
  {
    TryMapFirstMatchWins([exact, wildcard], evt, 1);
  }

  /** A rule matches only events with its channel and note, and, unless its
      velocity is the wildcard, only events with its velocity. */
  lemma MatchRequiresExactFields(m: MappingEntry, evt: MidiNoteEvent)
    requires RuleMatches(m, evt)
    ensures evt.channel == m.channel && evt.note == m.note
    ensures m.velocity != WildcardVelocity ==> evt.velocity == m.velocity
    ensures m.noteType.Some?
  {
  }

  /** A wildcard rule that matches one event matches that event at every
      velocity. */
  lemma WildcardMatchesEveryVelocity(m: MappingEntry, evt: MidiNoteEvent, v: int)
    requires m.velocity == WildcardVelocity && RuleMatches(m, evt)
    ensures RuleMatches(m, evt.(velocity := v))
  {
  }

  /** An "On" rule (in any letter case) never matches a release, and an "Off"
      rule never matches an activation. */
  lemma NoteTypeSelectsEventKind(m: MappingEntry, evt: MidiNoteEvent)
    requires m.noteType.Some?
    ensures Text.EqualsIgnoreCase(m.noteType.value, "On") && !evt.isNoteOn ==> !RuleMatches(m, evt)
    ensures Text.EqualsIgnoreCase(m.noteType.value, "Off") && evt.isNoteOn ==> !RuleMatches(m, evt)
  {
  }

  /** Every spelling of "on" matches activations: "ON", "on", "oN" and "On"
      all behave alike. */
  lemma OnSpellingsMatchActivations(t: string)
    requires t in {"ON", "on", "oN", "On"}
    ensures Text.EqualsIgnoreCase(t, "On")
  {
    assert Text.ToUpperAscii('o') == 'O' && Text.ToUpperAscii('n') == 'N';
  }

  /** Two rule lists that differ only in the letter case of their note types
      map every event alike. */
  predicate SameUpToNoteTypeCase(a: seq<MappingEntry>, b: seq<MappingEntry>) {
    && |a| == |b|
    && forall k :: 0 <= k < |a| ==>
      && a[k].channel == b[k].channel && a[k].note == b[k].note
      && a[k].velocity == b[k].velocity && a[k].scene == b[k].scene
      && a[k].noteType.Some? == b[k].noteType.Some?
      && (a[k].noteType.Some? ==> Text.EqualsIgnoreCase(a[k].noteType.value, b[k].noteType.value))
  }

  lemma TryMapIgnoresNoteTypeCase(a: seq<MappingEntry>, b: seq<MappingEntry>, evt: MidiNoteEvent)
    requires SameUpToNoteTypeCase(a, b)
    ensures TryMap(a, evt) == TryMap(b, evt)
  {
    assert forall k :: 0 <= k < |a| ==> (RuleMatches(a[k], evt) <==> RuleMatches(b[k], evt));
    var fa := FirstMatch(a, evt);
    if fa.Some? {
      assert IsFirstMatch(b, evt, fa.value);
      FirstMatchUnique(b, evt);
    }
  }

  /** A rule whose `NoteType` is still null never matches. */
  lemma NullNoteTypeNeverMatches(m: MappingEntry, evt: MidiNoteEvent)
    requires m.noteType.None?
    ensures !RuleMatches(m, evt)
  {
  }

  /** After start-up normalisation a rule with a blank `NoteType` acts as an
      "On" rule: it matches activations on its channel, note and velocity and
      never matches a release. */
  lemma NormalizedBlankRuleActsAsOn(m: MappingEntry, evt: MidiNoteEvent)
    requires BlankNoteType(m.noteType)
    ensures RuleMatches(NormalizeNoteType(m), evt) <==>
      && evt.isNoteOn && m.channel == evt.channel && m.note == evt.note
      && (m.velocity == WildcardVelocity || m.velocity == evt.velocity)
  {
  }

  /** The validator trims the `NoteType` but the matcher does not: a padded
      " On " passes validation and never matches any event. */
  lemma PaddedNoteTypeNeverMatches(m: MappingEntry, evt: MidiNoteEvent)
    requires m.noteType == Some(" On ")
    ensures ConfigValidator.NoteTypeTextAccepted(Text.Trim(m.noteType.value))
    ensures !RuleMatches(m, evt)
  {
    assert Text.TrimStart(" On ") == "On " by {
      assert " On "[1..] == "On ";
    }
    assert Text.TrimEnd("On ") == "On" by {
      assert "On "[..2] == "On";
    }
    ConfigValidator.OnAcceptedIgnoringCase();
  }
}
