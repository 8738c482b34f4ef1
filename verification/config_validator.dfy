/** ConfigValidator.Validate: the ordered list of configuration errors that
    stops the bridge at start-up. Errors are kept as a datatype carrying the
    values the message interpolates; `Message` renders the exact text. */
module ConfigValidator {
  import opened Wrappers
  import Text
  import opened Options

  datatype ConfigError =
    | HostEmpty
    | PortOutOfRange(port: int)
    | NoMappings
    | BadNoteType(index: nat, noteType: string)
    | BadChannel(index: nat, channel: int)
    | BadNote(index: nat, note: int)
    | BadVelocity(index: nat, velocity: int)
    | BlankScene(index: nat)

  /** The text the source adds to its error list for each error. */
  function Message(e: ConfigError): string {
    match e
    case HostEmpty => "Obs.Host must not be empty."
    case PortOutOfRange(p) => "Obs.Port must be 1..65535, got " + Text.IntToString(p) + "."
    case NoMappings => "Mappings must contain at least one entry."
    case BadNoteType(i, t) => Prefix(i) + ".NoteType must be 'On' or 'Off', got '" + t + "'."
    case BadChannel(i, c) => Prefix(i) + ".Channel must be 1..16, got " + Text.IntToString(c) + "."
    case BadNote(i, n) => Prefix(i) + ".Note must be 0..127, got " + Text.IntToString(n) + "."
    case BadVelocity(i, v) => Prefix(i) + ".Velocity must be -1 or 0..127, got " + Text.IntToString(v) + "."
    case BlankScene(i) => Prefix(i) + ".Scene must not be empty."
  }

  function Prefix(i: nat): string {
    "Mappings[" + Text.IntToString(i) + "]"
  }

  // ---------------------------------------------------------------------
  // The validator
  // ---------------------------------------------------------------------

  /** One `if` of the validator: the error it adds when its condition holds. */
  datatype Check = Check(failed: bool, error: ConfigError)

  /** The errors of the failing checks, in the order the checks are made. */
  function Reported(checks: seq<Check>): seq<ConfigError>
    decreases |checks|
  {
    if |checks| == 0 then []
    else (if checks[0].failed then [checks[0].error] else []) + Reported(checks[1..])
  }

  /** The trimmed `NoteType` is acceptable: empty, or "on"/"off" in any case. */
  predicate NoteTypeTextAccepted(t: string) {
    t == [] || Text.EqualsIgnoreCase(t, "on") || Text.EqualsIgnoreCase(t, "off")
  }

  /** The host and port checks. */
  function HeaderChecks(obs: ObsOptions): seq<Check> {
    [ Check(Text.IsBlank(obs.host), HostEmpty),
      Check(obs.port < 1 || obs.port > 65535, PortOutOfRange(obs.port)) ]
  }

  /** The checks of the entry at index `i`, in the order the source makes
      them. The `NoteType` check fails for a non-null value that, once
      trimmed, is neither empty nor "on"/"off" in any case; the velocity
      check lets the wildcard -1 through. */
  function EntryChecks(i: nat, m: MappingEntry): seq<Check> {
    [ Check(m.noteType.Some? && !NoteTypeTextAccepted(Text.Trim(m.noteType.value)),
            BadNoteType(i, Text.Trim(m.noteType.GetOr("")))),
      Check(m.channel < 1 || m.channel > 16, BadChannel(i, m.channel)),
      Check(m.note < 0 || m.note > 127, BadNote(i, m.note)),
      Check(m.velocity != WildcardVelocity && (m.velocity < 0 || m.velocity > 127), BadVelocity(i, m.velocity)),
      Check(Text.IsBlank(m.scene), BlankScene(i)) ]
  }

  function EntryErrors(i: nat, m: MappingEntry): seq<ConfigError> {
    Reported(EntryChecks(i, m))
  }

  /** The errors of entries `from`, `from + 1`, ... in ascending index order. */
  function MappingErrors(ms: seq<MappingEntry>, from: nat): seq<ConfigError>
    decreases |ms| - from
  {
    if from >= |ms| then [] else EntryErrors(from, ms[from]) + MappingErrors(ms, from + 1)
  }

  /** ConfigValidator.Validate: host, then port, then either the single
      "no mappings" error (returning at once) or every entry's errors. */
  function Validate(obs: ObsOptions, ms: seq<MappingEntry>): seq<ConfigError> {
    Reported(HeaderChecks(obs)) + (if |ms| == 0 then [NoMappings] else MappingErrors(ms, 0))
  }

  /** The list of strings the source returns: empty exactly for a valid
      configuration, and otherwise one line per fault, each describing a
      real fault of the configuration. */
  function ValidateMessages(obs: ObsOptions, ms: seq<MappingEntry>): (r: seq<string>)
    ensures r == [] <==> ConfigValid(obs, ms)
    ensures |r| == |Validate(obs, ms)|
    ensures forall k :: 0 <= k < |r| ==> Violation(obs, ms, Validate(obs, ms)[k]) && r[k] == Message(Validate(obs, ms)[k])
  {
    ValidateEmptyIffValid(obs, ms);
    ValidateReportsExactlyTheViolations(obs, ms);
    var errs := Validate(obs, ms);
    seq(|errs|, k requires 0 <= k < |errs| => Message(errs[k]))
  }

  // ---------------------------------------------------------------------
  // An independent statement of what is reported
  // ---------------------------------------------------------------------

  /** The entry at `i` is at fault in the way `e` describes. */
  predicate EntryViolation(ms: seq<MappingEntry>, e: ConfigError) {
    match e
    case BadNoteType(i, t) =>
      i < |ms| && ms[i].noteType.Some? && t == Text.Trim(ms[i].noteType.value) && !NoteTypeTextAccepted(t)
    case BadChannel(i, c) => i < |ms| && c == ms[i].channel && !(1 <= c <= 16)
    case BadNote(i, n) => i < |ms| && n == ms[i].note && !(0 <= n <= 127)
    case BadVelocity(i, v) => i < |ms| && v == ms[i].velocity && v != WildcardVelocity && !(0 <= v <= 127)
    case BlankScene(i) => i < |ms| && Text.IsBlank(ms[i].scene)
    case _ => false
  }

  /** `e` describes a real fault of the configuration. */
  predicate Violation(obs: ObsOptions, ms: seq<MappingEntry>, e: ConfigError) {
    match e
    case HostEmpty => Text.IsBlank(obs.host)
    case PortOutOfRange(p) => p == obs.port && !(1 <= p <= 65535)
    case NoMappings => |ms| == 0
    case _ => EntryViolation(ms, e)
  }

  /** A rule every check accepts. */
  predicate EntryValid(m: MappingEntry) {
    && (m.noteType.None? || NoteTypeTextAccepted(Text.Trim(m.noteType.value)))
    && 1 <= m.channel <= 16
    && 0 <= m.note <= 127
    && (m.velocity == WildcardVelocity || 0 <= m.velocity <= 127)
    && !Text.IsBlank(m.scene)
  }

  /** A configuration every check accepts. */
  predicate ConfigValid(obs: ObsOptions, ms: seq<MappingEntry>) {
    && !Text.IsBlank(obs.host)
    && 1 <= obs.port <= 65535
    && |ms| > 0
    && forall i :: 0 <= i < |ms| ==> EntryValid(ms[i])
  }

  /** The position an error takes in the list: host, port, "no mappings",
      then per entry (by index) note type, channel, note, velocity, scene. */
  function Position(e: ConfigError): nat {
    match e
    case HostEmpty => 0
    case PortOutOfRange(_) => 1
    case NoMappings => 2
    case BadNoteType(i, _) => 3 + 5 * i
    case BadChannel(i, _) => 4 + 5 * i
    case BadNote(i, _) => 5 + 5 * i
    case BadVelocity(i, _) => 6 + 5 * i
    case BlankScene(i) => 7 + 5 * i
  }

  /** Positions strictly increase along the list. */
  predicate StrictlyOrdered(errs: seq<ConfigError>) {
    forall j, k :: 0 <= j < k < |errs| ==> Position(errs[j]) < Position(errs[k])
  }

  /** Every position lies in `lo..hi - 1`. */
  predicate Within(errs: seq<ConfigError>, lo: nat, hi: nat) {
    forall j :: 0 <= j < |errs| ==> lo <= Position(errs[j]) < hi
  }

  /** The checks' errors have strictly increasing positions in `lo..hi - 1`. */
  predicate ChecksInOrder(checks: seq<Check>, lo: nat, hi: nat) {
    && (forall k :: 0 <= k < |checks| ==> lo <= Position(checks[k].error) < hi)
    && (forall j, k :: 0 <= j < k < |checks| ==> Position(checks[j].error) < Position(checks[k].error))
  }

  // ---------------------------------------------------------------------
  // Proofs
  // ---------------------------------------------------------------------

  /** An error is reported exactly when one of the checks that carries it fails. */
  lemma {:induction false} ReportedMembership(checks: seq<Check>, e: ConfigError)
    ensures e in Reported(checks) <==> exists k :: 0 <= k < |checks| && checks[k].failed && checks[k].error == e
    decreases |checks|
  {
    if |checks| > 0 {
      ReportedMembership(checks[1..], e);
      if e in Reported(checks) && !(checks[0].failed && checks[0].error == e) {
        var k :| 0 <= k < |checks[1..]| && checks[1..][k].failed && checks[1..][k].error == e;
        assert checks[k + 1] == checks[1..][k];
      }
      if exists k :: 0 <= k < |checks| && checks[k].failed && checks[k].error == e {
        var k :| 0 <= k < |checks| && checks[k].failed && checks[k].error == e;
        if k > 0 {
          assert checks[1..][k - 1] == checks[k];
        }
      }
    }
  }

  /** Joining two ordered lists whose positions lie in consecutive ranges. */
  lemma OrderedAppend(a: seq<ConfigError>, b: seq<ConfigError>, lo: nat, mid: nat, hi: nat)
    requires lo <= mid <= hi
    requires StrictlyOrdered(a) && Within(a, lo, mid)
    requires StrictlyOrdered(b) && Within(b, mid, hi)
    ensures StrictlyOrdered(a + b) && Within(a + b, lo, hi)
  {
    var c := a + b;
    forall j, k | 0 <= j < k < |c| ensures Position(c[j]) < Position(c[k]) {
      if k < |a| {
        assert c[j] == a[j] && c[k] == a[k];
      } else if j < |a| {
        assert c[j] == a[j] && c[k] == b[k - |a|];
        assert Position(a[j]) < mid <= Position(b[k - |a|]);
      } else {
        assert c[j] == b[j - |a|] && c[k] == b[k - |a|];
      }
    }
    forall j | 0 <= j < |c| ensures lo <= Position(c[j]) < hi {
      if j < |a| {
        assert c[j] == a[j];
        assert lo <= Position(a[j]) < mid;
      } else {
        assert c[j] == b[j - |a|];
        assert mid <= Position(b[j - |a|]) < hi;
      }
    }
  }

  /** The failing checks of an ordered list of checks are reported in order. */
  lemma {:induction false} ReportedOrdered(checks: seq<Check>, lo: nat, hi: nat)
    requires ChecksInOrder(checks, lo, hi)
    ensures StrictlyOrdered(Reported(checks)) && Within(Reported(checks), lo, hi)
    decreases |checks|
  {
    if |checks| > 0 {
      var rest := checks[1..];
      var first := Position(checks[0].error);
      assert ChecksInOrder(rest, first + 1, hi) by {
        forall k | 0 <= k < |rest| ensures first + 1 <= Position(rest[k].error) < hi {
          assert rest[k] == checks[k + 1];
        }
        forall j, k | 0 <= j < k < |rest| ensures Position(rest[j].error) < Position(rest[k].error) {
          assert rest[j] == checks[j + 1] && rest[k] == checks[k + 1];
        }
      }
      ReportedOrdered(rest, first + 1, hi);
      var h := if checks[0].failed then [checks[0].error] else [];
      OrderedAppend(h, Reported(rest), lo, first + 1, hi);
    }
  }

  lemma EntryChecksInOrder(i: nat, m: MappingEntry)
    ensures ChecksInOrder(EntryChecks(i, m), 3 + 5 * i, 8 + 5 * i)
  {
    var c := EntryChecks(i, m);
    assert forall k :: 0 <= k < 5 ==> Position(c[k].error) == 3 + 5 * i + k;
  }

  /** The errors entry `i` reports are exactly its violations. */
  lemma EntryErrorsSpec(ms: seq<MappingEntry>, i: nat, e: ConfigError)
    requires i < |ms|
    ensures e in EntryErrors(i, ms[i]) <==> EntryViolation(ms, e) && 3 + 5 * i <= Position(e) < 8 + 5 * i
  {
    var c := EntryChecks(i, ms[i]);
    ReportedMembership(c, e);
    if EntryViolation(ms, e) && 3 + 5 * i <= Position(e) < 8 + 5 * i {
      match e
      case BadNoteType(_, _) => assert c[0].failed && c[0].error == e;
      case BadChannel(_, _) => assert c[1].failed && c[1].error == e;
      case BadNote(_, _) => assert c[2].failed && c[2].error == e;
      case BadVelocity(_, _) => assert c[3].failed && c[3].error == e;
      case BlankScene(_) => assert c[4].failed && c[4].error == e;
    }
  }

  lemma {:induction false} MappingErrorsOrdered(ms: seq<MappingEntry>, from: nat)
    ensures StrictlyOrdered(MappingErrors(ms, from)) && Within(MappingErrors(ms, from), 3 + 5 * from, 3 + 5 * |ms| + 5)
    decreases |ms| - from
  {
    if from < |ms| {
      MappingErrorsOrdered(ms, from + 1);
      EntryChecksInOrder(from, ms[from]);
      ReportedOrdered(EntryChecks(from, ms[from]), 3 + 5 * from, 8 + 5 * from);
      OrderedAppend(EntryErrors(from, ms[from]), MappingErrors(ms, from + 1), 3 + 5 * from, 8 + 5 * from, 3 + 5 * |ms| + 5);
    }
  }

  /** A violation at entry `i` sits in entry `i`'s block of positions. */
  lemma EntryViolationPosition(ms: seq<MappingEntry>, e: ConfigError)
    ensures EntryViolation(ms, e) ==> 3 <= Position(e) < 3 + 5 * |ms|
  {
  }

  lemma {:induction false} MappingErrorsMembership(ms: seq<MappingEntry>, from: nat, e: ConfigError)
    ensures e in MappingErrors(ms, from) <==> EntryViolation(ms, e) && 3 + 5 * from <= Position(e)
    decreases |ms| - from
  {
    EntryViolationPosition(ms, e);
    if from < |ms| {
      MappingErrorsMembership(ms, from + 1, e);
      EntryErrorsSpec(ms, from, e);
    }
  }

  /** Validate reports exactly the faults of the configuration, each once,
      in the order host, port, then entries by ascending index (and within
      an entry: note type, channel, note, velocity, scene). */
  lemma ValidateReportsExactlyTheViolations(obs: ObsOptions, ms: seq<MappingEntry>)
    ensures forall e :: e in Validate(obs, ms) <==> Violation(obs, ms, e)
    ensures StrictlyOrdered(Validate(obs, ms))
  {
    var head := HeaderChecks(obs);
    var tail := if |ms| == 0 then [NoMappings] else MappingErrors(ms, 0);
    forall e ensures e in Validate(obs, ms) <==> Violation(obs, ms, e) {
      ReportedMembership(head, e);
      EntryViolationPosition(ms, e);
      MappingErrorsMembership(ms, 0, e);
    }
    assert ChecksInOrder(head, 0, 2);
    ReportedOrdered(head, 0, 2);
    MappingErrorsOrdered(ms, 0);
    OrderedAppend(Reported(head), tail, 0, 2, 3 + 5 * |ms| + 5);
  }

  /** An empty list of mappings yields at most the host and port errors and
      then the single "no mappings" error, and no per-entry error. */
  lemma EmptyMappingsReturnEarly(obs: ObsOptions)
    ensures |Validate(obs, [])| > 0 && Validate(obs, [])[|Validate(obs, [])| - 1] == NoMappings
    ensures forall e :: e in Validate(obs, []) <==> e == NoMappings || (Position(e) < 2 && Violation(obs, [], e))
    ensures forall e :: e in Validate(obs, []) ==> Position(e) <= 2
  {
    ValidateReportsExactlyTheViolations(obs, []);
  }

  /** A configuration passes every check exactly when it has no fault. */
  lemma ValidIffNoViolation(obs: ObsOptions, ms: seq<MappingEntry>)
    ensures ConfigValid(obs, ms) <==> forall e :: !Violation(obs, ms, e)
  {
    if !ConfigValid(obs, ms) {
      if Text.IsBlank(obs.host) {
        assert Violation(obs, ms, HostEmpty);
      } else if !(1 <= obs.port <= 65535) {
        assert Violation(obs, ms, PortOutOfRange(obs.port));
      } else if |ms| == 0 {
        assert Violation(obs, ms, NoMappings);
      } else {
        var i :| 0 <= i < |ms| && !EntryValid(ms[i]);
        var m := ms[i];
        if m.noteType.Some? && !NoteTypeTextAccepted(Text.Trim(m.noteType.value)) {
          assert Violation(obs, ms, BadNoteType(i, Text.Trim(m.noteType.value)));
        } else if !(1 <= m.channel <= 16) {
          assert Violation(obs, ms, BadChannel(i, m.channel));
        } else if !(0 <= m.note <= 127) {
          assert Violation(obs, ms, BadNote(i, m.note));
        } else if !(m.velocity == WildcardVelocity || 0 <= m.velocity <= 127) {
          assert Violation(obs, ms, BadVelocity(i, m.velocity));
        } else {
          assert Violation(obs, ms, BlankScene(i));
        }
      }
    }
  }

  /** The error list is empty exactly when every check passes. */
  lemma ValidateEmptyIffValid(obs: ObsOptions, ms: seq<MappingEntry>)
    ensures Validate(obs, ms) == [] <==> ConfigValid(obs, ms)
  {
    ValidateReportsExactlyTheViolations(obs, ms);
    ValidIffNoViolation(obs, ms);
    var r := Validate(obs, ms);
    if r != [] {
      assert r[0] in r;
    }
  }

  /** A blank host adds exactly one host error, and it comes first. */
  lemma BlankHostReportedOnce(obs: ObsOptions, ms: seq<MappingEntry>)
    ensures Text.IsBlank(obs.host) ==> Validate(obs, ms)[0] == HostEmpty && multiset(Validate(obs, ms))[HostEmpty] == 1
    ensures !Text.IsBlank(obs.host) ==> HostEmpty !in Validate(obs, ms)
  {
    ValidateReportsExactlyTheViolations(obs, ms);
    var r := Validate(obs, ms);
    if Text.IsBlank(obs.host) {
      assert r[0] == HostEmpty;
      assert multiset(r)[HostEmpty] == multiset(r[1..])[HostEmpty] + 1 by {
        assert r == [r[0]] + r[1..];
      }
      assert HostEmpty !in r[1..] by {
        forall k | 1 <= k < |r| ensures r[k] != HostEmpty {
          assert Position(r[0]) < Position(r[k]);
        }
      }
    }
  }

  /** The defaults of ObsOptions fail validation on the host alone: the
      default port is in range. */
  lemma DefaultObsOptionsFailHostCheck(ms: seq<MappingEntry>)
    ensures HostEmpty in Validate(DefaultObsOptions, ms)
    ensures forall p :: PortOutOfRange(p) !in Validate(DefaultObsOptions, ms)
  {
    ValidateReportsExactlyTheViolations(DefaultObsOptions, ms);
  }

  /** A default-constructed MappingEntry fails on its channel (0) and its
      empty scene, and passes the note type, note and velocity checks. */
  lemma DefaultMappingEntryErrors()
    ensures EntryErrors(0, DefaultMappingEntry) == [BadChannel(0, 0), BlankScene(0)]
  {
    OnTrimsToItself();
    OnAcceptedIgnoringCase();
    var c := EntryChecks(0, DefaultMappingEntry);
    assert !c[0].failed && c[1].failed && !c[2].failed && !c[3].failed;
    assert c[4].failed by {
      assert Text.IsBlank(DefaultMappingEntry.scene);
    }
    assert Reported(c[4..]) == [BlankScene(0)] by {
      assert c[4..][0] == c[4] && c[4..][1..] == [];
    }
    assert Reported(c[3..]) == Reported(c[4..]) by {
      assert c[3..][0] == c[3] && c[3..][1..] == c[4..];
    }
    assert Reported(c[2..]) == Reported(c[3..]) by {
      assert c[2..][0] == c[2] && c[2..][1..] == c[3..];
    }
    assert Reported(c[1..]) == [BadChannel(0, 0)] + Reported(c[2..]) by {
      assert c[1..][0] == c[1] && c[1..][1..] == c[2..];
    }
  }

  lemma OnTrimsToItself()
    ensures Text.Trim("On") == "On"
  {
    assert !Text.IsWhiteSpace('O') && !Text.IsWhiteSpace('n');
    assert Text.TrimStart("On") == "On";
    assert Text.TrimEnd("On") == "On";
  }

  /** The canonical spellings pass the note-type check. */
  lemma OnAcceptedIgnoringCase()
    ensures NoteTypeTextAccepted("On")
    ensures NoteTypeTextAccepted("Off")
  {
    assert Text.ToUpperAscii('o') == 'O' && Text.ToUpperAscii('n') == 'N';
    assert Text.ToUpperAscii('f') == 'F';
  }
}
