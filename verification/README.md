# ProPresenter → OBS bridge, modelled in Dafny

The bridge listens on a virtual MIDI device for note messages, maps each
note to an OBS scene through an ordered list of rules, and asks OBS over its
websocket protocol to switch the program scene. This project models the
logic of that bridge as pure functions over immutable data, and proves what
each part promises:

- **Configuration** (`Options`, `ConfigValidator`). The option records with
  their defaults, and the start-up normalisation of blank note types. It
  also holds the validator, which returns the exact, ordered list of error
  messages that stops the bridge.
- **Mapping** (`MappingEngine`). The first matching rule wins. Note types
  compare ignoring case, and velocity -1 is a wildcard. A missing or empty
  scene means "no mapping".
- **Rate limiting** (`RateLimiter`). Grant when at least the interval has
  passed since the last grant. Clock readings are .NET ticks (`TimeUnits`).
- **Host resolution** (`HostResolver`). A literal address is used as is.
  Otherwise DNS is asked and IPv4 is preferred over IPv6, and IPv6 is
  bracketed in URIs.
- **OBS client** (`ObsClient`). It covers:
  - the reconnect loop's doubling backoff and delay schedule;
  - the connected flag and the one-slot connection semaphore, driven by the
    library's callbacks;
  - the gating of scene commands on the flag;
  - the `ws://host:port` URL.
- **Worker** (`BridgeWorker`). Each note event is mapped, then dropped while
  disconnected (with a rate-limited warning), skipped when OBS is already on
  the scene, or sent. It also models the three writers of the scene cache.
- **MIDI sources** (`UmpDecoder`, `DryWetMidi`). One decodes a Universal
  MIDI Packet word; the other normalises the DryWetMidi library's events.
  Both apply the MIDI 1.0 rule that a Note On with velocity 0 is a release.

Supporting modules: `Wrappers` (`Option`); `Text`, which covers the .NET
string operations the source relies on:
- `IsNullOrWhiteSpace` and `Trim` over the .NET whitespace set;
- ordinal-ignore-case equality on ASCII letters;
- integer formatting and parsing.

`Midi` holds the published note event.

Clocks, DNS, `IPAddress.TryParse` and the websocket library are not
modelled as code. Each becomes a parameter:
- a clock reading in ticks;
- a function from text to an optional address;
- a function from host name to a lookup outcome;
- a `Transport` value saying whether the library answered or threw.

Every callback and every step of the reconnect loop is one atomic
transition.

## Model

Paths are relative to the repository root.

| member | source | states |
|---|---|---|
| Options.Defaults | src/ProPresenterObsBridge/Options/BridgeOptions.cs:3-36 | The documented defaults: a rule is "On", wildcard velocity, channel 0, note 0, empty scene; OBS is an empty host on port 4455 with no password and a 30 s backoff cap; warnings every 10 s, deduplication off. |
| Options.NormalizeNoteType | src/ProPresenterObsBridge/Program.cs:50-51 | One rule's normalisation; see NormalizeNoteTypes. |
| Options.NormalizeNoteTypes | src/ProPresenterObsBridge/Program.cs:48-52 | Start-up normalisation keeps the list's order and every field but the note type, turns exactly the null or whitespace-only note types into "On", keeps every other note type, leaves no blank note type behind, and leaves every rule already normalised. |
| Options.NormalizeNoteTypesIdempotent | src/ProPresenterObsBridge/Program.cs:69-74 | The normalisation is idempotent: a list it has already normalised comes back unchanged. Start-up (lines 48-52) and the options callback (lines 69-74) apply it to the same configuration, so normalising more than once never changes the rules. |
| Text.TrimStart | src/ProPresenterObsBridge/Options/ConfigValidator.cs:26 | Leading .NET whitespace removed; see TrimStartSpec. |
| Text.TrimEnd | src/ProPresenterObsBridge/Options/ConfigValidator.cs:26 | Trailing .NET whitespace removed; see TrimEndSpec. |
| Text.Trim | src/ProPresenterObsBridge/Options/ConfigValidator.cs:26 | `string.Trim`; see TrimShape and TrimEmptyIffBlank. |
| Text.TrimStartSpec | src/ProPresenterObsBridge/Options/ConfigValidator.cs:26 | `TrimStart` returns a suffix of its input; everything it removed is whitespace and what remains does not start with whitespace. |
| Text.TrimEndSpec | src/ProPresenterObsBridge/Options/ConfigValidator.cs:26 | `TrimEnd` returns a prefix of its input; everything it removed is whitespace and what remains does not end with whitespace. |
| Text.TrimShape | src/ProPresenterObsBridge/Options/ConfigValidator.cs:26 | `Trim` returns a contiguous slice of its input whose first and last characters are not whitespace. |
| Text.TrimEmptyIffBlank | src/ProPresenterObsBridge/Options/ConfigValidator.cs:9 | Trimming gives the empty string exactly for whitespace-only text, so "trim then empty" and `IsNullOrWhiteSpace` agree. |
| Text.NatToString | src/ProPresenterObsBridge/Options/ConfigValidator.cs:13 | A non-empty string of decimal digits; see NatToStringRoundTrip. |
| Text.IntToString | src/ProPresenterObsBridge/Options/ConfigValidator.cs:35 | An integer as interpolation renders it; see IntToStringRoundTrip. |
| Text.NatToStringRoundTrip | src/ProPresenterObsBridge/Options/ConfigValidator.cs:13 | Decimal formatting of a natural number parses back to the same number. |
| Text.IntToStringRoundTrip | src/ProPresenterObsBridge/Options/ConfigValidator.cs:35 | Decimal formatting of any integer in interpolation is integer text, starts with the negative sign exactly for negatives, and parses back to the same integer (the sign taken to be ASCII '-'). |
| ConfigValidator.Validate | src/ProPresenterObsBridge/Options/ConfigValidator.cs:5-48 | The validator itself; what it returns is stated by ValidateReportsExactlyTheViolations, EmptyMappingsReturnEarly and ValidateEmptyIffValid. |
| ConfigValidator.Message | src/ProPresenterObsBridge/Options/ConfigValidator.cs:10-44 | The exact texts the validator adds, with the interpolated values; ValidateMessages states how the list of texts relates to the configuration. |
| ConfigValidator.ReportedMembership | src/ProPresenterObsBridge/Options/ConfigValidator.cs:9-44 | An error is in the list exactly when some check that carries it fails (each `if` adds its message only when its condition holds). |
| ConfigValidator.ReportedOrdered | src/ProPresenterObsBridge/Options/ConfigValidator.cs:9-44 | The failing checks' errors appear in the order the checks are made. |
| ConfigValidator.EntryErrorsSpec | src/ProPresenterObsBridge/Options/ConfigValidator.cs:23-44 | The errors of entry i are exactly its faults: a non-null note type that trims to something other than empty/"on"/"off" in any case, channel outside 1..16, note outside 0..127, velocity neither -1 nor in 0..127, blank scene. |
| ConfigValidator.MappingErrorsMembership | src/ProPresenterObsBridge/Options/ConfigValidator.cs:21-45 | The loop reports exactly the entry faults of every index from the starting one on. |
| ConfigValidator.MappingErrorsOrdered | src/ProPresenterObsBridge/Options/ConfigValidator.cs:21-45 | The loop reports entries by ascending index and, within an entry, note type, channel, note, velocity, scene. |
| ConfigValidator.ValidateReportsExactlyTheViolations | src/ProPresenterObsBridge/Options/ConfigValidator.cs:5-48 | Validate reports every fault of the configuration and nothing else, each once, in the order host, port, "no mappings", then entries. |
| ConfigValidator.EmptyMappingsReturnEarly | src/ProPresenterObsBridge/Options/ConfigValidator.cs:15-19 | With no mappings the list ends with the single "no mappings" error, and holds exactly that error plus the host and port faults, with no per-entry error. |
| ConfigValidator.ValidIffNoViolation | src/ProPresenterObsBridge/Options/ConfigValidator.cs:5-48 | A configuration passes every check exactly when it has no fault. |
| ConfigValidator.ValidateEmptyIffValid | src/ProPresenterObsBridge/Options/ConfigValidator.cs:5-48 | The error list is empty exactly when every check passes. |
| ConfigValidator.BlankHostReportedOnce | src/ProPresenterObsBridge/Options/ConfigValidator.cs:9-10 | A blank host adds exactly one host error, first in the list; a non-blank host adds none. |
| ConfigValidator.DefaultObsOptionsFailHostCheck | src/ProPresenterObsBridge/Options/BridgeOptions.cs:15-16 | Worked example on fixed input: the default OBS options fail on the empty host and never on the port. |
| ConfigValidator.DefaultMappingEntryErrors | src/ProPresenterObsBridge/Options/BridgeOptions.cs:29-36 | Worked example on fixed input: a default-constructed rule reports exactly the channel-0 error and the empty-scene error, in that order. |
| ConfigValidator.ValidateMessages | src/ProPresenterObsBridge/Options/ConfigValidator.cs:10-44 | The returned list is empty exactly when the configuration passes every check; otherwise each string is the message of a real fault of the configuration, one per reported error and in order. |
| ConfigValidator.OnAcceptedIgnoringCase | src/ProPresenterObsBridge/Options/ConfigValidator.cs:27-29 | "On" and "Off" pass the note-type check. |
| MappingEngine.RuleMatches | src/ProPresenterObsBridge/Mapping/MappingEngine.cs:16-18 | The `FirstOrDefault` predicate; see MatchRequiresExactFields, WildcardMatchesEveryVelocity and NoteTypeSelectsEventKind. |
| MappingEngine.FirstMatch | src/ProPresenterObsBridge/Mapping/MappingEngine.cs:15-18 | `FirstOrDefault` finds the first rule that matches, or reports that none matches. |
| MappingEngine.TryMap | src/ProPresenterObsBridge/Mapping/MappingEngine.cs:10-32 | Found means a non-empty scene taken from the first matching rule; not found means an empty scene, and the first match (if any) had an empty scene. |
| MappingEngine.FirstMatchUnique | src/ProPresenterObsBridge/Mapping/MappingEngine.cs:15-18 | At most one index is the first match. |
| MappingEngine.TryMapFirstMatchWins | src/ProPresenterObsBridge/Mapping/MappingEngine.cs:15-31 | The first matching rule decides the result, whatever follows it. |
| MappingEngine.NoMatchingRuleMeansNoScene | src/ProPresenterObsBridge/Mapping/MappingEngine.cs:20-27 | When no rule matches, TryMap returns false with an empty scene. |
| MappingEngine.NoRulesMeansNoScene | tests/ProPresenterObsBridge.Tests/MappingEngineTests.cs:161-167 | An empty rule list maps nothing. |
| MappingEngine.EmptySceneShadowsLaterRules | src/ProPresenterObsBridge/Mapping/MappingEngine.cs:20-27 | A first match with an empty scene hides a later matching rule with a scene: the result is "not found". |
| MappingEngine.OrderDecidesBetweenOverlappingRules | tests/ProPresenterObsBridge.Tests/MappingEngineTests.cs:66-88 | Of two rules that both match, the one listed first wins, and swapping them swaps the winner. |
| MappingEngine.WildcardCatchesWhatExactMisses | tests/ProPresenterObsBridge.Tests/MappingEngineTests.cs:90-100 | An exact-velocity rule that misses falls through to a later wildcard rule. |
| MappingEngine.MatchRequiresExactFields | src/ProPresenterObsBridge/Mapping/MappingEngine.cs:16-18 | A matching rule has the event's channel and note, and its velocity unless it is the wildcard. |
| MappingEngine.WildcardMatchesEveryVelocity | src/ProPresenterObsBridge/Mapping/MappingEngine.cs:18 | A wildcard rule that matches an event matches it at every velocity. |
| MappingEngine.NoteTypeSelectsEventKind | src/ProPresenterObsBridge/Mapping/MappingEngine.cs:12-16 | An "On" rule in any case never matches a release; an "Off" rule never matches an activation. |
| MappingEngine.OnSpellingsMatchActivations | tests/ProPresenterObsBridge.Tests/MappingEngineTests.cs:140-147 | Worked example on fixed input: "ON", "on", "oN" and "On" all compare equal to "On" ignoring case. |
| MappingEngine.TryMapIgnoresNoteTypeCase | src/ProPresenterObsBridge/Mapping/MappingEngine.cs:16 | Rule lists that differ only in the letter case of their note types map every event alike. |
| MappingEngine.NullNoteTypeNeverMatches | src/ProPresenterObsBridge/Mapping/MappingEngine.cs:16 | A rule whose note type is null never matches. |
| MappingEngine.NormalizedBlankRuleActsAsOn | src/ProPresenterObsBridge/Program.cs:69-74 | After normalisation a blank-note-type rule matches exactly the activations on its channel, note and velocity. |
| MappingEngine.PaddedNoteTypeNeverMatches | src/ProPresenterObsBridge/Mapping/MappingEngine.cs:16 | " On " passes validation (which trims) yet never matches any event (the matcher does not trim). |
| RateLimiter.NewLimiter | src/ProPresenterObsBridge/Util/RateLimiter.cs:7-9 | A limiter that has never granted; see FirstCallGrants. |
| RateLimiter.TryAcquire | src/ProPresenterObsBridge/Util/RateLimiter.cs:11-20 | A call is granted exactly when at least the interval has passed since the last grant (inclusive); a granted call records its clock reading as the last grant; a denied call changes nothing; the interval never changes. |
| RateLimiter.GrantedAfterDenials | src/ProPresenterObsBridge/Util/RateLimiter.cs:11-20 | After a run of denied calls, the next call is granted exactly when at least one interval has passed since the limiter's last grant before the run. |
| RateLimiter.GrantedIffIntervalSinceLastGrant | src/ProPresenterObsBridge/Util/RateLimiter.cs:11-20 | In any run of calls, a call is granted exactly when it comes at least one interval after the latest earlier granted call. |
| RateLimiter.FirstCallGrants | src/ProPresenterObsBridge/Util/RateLimiter.cs:9-14 | The first call of a fresh limiter is granted. |
| RateLimiter.SecondCallAtSameInstantDenied | tests/ProPresenterObsBridge.Tests/RateLimiterTests.cs:15-20 | With a positive interval, a second call at the instant of a grant is denied. |
| RateLimiter.ZeroIntervalGrantsEveryCall | tests/ProPresenterObsBridge.Tests/RateLimiterTests.cs:34-40 | With a zero interval every call on a monotone clock is granted. |
| RateLimiter.GrantComesAfterInterval | src/ProPresenterObsBridge/Util/RateLimiter.cs:14 | Every granted call in a run comes at least one interval after the limiter's last grant before the run: on any clock when the interval is non-negative, and on a monotone clock otherwise. |
| RateLimiter.GrantsAreSpaced | src/ProPresenterObsBridge/Util/RateLimiter.cs:4-5 | With a non-negative interval, any two granted calls are at least one interval apart, whatever the clock readings. |
| RateLimiter.DenialsLeaveLimiterUnchanged | src/ProPresenterObsBridge/Util/RateLimiter.cs:14-19 | A run of denied calls leaves the limiter exactly as it was. |
| RateLimiter.FiftyMillisecondScenario | tests/ProPresenterObsBridge.Tests/RateLimiterTests.cs:23-53 | Worked example on fixed input: with 50 ms: grant, immediate denial, grant 80 ms later, immediate denial. |
| HostResolver.FindFirst | src/ProPresenterObsBridge/Util/HostResolver.cs:28-29 | `Array.Find` by family returns the first address of that family, or nothing exactly when none has it. |
| HostResolver.ChooseAddress | src/ProPresenterObsBridge/Util/HostResolver.cs:28-30 | The choice is one of the addresses: the first IPv4 one if any, else the first IPv6 one if any, else the first. |
| HostResolver.Resolve | src/ProPresenterObsBridge/Util/HostResolver.cs:13-39 | A literal is returned without a lookup; otherwise the answer is the looked-up address chosen by the IPv4-then-IPv6-then-first preference, and there is none exactly when the lookup failed or returned nothing. |
| HostResolver.PreferIPv4ThenIPv6 | src/ProPresenterObsBridge/Util/HostResolver.cs:27-30 | The first IPv4 address is chosen; with no IPv4, the first IPv6 one. |
| HostResolver.LiteralSkipsLookup | src/ProPresenterObsBridge/Util/HostResolver.cs:15-16 | For a literal the result does not depend on DNS at all. |
| HostResolver.FormatForUri | src/ProPresenterObsBridge/Util/HostResolver.cs:44-49 | IPv6 text in brackets, other text unchanged; see FormatForUriRoundTrip. |
| HostResolver.FormatForUriRoundTrip | src/ProPresenterObsBridge/Util/HostResolver.cs:44-49 | Exactly IPv6 addresses come out bracketed, and unbracketing gives the address text back. |
| ObsClient.NextDelay | src/ProPresenterObsBridge/Obs/ObsClient.cs:194-198 | The next delay is twice the current one unless that exceeds the cap, in which case it is the cap; never more than either. |
| ObsClient.ScheduleClosedForm | src/ProPresenterObsBridge/Obs/ObsClient.cs:38-93 | Each wait of the reconnect loop is one second doubled once per failed pass since the start or the last connection, capped. |
| ObsClient.ScheduleBounded | src/ProPresenterObsBridge/Obs/ObsClient.cs:40-41 | With a cap of at least one second every wait lies between one second and the cap. |
| ObsClient.ConnectionResetsBackoff | src/ProPresenterObsBridge/Obs/ObsClient.cs:68-73 | After a connection the loop waits one second, and the next failure waits the doubled second. |
| ObsClient.DoublingUpToTheCap | src/ProPresenterObsBridge/Obs/ObsClient.cs:85-89 | Worked example on fixed input: with an 8 s cap and no success the waits are 1, 2, 4, 8, 8 seconds. |
| ObsClient.Schedule | src/ProPresenterObsBridge/Obs/ObsClient.cs:43-90 | One wait per pass of the loop, in order; with a cap of at least zero each is one second doubled once per failed pass since the start or the last connection, capped; with a cap of at least one second each lies between one second and the cap. |
| ObsClient.TrySignal | src/ProPresenterObsBridge/Obs/ObsClient.cs:169-174 | The count becomes 1 from 0 and is otherwise unchanged. |
| ObsClient.OnConnected | src/ProPresenterObsBridge/Obs/ObsClient.cs:146-153 | The flag is set and the semaphore signalled. |
| ObsClient.OnDisconnected | src/ProPresenterObsBridge/Obs/ObsClient.cs:155-167 | The flag is cleared, the semaphore signalled, and the warning logged exactly when the client was connected. |
| ObsClient.Drain | src/ProPresenterObsBridge/Obs/ObsClient.cs:62 | The non-blocking wait empties the semaphore and leaves the flag alone. |
| ObsClient.OnCallback | src/ProPresenterObsBridge/Obs/ObsClient.cs:146-174 | One library callback; see CallbacksKeepValid and CallbacksCoalesce. |
| ObsClient.ApplyCallbacks | src/ProPresenterObsBridge/Obs/ObsClient.cs:146-174 | A burst of callbacks in order; see CallbacksKeepValid and CallbacksCoalesce. |
| ObsClient.InitiallyDisconnected | tests/ProPresenterObsBridge.Tests/ObsClientTests.cs:25-29 | A new client is disconnected with nothing to wait for. |
| ObsClient.CallbacksKeepValid | src/ProPresenterObsBridge/Obs/ObsClient.cs:18 | The semaphore never exceeds its maximum count of one, whatever callbacks fire. |
| ObsClient.CallbacksCoalesce | src/ProPresenterObsBridge/Obs/ObsClient.cs:169-174 | After any burst of callbacks exactly one signal is pending and the flag tells which callback came last. |
| ObsClient.DisconnectWarnsOnce | src/ProPresenterObsBridge/Obs/ObsClient.cs:157-164 | Two disconnections in a row warn at most once; a client that never connected never warns. |
| ObsClient.ConnectAttemptWaitsForACallback | src/ProPresenterObsBridge/Obs/ObsClient.cs:62-68 | After the drain, the attempt proceeds exactly when a callback fired, and counts as connected exactly when the last one was OnConnected. |
| ObsClient.WaitForDisconnectAsWritten | src/ProPresenterObsBridge/Obs/ObsClient.cs:176-181 | When the wait as written returns; see DisconnectBeforeDrainIsLost and WaitForDisconnectAsWrittenAfterDrain. |
| ObsClient.WaitForDisconnect | src/ProPresenterObsBridge/Obs/ObsClient.cs:176-181 | When the corrected wait returns; see WaitForDisconnectReturnsAfterDisconnection. |
| ObsClient.DisconnectBeforeDrainIsLost | src/ProPresenterObsBridge/Obs/ObsClient.cs:176-181 | A disconnection between the flag check and the drain leaves the client disconnected while the wait never returns. |
| ObsClient.WaitForDisconnectReturnsAfterDisconnection | src/ProPresenterObsBridge/Obs/ObsClient.cs:176-181 | The corrected wait returns whenever the last callback, before or after its drain, was a disconnection. |
| ObsClient.WaitForDisconnectAsWrittenAfterDrain | src/ProPresenterObsBridge/Obs/ObsClient.cs:176-181 | Both waits return when a disconnection comes after the drain. |
| ObsClient.SetProgramScene | src/ProPresenterObsBridge/Obs/ObsClient.cs:95-113 | Success exactly when connected and the library did not throw; the library is called exactly when connected. |
| ObsClient.GetCurrentProgramScene | src/ProPresenterObsBridge/Obs/ObsClient.cs:115-130 | A scene exactly when connected and the library answered, and then it is the library's answer. |
| ObsClient.CommandsInertWhenDisconnected | tests/ProPresenterObsBridge.Tests/ObsClientTests.cs:31-44 | On a disconnected client neither command calls the library: false and null. |
| ObsClient.BuildUrl | src/ProPresenterObsBridge/Obs/ObsClient.cs:183-192 | A URL exactly when the host resolved. |
| ObsClient.BuildUrlRoundTrip | src/ProPresenterObsBridge/Obs/ObsClient.cs:191 | Splitting the built URL at its last colon gives back the formatted address and the port. |
| BridgeWorker.NewWorker | src/ProPresenterObsBridge/Worker/BridgeWorker.cs:36-37 | The cache starts empty and the limiter's interval is the configured number of seconds. |
| BridgeWorker.OnNoteReceived | src/ProPresenterObsBridge/Worker/BridgeWorker.cs:71-95 | The handler never touches the cache; it reports "unmapped" exactly when no rule maps the event, and otherwise carries the mapped scene; it drops exactly the mapped events that arrive while disconnected, and only then consults the limiter. The full decision is in SendsExactlyWhen and DisconnectedDropsWithRateLimitedWarning. |
| BridgeWorker.OnObsEvent | src/ProPresenterObsBridge/Worker/BridgeWorker.cs:48-52 | The OBS notifications, subscribed only under deduplication, never touch the limiter, and change nothing when deduplication is off; the handlers themselves (lines 106-126) are SeedCache and OnSceneChanged. |
| BridgeWorker.UnmappedChangesNothing | src/ProPresenterObsBridge/Worker/BridgeWorker.cs:73-74 | An unmapped event changes nothing and sends nothing. |
| BridgeWorker.DisconnectedDropsWithRateLimitedWarning | src/ProPresenterObsBridge/Worker/BridgeWorker.cs:76-84 | A mapped event while disconnected is dropped; the warning is logged exactly when the limiter grants; only the limiter changes. |
| BridgeWorker.DisconnectedIgnoresCache | src/ProPresenterObsBridge/Worker/BridgeWorker.cs:76-91 | While disconnected, the cache and the deduplication switch make no difference. |
| BridgeWorker.SendsExactlyWhen | src/ProPresenterObsBridge/Worker/BridgeWorker.cs:71-95 | A send starts exactly when mapped, connected, and deduplication is off or the cache differs from the scene; the scene sent is the mapped, non-empty one; the worker's state is unchanged. |
| BridgeWorker.DeduplicationSkipsCachedScene | src/ProPresenterObsBridge/Worker/BridgeWorker.cs:86-91 | With deduplication on and the cache equal to the scene, the event is skipped. |
| BridgeWorker.SendSceneChange | src/ProPresenterObsBridge/Worker/BridgeWorker.cs:97-104 | The cache takes the scene exactly when the send succeeded. |
| BridgeWorker.SuccessfulSendThenRepeatIsSkipped | src/ProPresenterObsBridge/Worker/BridgeWorker.cs:86-104 | After a successful send the same event is skipped; after a failed one it is sent again. |
| BridgeWorker.SeedCache | src/ProPresenterObsBridge/Worker/BridgeWorker.cs:112-120 | The cache takes the current scene only when the client returned one. |
| BridgeWorker.OnSceneChanged | src/ProPresenterObsBridge/Worker/BridgeWorker.cs:122-126 | The cache takes whatever OBS reports, null included. |
| BridgeWorker.NotificationsIgnoredWithoutDeduplication | src/ProPresenterObsBridge/Worker/BridgeWorker.cs:48-52 | With deduplication off, no OBS notification reaches the cache. |
| BridgeWorker.CacheWritersWithDeduplication | src/ProPresenterObsBridge/Worker/BridgeWorker.cs:48-52 | With deduplication on, a scene-change notification always sets the cache, a seed only when a scene came back. |
| BridgeWorker.DisconnectedWarnings | src/ProPresenterObsBridge/Worker/BridgeWorker.cs:71-84 | While disconnected, a run of events gets one answer per event, and a warning is logged only for an event some rule maps. |
| BridgeWorker.WarningsSpacedFrom | src/ProPresenterObsBridge/Worker/BridgeWorker.cs:71-84 | Over any run of events while disconnected, each warning comes at least one interval after the limiter's last grant before the run, and any two warnings are at least one interval apart. |
| BridgeWorker.DisconnectedWarningsAreGrants | src/ProPresenterObsBridge/Worker/BridgeWorker.cs:76-84 | While disconnected, the warnings for a run of mapped events are exactly the limiter's grants. |
| BridgeWorker.DisconnectedWarningsAreSpaced | src/ProPresenterObsBridge/Worker/BridgeWorker.cs:36-37 | With a non-negative configured interval, any two disconnected warnings are at least that interval apart, whatever the clock readings and whichever events, mapped or unmapped, come in between. |
| UmpDecoder.Unpack | src/ProPresenterObsBridge/Midi/WindowsMidiEndpointManager.cs:140-158 | Every field of the word lies within its width. |
| UmpDecoder.UnpackPack | src/ProPresenterObsBridge/Midi/WindowsMidiEndpointManager.cs:140-144 | Laying fields out in a word and reading them back gives the same fields. |
| UmpDecoder.PackUnpack | src/ProPresenterObsBridge/Midi/WindowsMidiEndpointManager.cs:140-144 | The fields cover every bit: reading a word's fields and laying them out gives the word back. |
| UmpDecoder.DecodeFields | src/ProPresenterObsBridge/Midi/WindowsMidiEndpointManager.cs:147-175 | An event exactly for message type 0x2 with status 0x9 or 0x8; it is well ranged (channel 1..16, note and velocity 0..127) and normalised; channel is the nibble plus one; note and velocity are the low seven bits; it is an activation exactly for Note On with positive velocity. |
| UmpDecoder.Decode | src/ProPresenterObsBridge/Midi/WindowsMidiEndpointManager.cs:138-189 | The handler on the packet's first word; see DecodeFields, DecodeEncode and EncodeDecode. |
| UmpDecoder.DecodePack | src/ProPresenterObsBridge/Midi/WindowsMidiEndpointManager.cs:146-158 | Decoding a laid-out word decodes its fields. |
| UmpDecoder.DecodeEncode | src/ProPresenterObsBridge/Midi/WindowsMidiEndpointManager.cs:155-175 | Every well-ranged, normalised event survives encoding on any group and decoding. |
| UmpDecoder.EncodeDecode | src/ProPresenterObsBridge/Midi/WindowsMidiEndpointManager.cs:155-175 | Every decoded event is the decoding of its own re-encoding on the same group. |
| UmpDecoder.GroupAndHighBitsIgnored | src/ProPresenterObsBridge/Midi/WindowsMidiEndpointManager.cs:141-158 | The group nibble and the top bit of the note and velocity bytes do not affect the result. |
| UmpDecoder.OtherMessageTypesIgnored | src/ProPresenterObsBridge/Midi/WindowsMidiEndpointManager.cs:147-153 | A word of any other message type gives nothing. |
| UmpDecoder.NoteOnZeroIsRelease | src/ProPresenterObsBridge/Midi/WindowsMidiEndpointManager.cs:162-170 | Note On with velocity 0 is a release with velocity 0, exactly what Note Off with velocity 0 gives. |
| UmpDecoder.ConcreteWords | src/ProPresenterObsBridge/Midi/WindowsMidiEndpointManager.cs:146-175 | Worked example on fixed input: 0x20903C64 is an activation of note 60 at velocity 100 on channel 1; 0x20803C40 a release keeping velocity 64; a type-1 word gives nothing. |
| DryWetMidi.FireNote | src/ProPresenterObsBridge/Midi/DryWetMidiSource.cs:71-86 | The published event with the channel made 1-based; see OnEventReceived. |
| DryWetMidi.OnEventReceived | src/ProPresenterObsBridge/Midi/DryWetMidiSource.cs:48-69 | An event exactly for Note On and Note Off; channel is the library's plus one; note kept; velocity kept except a zero-or-less Note On velocity becomes 0; activation exactly for Note On with positive velocity; in-range input gives a well-ranged, normalised event. |
| DryWetMidi.OnEventReceivedToLibrary | src/ProPresenterObsBridge/Midi/DryWetMidiSource.cs:48-86 | Every well-ranged, normalised event comes back unchanged through the library event it is sent as. |
| DryWetMidi.SilentNoteOnIsNoteOff | src/ProPresenterObsBridge/Midi/DryWetMidiSource.cs:57-63 | Note On with velocity 0 publishes exactly what Note Off with velocity 0 publishes, a release. |
| DryWetMidi.SourcesAgree | src/ProPresenterObsBridge/Midi/DryWetMidiSource.cs:48-86 | The DryWetMidi source and the UMP decoder publish the same event for the same note message. |

## Left out

- Program.cs beyond the note-type normalisation: host bootstrapping, the single-instance mutex, JSON loading, dependency injection and logging setup.
- The MIDI device and SDK lifecycle (`StartAsync`, device creation, `Cleanup`, disposal) and MidiHostedService: foreign calls into Windows MIDI Services and DryWetMidi.
- Logging everywhere: it has no effect on the modelled state, apart from the disconnect warning of OnDisconnected and the dropped-request warning of OnNoteReceived, which are modelled as flags.
- The capture timestamp of a note event: nothing reads it.
- Concurrency: each callback and handler is one atomic step. Races between the three cache writers, fire-and-forget tasks completing out of order, and two TrySignal calls racing past the count check (which could throw `SemaphoreFullException`) are not modelled.
- Cancellation: it ends the reconnect loop and is modelled only as the end of the sequence of attempt outcomes; `Disconnect()` on exit is left out.
- DNS, `IPAddress.TryParse`, `IPAddress.ToString` and the websocket library are parameters, not code; so are the clock readings.
- The options monitor's hot reload: the current rule list and options are passed in at each call.
- 32-bit `int` widths of ports, channels and seconds: integers are unbounded. The configuration binder cannot produce values beyond them.
- Non-ASCII case folding in `StringComparison.OrdinalIgnoreCase`: only ASCII letters fold. Every comparison in the bridge is against "On"/"Off".
- `MappingEntry.Scene` set to null by configuration: the model's scene is always a string (null is treated like empty by the mapper).
- ObsClient.ScheduleClosedForm: assumes a cap of at least zero seconds; a negative `ReconnectMaxSeconds` yields negative delays, on which `Task.Delay` throws, and that path is not modelled.
- ObsClient.ScheduleBounded: assumes a cap of at least one second; with a cap of 0 every wait after the first is 0 and the loop retries without pause.
- ObsClient.Schedule: a wait above 0xFFFFFFFE ms (about 4,294,967 s) makes `Task.Delay` throw before it returns a task. The throw at line 87 is outside the `try`, so with `ReconnectMaxSeconds` above that (the validator accepts it) the loop ends with an exception at the 24th consecutive failed wait, of 2^23 s. The model keeps producing capped waits and does not model that exception.
- RateLimiter.FirstCallGrants: requires the clock reading to be at least the interval past `DateTimeOffset.MinValue`, which every real clock reading is.
- BridgeWorker.DisconnectedWarningsAreSpaced: requires a non-negative `ObsDisconnectedLogIntervalSeconds`, which the validator does not check. With a negative interval every call is granted when the clock runs forward, and no spacing is promised.
- Text.IntToStringRoundTrip: takes the negative sign to be ASCII '-'. String interpolation formats with the current culture, and under some ICU cultures (sv-SE, for one) the sign is U+2212; the validator's messages for negative values, and a negative port in the URL, would then differ.
- HostResolver.FormatForUriRoundTrip: assumes the address text contains no brackets, as the text of every `IPAddress` does.

## Findings

| source | as written | input that shows it | evidently intended | confidence | as-written member | corrected member |
|---|---|---|---|---|---|---|
| src/ProPresenterObsBridge/Obs/ObsClient.cs:176-181 | After seeing the flag set (line 68), WaitForDisconnectAsync first drains the semaphore with `WaitAsync(0)` and then blocks. A Disconnected callback that fires between the flag check and the drain has its signal eaten, so the loop blocks forever while OBS is disconnected. | Connected client, signal already taken; OnDisconnected fires before line 179; no further callback. | Wake up whenever the connection is gone: after the drain, return at once if the flag is already clear. | not executed | ObsClient.DisconnectBeforeDrainIsLost | ObsClient.WaitForDisconnectReturnsAfterDisconnection |
