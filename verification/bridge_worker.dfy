/** BridgeWorker: what happens to each note event (map it, drop it while OBS
    is disconnected with a rate-limited warning, skip it when OBS is already
    on the scene, or send it), and the three writers of the scene cache.
    Every handler is one atomic transition of the worker's state; the
    connected flag is the OBS client's, read at the moment of the event. */
module BridgeWorker {
  import opened Wrappers
  import opened TimeUnits
  import opened Options
  import opened Midi
  import MappingEngine
  import RateLimiter
  import ObsClient

  /** The scene cache (`string?`) and the disconnected-warning limiter. */
  datatype Worker = Worker(cache: Option<string>, limiter: RateLimiter.Limiter)

  /** A new worker: empty cache, limiter over the configured interval. */
  function NewWorker(behavior: BehaviorOptions): (w: Worker)
    ensures w.cache.None?
    ensures w.limiter == RateLimiter.NewLimiter(behavior.obsDisconnectedLogIntervalSeconds * TicksPerSecond)
  {
    Worker(None, RateLimiter.NewLimiter(behavior.obsDisconnectedLogIntervalSeconds * TicksPerSecond))
  }

  /** What OnNoteReceived did with one event. */
  datatype Decision =
    | Unmapped
    | DroppedDisconnected(scene: string, warned: bool)
    | AlreadyOnScene(scene: string)
    | SendScene(scene: string)

  datatype Step = Step(decision: Decision, next: Worker)

  /** OnNoteReceived: no mapping → nothing; disconnected → drop, warning
      only when the limiter grants; deduplication on and the cache equal
      (ordinal) to the scene → skip; otherwise start a send. */
  function OnNoteReceived(w: Worker, behavior: BehaviorOptions, rules: seq<MappingEntry>,
                          evt: MidiNoteEvent, connected: bool, now: int): (r: Step)
    ensures r.next.cache == w.cache
    ensures r.decision.Unmapped? <==> !MappingEngine.TryMap(rules, evt).found
    ensures !r.decision.Unmapped? ==> r.decision.scene == MappingEngine.TryMap(rules, evt).scene
    ensures r.decision.DroppedDisconnected? <==> MappingEngine.TryMap(rules, evt).found && !connected
    ensures r.next.limiter == if r.decision.DroppedDisconnected? then RateLimiter.TryAcquire(w.limiter, now).next else w.limiter
  {
    var m := MappingEngine.TryMap(rules, evt);
    if !m.found then Step(Unmapped, w)
    else if !connected then
      var a := RateLimiter.TryAcquire(w.limiter, now);
      Step(DroppedDisconnected(m.scene, a.granted), w.(limiter := a.next))
    else if behavior.ignoreIfAlreadyOnScene && w.cache == Some(m.scene) then Step(AlreadyOnScene(m.scene), w)
    else Step(SendScene(m.scene), w)
  }

  /** SendSceneChangeAsync: the cache takes the scene only when the client
      reports success. */
  function SendSceneChange(w: Worker, client: ObsClient.Client, scene: string, transport: ObsClient.Transport<()>): (r: Worker)
    ensures r.limiter == w.limiter
    ensures r.cache == (if client.connected && transport.Answered? then Some(scene) else w.cache)
  {
    if ObsClient.SetProgramScene(client, transport).success then w.(cache := Some(scene)) else w
  }

  /** SeedCacheAsync: overwrite the cache only with a scene the client
      returned. */
  function SeedCache(w: Worker, client: ObsClient.Client, transport: ObsClient.Transport<string>): (r: Worker)
    ensures r.limiter == w.limiter
    ensures r.cache == (if client.connected && transport.Answered? then Some(transport.value) else w.cache)
  {
    match ObsClient.GetCurrentProgramScene(client, transport)
    case Some(s) => w.(cache := Some(s))
    case None => w
  }

  /** OnSceneChanged: the cache takes whatever OBS reports, null included. */
  function OnSceneChanged(w: Worker, sceneName: Option<string>): (r: Worker)
    ensures r.cache == sceneName && r.limiter == w.limiter
  {
    w.(cache := sceneName)
  }

  /** The OBS notifications the worker may subscribe to. */
  datatype ObsEvent = ObsConnected(query: ObsClient.Transport<string>) | ProgramSceneChanged(sceneName: Option<string>)

  /** A notification reaches the worker only when deduplication is on:
      the handlers are attached in ExecuteAsync under that condition. */
  function OnObsEvent(w: Worker, behavior: BehaviorOptions, client: ObsClient.Client, ev: ObsEvent): (r: Worker)
    ensures r.limiter == w.limiter
    ensures !behavior.ignoreIfAlreadyOnScene ==> r == w
  {
    if !behavior.ignoreIfAlreadyOnScene then w
    else
      match ev
      case ObsConnected(q) => SeedCache(w, client, q)
      case ProgramSceneChanged(name) => OnSceneChanged(w, name)
  }

  // ---------------------------------------------------------------------
  // Properties
  // ---------------------------------------------------------------------

  /** An unmapped event changes nothing and sends nothing. */
  lemma UnmappedChangesNothing(w: Worker, behavior: BehaviorOptions, rules: seq<MappingEntry>,
                               evt: MidiNoteEvent, connected: bool, now: int)
    requires !MappingEngine.TryMap(rules, evt).found
    ensures OnNoteReceived(w, behavior, rules, evt, connected, now) == Step(Unmapped, w)
  {
  }

  /** A mapped event while disconnected is dropped, never sent or queued;
      the warning is logged exactly when the limiter grants, and only the
      limiter changes. */
  lemma DisconnectedDropsWithRateLimitedWarning(w: Worker, behavior: BehaviorOptions, rules: seq<MappingEntry>,
                                                evt: MidiNoteEvent, now: int)
    requires MappingEngine.TryMap(rules, evt).found
    ensures var s := OnNoteReceived(w, behavior, rules, evt, false, now);
      && s.decision == DroppedDisconnected(MappingEngine.TryMap(rules, evt).scene, RateLimiter.TryAcquire(w.limiter, now).granted)
      && s.next == Worker(w.cache, RateLimiter.TryAcquire(w.limiter, now).next)
  {
  }

  /** The connection check comes before the deduplication check: while
      disconnected, the cache and the deduplication switch make no
      difference. */
  lemma DisconnectedIgnoresCache(w: Worker, cache: Option<string>, b1: BehaviorOptions, b2: BehaviorOptions,
                                 rules: seq<MappingEntry>, evt: MidiNoteEvent, now: int)
    ensures OnNoteReceived(w, b1, rules, evt, false, now).decision
         == OnNoteReceived(w.(cache := cache), b2, rules, evt, false, now).decision
  {
  }

  /** A send starts exactly when the event is mapped, OBS is connected, and
      deduplication is off or the cache differs from the scene (a null
      cache never equals it); the scene sent is the mapped one. */
  lemma SendsExactlyWhen(w: Worker, behavior: BehaviorOptions, rules: seq<MappingEntry>,
                         evt: MidiNoteEvent, connected: bool, now: int)
    ensures var m := MappingEngine.TryMap(rules, evt);
      (OnNoteReceived(w, behavior, rules, evt, connected, now).decision.SendScene? <==>
        m.found && connected && !(behavior.ignoreIfAlreadyOnScene && w.cache == Some(m.scene)))
    ensures var d := OnNoteReceived(w, behavior, rules, evt, connected, now).decision;
      d.SendScene? ==> d.scene == MappingEngine.TryMap(rules, evt).scene && d.scene != []
    ensures connected ==> OnNoteReceived(w, behavior, rules, evt, connected, now).next == w
  {
  }

  /** Deduplication on and the cache equal to the mapped scene: skipped. */
  lemma DeduplicationSkipsCachedScene(w: Worker, behavior: BehaviorOptions, rules: seq<MappingEntry>,
                                      evt: MidiNoteEvent, now: int)
    requires behavior.ignoreIfAlreadyOnScene
    requires MappingEngine.TryMap(rules, evt).found && w.cache == Some(MappingEngine.TryMap(rules, evt).scene)
    ensures OnNoteReceived(w, behavior, rules, evt, true, now) == Step(AlreadyOnScene(w.cache.value), w)
  {
  }

  /** After a successful send, the same event again is skipped when
      deduplication is on; a failed send leaves the cache as it was, so the
      event would be sent again. */
  lemma SuccessfulSendThenRepeatIsSkipped(w: Worker, behavior: BehaviorOptions, rules: seq<MappingEntry>,
                                          evt: MidiNoteEvent, client: ObsClient.Client, now: int, later: int)
    requires behavior.ignoreIfAlreadyOnScene && client.connected
    requires OnNoteReceived(w, behavior, rules, evt, true, now).decision.SendScene?
    ensures var s := OnNoteReceived(w, behavior, rules, evt, true, now);
      var w2 := SendSceneChange(s.next, client, s.decision.scene, ObsClient.Answered(()));
      OnNoteReceived(w2, behavior, rules, evt, true, later).decision == AlreadyOnScene(s.decision.scene)
    ensures var s := OnNoteReceived(w, behavior, rules, evt, true, now);
      var w3 := SendSceneChange(s.next, client, s.decision.scene, ObsClient.Threw);
      OnNoteReceived(w3, behavior, rules, evt, true, later).decision.SendScene?
  {
  }

  /** With deduplication off no OBS notification reaches the cache. */
  lemma NotificationsIgnoredWithoutDeduplication(w: Worker, behavior: BehaviorOptions, client: ObsClient.Client, ev: ObsEvent)
    requires !behavior.ignoreIfAlreadyOnScene
    ensures OnObsEvent(w, behavior, client, ev) == w
  {
  }

  /** With deduplication on, a scene-change notification always wins, but a
      seed only when the client returned a scene. */
  lemma CacheWritersWithDeduplication(w: Worker, behavior: BehaviorOptions, client: ObsClient.Client,
                                      name: Option<string>, q: ObsClient.Transport<string>)
    requires behavior.ignoreIfAlreadyOnScene
    ensures OnObsEvent(w, behavior, client, ProgramSceneChanged(name)).cache == name
    ensures OnObsEvent(w, behavior, client, ObsConnected(q)).cache
         == (if client.connected && q.Answered? then Some(q.value) else w.cache)
  {
  }

  /** The warnings of successive events while disconnected: one answer per
      event, and a warning only for an event that a rule maps. */
  function DisconnectedWarnings(w: Worker, behavior: BehaviorOptions, rules: seq<MappingEntry>,
                                evts: seq<MidiNoteEvent>, times: seq<int>): (r: seq<bool>)
    requires |evts| == |times|
    ensures |r| == |evts|
    ensures forall k :: 0 <= k < |r| && r[k] ==> MappingEngine.TryMap(rules, evts[k]).found
    decreases |evts|
  {
    if |evts| == 0 then []
    else
      var s := OnNoteReceived(w, behavior, rules, evts[0], false, times[0]);
      [s.decision.DroppedDisconnected? && s.decision.warned]
        + DisconnectedWarnings(s.next, behavior, rules, evts[1..], times[1..])
  }

  /** While disconnected, the warnings for mapped events are exactly the
      limiter's grants. */
  lemma {:induction false} DisconnectedWarningsAreGrants(w: Worker, behavior: BehaviorOptions, rules: seq<MappingEntry>,
                                                         evts: seq<MidiNoteEvent>, times: seq<int>)
    requires |evts| == |times|
    requires forall k :: 0 <= k < |evts| ==> MappingEngine.TryMap(rules, evts[k]).found
    ensures DisconnectedWarnings(w, behavior, rules, evts, times) == RateLimiter.Grants(w.limiter, times)
    decreases |evts|
  {
    if |evts| > 0 {
      var s := OnNoteReceived(w, behavior, rules, evts[0], false, times[0]);
      assert forall k :: 0 <= k < |evts[1..]| ==> MappingEngine.TryMap(rules, evts[1..][k]).found by {
        forall k | 0 <= k < |evts[1..]| ensures MappingEngine.TryMap(rules, evts[1..][k]).found {
          assert evts[1..][k] == evts[k + 1];
        }
      }
      DisconnectedWarningsAreGrants(s.next, behavior, rules, evts[1..], times[1..]);
    }
  }

  /** With a non-negative interval, every disconnected warning of a run
      comes at least one interval after the limiter's last grant before the
      run, and any two are at least one interval apart, whatever the clock
      does; unmapped events in between do not touch the limiter. */
  lemma {:induction false} WarningsSpacedFrom(w: Worker, behavior: BehaviorOptions, rules: seq<MappingEntry>,
                                              evts: seq<MidiNoteEvent>, times: seq<int>)
    requires |evts| == |times| && w.limiter.interval >= 0
    ensures var warns := DisconnectedWarnings(w, behavior, rules, evts, times);
      && (forall k :: 0 <= k < |warns| && warns[k] ==> times[k] - w.limiter.lastAllowed >= w.limiter.interval)
      && (forall j, k :: 0 <= j < k < |warns| && warns[j] && warns[k] ==> times[k] - times[j] >= w.limiter.interval)
    decreases |evts|
  {
    if |evts| > 0 {
      var s := OnNoteReceived(w, behavior, rules, evts[0], false, times[0]);
      var warns := DisconnectedWarnings(w, behavior, rules, evts, times);
      var tail := DisconnectedWarnings(s.next, behavior, rules, evts[1..], times[1..]);
      var first := s.decision.DroppedDisconnected? && s.decision.warned;
      assert s.next.limiter.interval == w.limiter.interval;
      assert first ==> s.next.limiter.lastAllowed == times[0] && times[0] - w.limiter.lastAllowed >= w.limiter.interval;
      assert !first ==> s.next.limiter == w.limiter;
      WarningsSpacedFrom(s.next, behavior, rules, evts[1..], times[1..]);
      assert warns[0] == first;
      forall k | 1 <= k < |warns| ensures warns[k] == tail[k - 1] && times[k] == times[1..][k - 1] {
      }
    }
  }

  /** With a non-negative interval, two disconnected warnings are at least
      the configured interval apart, whatever the clock does and whichever
      events, mapped or not, come in between. */
  lemma DisconnectedWarningsAreSpaced(behavior: BehaviorOptions, rules: seq<MappingEntry>,
                                      evts: seq<MidiNoteEvent>, times: seq<int>)
    requires |evts| == |times| && behavior.obsDisconnectedLogIntervalSeconds >= 0
    ensures var warns := DisconnectedWarnings(NewWorker(behavior), behavior, rules, evts, times);
      forall j, k :: 0 <= j < k < |warns| && warns[j] && warns[k] ==>
        times[k] - times[j] >= behavior.obsDisconnectedLogIntervalSeconds * TicksPerSecond
  {
    WarningsSpacedFrom(NewWorker(behavior), behavior, rules, evts, times);
  }
}
