/** ObsClient without the asynchrony and the websocket library: the
    reconnect backoff and the delay schedule of ConnectLoopAsync over an
    abstract sequence of attempt outcomes, the connected flag and the
    single-slot connection signal driven by the library's callbacks, the
    gating of scene commands on the flag, and the URL the loop connects to.
    Each callback and each step of the loop is one atomic transition. */
module ObsClient {
  import opened Wrappers
  import Text
  import opened TimeUnits
  import HostResolver

  // ---------------------------------------------------------------------
  // Backoff
  // ---------------------------------------------------------------------

  /** The delay the loop starts with and resets to after a connection. */
  const InitialDelay: int := TicksPerSecond

  /** NextDelay: twice the current delay, capped at `max`. */
  function NextDelay(current: int, max: int): (r: int)
    ensures r <= max && r <= 2 * current
    ensures r == max || r == 2 * current
  {
    if 2 * current > max then max else 2 * current
  }

  /** The configured cap, `TimeSpan.FromSeconds(ReconnectMaxSeconds)`. */
  function MaxDelay(reconnectMaxSeconds: int): int {
    reconnectMaxSeconds * TicksPerSecond
  }

  /** How one pass of the loop ended. A failed resolution, a connection that
      reported "disconnected" straight away and a caught exception all wait
      the current delay; a connection that was established and later dropped
      resets the delay first. Cancellation ends the loop and is the end of
      the sequence. */
  datatype Attempt = ResolveFailed | ConnectFailed | ConnectedThenDropped | Faulted

  /** The delay in effect when pass `k` starts. */
  function DelayBefore(outcomes: seq<Attempt>, k: nat, max: int): int
    requires k <= |outcomes|
    decreases k, 0
  {
    if k == 0 then InitialDelay else NextDelay(WaitAfter(outcomes, k - 1, max), max)
  }

  /** The delay pass `k` waits before the next pass: the current delay, or
      one second after a connection that was established. */
  function WaitAfter(outcomes: seq<Attempt>, k: nat, max: int): int
    requires k < |outcomes|
    decreases k, 1
  {
    if outcomes[k].ConnectedThenDropped? then InitialDelay else DelayBefore(outcomes, k, max)
  }

  /** Every wait of the loop, in order: each is one second doubled once per
      failed pass since the start or the last connection, capped at `max`,
      and so lies between one second and a cap of at least one second. */
  function Schedule(outcomes: seq<Attempt>, max: int): (r: seq<int>)
    ensures |r| == |outcomes|
    ensures forall k :: 0 <= k < |r| ==> r[k] == WaitAfter(outcomes, k, max)
    ensures max >= 0 ==> forall k :: 0 <= k < |r| ==> r[k] == Backoff(FailuresSince(outcomes, k), max)
    ensures max >= InitialDelay ==> forall k :: 0 <= k < |r| ==> InitialDelay <= r[k] <= max
  {
    ScheduleClosedFormAll(outcomes, max);
    seq(|outcomes|, k requires 0 <= k < |outcomes| => WaitAfter(outcomes, k, max))
  }

  lemma ScheduleClosedFormAll(outcomes: seq<Attempt>, max: int)
    ensures max >= 0 ==> forall k :: 0 <= k < |outcomes| ==> WaitAfter(outcomes, k, max) == Backoff(FailuresSince(outcomes, k), max)
    ensures max >= InitialDelay ==> forall k :: 0 <= k < |outcomes| ==> InitialDelay <= WaitAfter(outcomes, k, max) <= max
  {
    forall k | 0 <= k < |outcomes|
      ensures max >= 0 ==> WaitAfter(outcomes, k, max) == Backoff(FailuresSince(outcomes, k), max)
      ensures max >= InitialDelay ==> InitialDelay <= WaitAfter(outcomes, k, max) <= max
    {
      if max >= 0 {
        ScheduleClosedForm(outcomes, k, max);
      }
      if max >= InitialDelay {
        ScheduleBounded(outcomes, k, max);
      }
    }
  }

  function Pow2(e: nat): (r: nat)
    ensures r >= 1
  {
    if e == 0 then 1 else 2 * Pow2(e - 1)
  }

  /** The number of passes since the loop started or last connected:
      0 for a pass that connected, and one more than the previous pass
      otherwise. */
  function FailuresSince(outcomes: seq<Attempt>, k: nat): nat
    requires k < |outcomes|
  {
    if k == 0 || outcomes[k].ConnectedThenDropped? then 0 else FailuresSince(outcomes, k - 1) + 1
  }

  /** One second doubled `e` times, capped at `max` (the cap does not apply
      to the initial second). */
  function Backoff(e: nat, max: int): int {
    if e == 0 then InitialDelay else if Pow2(e) * InitialDelay > max then max else Pow2(e) * InitialDelay
  }

  lemma NextDelayOfBackoff(e: nat, max: int)
    requires max >= 0
    ensures NextDelay(Backoff(e, max), max) == Backoff(e + 1, max)
  {
    assert Pow2(e + 1) == 2 * Pow2(e);
  }

  /** Closed form of the schedule: a pass waits one second doubled once for
      every failed pass since the start or the last connection, capped at
      `max`; so from one second with a cap of 8 the waits are 1, 2, 4, 8, 8. */
  lemma {:induction false} ScheduleClosedForm(outcomes: seq<Attempt>, k: nat, max: int)
    requires max >= 0 && k < |outcomes|
    ensures WaitAfter(outcomes, k, max) == Backoff(FailuresSince(outcomes, k), max)
    decreases k
  {
    if k > 0 && !outcomes[k].ConnectedThenDropped? {
      ScheduleClosedForm(outcomes, k - 1, max);
      NextDelayOfBackoff(FailuresSince(outcomes, k - 1), max);
    }
  }

  /** With a cap of at least one second every wait lies between one second
      and the cap. */
  lemma ScheduleBounded(outcomes: seq<Attempt>, k: nat, max: int)
    requires max >= InitialDelay && k < |outcomes|
    ensures InitialDelay <= WaitAfter(outcomes, k, max) <= max
  {
    ScheduleClosedForm(outcomes, k, max);
    var e := FailuresSince(outcomes, k);
    if e > 0 {
      assert Pow2(e) * InitialDelay >= InitialDelay;
    }
  }

  /** A connection resets the backoff: that pass waits one second and the
      next pass, whatever it is, at most two. */
  lemma ConnectionResetsBackoff(outcomes: seq<Attempt>, k: nat, max: int)
    requires k + 1 < |outcomes| && outcomes[k].ConnectedThenDropped?
    ensures WaitAfter(outcomes, k, max) == InitialDelay
    ensures !outcomes[k + 1].ConnectedThenDropped? ==> WaitAfter(outcomes, k + 1, max) == NextDelay(InitialDelay, max)
  {
  }

  /** The first waits with a one-second start and an eight-second cap when
      nothing connects. */
  lemma DoublingUpToTheCap()
    ensures Schedule([ResolveFailed, ConnectFailed, Faulted, ResolveFailed, ResolveFailed], MaxDelay(8))
      == [1 * TicksPerSecond, 2 * TicksPerSecond, 4 * TicksPerSecond, 8 * TicksPerSecond, 8 * TicksPerSecond]
  {
    var o := [ResolveFailed, ConnectFailed, Faulted, ResolveFailed, ResolveFailed];
    var m := MaxDelay(8);
    assert WaitAfter(o, 0, m) == TicksPerSecond;
    assert WaitAfter(o, 1, m) == 2 * TicksPerSecond;
    assert WaitAfter(o, 2, m) == 4 * TicksPerSecond;
    assert WaitAfter(o, 3, m) == 8 * TicksPerSecond;
    assert WaitAfter(o, 4, m) == 8 * TicksPerSecond;
  }

  // ---------------------------------------------------------------------
  // Connected flag and connection signal
  // ---------------------------------------------------------------------

  /** The volatile connected flag and the count of the connection
      semaphore, created as `SemaphoreSlim(0, 1)`. */
  datatype Client = Client(connected: bool, signal: nat)

  const Initial: Client := Client(false, 0)

  /** The semaphore never holds more than its maximum of one. */
  predicate Valid(c: Client) {
    c.signal <= 1
  }

  /** TrySignal: release only when the count is 0, so a second signal while
      one is pending is lost. */
  function TrySignal(count: nat): (r: nat)
    ensures r == 1 || r == count
    ensures count <= 1 ==> r == 1
  {
    if count == 0 then 1 else count
  }

  datatype Callback = ConnectedCallback | DisconnectedCallback

  /** The result of OnDisconnected: the new state and whether the
      "Disconnected from OBS" warning was logged. */
  datatype Disconnection = Disconnection(next: Client, warned: bool)

  /** OnConnected: set the flag and signal. */
  function OnConnected(c: Client): (r: Client)
    ensures r.connected && r.signal == TrySignal(c.signal)
  {
    Client(true, TrySignal(c.signal))
  }

  /** OnDisconnected: clear the flag, warn only if the client was connected,
      and signal. */
  function OnDisconnected(c: Client): (r: Disconnection)
    ensures !r.next.connected && r.next.signal == TrySignal(c.signal)
    ensures r.warned <==> c.connected
  {
    Disconnection(Client(false, TrySignal(c.signal)), c.connected)
  }

  function OnCallback(c: Client, cb: Callback): Client {
    match cb
    case ConnectedCallback => OnConnected(c)
    case DisconnectedCallback => OnDisconnected(c).next
  }

  /** The state after the callbacks `cbs` in order. */
  function ApplyCallbacks(c: Client, cbs: seq<Callback>): Client
    decreases |cbs|
  {
    if |cbs| == 0 then c else OnCallback(ApplyCallbacks(c, cbs[..|cbs| - 1]), cbs[|cbs| - 1])
  }

  /** `WaitAsync(0)`: take the signal if it is there, without blocking. */
  function Drain(c: Client): (r: Client)
    ensures r.connected == c.connected
    ensures Valid(c) ==> r.signal == 0
  {
    c.(signal := if c.signal > 0 then c.signal - 1 else 0)
  }

  /** A blocking `WaitAsync` returns only when a signal is there to take. */
  predicate WaitReturns(c: Client) {
    c.signal > 0
  }

  lemma InitiallyDisconnected()
    ensures !Initial.connected && Valid(Initial) && !WaitReturns(Initial)
  {
  }

  /** The semaphore stays at 0 or 1 whatever callbacks fire. */
  lemma {:induction false} CallbacksKeepValid(c: Client, cbs: seq<Callback>)
    requires Valid(c)
    ensures Valid(ApplyCallbacks(c, cbs))
    decreases |cbs|
  {
    if |cbs| > 0 {
      CallbacksKeepValid(c, cbs[..|cbs| - 1]);
    }
  }

  /** Callbacks coalesce: after any non-empty burst exactly one signal is
      pending and the flag tells which callback came last. */
  lemma CallbacksCoalesce(c: Client, cbs: seq<Callback>)
    requires Valid(c) && |cbs| > 0
    ensures ApplyCallbacks(c, cbs).signal == 1
    ensures ApplyCallbacks(c, cbs).connected <==> cbs[|cbs| - 1] == ConnectedCallback
  {
    CallbacksKeepValid(c, cbs[..|cbs| - 1]);
  }

  /** Two disconnections in a row log the warning at most once, and a
      disconnection of a client that never connected logs nothing. */
  lemma DisconnectWarnsOnce(c: Client)
    ensures !OnDisconnected(OnDisconnected(c).next).warned
    ensures !OnDisconnected(Initial).warned
  {
  }

  /** One connection attempt: drain a stale signal, start connecting, let the
      callbacks `cbs` fire, then block for a signal. The attempt proceeds
      exactly when some callback fired, and it counts as connected exactly
      when the last one was OnConnected. */
  lemma ConnectAttemptWaitsForACallback(c: Client, cbs: seq<Callback>)
    requires Valid(c)
    ensures WaitReturns(ApplyCallbacks(Drain(c), cbs)) <==> |cbs| > 0
    ensures |cbs| > 0 ==> (ApplyCallbacks(Drain(c), cbs).connected <==> cbs[|cbs| - 1] == ConnectedCallback)
  {
    if |cbs| > 0 {
      CallbacksCoalesce(Drain(c), cbs);
    } else {
      assert ApplyCallbacks(Drain(c), cbs) == Drain(c);
    }
  }

  /** WaitForDisconnectAsync as written: drain, then block. `before` are the
      callbacks that fire between the loop's check of the flag and the
      drain, `after` those that fire once the loop blocks. The result is
      whether the wait ever returns. */
  predicate WaitForDisconnectAsWritten(c: Client, before: seq<Callback>, after: seq<Callback>) {
    WaitReturns(ApplyCallbacks(Drain(ApplyCallbacks(c, before)), after))
  }

  /** The lost wake-up: the loop has taken OnConnected's signal and seen the
      flag set; OBS drops the connection before the drain; the drain eats
      the disconnection's signal and, since nothing else reconnects, the
      wait never returns although the client is disconnected. */
  lemma DisconnectBeforeDrainIsLost()
    ensures !ApplyCallbacks(Drain(ApplyCallbacks(Client(true, 0), [DisconnectedCallback])), []).connected
    ensures !WaitForDisconnectAsWritten(Client(true, 0), [DisconnectedCallback], [])
  {
    assert ApplyCallbacks(Client(true, 0), [DisconnectedCallback]) == Client(false, 1) by {
      assert [DisconnectedCallback][..0] == [];
    }
  }

  /** WaitForDisconnectAsync corrected: drain, then return at once if the
      flag is already clear, and block only otherwise. */
  predicate WaitForDisconnect(c: Client, before: seq<Callback>, after: seq<Callback>) {
    var drained := Drain(ApplyCallbacks(c, before));
    !drained.connected || WaitReturns(ApplyCallbacks(drained, after))
  }

  /** The corrected wait returns whenever the last callback, before or after
      the drain, was a disconnection. */
  lemma WaitForDisconnectReturnsAfterDisconnection(c: Client, before: seq<Callback>, after: seq<Callback>)
    requires Valid(c)
    requires |before + after| > 0 && (before + after)[|before + after| - 1] == DisconnectedCallback
    ensures WaitForDisconnect(c, before, after)
  {
    if |after| > 0 {
      CallbacksKeepValid(c, before);
      CallbacksCoalesce(Drain(ApplyCallbacks(c, before)), after);
    } else {
      assert before + after == before;
      CallbacksCoalesce(c, before);
      assert ApplyCallbacks(Drain(ApplyCallbacks(c, before)), after) == Drain(ApplyCallbacks(c, before));
    }
  }

  /** The source's wait also returns when the disconnection comes after the
      drain; it differs from the corrected one only in the window above. */
  lemma WaitForDisconnectAsWrittenAfterDrain(c: Client, before: seq<Callback>, after: seq<Callback>)
    requires Valid(c) && DisconnectedCallback in after
    ensures WaitForDisconnectAsWritten(c, before, after)
    ensures WaitForDisconnect(c, before, after)
  {
    CallbacksKeepValid(c, before);
    CallbacksCoalesce(Drain(ApplyCallbacks(c, before)), after);
  }

  // ---------------------------------------------------------------------
  // Scene commands
  // ---------------------------------------------------------------------

  /** What the websocket library does with a request: answers it, or throws. */
  datatype Transport<T> = Answered(value: T) | Threw

  /** The result of SetProgramSceneAsync and whether the library was called. */
  datatype SendResult = SendResult(success: bool, transportCalled: bool)

  /** SetProgramSceneAsync: false without calling the library when
      disconnected; otherwise true unless the library throws. */
  function SetProgramScene(c: Client, transport: Transport<()>): (r: SendResult)
    ensures r.success <==> c.connected && transport.Answered?
    ensures r.transportCalled <==> c.connected
  {
    if !c.connected then SendResult(false, false)
    else SendResult(transport.Answered?, true)
  }

  /** GetCurrentProgramSceneAsync: no scene when disconnected or when the
      library throws; otherwise the library's answer. */
  function GetCurrentProgramScene(c: Client, transport: Transport<string>): (r: Option<string>)
    ensures r.Some? <==> c.connected && transport.Answered?
    ensures r.Some? ==> r.value == transport.value
  {
    if c.connected && transport.Answered? then Some(transport.value) else None
  }

  /** Both commands are inert on a client that has not connected. */
  lemma CommandsInertWhenDisconnected(c: Client, t1: Transport<()>, t2: Transport<string>)
    requires !c.connected
    ensures SetProgramScene(c, t1) == SendResult(false, false)
    ensures GetCurrentProgramScene(c, t2) == None
  {
  }

  // ---------------------------------------------------------------------
  // URL
  // ---------------------------------------------------------------------

  const Scheme: string := "ws://"

  /** BuildUrlAsync: `ws://<address for a URI>:<port>`, or nothing when the
      host does not resolve. */
  function BuildUrl(ip: Option<HostResolver.IpAddress>, port: int): (r: Option<string>)
    ensures r.Some? <==> ip.Some?
  {
    match ip
    case None => None
    case Some(a) => Some(Scheme + HostResolver.FormatForUri(a) + ":" + Text.IntToString(port))
  }

  /** The index of the last ':' in `s`. */
  function LastColon(s: string): (r: Option<nat>)
    ensures r.Some? ==> r.value < |s| && s[r.value] == ':' && ':' !in s[r.value + 1..]
    ensures r.None? ==> ':' !in s
    decreases |s|
  {
    if |s| == 0 then None
    else if s[|s| - 1] == ':' then Some(|s| - 1)
    else LastColon(s[..|s| - 1])
  }

  /** Splits a URL into its host part and port, the port being what follows
      the last ':' (an IPv6 host has colons of its own). */
  function ParseUrl(url: string): Option<(string, int)> {
    if |url| < |Scheme| || url[..|Scheme|] != Scheme then None
    else
      var rest := url[|Scheme|..];
      match LastColon(rest)
      case None => None
      case Some(i) =>
        if Text.IsIntText(rest[i + 1..]) then Some((rest[..i], Text.ParseInt(rest[i + 1..]))) else None
  }

  lemma LastColonOfJoin(a: string, b: string)
    requires ':' !in b
    ensures LastColon(a + ":" + b) == Some(|a|)
  {
    var s := a + ":" + b;
    assert s[|a|] == ':';
  }

  /** Parsing the built URL gives back the formatted address and the port. */
  lemma BuildUrlRoundTrip(a: HostResolver.IpAddress, port: int)
    ensures ParseUrl(BuildUrl(Some(a), port).value) == Some((HostResolver.FormatForUri(a), port))
  {
    var host := HostResolver.FormatForUri(a);
    var digits := Text.IntToString(port);
    var url := Scheme + host + ":" + digits;
    Text.IntToStringHasNoColon(port);
    Text.IntToStringRoundTrip(port);
    assert url[..|Scheme|] == Scheme;
    var rest := url[|Scheme|..];
    assert rest == host + ":" + digits;
    LastColonOfJoin(host, digits);
    assert rest[..|host|] == host;
    assert rest[|host| + 1..] == digits;
  }
}
