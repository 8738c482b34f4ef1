/** RateLimiter: grants a call when at least `interval` has passed since the
    last granted call. Time is counted in .NET ticks (100 ns); the clock
    reading the source takes from `DateTimeOffset.UtcNow` is a parameter. */
module RateLimiter {
  import opened TimeUnits

  /** The tick count of `DateTimeOffset.MinValue`, the "never granted" mark.
      Every clock reading is at or after it. */
  const MinValueTicks: int := 0

  /** The limiter's interval and the time of its last grant. */
  datatype Limiter = Limiter(interval: int, lastAllowed: int)

  /** A fresh limiter: it has never granted. */
  function NewLimiter(interval: int): Limiter {
    Limiter(interval, MinValueTicks)
  }

  /** The result of one call: whether it was granted, and the limiter after it. */
  datatype Acquire = Acquire(granted: bool, next: Limiter)

  /** RateLimiter.TryAcquire at clock reading `now`: granted when the time
      since the last grant is at least the interval (inclusive), in which
      case the grant time becomes `now`; a denied call changes nothing. */
  function TryAcquire(l: Limiter, now: int): (r: Acquire)
    ensures r.granted <==> now - l.lastAllowed >= l.interval
    ensures r.next.interval == l.interval
    ensures r.granted ==> r.next.lastAllowed == now
    ensures !r.granted ==> r.next == l
  {
    if now - l.lastAllowed >= l.interval then Acquire(true, l.(lastAllowed := now)) else Acquire(false, l)
  }

  /** The clock readings never go backwards and start no earlier than the
      limiter's last grant. */
  predicate Monotone(l: Limiter, times: seq<int>) {
    && (forall k :: 0 < k < |times| ==> times[k - 1] <= times[k])
    && (|times| > 0 ==> l.lastAllowed <= times[0])
  }

  /** The answers of successive calls at the given clock readings. */
  function Grants(l: Limiter, times: seq<int>): (r: seq<bool>)
    ensures |r| == |times|
    decreases |times|
  {
    if |times| == 0 then [] else [TryAcquire(l, times[0]).granted] + Grants(TryAcquire(l, times[0]).next, times[1..])
  }

  /** The limiter after successive calls at the given clock readings. */
  function After(l: Limiter, times: seq<int>): Limiter
    decreases |times|
  {
    if |times| == 0 then l else After(TryAcquire(l, times[0]).next, times[1..])
  }

  /** The first call on a fresh limiter is granted: the time since
      `DateTimeOffset.MinValue` is the whole clock reading, which exceeds
      any interval the bridge configures. */
  lemma FirstCallGrants(interval: int, now: int)
    requires interval <= now - MinValueTicks
    ensures TryAcquire(NewLimiter(interval), now).granted
  {
  }

  /** With a positive interval, a second call at the instant of a grant is
      denied. */
  lemma SecondCallAtSameInstantDenied(l: Limiter, now: int)
    requires l.interval > 0 && TryAcquire(l, now).granted
    ensures !TryAcquire(TryAcquire(l, now).next, now).granted
  {
  }

  /** Monotone readings stay monotone after dropping the first one, and the
      limiter after the first call has not granted later than the second
      reading. */
  lemma MonotoneTail(l: Limiter, times: seq<int>)
    requires Monotone(l, times) && |times| > 0
    ensures Monotone(TryAcquire(l, times[0]).next, times[1..])
    ensures l.lastAllowed <= TryAcquire(l, times[0]).next.lastAllowed
  {
  }

  /** With a zero (or negative) interval every call on a monotone clock is
      granted. */
  lemma {:induction false} ZeroIntervalGrantsEveryCall(l: Limiter, times: seq<int>)
    requires l.interval <= 0 && Monotone(l, times)
    ensures forall k :: 0 <= k < |times| ==> Grants(l, times)[k]
    decreases |times|
  {
    if |times| > 0 {
      MonotoneTail(l, times);
      ZeroIntervalGrantsEveryCall(TryAcquire(l, times[0]).next, times[1..]);
    }
  }

  /** The calls of a run line up with the calls of its tail. */
  lemma GrantsTail(l: Limiter, times: seq<int>)
    requires |times| > 0
    ensures Grants(l, times)[0] == TryAcquire(l, times[0]).granted
    ensures forall k :: 1 <= k < |times| ==>
      Grants(l, times)[k] == Grants(TryAcquire(l, times[0]).next, times[1..])[k - 1]
  {
  }

  /** After a run of denied calls the next call is granted exactly when at
      least one interval has passed since the limiter's last grant before
      the run. */
  lemma {:induction false} GrantedAfterDenials(l: Limiter, times: seq<int>, k: nat)
    requires k < |times| && forall m :: 0 <= m < k ==> !Grants(l, times)[m]
    ensures Grants(l, times)[k] <==> times[k] - l.lastAllowed >= l.interval
    decreases k
  {
    GrantsTail(l, times);
    if k > 0 {
      assert !Grants(l, times)[0];
      assert TryAcquire(l, times[0]).next == l;
      assert forall m :: 0 <= m < k - 1 ==> !Grants(l, times[1..])[m] by {
        forall m | 0 <= m < k - 1 ensures !Grants(l, times[1..])[m] {
          assert Grants(l, times)[m + 1] == Grants(l, times[1..])[m];
        }
      }
      assert times[1..][k - 1] == times[k];
      GrantedAfterDenials(l, times[1..], k - 1);
    }
  }

  /** The grant condition over a whole run: when call `j` was the last one
      granted before call `k`, call `k` is granted exactly when it comes at
      least one interval after call `j`. No clock monotonicity is needed. */
  lemma {:induction false} GrantedIffIntervalSinceLastGrant(l: Limiter, times: seq<int>, j: nat, k: nat)
    requires j < k < |times| && Grants(l, times)[j]
    requires forall m :: j < m < k ==> !Grants(l, times)[m]
    ensures Grants(l, times)[k] <==> times[k] - times[j] >= l.interval
    decreases j
  {
    var next := TryAcquire(l, times[0]).next;
    GrantsTail(l, times);
    if j == 0 {
      assert next.lastAllowed == times[0];
      assert forall m :: 0 <= m < k - 1 ==> !Grants(next, times[1..])[m] by {
        forall m | 0 <= m < k - 1 ensures !Grants(next, times[1..])[m] {
          assert Grants(l, times)[m + 1] == Grants(next, times[1..])[m];
        }
      }
      assert times[1..][k - 1] == times[k];
      GrantedAfterDenials(next, times[1..], k - 1);
    } else {
      assert forall m :: j - 1 < m < k - 1 ==> !Grants(next, times[1..])[m] by {
        forall m | j - 1 < m < k - 1 ensures !Grants(next, times[1..])[m] {
          assert Grants(l, times)[m + 1] == Grants(next, times[1..])[m];
        }
      }
      assert times[1..][j - 1] == times[j] && times[1..][k - 1] == times[k];
      GrantedIffIntervalSinceLastGrant(next, times[1..], j - 1, k - 1);
    }
  }

  /** The latest index in `j..k - 1` holding `true`, given that `j` does. */
  function LastGrantBefore(g: seq<bool>, j: nat, k: nat): (m: nat)
    requires j < k <= |g| && g[j]
    ensures j <= m < k && g[m]
    ensures forall i :: m < i < k ==> !g[i]
    decreases k
  {
    if g[k - 1] then k - 1 else LastGrantBefore(g, j, k - 1)
  }

  /** Every granted call comes at least `interval` after the limiter's last
      grant before the run. With a non-negative interval this holds on any
      clock; with a negative one it needs a monotone clock. */
  lemma GrantComesAfterInterval(l: Limiter, times: seq<int>)
    requires l.interval >= 0 || Monotone(l, times)
    ensures forall k :: 0 <= k < |times| && Grants(l, times)[k] ==> times[k] - l.lastAllowed >= l.interval
  {
    if l.interval >= 0 {
      forall k | 0 <= k < |times| && Grants(l, times)[k] ensures times[k] - l.lastAllowed >= l.interval {
        GrantAfterIntervalAt(l, times, k);
      }
    } else {
      GrantComesAfterIntervalOnMonotoneClock(l, times);
    }
  }

  lemma {:induction false} GrantAfterIntervalAt(l: Limiter, times: seq<int>, k: nat)
    requires l.interval >= 0 && k < |times| && Grants(l, times)[k]
    ensures times[k] - l.lastAllowed >= l.interval
    decreases k
  {
    var g := Grants(l, times);
    if exists j :: 0 <= j < k && g[j] {
      var j :| 0 <= j < k && g[j];
      var m := LastGrantBefore(g, j, k);
      GrantedIffIntervalSinceLastGrant(l, times, m, k);
      GrantAfterIntervalAt(l, times, m);
    } else {
      GrantedAfterDenials(l, times, k);
    }
  }

  lemma {:induction false} GrantComesAfterIntervalOnMonotoneClock(l: Limiter, times: seq<int>)
    requires Monotone(l, times)
    ensures forall k :: 0 <= k < |times| && Grants(l, times)[k] ==> times[k] - l.lastAllowed >= l.interval
    decreases |times|
  {
    if |times| > 0 {
      var next := TryAcquire(l, times[0]).next;
      MonotoneTail(l, times);
      GrantComesAfterIntervalOnMonotoneClock(next, times[1..]);
      forall k | 1 <= k < |times| && Grants(l, times)[k] ensures times[k] - l.lastAllowed >= l.interval {
        assert Grants(l, times)[k] == Grants(next, times[1..])[k - 1];
        assert times[k] == times[1..][k - 1];
      }
    }
  }

  /** With a non-negative interval, any two granted calls are at least
      `interval` apart, whatever the clock does: denied calls in between earn
      nothing, and each grant is spaced from the latest grant before it. */
  lemma GrantsAreSpaced(l: Limiter, times: seq<int>)
    requires l.interval >= 0
    ensures forall j, k :: 0 <= j < k < |times| && Grants(l, times)[j] && Grants(l, times)[k] ==>
      times[k] - times[j] >= l.interval
  {
    forall j, k | 0 <= j < k < |times| && Grants(l, times)[j] && Grants(l, times)[k]
      ensures times[k] - times[j] >= l.interval
    {
      GrantsSpacedAt(l, times, j, k);
    }
  }

  lemma {:induction false} GrantsSpacedAt(l: Limiter, times: seq<int>, j: nat, k: nat)
    requires l.interval >= 0 && j < k < |times| && Grants(l, times)[j] && Grants(l, times)[k]
    ensures times[k] - times[j] >= l.interval
    decreases k - j
  {
    var m := LastGrantBefore(Grants(l, times), j, k);
    GrantedIffIntervalSinceLastGrant(l, times, m, k);
    if m > j {
      GrantsSpacedAt(l, times, j, m);
    }
  }

  /** Calls that are all denied leave the limiter as it was. */
  lemma {:induction false} DenialsLeaveLimiterUnchanged(l: Limiter, times: seq<int>)
    requires forall k :: 0 <= k < |times| ==> !Grants(l, times)[k]
    ensures After(l, times) == l
    decreases |times|
  {
    if |times| > 0 {
      var rest := times[1..];
      assert !Grants(l, times)[0];
      assert TryAcquire(l, times[0]).next == l;
      assert Grants(l, times) == [false] + Grants(l, rest);
      assert forall k :: 0 <= k < |rest| ==> !Grants(l, rest)[k] by {
        forall k | 0 <= k < |rest| ensures !Grants(l, rest)[k] {
          assert Grants(l, times)[k + 1] == Grants(l, rest)[k];
        }
      }
      DenialsLeaveLimiterUnchanged(l, rest);
    }
  }

  /** The rapid-call and reset scenarios: with a 50 ms interval, a grant, a
      denied call at the same instant, a grant 80 ms later, and a denied call
      right after it. */
  lemma FiftyMillisecondScenario(t: int)
    requires t >= 50 * TicksPerMillisecond
    ensures Grants(NewLimiter(50 * TicksPerMillisecond), [t, t, t + 80 * TicksPerMillisecond, t + 80 * TicksPerMillisecond])
      == [true, false, true, false]
  {
    var i := 50 * TicksPerMillisecond;
    var u := t + 80 * TicksPerMillisecond;
    var l0 := NewLimiter(i);
    var l1 := l0.(lastAllowed := t);
    var l3 := l0.(lastAllowed := u);
    assert Grants(l3, [u]) == [false];
    assert Grants(l1, [u, u]) == [true] + Grants(l3, [u]) by {
      assert [u, u][1..] == [u];
    }
    assert Grants(l1, [t, u, u]) == [false] + Grants(l1, [u, u]) by {
      assert [t, u, u][1..] == [u, u];
    }
    assert Grants(l0, [t, t, u, u]) == [true] + Grants(l1, [t, u, u]) by {
      assert [t, t, u, u][1..] == [t, u, u];
    }
  }
}
