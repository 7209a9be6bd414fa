/**
 * The sliding-window rate limiter of AiChatService: TryAcquireSlot over the
 * fields _timestamps (a queue of the times of granted requests, oldest first)
 * and _lastSuccess. The clock reading DateTimeOffset.UtcNow is the parameter
 * `now`; the lock around the body is left out, the model being sequential.
 */
module RateLimiting {
  import opened Clock

  /** Timestamps older than this are evicted: 60 minutes. */
  const Window := 60 * TicksPerMinute
  /** The least time between two granted requests: 60 seconds. */
  const Cooldown := 60 * TicksPerSecond
  /** The most timestamps the window may hold. */
  const MaxRequests := 60

  /** The limiter's fields as a value. */
  datatype Limiter = Limiter(timestamps: seq<int>, lastSuccess: int)

  /** A new AiChatService: no timestamps, last success DateTimeOffset.MinValue. */
  const Start := Limiter([], MinValue)

  /** now - t > 60 minutes. */
  predicate Expired(t: int, now: int) {
    now - t > Window
  }

  // ---------------------------------------------------------------------------
  // TryAcquireSlot on values

  /** The eviction loop: the oldest timestamp dequeued while it is expired. */
  function Evict(q: seq<int>, now: int): seq<int> {
    if q != [] && Expired(q[0], now) then Evict(q[1..], now) else q
  }

  /** What eviction leaves is a suffix whose head is not expired, and everything
      it dropped was expired. */
  lemma {:induction false} EvictSpec(q: seq<int>, now: int)
    ensures var r := Evict(q, now);
      && |r| <= |q| && r == q[|q| - |r|..]
      && (r == [] || !Expired(r[0], now))
      && (forall i :: 0 <= i < |q| - |r| ==> Expired(q[i], now))
    decreases |q|
  {
    if q != [] && Expired(q[0], now) {
      EvictSpec(q[1..], now);
      var r := Evict(q, now);
      assert forall i :: 1 <= i < |q| - |r| ==> q[i] == q[1..][i - 1];
    }
  }

  /** TryAcquireSlot: evict, then refuse within the cooldown or with a full
      window, else record now. */
  function Acquire(s: Limiter, now: int): (Limiter, bool) {
    var q := Evict(s.timestamps, now);
    if now - s.lastSuccess < Cooldown then
      (Limiter(q, s.lastSuccess), false)
    else if |q| >= MaxRequests then
      (Limiter(q, s.lastSuccess), false)
    else
      (Limiter(q + [now], now), true)
  }

  /** The grant happens exactly when both rules pass; either way only expired
      timestamps are dropped, from the front, and only a grant adds one, at the
      back, and moves the last success. */
  lemma AcquireSpec(s: Limiter, now: int)
    ensures var (s', granted) := Acquire(s, now);
      var n := |s'.timestamps|;
      var kept := if granted && n > 0 then s'.timestamps[..n - 1] else s'.timestamps;
      && (granted <==> now - s.lastSuccess >= Cooldown && |Evict(s.timestamps, now)| < MaxRequests)
      && |kept| <= |s.timestamps| && kept == s.timestamps[|s.timestamps| - |kept|..]
      && (forall i :: 0 <= i < |s.timestamps| - |kept| ==> Expired(s.timestamps[i], now))
      && (kept == [] || !Expired(kept[0], now))
      && (granted ==> s'.timestamps == kept + [now] && s'.lastSuccess == now && n <= MaxRequests)
      && (!granted ==> s'.lastSuccess == s.lastSuccess)
  {
    var q := Evict(s.timestamps, now);
    EvictSpec(s.timestamps, now);
    assert (q + [now])[..|q|] == q;
  }

  // ---------------------------------------------------------------------------
  // The sliding window, stated over the history of grants

  /** The grants of h that are not expired at now, in order. */
  function Recent(h: seq<int>, now: int): (r: seq<int>)
    ensures |r| <= |h|
  {
    if h == [] then []
    else
      var t := h[|h| - 1];
      Recent(h[..|h| - 1], now) + (if Expired(t, now) then [] else [t])
  }

  /** Every recent grant is a grant not expired at now. */
  lemma {:induction false} RecentMembers(h: seq<int>, now: int)
    ensures forall t :: t in Recent(h, now) ==> t in h && !Expired(t, now)
    decreases |h|
  {
    if h != [] {
      RecentMembers(h[..|h| - 1], now);
    }
  }

  predicate Sorted(h: seq<int>) {
    forall i, j :: 0 <= i < j < |h| ==> h[i] <= h[j]
  }

  /** Any two grants are at least Cooldown apart. */
  predicate Spaced(h: seq<int>) {
    forall i, j :: 0 <= i < j < |h| ==> h[i] + Cooldown <= h[j]
  }

  /** No 60-minute span ending at a grant holds more than MaxRequests grants. */
  predicate Bounded(h: seq<int>) {
    forall i :: 0 <= i < |h| ==> |Recent(h[..i + 1], h[i])| <= MaxRequests
  }

  /** The limiter s after the grants h, the last call having been made at clock:
      the queue holds exactly the grants of the last 60 minutes, and the last
      success is the last grant. */
  ghost predicate Tracks(s: Limiter, h: seq<int>, clock: int) {
    && Spaced(h)
    && Bounded(h)
    && (h != [] ==> h[|h| - 1] <= clock)
    && s.timestamps == Recent(h, clock)
    && s.lastSuccess == (if h == [] then MinValue else h[|h| - 1])
    && |s.timestamps| <= MaxRequests
  }

  /** Grants split into an expired prefix and a live rest leave the rest. */
  lemma {:induction false} RecentSplit(h: seq<int>, now: int, k: int)
    requires 0 <= k <= |h|
    requires forall i :: 0 <= i < k ==> Expired(h[i], now)
    requires forall i :: k <= i < |h| ==> !Expired(h[i], now)
    ensures Recent(h, now) == h[k..]
    decreases |h|
  {
    if h != [] {
      var n := |h| - 1;
      if k == |h| {
        RecentSplit(h[..n], now, n);
      } else {
        RecentSplit(h[..n], now, k);
        assert h[..n][k..] + [h[n]] == h[k..];
      }
    }
  }

  /** On sorted grants the eviction loop keeps exactly the recent ones. */
  lemma EvictSorted(h: seq<int>, now: int)
    requires Sorted(h)
    ensures Evict(h, now) == Recent(h, now)
  {
    var r := Evict(h, now);
    EvictSpec(h, now);
    var k := |h| - |r|;
    forall i | k <= i < |h|
      ensures !Expired(h[i], now)
    {
      assert h[k] == r[0] && h[k] <= h[i];
    }
    RecentSplit(h, now, k);
  }

  /** Evicting at a later time after evicting at an earlier one is evicting at
      the later time. */
  lemma {:induction false} EvictTwice(q: seq<int>, clock: int, now: int)
    requires clock <= now
    ensures Evict(Evict(q, clock), now) == Evict(q, now)
    decreases |q|
  {
    if q != [] && Expired(q[0], clock) {
      EvictTwice(q[1..], clock, now);
    }
  }

  /** A grant at now is recent at now. */
  lemma RecentSnoc(h: seq<int>, now: int)
    ensures Recent(h + [now], now) == Recent(h, now) + [now]
  {
    assert (h + [now])[..|h|] == h;
  }

  /** The start state tracks no grants, whatever the clock. */
  lemma StartTracks(clock: int)
    ensures Tracks(Start, [], clock)
  {
  }

  /** Evicting at now, no earlier than the last call, leaves the grants recent
      at now. */
  lemma EvictTracked(s: Limiter, h: seq<int>, clock: int, now: int)
    requires Tracks(s, h, clock) && clock <= now
    ensures Evict(s.timestamps, now) == Recent(h, now)
    ensures |Recent(h, now)| <= MaxRequests
  {
    EvictSorted(h, clock);
    EvictTwice(h, clock, now);
    EvictSorted(h, now);
    EvictSpec(s.timestamps, now);
  }

  /** A grant at least Cooldown after the last keeps the grants spaced. */
  lemma GrantSpaced(h: seq<int>, now: int)
    requires Spaced(h)
    requires h != [] ==> h[|h| - 1] + Cooldown <= now
    ensures Spaced(h + [now])
  {
    var h' := h + [now];
    forall i, j | 0 <= i < j < |h'|
      ensures h'[i] + Cooldown <= h'[j]
    {
      if j == |h| && i < |h| - 1 {
        assert h[i] + Cooldown <= h[|h| - 1];
      }
    }
  }

  /** A grant made while fewer than MaxRequests grants are recent keeps the
      grants bounded. */
  lemma GrantBounded(h: seq<int>, now: int)
    requires Bounded(h)
    requires |Recent(h, now)| < MaxRequests
    ensures Bounded(h + [now])
  {
    var h' := h + [now];
    forall i | 0 <= i < |h'|
      ensures |Recent(h'[..i + 1], h'[i])| <= MaxRequests
    {
      if i < |h| {
        assert h'[..i + 1] == h[..i + 1];
      } else {
        assert h'[..i + 1] == h';
        RecentSnoc(h, now);
      }
    }
  }

  /** One call of TryAcquireSlot at a time no earlier than the last call keeps
      the limiter tracking its grants; the grant, if any, is appended. */
  lemma AcquireTracks(s: Limiter, h: seq<int>, clock: int, now: int)
    requires Tracks(s, h, clock) && clock <= now
    ensures var (s', granted) := Acquire(s, now);
      Tracks(s', if granted then h + [now] else h, now)
  {
    EvictTracked(s, h, clock, now);
    var (s', granted) := Acquire(s, now);
    if granted {
      GrantSpaced(h, now);
      GrantBounded(h, now);
      RecentSnoc(h, now);
    }
  }

  /** The queue holds only grants of the last 60 minutes, none later than the
      last call. */
  lemma TracksWithinWindow(s: Limiter, h: seq<int>, clock: int)
    requires Tracks(s, h, clock)
    ensures forall t :: t in s.timestamps ==> clock - Window <= t <= clock
  {
    RecentMembers(h, clock);
    forall t | t in s.timestamps
      ensures clock - Window <= t <= clock
    {
      var i :| 0 <= i < |h| && h[i] == t;
      assert h[i] <= h[|h| - 1];
    }
  }

  /** The recent grants of sorted grants are sorted. */
  lemma {:induction false} RecentSorted(h: seq<int>, now: int)
    requires Sorted(h)
    ensures Sorted(Recent(h, now))
    decreases |h|
  {
    if h != [] {
      var init := h[..|h| - 1];
      var t := h[|h| - 1];
      assert Sorted(init) by {
        forall i, j | 0 <= i < j < |init|
          ensures init[i] <= init[j]
        {
          assert init[i] == h[i] && init[j] == h[j];
        }
      }
      RecentSorted(init, now);
      RecentMembers(init, now);
      var r := Recent(init, now);
      if !Expired(t, now) {
        var r' := r + [t];
        forall i, j | 0 <= i < j < |r'|
          ensures r'[i] <= r'[j]
        {
          if j == |r| {
            assert r'[i] in r;
            var k :| 0 <= k < |init| && init[k] == r'[i];
            assert h[k] <= h[|h| - 1];
          } else {
            assert r'[i] == r[i] && r'[j] == r[j];
          }
        }
      }
    }
  }

  /** The queue is sorted oldest first. */
  lemma QueueSorted(s: Limiter, h: seq<int>, clock: int)
    requires Tracks(s, h, clock)
    ensures Sorted(s.timestamps)
  {
    RecentSorted(h, clock);
  }

  /** The first call, made at least 60 seconds after DateTimeOffset.MinValue, is
      granted. */
  lemma StartGrants(now: int)
    requires now - MinValue >= Cooldown
    ensures Acquire(Start, now) == (Limiter([now], now), true)
  {
    assert Start.timestamps == [] && Evict([], now) == [];
    assert [] + [now] == [now];
  }

  // ---------------------------------------------------------------------------
  // Runs of calls

  /** The limiter after calls at the given times, from a new service, and the
      times of the calls that were granted. */
  function Run(times: seq<int>): (Limiter, seq<int>) {
    if times == [] then (Start, [])
    else
      var (s, h) := Run(times[..|times| - 1]);
      var now := times[|times| - 1];
      var (s', granted) := Acquire(s, now);
      (s', if granted then h + [now] else h)
  }

  predicate NonDecreasing(times: seq<int>) {
    forall i, j :: 0 <= i < j < |times| ==> times[i] <= times[j]
  }

  /** With a clock that never goes back, the limiter keeps its promise: granted
      requests are at least 60 seconds apart, no 60-minute span ending at a
      grant holds more than 60 of them, and the queue holds exactly the grants
      of the last 60 minutes. */
  lemma {:induction false} RunTracks(times: seq<int>)
    requires NonDecreasing(times)
    ensures var (s, h) := Run(times);
      && Spaced(h) && Bounded(h)
      && (times != [] ==> Tracks(s, h, times[|times| - 1]))
    decreases |times|
  {
    if times != [] {
      var init := times[..|times| - 1];
      var now := times[|times| - 1];
      var (s, h) := Run(init);
      RunTracks(init);
      if init == [] {
        StartTracks(now);
        AcquireTracks(s, h, now, now);
      } else {
        AcquireTracks(s, h, init[|init| - 1], now);
      }
    }
  }

  // ---------------------------------------------------------------------------
  // The object

  /** The rate-limiting state of an AiChatService. */
  class RateLimiter {
    var timestamps: seq<int>
    var lastSuccess: int

    /** A new service: empty queue, last success DateTimeOffset.MinValue. */
    constructor ()
      ensures Value() == Start
    {
      timestamps := [];
      lastSuccess := MinValue;
    }

    function Value(): Limiter
      reads this
    {
      Limiter(timestamps, lastSuccess)
    }

    /** TryAcquireSlot at time now: the step Acquire. */
    method TryAcquireSlot(now: int) returns (granted: bool)
      modifies this
      ensures (Value(), granted) == Acquire(old(Value()), now)
    {
      ghost var s := Value();
      while |timestamps| > 0 && now - timestamps[0] > Window
        invariant Evict(timestamps, now) == Evict(s.timestamps, now)
        invariant lastSuccess == s.lastSuccess
        decreases |timestamps|
      {
        timestamps := timestamps[1..];
      }
      assert timestamps == Evict(s.timestamps, now);
      if now - lastSuccess < Cooldown {
        return false;
      }
      if |timestamps| >= MaxRequests {
        return false;
      }
      timestamps := timestamps + [now];
      lastSuccess := now;
      return true;
    }
  }
}
