/** The in-memory rate limiter: per key, the times of the requests admitted
    in the current window. The clock is a parameter: `now` is a time in
    seconds, and a window of w seconds before `now` holds the times t with
    now - w < t. */
module RateLimiting {

  /** The times of `ts` after `windowStart`, in order. */
  function Recent(ts: seq<int>, windowStart: int): (r: seq<int>)
    ensures |r| <= |ts|
    ensures forall t :: t in r <==> t in ts && t > windowStart
  {
    if |ts| == 0 then []
    else
      var init := Recent(ts[..|ts| - 1], windowStart);
      var last := ts[|ts| - 1];
      assert ts == ts[..|ts| - 1] + [last];
      if last > windowStart then init + [last] else init
  }

  /** What one admission check leaves behind: the new table and the
      answer. */
  datatype Admission = Admission(requests: map<string, seq<int>>, allowed: bool)

  /** The key's times still inside the window that ends at `now`; a key
      seen for the first time has none. */
  function Kept(requests: map<string, seq<int>>, key: string, windowSeconds: int, now: int): seq<int> {
    if key in requests then Recent(requests[key], now - windowSeconds) else []
  }

  /** One admission check: the key's list is pruned to the window (and
      created empty when missing); when fewer than `maxRequests` times remain,
      `now` is added and the request is admitted. */
  function Admit(requests: map<string, seq<int>>, key: string, maxRequests: int, windowSeconds: int, now: int): (a: Admission)
    ensures key in a.requests
    // admitted exactly when the window has room left, and never beyond the limit
    ensures a.allowed <==> |Kept(requests, key, windowSeconds, now)| < maxRequests
    ensures a.allowed ==> |a.requests[key]| <= maxRequests
    // the pruned times are kept, in order, and at most `now` joins them
    ensures |Kept(requests, key, windowSeconds, now)| <= |a.requests[key]| <= |Kept(requests, key, windowSeconds, now)| + 1
    ensures a.requests[key][..|Kept(requests, key, windowSeconds, now)|] == Kept(requests, key, windowSeconds, now)
  {
    var kept := Kept(requests, key, windowSeconds, now);
    if |kept| < maxRequests then Admission(requests[key := kept + [now]], true)
    else Admission(requests[key := kept], false)
  }

  /** What a check changes: only the key's list, which is pruned to the
      window; `now` joins it exactly when fewer than `maxRequests` times were
      left, and a rejection appends nothing. */
  lemma AdmitEffect(requests: map<string, seq<int>>, key: string, maxRequests: int, windowSeconds: int, now: int)
    ensures var a := Admit(requests, key, maxRequests, windowSeconds, now);
      var kept := Kept(requests, key, windowSeconds, now);
      && a.requests.Keys == requests.Keys + {key}
      && (forall k :: k in requests && k != key ==> a.requests[k] == requests[k])
      && (a.allowed <==> |kept| < maxRequests)
      && a.requests[key] == (if a.allowed then kept + [now] else kept)
      && (key in requests ==> forall t :: t in kept <==> t in requests[key] && now - windowSeconds < t)
  {
  }

  /** How many more requests the window ending at `now` admits: the limit
      itself for a key never seen, otherwise the limit less the times still
      in the window, and never below 0. */
  function Remaining(requests: map<string, seq<int>>, key: string, maxRequests: int, windowSeconds: int, now: int): (n: int)
    ensures maxRequests >= 0 ==> 0 <= n <= maxRequests
  {
    if key !in requests then maxRequests
    else
      var current := |Recent(requests[key], now - windowSeconds)|;
      if maxRequests - current > 0 then maxRequests - current else 0
  }

  class RateLimiter {
    var requests: map<string, seq<int>>

    constructor ()
      ensures requests == map[]
    {
      requests := map[];
    }

    /** Prunes the key's list to the window, then admits the request when
        the list holds fewer than `maxRequests` times, recording `now`. */
    method IsAllowed(key: string, maxRequests: int, windowSeconds: int, now: int) returns (allowed: bool)
      modifies this
      ensures Admission(requests, allowed) == Admit(old(requests), key, maxRequests, windowSeconds, now)
    {
      var windowStart := now - windowSeconds;
      if key in requests {
        requests := requests[key := Recent(requests[key], windowStart)];
      } else {
        requests := requests[key := []];
      }
      if |requests[key]| < maxRequests {
        requests := requests[key := requests[key] + [now]];
        allowed := true;
      } else {
        allowed := false;
      }
    }

    /** The requests the key may still make in the window ending at `now`;
        the table is only read. */
    method GetRemainingRequests(key: string, maxRequests: int, windowSeconds: int, now: int) returns (n: int)
      ensures n == Remaining(requests, key, maxRequests, windowSeconds, now)
      ensures maxRequests >= 0 ==> 0 <= n <= maxRequests
    {
      var windowStart := now - windowSeconds;
      if key !in requests {
        return maxRequests;
      }
      var current := |Recent(requests[key], windowStart)|;
      n := if maxRequests - current > 0 then maxRequests - current else 0;
    }
  }

  // ---------------------------------------------------------------------
  // One check at a time

  /** No key holds more than `maxRequests` times. */
  predicate Bounded(requests: map<string, seq<int>>, maxRequests: int) {
    forall k :: k in requests ==> |requests[k]| <= maxRequests
  }

  /** Checks with one limit keep every list within that limit. */
  lemma AdmitKeepsBound(requests: map<string, seq<int>>, key: string, maxRequests: int, windowSeconds: int, now: int)
    requires maxRequests >= 0 && Bounded(requests, maxRequests)
    ensures Bounded(Admit(requests, key, maxRequests, windowSeconds, now).requests, maxRequests)
  {
    var a := Admit(requests, key, maxRequests, windowSeconds, now);
    forall k | k in a.requests
      ensures |a.requests[k]| <= maxRequests
    {
      if k == key && key in requests {
        assert |Kept(requests, key, windowSeconds, now)| <= |requests[key]|;
      }
    }
  }

  predicate Sorted(ts: seq<int>) {
    forall i, j :: 0 <= i < j < |ts| ==> ts[i] <= ts[j]
  }

  /** Every list is in time order and holds no time after `now`. */
  predicate Ordered(requests: map<string, seq<int>>, now: int) {
    forall k :: k in requests ==> Sorted(requests[k]) && forall t :: t in requests[k] ==> t <= now
  }

  /** A sorted list with one time at least as late as all of it appended
      stays sorted. */
  lemma AppendLatest(ts: seq<int>, t: int)
    requires Sorted(ts) && forall x :: x in ts ==> x <= t
    ensures Sorted(ts + [t])
  {
    var l := ts + [t];
    forall i, j | 0 <= i < j < |l|
      ensures l[i] <= l[j]
    {
      if j == |ts| {
        assert l[i] in ts;
      }
    }
  }

  lemma {:induction false} RecentKeepsOrder(ts: seq<int>, windowStart: int)
    requires Sorted(ts)
    ensures Sorted(Recent(ts, windowStart))
  {
    if |ts| > 0 {
      var init := ts[..|ts| - 1];
      var last := ts[|ts| - 1];
      RecentKeepsOrder(init, windowStart);
      var r := Recent(init, windowStart);
      forall t | t in r
        ensures t <= last
      {
        var i :| 0 <= i < |init| && init[i] == t;
      }
      if last > windowStart {
        AppendLatest(r, last);
      }
    }
  }

  /** Checks made with a clock that does not go back keep every list in time
      order. */
  lemma AdmitKeepsOrder(requests: map<string, seq<int>>, key: string, maxRequests: int, windowSeconds: int,
                        before: int, now: int)
    requires Ordered(requests, before) && before <= now
    ensures Ordered(Admit(requests, key, maxRequests, windowSeconds, now).requests, now)
  {
    var a := Admit(requests, key, maxRequests, windowSeconds, now);
    var kept := Kept(requests, key, windowSeconds, now);
    if key in requests {
      RecentKeepsOrder(requests[key], now - windowSeconds);
    }
    assert Sorted(kept) && forall t :: t in kept ==> t <= now;
    if a.allowed {
      AppendLatest(kept, now);
    }
  }

  /** The remaining count is positive exactly when the next check would
      admit the request; when it would not, no request remains. */
  lemma RemainingMatchesAdmission(requests: map<string, seq<int>>, key: string, maxRequests: int, windowSeconds: int, now: int)
    ensures Remaining(requests, key, maxRequests, windowSeconds, now) > 0
            <==> Admit(requests, key, maxRequests, windowSeconds, now).allowed
    ensures maxRequests >= 0 && !Admit(requests, key, maxRequests, windowSeconds, now).allowed
            ==> Remaining(requests, key, maxRequests, windowSeconds, now) == 0
  {
  }

  lemma {:induction false} RecentTwice(ts: seq<int>, a: int, b: int)
    requires a <= b
    ensures Recent(Recent(ts, a), b) == Recent(ts, b)
  {
    if |ts| > 0 {
      var init := ts[..|ts| - 1];
      var last := ts[|ts| - 1];
      RecentTwice(init, a, b);
      if last > a {
        var r := Recent(init, a);
        assert (r + [last])[..|r|] == r;
      }
    }
  }

  lemma RecentAppend(ts: seq<int>, t: int, windowStart: int)
    ensures Recent(ts + [t], windowStart) == Recent(ts, windowStart) + (if t > windowStart then [t] else [])
  {
    assert (ts + [t])[..|ts|] == ts;
  }

  /** An admitted request takes exactly one of the remaining slots for the
      rest of that instant. */
  lemma AdmissionUsesOneSlot(requests: map<string, seq<int>>, key: string, maxRequests: int, windowSeconds: int, now: int)
    requires windowSeconds > 0
    requires Admit(requests, key, maxRequests, windowSeconds, now).allowed
    ensures Remaining(Admit(requests, key, maxRequests, windowSeconds, now).requests, key, maxRequests, windowSeconds, now)
            == Remaining(requests, key, maxRequests, windowSeconds, now) - 1
  {
    var kept := Kept(requests, key, windowSeconds, now);
    var ws := now - windowSeconds;
    RecentAppend(kept, now, ws);
    if key in requests {
      RecentTwice(requests[key], ws, ws);
    }
  }

  // ---------------------------------------------------------------------
  // A run of checks on one key

  /** The table after a run of checks on one key, and the times that were
      admitted. */
  datatype Replay = Replay(requests: map<string, seq<int>>, admitted: seq<int>)

  /** One more check at `now`, recording `now` as admitted when it is. */
  function CheckStep(r: Replay, key: string, maxRequests: int, windowSeconds: int, now: int): Replay {
    var a := Admit(r.requests, key, maxRequests, windowSeconds, now);
    Replay(a.requests, if a.allowed then r.admitted + [now] else r.admitted)
  }

  /** The checks at `times`, one after another, all on `key` with the same
      limit and window. */
  function ReplayChecks(requests: map<string, seq<int>>, key: string, maxRequests: int, windowSeconds: int,
                        times: seq<int>): Replay
  {
    if |times| == 0 then Replay(requests, [])
    else CheckStep(ReplayChecks(requests, key, maxRequests, windowSeconds, times[..|times| - 1]),
                   key, maxRequests, windowSeconds, times[|times| - 1])
  }

  predicate NonDecreasing(times: seq<int>) {
    forall i, j :: 0 <= i < j < |times| ==> times[i] <= times[j]
  }

  /** Before the first check on the key: no list and nothing admitted. */
  predicate Fresh(r: Replay, key: string) {
    key !in r.requests && r.admitted == []
  }

  /** After a check at `last`: the key's list is exactly the admitted times
      inside the window ending at `last`, and nothing later was admitted. */
  predicate Tracks(r: Replay, key: string, windowSeconds: int, last: int) {
    && key in r.requests
    && r.requests[key] == Recent(r.admitted, last - windowSeconds)
    && forall t :: t in r.admitted ==> t <= last
  }

  /** The number of times in (lo, hi]. */
  function CountIn(ts: seq<int>, lo: int, hi: int): (n: nat)
    ensures n <= |ts|
  {
    if |ts| == 0 then 0
    else CountIn(ts[..|ts| - 1], lo, hi) + (if lo < ts[|ts| - 1] <= hi then 1 else 0)
  }

  lemma {:induction false} CountInWithinRecent(ts: seq<int>, lo: int, hi: int, windowStart: int)
    requires windowStart <= lo
    ensures CountIn(ts, lo, hi) <= |Recent(ts, windowStart)|
  {
    if |ts| > 0 {
      CountInWithinRecent(ts[..|ts| - 1], lo, hi, windowStart);
    }
  }

  lemma {:induction false} CountInAbove(ts: seq<int>, lo: int, hi: int, t: int)
    requires hi < t
    ensures CountIn(ts + [t], lo, hi) == CountIn(ts, lo, hi)
  {
    assert (ts + [t])[..|ts|] == ts;
  }

  /** At a check no earlier than the last one, the pruned list is the
      admitted times inside the new window. */
  lemma KeptIsRecent(r: Replay, key: string, windowSeconds: int, last: int, now: int)
    requires last <= now && (Fresh(r, key) || Tracks(r, key, windowSeconds, last))
    ensures Kept(r.requests, key, windowSeconds, now) == Recent(r.admitted, now - windowSeconds)
  {
    if key in r.requests {
      RecentTwice(r.admitted, last - windowSeconds, now - windowSeconds);
    }
  }

  /** A check keeps the list equal to the admitted times inside the
      window. */
  lemma StepTracks(r: Replay, key: string, maxRequests: int, windowSeconds: int, last: int, now: int)
    requires windowSeconds > 0 && last <= now && (Fresh(r, key) || Tracks(r, key, windowSeconds, last))
    ensures Tracks(CheckStep(r, key, maxRequests, windowSeconds, now), key, windowSeconds, now)
  {
    KeptIsRecent(r, key, windowSeconds, last, now);
    RecentAppend(r.admitted, now, now - windowSeconds);
  }

  /** A check admits a request only when the window ending at it holds fewer
      than `maxRequests` admitted times, so it keeps every window within the
      limit. */
  lemma StepWindowLimit(r: Replay, key: string, maxRequests: int, windowSeconds: int, last: int, now: int, t: int)
    requires windowSeconds > 0 && last <= now && (Fresh(r, key) || Tracks(r, key, windowSeconds, last))
    requires CountIn(r.admitted, t - windowSeconds, t) <= maxRequests
    ensures CountIn(CheckStep(r, key, maxRequests, windowSeconds, now).admitted, t - windowSeconds, t) <= maxRequests
  {
    var a := Admit(r.requests, key, maxRequests, windowSeconds, now);
    if a.allowed {
      KeptIsRecent(r, key, windowSeconds, last, now);
      if t < now {
        CountInAbove(r.admitted, t - windowSeconds, t, now);
      } else {
        CountInWithinRecent(r.admitted, t - windowSeconds, t, now - windowSeconds);
        assert (r.admitted + [now])[..|r.admitted|] == r.admitted;
      }
    }
  }

  /** During a run on a key the limiter had not seen, the table's list for the
      key is exactly the admitted times inside the window of the last check. */
  lemma {:induction false} ReplayTracksWindow(requests: map<string, seq<int>>, key: string, maxRequests: int,
                                              windowSeconds: int, times: seq<int>)
    requires key !in requests && windowSeconds > 0 && NonDecreasing(times)
    ensures |times| == 0 ==> Fresh(ReplayChecks(requests, key, maxRequests, windowSeconds, times), key)
    ensures |times| > 0 ==> Tracks(ReplayChecks(requests, key, maxRequests, windowSeconds, times), key,
                                   windowSeconds, times[|times| - 1])
  {
    if |times| > 0 {
      var init := times[..|times| - 1];
      var now := times[|times| - 1];
      ReplayTracksWindow(requests, key, maxRequests, windowSeconds, init);
      var last := if |init| > 0 then init[|init| - 1] else now;
      StepTracks(ReplayChecks(requests, key, maxRequests, windowSeconds, init), key, maxRequests, windowSeconds, last, now);
    }
  }

  /** The sliding-window guarantee: over a run of checks on a key the limiter
      had not seen, with a clock that does not go back, no window of
      `windowSeconds` seconds contains more than `maxRequests` admitted
      requests. */
  lemma {:induction false} SlidingWindowLimit(requests: map<string, seq<int>>, key: string, maxRequests: int,
                                              windowSeconds: int, times: seq<int>, t: int)
    requires key !in requests && windowSeconds > 0 && maxRequests >= 0 && NonDecreasing(times)
    ensures CountIn(ReplayChecks(requests, key, maxRequests, windowSeconds, times).admitted, t - windowSeconds, t)
            <= maxRequests
  {
    if |times| > 0 {
      var init := times[..|times| - 1];
      var now := times[|times| - 1];
      SlidingWindowLimit(requests, key, maxRequests, windowSeconds, init, t);
      ReplayTracksWindow(requests, key, maxRequests, windowSeconds, init);
      var last := if |init| > 0 then init[|init| - 1] else now;
      StepWindowLimit(ReplayChecks(requests, key, maxRequests, windowSeconds, init), key, maxRequests, windowSeconds,
                      last, now, t);
    }
  }
}
