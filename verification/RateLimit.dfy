/**
 The fixed-window rate limiter. Over any run with a clock that never goes back, one
 sender gets at most 2*m-1 grants in any closed interval of one window length, where
 m is the larger of 1 and the configured maximum; that bound is reached.
 */
module RateLimit {
  import opened Option

  datatype Entry = Entry(count: int, windowStart: int)

  datatype Limits = Limits(maxPerWindow: int, windowMs: nat)

  /** The entry after a request at `now`, and whether the request is allowed. */
  function Step(entry: Option<Entry>, now: int, l: Limits): (r: (Option<Entry>, bool))
    ensures r.0.Some?
  {
    if entry.None? || now - entry.value.windowStart > l.windowMs then (Some(Entry(1, now)), true)
    else if entry.value.count >= l.maxPerWindow then (entry, false)
    else (Some(Entry(entry.value.count + 1, entry.value.windowStart)), true)
  }

  function Get(storage: map<string, Entry>, sender: string): Option<Entry> {
    if sender in storage then Some(storage[sender]) else None
  }

  class RateLimiter {
    var storage: map<string, Entry>

    constructor ()
      ensures storage == map[]
    {
      storage := map[];
    }

    method CheckRateLimit(sender: string, now: int, l: Limits) returns (allowed: bool)
      modifies this
      ensures (Get(storage, sender), allowed) == Step(Get(old(storage), sender), now, l)
      ensures forall other :: other != sender ==> Get(storage, other) == Get(old(storage), other)
    {
      if sender !in storage || now - storage[sender].windowStart > l.windowMs {
        storage := storage[sender := Entry(1, now)];
        return true;
      }
      if storage[sender].count >= l.maxPerWindow {
        return false;
      }
      storage := storage[sender := Entry(storage[sender].count + 1, storage[sender].windowStart)];
      return true;
    }
  }

  // ---------- runs ----------

  datatype Request = Request(sender: string, now: int)

  /** The stored entries after the requests. */
  function Storage(requests: seq<Request>, l: Limits): map<string, Entry> {
    if requests == [] then map[]
    else
      var r, before := requests[|requests| - 1], Storage(requests[..|requests| - 1], l);
      before[r.sender := Step(Get(before, r.sender), r.now, l).0.value]
  }

  /** The times at which the sender's requests were granted. */
  function Grants(requests: seq<Request>, sender: string, l: Limits): seq<int> {
    if requests == [] then []
    else
      var n := |requests| - 1;
      var r, before := requests[n], Grants(requests[..n], sender, l);
      if r.sender == sender && Step(Get(Storage(requests[..n], l), sender), r.now, l).1 then before + [r.now]
      else before
  }

  /** The times of one sender's requests. */
  function TimesOf(requests: seq<Request>, sender: string): seq<int> {
    if requests == [] then []
    else
      var n := |requests| - 1;
      TimesOf(requests[..n], sender) + if requests[n].sender == sender then [requests[n].now] else []
  }

  /** A lone sender: its entry and its grants after requests at the given times. */
  function Alone(times: seq<int>, l: Limits): (Option<Entry>, seq<int>) {
    if times == [] then (None, [])
    else
      var now := times[|times| - 1];
      var (entry, grants) := Alone(times[..|times| - 1], l);
      var (entry', allowed) := Step(entry, now, l);
      (entry', if allowed then grants + [now] else grants)
  }

  /** Senders do not affect each other: in any interleaving each is treated as if it were alone. */
  lemma {:induction false} SendersIndependent(requests: seq<Request>, sender: string, l: Limits)
    ensures (Get(Storage(requests, l), sender), Grants(requests, sender, l)) == Alone(TimesOf(requests, sender), l)
    decreases requests
  {
    if requests != [] {
      var n := |requests| - 1;
      SendersIndependent(requests[..n], sender, l);
      if requests[n].sender == sender {
        var times := TimesOf(requests[..n], sender);
        assert (times + [requests[n].now])[..|times|] == times;
      } else {
        assert TimesOf(requests[..n], sender) + [] == TimesOf(requests[..n], sender);
      }
    }
  }

  // ---------- counting ----------

  /** How many of the times lie in [lo, hi). */
  function Count(times: seq<int>, lo: int, hi: int): nat {
    if times == [] then 0
    else
      Count(times[..|times| - 1], lo, hi) + if lo <= times[|times| - 1] < hi then 1 else 0
  }

  /** How many of the times lie in the closed interval [x, x + w]. */
  function InInterval(times: seq<int>, x: int, w: int): nat {
    Count(times, x, x + w + 1)
  }

  lemma {:induction false} CountAppend(times: seq<int>, t: int, lo: int, hi: int)
    ensures Count(times + [t], lo, hi) == Count(times, lo, hi) + if lo <= t < hi then 1 else 0
  {
    assert (times + [t])[..|times|] == times;
  }

  lemma {:induction false} CountSplit(times: seq<int>, lo: int, mid: int, hi: int)
    requires lo <= mid <= hi
    ensures Count(times, lo, hi) == Count(times, lo, mid) + Count(times, mid, hi)
    decreases times
  {
    if times != [] {
      CountSplit(times[..|times| - 1], lo, mid, hi);
    }
  }

  lemma {:induction false} CountNone(times: seq<int>, lo: int, hi: int)
    requires forall k :: 0 <= k < |times| ==> !(lo <= times[k] < hi)
    ensures Count(times, lo, hi) == 0
    decreases times
  {
    if times != [] {
      CountNone(times[..|times| - 1], lo, hi);
    }
  }

  predicate NonDecreasing(times: seq<int>) {
    forall i, j :: 0 <= i < j < |times| ==> times[i] <= times[j]
  }

  /** The grants a window really allows: a new window grants its first request unconditionally. */
  function PerWindow(l: Limits): int {
    if l.maxPerWindow < 1 then 1 else l.maxPerWindow
  }

  /**
   What the entry says about the grants: its count is the number granted since the
   window opened, the opening request was granted, and the window length before the
   opening saw fewer than a full window's grants.
   */
  ghost predicate Tracks(e: Entry, grants: seq<int>, l: Limits) {
    && (forall k :: 0 <= k < |grants| ==> grants[k] <= e.windowStart + l.windowMs)
    && 1 <= e.count <= PerWindow(l)
    && Count(grants, e.windowStart, e.windowStart + l.windowMs + 1) == e.count
    && Count(grants, e.windowStart, e.windowStart + 1) >= 1
    && Count(grants, e.windowStart - l.windowMs, e.windowStart) <= PerWindow(l) - 1
  }

  ghost predicate Bounded(grants: seq<int>, l: Limits) {
    forall x :: InInterval(grants, x, l.windowMs) <= 2 * PerWindow(l) - 1
  }

  lemma {:induction false} GrantInWindow(e: Entry, grants: seq<int>, now: int, l: Limits)
    requires Tracks(e, grants, l) && Bounded(grants, l)
    requires e.windowStart <= now <= e.windowStart + l.windowMs && e.count < l.maxPerWindow
    ensures Tracks(Entry(e.count + 1, e.windowStart), grants + [now], l) && Bounded(grants + [now], l)
  {
    var ws, w := e.windowStart, l.windowMs;
    CountAppend(grants, now, ws, ws + w + 1);
    CountAppend(grants, now, ws, ws + 1);
    CountAppend(grants, now, ws - w, ws);
    forall x ensures InInterval(grants + [now], x, w) <= 2 * PerWindow(l) - 1 {
      assert InInterval(grants, x, w) <= 2 * PerWindow(l) - 1;
      CountAppend(grants, now, x, x + w + 1);
      if x <= now <= x + w {
        CountAround(e, grants, x, l);
      }
    }
  }

  /** An interval that meets the current window holds at most the old remainder and the window's grants. */
  lemma {:induction false} CountAround(e: Entry, grants: seq<int>, x: int, l: Limits)
    requires Tracks(e, grants, l) && e.windowStart - l.windowMs <= x <= e.windowStart + l.windowMs
    ensures Count(grants, x, x + l.windowMs + 1) <= PerWindow(l) - 1 + e.count
  {
    var ws, w := e.windowStart, l.windowMs;
    if x <= ws {
      CountSplit(grants, x, ws, x + w + 1);
      CountSplit(grants, ws - w, x, ws);
      CountSplit(grants, ws, x + w + 1, ws + w + 1);
    } else {
      CountSplit(grants, x, ws + w + 1, x + w + 1);
      CountNone(grants, ws + w + 1, x + w + 1);
      CountSplit(grants, ws, x, ws + w + 1);
    }
  }

  lemma {:induction false} GrantNewWindow(e: Entry, grants: seq<int>, now: int, l: Limits)
    requires Tracks(e, grants, l) && Bounded(grants, l)
    requires now > e.windowStart + l.windowMs
    ensures Tracks(Entry(1, now), grants + [now], l) && Bounded(grants + [now], l)
  {
    var ws, w := e.windowStart, l.windowMs;
    CountNone(grants, now, now + w + 1);
    CountNone(grants, now, now + 1);
    CountAppend(grants, now, now, now + w + 1);
    CountAppend(grants, now, now, now + 1);
    CountAppend(grants, now, now - w, now);
    RestOfWindow(e, grants, now - w, now, l);
    forall x ensures InInterval(grants + [now], x, w) <= 2 * PerWindow(l) - 1 {
      assert InInterval(grants, x, w) <= 2 * PerWindow(l) - 1;
      CountAppend(grants, now, x, x + w + 1);
      if x <= now <= x + w {
        RestOfWindow(e, grants, x, x + w + 1, l);
      }
    }
  }

  /** Counting only after the window's opening misses at least the opening grant. */
  lemma {:induction false} RestOfWindow(e: Entry, grants: seq<int>, lo: int, hi: int, l: Limits)
    requires Tracks(e, grants, l) && e.windowStart < lo <= hi && e.windowStart + l.windowMs < hi
    ensures Count(grants, lo, hi) <= PerWindow(l) - 1
  {
    var ws, w := e.windowStart, l.windowMs;
    CountSplit(grants, ws, ws + 1, ws + w + 1);
    CountSplit(grants, ws + 1, lo, hi);
    CountSplit(grants, ws + 1, ws + w + 1, hi);
    CountNone(grants, ws + w + 1, hi);
  }

  lemma {:induction false} FirstGrant(now: int, l: Limits)
    ensures Tracks(Entry(1, now), [now], l) && Bounded([now], l)
  {
    assert [now][..0] == [];
    forall x ensures InInterval([now], x, l.windowMs) <= 2 * PerWindow(l) - 1 {
      CountAppend([], now, x, x + l.windowMs + 1);
      assert [] + [now] == [now];
    }
  }

  /** What holds of a sender after requests of which the last was at `last`. */
  ghost predicate Sound(entry: Option<Entry>, grants: seq<int>, last: int, l: Limits) {
    entry.Some? && Tracks(entry.value, grants, l) && Bounded(grants, l) && entry.value.windowStart <= last
  }

  lemma {:induction false} SoundStep(e: Entry, grants: seq<int>, now: int, l: Limits)
    requires Tracks(e, grants, l) && Bounded(grants, l) && e.windowStart <= now
    ensures var (entry, allowed) := Step(Some(e), now, l);
      Sound(entry, if allowed then grants + [now] else grants, now, l)
  {
    if now > e.windowStart + l.windowMs {
      GrantNewWindow(e, grants, now, l);
    } else if e.count < l.maxPerWindow {
      GrantInWindow(e, grants, now, l);
    }
  }

  lemma {:induction false} AloneStep(times: seq<int>, now: int, l: Limits)
    ensures var (entry, grants) := Alone(times, l);
      var (entry', allowed) := Step(entry, now, l);
      Alone(times + [now], l) == (entry', if allowed then grants + [now] else grants)
  {
    assert (times + [now])[..|times|] == times;
  }

  ghost predicate AloneSound(times: seq<int>, l: Limits)
    requires times != []
  {
    Sound(Alone(times, l).0, Alone(times, l).1, times[|times| - 1], l)
  }

  lemma {:induction false} AloneFirst(now: int, l: Limits)
    ensures AloneSound([now], l)
  {
    AloneStep([], now, l);
    FirstGrant(now, l);
    assert [] + [now] == [now];
  }

  lemma {:induction false} AloneNext(times: seq<int>, now: int, l: Limits)
    requires times != [] && AloneSound(times, l) && times[|times| - 1] <= now
    ensures AloneSound(times + [now], l)
  {
    AloneStep(times, now, l);
    SoundStep(Alone(times, l).0.value, Alone(times, l).1, now, l);
  }

  lemma {:induction false} AloneBounded(times: seq<int>, l: Limits)
    requires NonDecreasing(times) && times != []
    ensures AloneSound(times, l)
    decreases times
  {
    var init, now := times[..|times| - 1], times[|times| - 1];
    if init == [] {
      AloneFirst(now, l);
      assert times == [now];
    } else {
      AloneBounded(init, l);
      AloneNext(init, now, l);
      assert times == init + [now];
    }
  }

  /**
   The limit over whole runs: whatever the other senders do, a sender with a clock
   that never goes back has at most 2*m-1 grants in any closed interval of length
   windowMs, and its entry counts exactly the grants of the current window, at most m.
   */
  lemma {:induction false} RateBound(requests: seq<Request>, sender: string, l: Limits, x: int)
    requires NonDecreasing(TimesOf(requests, sender))
    ensures InInterval(Grants(requests, sender, l), x, l.windowMs) <= 2 * PerWindow(l) - 1
    ensures sender in Storage(requests, l) ==>
      var e := Storage(requests, l)[sender];
      e.count == InInterval(Grants(requests, sender, l), e.windowStart, l.windowMs) <= PerWindow(l)
  {
    SendersIndependent(requests, sender, l);
    AloneLimits(TimesOf(requests, sender), l, x);
  }

  lemma {:induction false} AloneLimits(times: seq<int>, l: Limits, x: int)
    requires NonDecreasing(times)
    ensures var (entry, grants) := Alone(times, l);
      && InInterval(grants, x, l.windowMs) <= 2 * PerWindow(l) - 1
      && (entry.Some? ==>
            entry.value.count == InInterval(grants, entry.value.windowStart, l.windowMs) <= PerWindow(l))
  {
    if times != [] {
      AloneBounded(times, l);
      SoundLimits(Alone(times, l).0, Alone(times, l).1, times[|times| - 1], l, x);
    }
  }

  lemma {:induction false} SoundLimits(entry: Option<Entry>, grants: seq<int>, last: int, l: Limits, x: int)
    requires Sound(entry, grants, last, l)
    ensures InInterval(grants, x, l.windowMs) <= 2 * PerWindow(l) - 1
    ensures entry.value.count == InInterval(grants, entry.value.windowStart, l.windowMs) <= PerWindow(l)
  {}

  // ---------- the bound is reached ----------

  function Times(t: int, n: nat): (r: seq<int>)
    ensures |r| == n && forall k :: 0 <= k < n ==> r[k] == t
  {
    seq(n, _ => t)
  }

  lemma {:induction false} AllGranted(times: seq<int>, t: int, n: nat, e: Entry, grants: seq<int>, l: Limits)
    requires Alone(times, l) == (Some(e), grants)
    requires t - e.windowStart <= l.windowMs && e.count + n <= l.maxPerWindow
    ensures Alone(times + Times(t, n), l) == (Some(Entry(e.count + n, e.windowStart)), grants + Times(t, n))
    decreases n
  {
    var all := times + Times(t, n);
    if n == 0 {
      assert all == times && grants + Times(t, 0) == grants;
    } else {
      AllGranted(times, t, n - 1, e, grants, l);
      assert all[..|all| - 1] == times + Times(t, n - 1);
      assert (grants + Times(t, n - 1)) + [t] == grants + Times(t, n);
    }
  }

  lemma {:induction false} CountTimes(grants: seq<int>, t: int, n: nat, lo: int, hi: int)
    ensures Count(grants + Times(t, n), lo, hi) == Count(grants, lo, hi) + if lo <= t < hi then n else 0
    decreases n
  {
    var all := grants + Times(t, n);
    if n == 0 {
      assert all == grants;
    } else {
      CountTimes(grants, t, n - 1, lo, hi);
      assert all[..|all| - 1] == grants + Times(t, n - 1);
    }
  }

  /** For every maximum of at least 1 and every positive window the bound is attained. */
  lemma {:induction false} BoundReached(l: Limits) returns (times: seq<int>, x: int)
    requires l.maxPerWindow >= 1 && l.windowMs >= 1
    ensures NonDecreasing(times)
    ensures InInterval(Alone(times, l).1, x, l.windowMs) == 2 * l.maxPerWindow - 1
  {
    var m, w := l.maxPerWindow, l.windowMs;
    times, x := Burst(m - 1, w), w;
    BurstSorted(m - 1, w);
    BurstGranted(l);
    BurstCount(m - 1, w);
  }

  /** One request at 0, n more at the very end of its window, n + 1 right after it. */
  function Burst(n: nat, w: int): seq<int> {
    ([0] + Times(w, n)) + [w + 1] + Times(w + 1, n)
  }

  lemma {:induction false} BurstSorted(n: nat, w: int)
    requires w >= 1
    ensures NonDecreasing(Burst(n, w))
  {
    var times := Burst(n, w);
    assert forall k :: 0 <= k < |times| ==> times[k] == if k == 0 then 0 else if k <= n then w else w + 1;
  }

  lemma {:induction false} BurstGranted(l: Limits)
    requires l.maxPerWindow >= 1 && l.windowMs >= 1
    ensures Alone(Burst(l.maxPerWindow - 1, l.windowMs), l).1 == Burst(l.maxPerWindow - 1, l.windowMs)
  {
    var n, w := l.maxPerWindow - 1, l.windowMs;
    FirstWindow(l);
    BurstAfter([0] + Times(w, n), n, l);
  }

  lemma {:induction false} BurstAfter(first: seq<int>, n: nat, l: Limits)
    requires n < l.maxPerWindow && Alone(first, l) == (Some(Entry(1 + n, 0)), first)
    ensures var times := first + [l.windowMs + 1] + Times(l.windowMs + 1, n); Alone(times, l).1 == times
  {
    NextWindow(first, first + [l.windowMs + 1], n, l);
    SecondWindow(first + [l.windowMs + 1], l.windowMs + 1, n, l);
  }

  lemma {:induction false} SecondWindow(second: seq<int>, start: int, n: nat, l: Limits)
    requires n < l.maxPerWindow && Alone(second, l) == (Some(Entry(1, start)), second)
    ensures Alone(second + Times(start, n), l).1 == second + Times(start, n)
  {
    AllGranted(second, start, n, Entry(1, start), second, l);
  }

  lemma {:induction false} FirstWindow(l: Limits)
    requires l.maxPerWindow >= 1 && l.windowMs >= 1
    ensures var first := [0] + Times(l.windowMs, l.maxPerWindow - 1);
      Alone(first, l) == (Some(Entry(l.maxPerWindow, 0)), first)
  {
    assert Alone([0], l) == (Some(Entry(1, 0)), [0]) by {
      assert [0][..0] == [] && [] + [0] == [0];
    }
    AllGranted([0], l.windowMs, l.maxPerWindow - 1, Entry(1, 0), [0], l);
  }

  lemma {:induction false} NextWindow(first: seq<int>, second: seq<int>, n: nat, l: Limits)
    requires second == first + [l.windowMs + 1] && Alone(first, l) == (Some(Entry(1 + n, 0)), first)
    ensures Alone(second, l) == (Some(Entry(1, l.windowMs + 1)), second)
  {
    assert second[..|second| - 1] == first;
  }

  lemma {:induction false} BurstCount(n: nat, w: int)
    requires w >= 1
    ensures InInterval(Burst(n, w), w, w) == 2 * n + 1
  {
    var first := [0] + Times(w, n);
    CountTimes(first + [w + 1], w + 1, n, w, 2 * w + 1);
    CountAppend(first, w + 1, w, 2 * w + 1);
    CountTimes([0], w, n, w, 2 * w + 1);
    CountNone([0], w, 2 * w + 1);
  }

  // ---------- when the configured maximum itself is kept ----------

  /** No more grants than the configured maximum in any window length, over every run whose clock never goes back. */
  ghost predicate KeepsMaximum(l: Limits) {
    forall requests, sender, x :: NonDecreasing(TimesOf(requests, sender)) ==>
      InInterval(Grants(requests, sender, l), x, l.windowMs) <= l.maxPerWindow
  }

  /** A window of no length: the grants of one instant are those of its window. */
  ghost predicate InstantsKept(grants: seq<int>, l: Limits) {
    forall x :: InInterval(grants, x, 0) <= l.maxPerWindow
  }

  lemma {:induction false} InstantsStep(e: Entry, grants: seq<int>, now: int, l: Limits)
    requires l.windowMs == 0 && l.maxPerWindow >= 1
    requires Tracks(e, grants, l) && e.windowStart <= now && InstantsKept(grants, l)
    ensures InstantsKept(if Step(Some(e), now, l).1 then grants + [now] else grants, l)
  {
    if Step(Some(e), now, l).1 {
      if now > e.windowStart {
        CountNone(grants, now, now + 1);
      }
      assert Count(grants, now, now + 1) <= l.maxPerWindow - 1;
      forall x ensures InInterval(grants + [now], x, 0) <= l.maxPerWindow {
        assert InInterval(grants, x, 0) <= l.maxPerWindow;
        CountAppend(grants, now, x, x + 1);
      }
    }
  }

  lemma {:induction false} AloneInstants(times: seq<int>, l: Limits)
    requires NonDecreasing(times) && l.windowMs == 0 && l.maxPerWindow >= 1
    ensures InstantsKept(Alone(times, l).1, l)
    decreases times
  {
    if times != [] {
      var init, now := times[..|times| - 1], times[|times| - 1];
      assert times == init + [now];
      AloneStep(init, now, l);
      AloneInstants(init, l);
      if init == [] {
        FirstInstant(now, l);
      } else {
        AloneBounded(init, l);
        InstantsStep(Alone(init, l).0.value, Alone(init, l).1, now, l);
      }
    }
  }

  lemma {:induction false} FirstInstant(now: int, l: Limits)
    requires l.maxPerWindow >= 1
    ensures InstantsKept([] + [now], l)
  {
    forall x ensures InInterval([] + [now], x, 0) <= l.maxPerWindow {
      CountAppend([], now, x, x + 1);
    }
  }

  /** Requests of one sender at the given times. */
  function From(sender: string, times: seq<int>): seq<Request> {
    if times == [] then [] else From(sender, times[..|times| - 1]) + [Request(sender, times[|times| - 1])]
  }

  lemma {:induction false} TimesOfFrom(sender: string, times: seq<int>)
    ensures TimesOf(From(sender, times), sender) == times
    decreases times
  {
    if times != [] {
      var init := times[..|times| - 1];
      TimesOfFrom(sender, init);
      var requests := From(sender, times);
      assert requests[..|requests| - 1] == From(sender, init);
    }
  }

  lemma {:induction false} RunExceeds(times: seq<int>, x: int, l: Limits)
    requires NonDecreasing(times) && InInterval(Alone(times, l).1, x, l.windowMs) > l.maxPerWindow
    ensures !KeepsMaximum(l)
  {
    var requests := From("", times);
    TimesOfFrom("", times);
    SendersIndependent(requests, "", l);
    assert InInterval(Grants(requests, "", l), x, l.windowMs) > l.maxPerWindow;
  }

  /**
   The configured maximum holds in every interval of one window length exactly when it
   is 1, or at least 1 with a window of no length.
   */
  lemma {:induction false} KeepsMaximumIff(l: Limits)
    ensures KeepsMaximum(l) <==> l.maxPerWindow == 1 || (l.maxPerWindow > 1 && l.windowMs == 0)
  {
    if l.maxPerWindow < 1 {
      FirstExceeds(l);
      RunExceeds([0], 0, l);
    } else if l.maxPerWindow > 1 && l.windowMs > 0 {
      var times, x := BoundReached(l);
      RunExceeds(times, x, l);
    } else {
      forall requests, sender, x | NonDecreasing(TimesOf(requests, sender))
        ensures InInterval(Grants(requests, sender, l), x, l.windowMs) <= l.maxPerWindow
      {
        RateBound(requests, sender, l, x);
        SendersIndependent(requests, sender, l);
        if l.windowMs == 0 {
          AloneInstants(TimesOf(requests, sender), l);
        }
      }
    }
  }

  /** A new window grants its first request even when nothing is allowed. */
  lemma {:induction false} FirstExceeds(l: Limits)
    ensures InInterval(Alone([0], l).1, 0, l.windowMs) == 1
  {
    AloneStep([], 0, l);
    assert [] + [0] == [0];
    CountAppend([], 0, 0, l.windowMs + 1);
  }

  // ---------- who is refused ----------

  /**
   A request is refused exactly when it falls into the window that an earlier grant
   opened, ends included, and that window has the maximum of grants already.
   */
  lemma {:induction false} RefusedIff(requests: seq<Request>, sender: string, now: int, l: Limits)
    requires NonDecreasing(TimesOf(requests, sender))
    ensures sender in Storage(requests, l) ==> Storage(requests, l)[sender].windowStart in Grants(requests, sender, l)
    ensures Grants(requests + [Request(sender, now)], sender, l) == Grants(requests, sender, l) <==>
      FullWindow(Get(Storage(requests, l), sender), Grants(requests, sender, l), now, l)
  {
    SendersIndependent(requests, sender, l);
    AloneOpening(TimesOf(requests, sender), l);
    RateBound(requests, sender, l, 0);
    OneMoreGrant(requests, sender, now, l);
    StepRefuses(Get(Storage(requests, l), sender), Grants(requests, sender, l), now, l);
  }

  /** The window is open at `now` and has its maximum of grants. */
  ghost predicate FullWindow(entry: Option<Entry>, grants: seq<int>, now: int, l: Limits) {
    entry.Some? &&
    var ws := entry.value.windowStart;
    now <= ws + l.windowMs && InInterval(grants, ws, l.windowMs) >= l.maxPerWindow
  }

  lemma {:induction false} StepRefuses(entry: Option<Entry>, grants: seq<int>, now: int, l: Limits)
    requires entry.Some? ==> entry.value.count == InInterval(grants, entry.value.windowStart, l.windowMs)
    ensures !Step(entry, now, l).1 <==> FullWindow(entry, grants, now, l)
  {}

  lemma {:induction false} OneMoreGrant(requests: seq<Request>, sender: string, now: int, l: Limits)
    ensures Grants(requests + [Request(sender, now)], sender, l) == Grants(requests, sender, l) <==>
      !Step(Get(Storage(requests, l), sender), now, l).1
  {
    var next := requests + [Request(sender, now)];
    assert next[..|requests|] == requests && next[|requests|] == Request(sender, now);
    assert |Grants(requests, sender, l) + [now]| != |Grants(requests, sender, l)|;
  }

  lemma {:induction false} AloneOpening(times: seq<int>, l: Limits)
    requires NonDecreasing(times)
    ensures Alone(times, l).0.Some? ==> Alone(times, l).0.value.windowStart in Alone(times, l).1
  {
    if times != [] {
      AloneBounded(times, l);
      OpeningGranted(Alone(times, l).0.value, Alone(times, l).1, l);
    }
  }

  lemma {:induction false} OpeningGranted(e: Entry, grants: seq<int>, l: Limits)
    requires Tracks(e, grants, l)
    ensures e.windowStart in grants
  {
    if e.windowStart !in grants {
      CountNone(grants, e.windowStart, e.windowStart + 1);
    }
  }
}
