/**
 Doom-loop detection: per session a bounded window of recent tool calls is kept, and
 a call is blocked when the tail of the window repeats it often enough. The window
 decides exactly like the unbounded history.
 */
module DoomLoop {
  import opened Option
  import opened Sequences
  import opened StableStringify

  /** The record kept of a call; calls are compared by name and signature. */
  datatype Record = Record(toolName: string, argsSignature: string)

  datatype Call = Call(toolName: string, args: Json)

  datatype Config = Config(threshold: nat, lookbackWindow: nat, allowRepeatTools: seq<string>)

  function RecordOf(c: Call): Record
    requires WellFormed(c.args)
  {
    Record(c.toolName, Stringify(c.args))
  }

  /** How many records at the tail equal `r`. */
  function TailCount(recent: seq<Record>, r: Record): (n: nat)
    ensures n <= |recent|
  {
    if recent == [] || recent[|recent| - 1] != r then 0
    else 1 + TailCount(recent[..|recent| - 1], r)
  }

  /** Shifting out the oldest of too many elements keeps the last `n`. */
  lemma {:induction false} LastOfTail<T>(xs: seq<T>, n: nat)
    requires |xs| > n
    ensures LastOf(xs[1..], n) == LastOf(xs, n)
  {}

  class Detector {
    /** The stored window of each session. */
    var windows: map<string, seq<Record>>

    constructor ()
      ensures windows == map[]
    {
      windows := map[];
    }

    function Recent(session: string): seq<Record>
      reads this
    {
      if session in windows then windows[session] else []
    }

    method RecordToolCall(session: string, c: Call, lookbackWindow: nat)
      requires WellFormed(c.args)
      modifies this
      ensures windows == old(windows)[session := LastOf(old(Recent(session)) + [RecordOf(c)], lookbackWindow)]
    {
      var recent := Recent(session);
      recent := recent + [Record(c.toolName, Stringify(c.args))];
      ghost var all := Recent(session) + [RecordOf(c)];
      while |recent| > lookbackWindow
        invariant windows == old(windows) && LastOf(recent, lookbackWindow) == LastOf(all, lookbackWindow)
      {
        LastOfTail(recent, lookbackWindow);
        recent := recent[1..];
      }
      windows := windows[session := recent];
    }

    /** The hook before a tool runs: None lets the call through, Some(n) blocks it as the n-th repetition. */
    method BeforeToolExecution(session: string, c: Call, cfg: Config) returns (blocked: Option<nat>)
      requires WellFormed(c.args)
      modifies this
      ensures windows == old(windows)[session := LastOf(old(Recent(session)) + [RecordOf(c)], cfg.lookbackWindow)]
      ensures blocked == Decide(old(Recent(session)), c, cfg)
    {
      if c.toolName in cfg.allowRepeatTools {
        RecordToolCall(session, c, cfg.lookbackWindow);
        return None;
      }
      var argsSignature := Stringify(c.args);
      var recentCalls := Recent(session);
      var consecutiveCount := 0;
      var i := |recentCalls| - 1;
      assert recentCalls[..|recentCalls|] == recentCalls;
      while i >= 0
        invariant -1 <= i < |recentCalls| && consecutiveCount >= 0
        invariant consecutiveCount + TailCount(recentCalls[..i + 1], RecordOf(c)) == TailCount(recentCalls, RecordOf(c))
      {
        assert recentCalls[..i + 1][..i] == recentCalls[..i];
        if recentCalls[i].toolName == c.toolName && recentCalls[i].argsSignature == argsSignature {
          consecutiveCount := consecutiveCount + 1;
        } else {
          assert TailCount(recentCalls[..i + 1], RecordOf(c)) == 0;
          break;
        }
        i := i - 1;
      }
      RecordToolCall(session, c, cfg.lookbackWindow);
      if consecutiveCount + 1 >= cfg.threshold {
        return Some(consecutiveCount + 1);
      }
      return None;
    }
  }

  /** The decision for a call, given the window before it. */
  function Decide(recent: seq<Record>, c: Call, cfg: Config): Option<nat>
    requires WellFormed(c.args)
  {
    if c.toolName in cfg.allowRepeatTools then None
    else
      var count := TailCount(recent, RecordOf(c)) + 1;
      if count >= cfg.threshold then Some(count) else None
  }

  // ---------- runs ----------

  /** A call made in a session. */
  datatype Event = Event(session: string, call: Call)

  ghost predicate AllWellFormed(events: seq<Event>) {
    forall k :: 0 <= k < |events| ==> WellFormed(events[k].call.args)
  }

  /** The window of a session after the events. */
  function Window(events: seq<Event>, session: string, cfg: Config): seq<Record>
    requires AllWellFormed(events)
  {
    if events == [] then []
    else
      var e, before := events[|events| - 1], Window(events[..|events| - 1], session, cfg);
      if e.session == session then LastOf(before + [RecordOf(e.call)], cfg.lookbackWindow) else before
  }

  /** All calls of a session, never truncated. */
  function History(events: seq<Event>, session: string): seq<Call> {
    if events == [] then []
    else
      var e, before := events[|events| - 1], History(events[..|events| - 1], session);
      if e.session == session then before + [e.call] else before
  }

  ghost predicate CallsWellFormed(cs: seq<Call>) {
    forall k :: 0 <= k < |cs| ==> WellFormed(cs[k].args)
  }

  function Records(cs: seq<Call>): (r: seq<Record>)
    requires CallsWellFormed(cs)
    ensures |r| == |cs| && forall k :: 0 <= k < |r| ==> r[k] == RecordOf(cs[k])
  {
    seq(|cs|, k requires 0 <= k < |cs| => RecordOf(cs[k]))
  }

  lemma {:induction false} HistoryWellFormed(events: seq<Event>, session: string)
    requires AllWellFormed(events)
    ensures CallsWellFormed(History(events, session))
    decreases events
  {
    if events != [] {
      HistoryWellFormed(events[..|events| - 1], session);
    }
  }

  /** The window is always the end of the session's history. */
  lemma {:induction false} WindowIsSuffix(events: seq<Event>, session: string, cfg: Config)
    requires AllWellFormed(events)
    ensures CallsWellFormed(History(events, session))
    ensures Window(events, session, cfg) == LastOf(Records(History(events, session)), cfg.lookbackWindow)
    decreases events
  {
    HistoryWellFormed(events, session);
    if events != [] {
      var init := events[..|events| - 1];
      WindowIsSuffix(init, session, cfg);
      if events[|events| - 1].session == session {
        var hist := History(init, session);
        var c := events[|events| - 1].call;
        assert Records(hist + [c]) == Records(hist) + [RecordOf(c)];
        LastOfAppend(Records(hist), RecordOf(c), cfg.lookbackWindow);
      }
    }
  }

  lemma {:induction false} LastOfAppend<T>(xs: seq<T>, x: T, n: nat)
    ensures LastOf(LastOf(xs, n) + [x], n) == LastOf(xs + [x], n)
  {}

  lemma {:induction false} TailCountAtLeast(recent: seq<Record>, r: Record, n: nat)
    ensures TailCount(recent, r) >= n <==> EndsWith(recent, r, n)
    decreases recent
  {
    if n > 0 && recent != [] {
      var m := |recent| - 1;
      if recent[m] == r {
        TailCountAtLeast(recent[..m], r, n - 1);
        assert forall k :: 0 <= k < m ==> recent[..m][k] == recent[k];
      }
    }
  }

  /** The last `n` calls exist and repeat `c`: same tool, arguments equal up to key order. */
  ghost predicate RepeatedBefore(history: seq<Call>, c: Call, n: nat) {
    n <= |history| &&
    forall k :: |history| - n <= k < |history| ==>
      history[k].toolName == c.toolName && Same(history[k].args, c.args)
  }

  /**
   After any events in any sessions, a call to a tool that may not repeat is blocked
   exactly when the window is long enough and the last threshold-1 calls of the whole
   history of its session repeat it; a shorter window never blocks anything.
   */
  lemma {:induction false} BlockedIff(events: seq<Event>, session: string, c: Call, cfg: Config)
    requires AllWellFormed(events) && WellFormed(c.args)
    ensures var need := if cfg.threshold == 0 then 0 else cfg.threshold - 1;
      Decide(Window(events, session, cfg), c, cfg).Some? <==>
      c.toolName !in cfg.allowRepeatTools && need <= cfg.lookbackWindow &&
      RepeatedBefore(History(events, session), c, need)
  {
    var need := if cfg.threshold == 0 then 0 else cfg.threshold - 1;
    var window, history := Window(events, session, cfg), History(events, session);
    WindowIsSuffix(events, session, cfg);
    TailCountAtLeast(window, RecordOf(c), need);
    LastOfEndsWith(Records(history), RecordOf(c), need, cfg.lookbackWindow);
    RecordsEndWith(history, c, need);
  }

  /** The last `n` elements exist and equal `x`. */
  ghost predicate EndsWith<T>(xs: seq<T>, x: T, n: nat) {
    n <= |xs| && forall k :: |xs| - n <= k < |xs| ==> xs[k] == x
  }

  lemma {:induction false} LastOfEndsWith<T>(xs: seq<T>, x: T, n: nat, lookback: nat)
    ensures EndsWith(LastOf(xs, lookback), x, n) <==> n <= lookback && EndsWith(xs, x, n)
  {
    var last := LastOf(xs, lookback);
    var skipped := |xs| - |last|;
    assert forall k :: skipped <= k < |xs| ==> xs[k] == last[k - skipped];
    assert forall k :: 0 <= k < |last| ==> last[k] == xs[k + skipped];
  }

  /** Records tell calls apart up to the key order of their arguments. */
  lemma {:induction false} SameRecord(c: Call, d: Call)
    requires WellFormed(c.args) && WellFormed(d.args)
    ensures RecordOf(c) == RecordOf(d) <==> c.toolName == d.toolName && Same(c.args, d.args)
  {
    StringifyCanonical(c.args, d.args);
  }

  lemma {:induction false} RecordsEndWith(history: seq<Call>, c: Call, n: nat)
    requires CallsWellFormed(history) && WellFormed(c.args)
    ensures EndsWith(Records(history), RecordOf(c), n) <==> RepeatedBefore(history, c, n)
  {
    forall k | 0 <= k < |history|
      ensures Records(history)[k] == RecordOf(c) <==>
        history[k].toolName == c.toolName && Same(history[k].args, c.args)
    {
      SameRecord(history[k], c);
    }
  }

  /**
   The count that a blocked call is told is one more than the number of calls it repeats:
   the last count-1 calls of the whole history repeat it and, unless the window ends
   there, the one before them does not.
   */
  lemma {:induction false} BlockedCount(events: seq<Event>, session: string, c: Call, cfg: Config)
    requires AllWellFormed(events) && WellFormed(c.args)
    requires Decide(Window(events, session, cfg), c, cfg).Some?
    ensures var count := Decide(Window(events, session, cfg), c, cfg).value;
      && count >= 1 && count >= cfg.threshold && count - 1 <= cfg.lookbackWindow
      && RepeatedBefore(History(events, session), c, count - 1)
      && (count <= cfg.lookbackWindow ==> !RepeatedBefore(History(events, session), c, count))
  {
    var window, history := Window(events, session, cfg), History(events, session);
    var n := TailCount(window, RecordOf(c));
    WindowIsSuffix(events, session, cfg);
    TailRepeats(window, history, c, n, cfg.lookbackWindow);
    TailRepeats(window, history, c, n + 1, cfg.lookbackWindow);
  }

  lemma {:induction false} TailRepeats(window: seq<Record>, history: seq<Call>, c: Call, n: nat, lookback: nat)
    requires CallsWellFormed(history) && WellFormed(c.args) && window == LastOf(Records(history), lookback)
    ensures TailCount(window, RecordOf(c)) >= n <==> n <= lookback && RepeatedBefore(history, c, n)
  {
    TailCountAtLeast(window, RecordOf(c), n);
    LastOfEndsWith(Records(history), RecordOf(c), n, lookback);
    RecordsEndWith(history, c, n);
  }
}
