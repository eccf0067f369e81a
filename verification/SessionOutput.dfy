/**
 Output buffers of a sandbox session: a pending buffer that polls drain and a capped
 buffer that keeps the recent output. What clients see agrees with the full output.
 */
module SessionOutput {
  import opened Sequences

  const MAX_OUTPUT_CHARS := 204_800
  const TAIL_CHARS := 2000

  datatype Buffers = Buffers(output: string, pendingBuffer: string, outputBytes: nat, truncated: bool)

  /** What a poll answers. */
  datatype PollReply = PollReply(pending: string, tail: string, outputBytes: nat, truncated: bool)

  function Append(b: Buffers, data: string): Buffers {
    var output := b.output + data;
    var over := |output| > MAX_OUTPUT_CHARS;
    Buffers(if over then output[|output| - MAX_OUTPUT_CHARS / 2..] else output,
            b.pendingBuffer + data, b.outputBytes + |data|, b.truncated || over)
  }

  function Poll(b: Buffers): (Buffers, PollReply) {
    (b.(pendingBuffer := ""), PollReply(b.pendingBuffer, LastOf(b.output, TAIL_CHARS), b.outputBytes, b.truncated))
  }

  class Session {
    var output: string
    var pendingBuffer: string
    var outputBytes: nat
    var truncated: bool

    function State(): Buffers
      reads this
    {
      Buffers(output, pendingBuffer, outputBytes, truncated)
    }

    constructor ()
      ensures State() == Buffers("", "", 0, false)
    {
      output, pendingBuffer, outputBytes, truncated := "", "", 0, false;
    }

    method AppendSessionOutput(data: string)
      modifies this
      ensures State() == Append(old(State()), data)
    {
      pendingBuffer := pendingBuffer + data;
      output := output + data;
      outputBytes := outputBytes + |data|;
      if |output| > MAX_OUTPUT_CHARS {
        output := output[|output| - MAX_OUTPUT_CHARS / 2..];
        truncated := true;
      }
    }

    /** `slice(-0)` takes everything. */
    method SessionTail(chars: nat) returns (tail: string)
      ensures tail == if chars == 0 then output else LastOf(output, chars)
    {
      if |output| <= chars {
        return output;
      }
      return if chars == 0 then output else output[|output| - chars..];
    }

    method DrainForPoll() returns (reply: PollReply)
      modifies this
      ensures (State(), reply) == Poll(old(State()))
    {
      var pending := pendingBuffer;
      pendingBuffer := "";
      var tail := SessionTail(TAIL_CHARS);
      reply := PollReply(pending, tail, outputBytes, truncated);
    }
  }

  // ---------- runs ----------

  datatype Event = Data(data: string) | Polled

  /** The buffers and the replies after the events. */
  function Run(events: seq<Event>): (Buffers, seq<PollReply>) {
    if events == [] then (Buffers("", "", 0, false), [])
    else
      var (b, replies) := Run(events[..|events| - 1]);
      match events[|events| - 1]
      case Data(data) => (Append(b, data), replies)
      case Polled => var (b', reply) := Poll(b); (b', replies + [reply])
  }

  /** Everything the process ever wrote. */
  function FullOutput(events: seq<Event>): string {
    if events == [] then ""
    else
      FullOutput(events[..|events| - 1]) +
      match events[|events| - 1] case Data(data) => data case Polled => ""
  }

  function AllPending(replies: seq<PollReply>): string {
    if replies == [] then "" else AllPending(replies[..|replies| - 1]) + replies[|replies| - 1].pending
  }

  /** The capped buffer is a long enough end of the full output. */
  ghost predicate Capped(b: Buffers, full: string) {
    && |b.output| <= MAX_OUTPUT_CHARS && |b.output| <= |full|
    && b.output == full[|full| - |b.output|..]
    && (b.truncated <==> |full| > MAX_OUTPUT_CHARS)
    && (if b.truncated then |b.output| >= MAX_OUTPUT_CHARS / 2 else b.output == full)
    && b.outputBytes == |full|
  }

  lemma {:induction false} AppendKeepsCapped(b: Buffers, full: string, data: string)
    requires Capped(b, full)
    ensures Capped(Append(b, data), full + data)
  {
    var output := b.output + data;
    assert output == (full + data)[|full| - |b.output|..];
    if |output| > MAX_OUTPUT_CHARS {
      var cut := |output| - MAX_OUTPUT_CHARS / 2;
      assert output[cut..] == (full + data)[|full| - |b.output| + cut..];
    }
  }

  lemma {:induction false} CappedTail(b: Buffers, full: string)
    requires Capped(b, full)
    ensures LastOf(b.output, TAIL_CHARS) == LastOf(full, TAIL_CHARS)
  {}

  /** Nothing is lost or repeated, and the capped buffer is a suffix. */
  ghost predicate Faithful(b: Buffers, replies: seq<PollReply>, full: string) {
    Capped(b, full) && AllPending(replies) + b.pendingBuffer == full
  }

  lemma {:induction false} AppendFaithful(b: Buffers, replies: seq<PollReply>, full: string, data: string)
    requires Faithful(b, replies, full)
    ensures Faithful(Append(b, data), replies, full + data)
  {
    AppendKeepsCapped(b, full, data);
    assert AllPending(replies) + (b.pendingBuffer + data) == (AllPending(replies) + b.pendingBuffer) + data;
  }

  lemma {:induction false} PollKeepsFaithful(b: Buffers, replies: seq<PollReply>, full: string)
    requires Faithful(b, replies, full)
    ensures Faithful(Poll(b).0, replies + [Poll(b).1], full + "")
  {
    assert (replies + [Poll(b).1])[..|replies|] == replies;
    assert full + "" == full;
  }

  /** After any appends and polls the buffers and the replies are faithful to the full output. */
  lemma {:induction false} RunFaithful(events: seq<Event>)
    ensures Faithful(Run(events).0, Run(events).1, FullOutput(events))
    decreases events
  {
    if events != [] {
      var init := events[..|events| - 1];
      RunFaithful(init);
      match events[|events| - 1]
      case Data(data) => AppendFaithful(Run(init).0, Run(init).1, FullOutput(init), data);
      case Polled => PollKeepsFaithful(Run(init).0, Run(init).1, FullOutput(init));
    }
  }

  /** A poll after any events answers with the true tail, byte count and truncation of the full output. */
  lemma {:induction false} PollFaithful(events: seq<Event>)
    ensures var full := FullOutput(events);
      var reply := Poll(Run(events).0).1;
      && reply.tail == LastOf(full, TAIL_CHARS)
      && reply.outputBytes == |full|
      && (reply.truncated <==> |full| > MAX_OUTPUT_CHARS)
      && AllPending(Run(events).1) + reply.pending == full
  {
    RunFaithful(events);
    CappedTail(Run(events).0, FullOutput(events));
  }

  /** How long the capped buffer is: it grows with the output and is cut to half the cap when it exceeds the cap. */
  function BufferLength(events: seq<Event>): nat {
    if events == [] then 0
    else
      var before := BufferLength(events[..|events| - 1]);
      match events[|events| - 1]
      case Polled => before
      case Data(data) => if before + |data| > 204_800 then 102_400 else before + |data|
  }

  /** After any appends and polls the capped buffer is the end of the full output of just that length. */
  lemma {:induction false} BufferExact(events: seq<Event>)
    ensures var full, output := FullOutput(events), Run(events).0.output;
      |output| == BufferLength(events) <= |full| && output == full[|full| - BufferLength(events)..]
    decreases events
  {
    RunFaithful(events);
    if events != [] {
      BufferExact(events[..|events| - 1]);
    }
  }
}
