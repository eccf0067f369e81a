/**
 What the chunks of a document promise: line ranges in order, every line covered,
 bounded size, overlap, and that reading the line range back gives the chunk's
 lines.
 */
module ChunkTheorems {
  import opened Text
  import opened Paragraphs
  import opened Chunker

  // ---------- spans ----------

  /** Span `k` is grown from its start; the next one restarts from it, unless it ends the document. */
  ghost predicate StepAt(ps: seq<Paragraph>, spans: seq<Span>, k: nat)
    requires k < |spans|
  {
    && spans[k].first < spans[k].last <= |ps|
    && spans[k].last == Grow(ps, spans[k].first, spans[k].first + 1)
    && (k + 1 < |spans| <==> spans[k].last < |ps|)
    && (k + 1 < |spans| ==> spans[k + 1].first == Restart(ps, spans[k].first, spans[k].last))
  }

  ghost predicate Tiled(ps: seq<Paragraph>, spans: seq<Span>, i: nat) {
    && spans != [] && spans[0].first == i
    && forall k :: 0 <= k < |spans| ==> StepAt(ps, spans, k)
  }

  lemma {:induction false} StepShift(ps: seq<Paragraph>, s: Span, spans: seq<Span>, k: nat)
    requires k < |spans| && StepAt(ps, spans, k)
    ensures StepAt(ps, [s] + spans, k + 1)
  {
    assert ([s] + spans)[k + 1] == spans[k];
    assert k + 1 < |spans| ==> ([s] + spans)[k + 2] == spans[k + 1];
  }

  lemma {:induction false} StepFirst(ps: seq<Paragraph>, s: Span, spans: seq<Span>)
    requires s.first < s.last < |ps| && s.last == Grow(ps, s.first, s.first + 1)
    requires spans != [] && spans[0].first == Restart(ps, s.first, s.last)
    ensures StepAt(ps, [s] + spans, 0)
  {
    assert ([s] + spans)[1] == spans[0];
  }

  lemma {:induction false} TiledCons(ps: seq<Paragraph>, s: Span, spans: seq<Span>)
    requires s.first < s.last < |ps| && s.last == Grow(ps, s.first, s.first + 1)
    requires Tiled(ps, spans, Restart(ps, s.first, s.last))
    ensures Tiled(ps, [s] + spans, s.first)
  {
    StepFirst(ps, s, spans);
    forall k | 0 < k < |[s] + spans| ensures StepAt(ps, [s] + spans, k) {
      StepShift(ps, s, spans, k - 1);
    }
  }

  lemma {:induction false} SpansTiled(ps: seq<Paragraph>, i: nat)
    requires i < |ps|
    ensures Tiled(ps, Spans(ps, i), i)
    decreases |ps| - i
  {
    var j := Grow(ps, i, i + 1);
    if j < |ps| {
      SpansTiled(ps, Restart(ps, i, j));
      TiledCons(ps, Span(i, j), Spans(ps, Restart(ps, i, j)));
      assert Spans(ps, i) == [Span(i, j)] + Spans(ps, Restart(ps, i, j));
    } else {
      assert Spans(ps, i) == [Span(i, j)];
      assert StepAt(ps, [Span(i, j)], 0);
    }
  }

  /** The spans from `a` on reach every later paragraph. */
  lemma {:induction false} SpanCovers(ps: seq<Paragraph>, spans: seq<Span>, i: nat, a: nat, q: nat) returns (k: nat)
    requires Tiled(ps, spans, i) && a < |spans| && spans[a].first <= q < |ps|
    ensures a <= k < |spans| && spans[k].first <= q < spans[k].last
    decreases |spans| - a
  {
    assert StepAt(ps, spans, a);
    if q < spans[a].last {
      return a;
    }
    k := SpanCovers(ps, spans, i, a + 1, q);
  }

  lemma {:induction false} GrownText(ps: seq<Paragraph>, i: nat, j: nat)
    requires i < j <= |ps| && (j > i + 1 ==> |ChunkText(ps, i, j)| <= CHUNK_SIZE_CHARS)
    ensures var e := Grow(ps, i, j);
      && (e > i + 1 ==> |ChunkText(ps, i, e)| <= CHUNK_SIZE_CHARS)
      && (e < |ps| ==> |ChunkText(ps, i, e + 1)| > CHUNK_SIZE_CHARS)
    decreases |ps| - j
  {
    if j < |ps| && |ChunkText(ps, i, j + 1)| <= CHUNK_SIZE_CHARS {
      GrownText(ps, i, j + 1);
    }
  }

  /** A part of a chunk is no longer than the chunk. */
  lemma {:induction false} PartIsShorter(ps: seq<Paragraph>, i: nat, n: nat, m: nat, j: nat)
    requires i <= n < m <= j <= |ps|
    ensures |ChunkText(ps, n, m)| <= |ChunkText(ps, i, j)|
    decreases (n - i) + (j - m)
  {
    if i < n {
      PartIsShorter(ps, i + 1, n, m, j);
      ChunkTextPrepend(ps, i, j);
    } else if m < j {
      PartIsShorter(ps, i, n, m, j - 1);
      ChunkTextAppend(ps, i, j - 1);
    }
  }

  /** Growing reaches any end whose text fits. */
  lemma {:induction false} GrowReaches(ps: seq<Paragraph>, i: nat, j: nat, e: nat)
    requires i < j <= e <= |ps|
    requires forall m :: j < m <= e ==> |ChunkText(ps, i, m)| <= CHUNK_SIZE_CHARS
    ensures Grow(ps, i, j) >= e
    decreases e - j
  {
    if j < e {
      GrowReaches(ps, i, j + 1, e);
    }
  }

  /** The next chunk reaches at least as far as the one before it. */
  lemma {:induction false} NextReaches(ps: seq<Paragraph>, i: nat)
    requires i < |ps| && Grow(ps, i, i + 1) < |ps|
    ensures var j := Grow(ps, i, i + 1);
      var n := Restart(ps, i, j);
      Grow(ps, n, n + 1) >= j
  {
    var j := Grow(ps, i, i + 1);
    var n := Restart(ps, i, j);
    if n < j {
      GrownText(ps, i, i + 1);
      forall m | n + 1 < m <= j ensures |ChunkText(ps, n, m)| <= CHUNK_SIZE_CHARS {
        PartIsShorter(ps, i, n, m, j);
      }
      GrowReaches(ps, n, n + 1, j);
    }
  }

  lemma {:induction false} NextSpan(ps: seq<Paragraph>, spans: seq<Span>, i: nat, b: nat)
    requires Tiled(ps, spans, i) && b + 1 < |spans|
    ensures spans[b].first < spans[b + 1].first < |ps|
    ensures spans[b].last <= spans[b + 1].last <= |ps|
  {
    assert StepAt(ps, spans, b) && StepAt(ps, spans, b + 1);
    NextReaches(ps, spans[b].first);
  }

  lemma {:induction false} SpansOrdered(ps: seq<Paragraph>, spans: seq<Span>, i: nat, a: nat, b: nat)
    requires Tiled(ps, spans, i) && a < b < |spans|
    ensures spans[a].first < spans[b].first < |ps|
    ensures spans[a].last <= spans[b].last <= |ps|
    decreases b
  {
    NextSpan(ps, spans, i, b - 1);
    if a < b - 1 {
      SpansOrdered(ps, spans, i, a, b - 1);
    }
  }

  // ---------- line ranges ----------

  /** The chunk `c` is made from the span `s`. */
  ghost predicate HasRange(ps: seq<Paragraph>, s: Span, c: Chunk) {
    && s.first < s.last <= |ps|
    && c.startLine == ps[s.first].startLine && c.endLine == ps[s.last - 1].endLine
  }

  ghost predicate HasText(ps: seq<Paragraph>, s: Span, c: Chunk) {
    s.first < s.last <= |ps| && c.content == Trim(ChunkText(ps, s.first, s.last))
  }

  /** The parts of the chunker's result that the theorems below speak about. */
  lemma {:induction false} ChunkAt(content: string, hash: HashFn, k: nat)
    returns (lines: seq<string>, ps: seq<Paragraph>, spans: seq<Span>)
    requires k < |Chunks(content, hash)|
    ensures lines != [] && forall q :: 0 <= q < |lines| ==> '\n' !in lines[q]
    ensures lines == SplitLines(content) && ps == ParagraphsOf(content) && spans == Spans(ps, 0)
    ensures Placed(lines, ps) && Tiled(ps, spans, 0) && |spans| == |Chunks(content, hash)|
    ensures HasRange(ps, spans[k], Chunks(content, hash)[k])
    ensures HasText(ps, spans[k], Chunks(content, hash)[k])
  {
    lines, ps := SplitLines(content), ParagraphsOf(content);
    spans := Spans(ps, 0);
    ParagraphsPlaced(lines);
    SpansInRange(ps, 0);
    SpansTiled(ps, 0);
  }

  /** Start lines strictly increase (so they identify chunks); end lines never go back. */
  lemma {:induction false} ChunkLinesOrdered(content: string, hash: HashFn, a: nat, b: nat)
    requires a < b < |Chunks(content, hash)|
    ensures var cs := Chunks(content, hash);
      cs[a].startLine < cs[b].startLine && cs[a].endLine <= cs[b].endLine
  {
    var _, _, _ := ChunkAt(content, hash, a);
    var lines, ps, spans := ChunkAt(content, hash, b);
    LinesOrdered(lines, ps, spans, a, b, Chunks(content, hash)[a], Chunks(content, hash)[b]);
  }

  lemma {:induction false} LinesOrdered(
      lines: seq<string>, ps: seq<Paragraph>, spans: seq<Span>, a: nat, b: nat, c: Chunk, d: Chunk)
    requires Placed(lines, ps) && Tiled(ps, spans, 0) && a < b < |spans|
    requires HasRange(ps, spans[a], c) && HasRange(ps, spans[b], d)
    ensures c.startLine < d.startLine && c.endLine <= d.endLine
  {
    SpansOrdered(ps, spans, 0, a, b);
    RangesOrdered(lines, ps, spans[a], spans[b]);
  }

  lemma {:induction false} RangesOrdered(lines: seq<string>, ps: seq<Paragraph>, s: Span, t: Span)
    requires Placed(lines, ps) && s.first < s.last <= t.last <= |ps| && s.first < t.first < t.last
    ensures ps[s.first].startLine < ps[t.first].startLine && ps[s.last - 1].endLine <= ps[t.last - 1].endLine
  {
    PlacedRange(lines, ps, s.first);
    PlacedOrder(lines, ps, s.first, t.first);
    PlacedRange(lines, ps, t.last - 1);
    if s.last < t.last {
      PlacedOrder(lines, ps, s.last - 1, t.last - 1);
    }
  }

  /** Every non-blank line lies in the line range of some chunk. */
  lemma {:induction false} EveryLineChunked(content: string, hash: HashFn, line: nat) returns (k: nat)
    requires line < |SplitLines(content)| && !Blank(SplitLines(content)[line])
    ensures k < |Chunks(content, hash)|
    ensures var c := Chunks(content, hash)[k]; c.startLine <= line + 1 <= c.endLine
  {
    var all, blocks := SplitLines(content), ParagraphsOf(content);
    ParagraphsLayout(all, 0);
    var q := LayoutCovers(all, blocks, 0, line);
    SpansInRange(blocks, 0);
    var lines, ps, spans := ChunkAt(content, hash, 0);
    k := SpanCovers(ps, spans, 0, 0, q);
    var _, _, _ := ChunkAt(content, hash, k);
    ParagraphInRange(lines, ps, spans[k], q);
  }

  lemma {:induction false} ParagraphInRange(lines: seq<string>, ps: seq<Paragraph>, s: Span, q: nat)
    requires Placed(lines, ps) && s.first <= q < s.last <= |ps|
    ensures ps[s.first].startLine <= ps[q].startLine && ps[q].endLine <= ps[s.last - 1].endLine
  {
    PlacedRange(lines, ps, s.first);
    PlacedRange(lines, ps, s.last - 1);
    if s.first < q {
      PlacedOrder(lines, ps, s.first, q);
    }
    if q < s.last - 1 {
      PlacedOrder(lines, ps, q, s.last - 1);
    }
  }

  lemma {:induction false} TrimShortens(s: string)
    ensures |Trim(s)| <= |s|
  {
    TrimStartShortens(s);
    TrimEndShortens(TrimStart(s));
  }

  lemma {:induction false} TrimStartShortens(s: string)
    ensures |TrimStart(s)| <= |s|
    decreases s
  {
    if s != [] && IsSpace(s[0]) {
      TrimStartShortens(s[1..]);
    }
  }

  lemma {:induction false} TrimEndShortens(s: string)
    ensures |TrimEnd(s)| <= |s|
    decreases s
  {
    if s != [] && IsSpace(s[|s| - 1]) {
      TrimEndShortens(s[..|s| - 1]);
    }
  }

  /** At most 1600 characters or a single paragraph, and one more paragraph would not fit. */
  ghost predicate WellSized(ps: seq<Paragraph>, s: Span, c: Chunk) {
    && s.first < s.last <= |ps|
    && (|c.content| <= CHUNK_SIZE_CHARS || s.last == s.first + 1)
    && (s.last < |ps| ==> |ChunkText(ps, s.first, s.last + 1)| > CHUNK_SIZE_CHARS)
  }

  /** Every chunk keeps the size limit unless it is a single paragraph, and is as large as the limit allows. */
  lemma {:induction false} ChunkSize(content: string, hash: HashFn, k: nat)
    requires k < |Chunks(content, hash)|
    ensures k < |Spans(ParagraphsOf(content), 0)|
    ensures WellSized(ParagraphsOf(content), Spans(ParagraphsOf(content), 0)[k], Chunks(content, hash)[k])
  {
    var lines, ps, spans := ChunkAt(content, hash, k);
    SizeAt(ps, spans, k, Chunks(content, hash)[k]);
  }

  lemma {:induction false} SizeAt(ps: seq<Paragraph>, spans: seq<Span>, k: nat, c: Chunk)
    requires Tiled(ps, spans, 0) && k < |spans| && HasText(ps, spans[k], c)
    ensures WellSized(ps, spans[k], c)
  {
    assert StepAt(ps, spans, k);
    SpanSize(ps, spans[k]);
  }

  lemma {:induction false} SpanSize(ps: seq<Paragraph>, s: Span)
    requires s.first < s.last <= |ps| && s.last == Grow(ps, s.first, s.first + 1)
    ensures |Trim(ChunkText(ps, s.first, s.last))| <= CHUNK_SIZE_CHARS || s.last == s.first + 1
    ensures s.last < |ps| ==> |ChunkText(ps, s.first, s.last + 1)| > CHUNK_SIZE_CHARS
  {
    GrownText(ps, s.first, s.first + 1);
    TrimShortens(ChunkText(ps, s.first, s.last));
  }

  // ---------- overlap ----------

  /** Characters the overlap loop counts for paragraphs n..j. */
  function OverlapSize(ps: seq<Paragraph>, n: nat, j: nat): nat
    requires n <= j <= |ps|
    decreases j - n
  {
    if n == j then 0 else |ps[n].text| + 2 + OverlapSize(ps, n + 1, j)
  }

  lemma {:induction false} BackUpExact(ps: seq<Paragraph>, i: nat, k: nat, j: nat)
    requires i <= k < j <= |ps|
    requires k + 1 < j ==> OverlapSize(ps, k + 2, j) < OVERLAP_CHARS
    ensures var n := BackUp(ps, i, k, OverlapSize(ps, k + 1, j), k + 1);
      && i < n <= k + 1
      && (n > i + 1 ==> OverlapSize(ps, n, j) >= OVERLAP_CHARS)
      && (n < j ==> OverlapSize(ps, n + 1, j) < OVERLAP_CHARS)
    decreases k
  {
    if k > i && OverlapSize(ps, k + 1, j) < OVERLAP_CHARS {
      assert OverlapSize(ps, k, j) == OverlapSize(ps, k + 1, j) + |ps[k].text| + 2;
      BackUpExact(ps, i, k - 1, j);
    }
  }

  /**
   A chunk restarting at `n` after the span `s` overlaps it in the fewest trailing
   paragraphs that make up 320 characters, but never in the whole span; so a span of
   two or more paragraphs shares at least one, and a single paragraph none.
   */
  ghost predicate Overlaps(ps: seq<Paragraph>, s: Span, n: nat) {
    && s.first < n <= s.last <= |ps|
    && (n == s.last <==> s.last == s.first + 1)
    && (n > s.first + 1 ==> OverlapSize(ps, n, s.last) >= OVERLAP_CHARS)
    && (n < s.last ==> OverlapSize(ps, n + 1, s.last) < OVERLAP_CHARS)
  }

  /** Neighbouring chunks overlap as configured. */
  lemma {:induction false} ChunkOverlap(content: string, hash: HashFn, k: nat)
    requires k + 1 < |Chunks(content, hash)|
    ensures k + 1 < |Spans(ParagraphsOf(content), 0)|
    ensures Overlaps(
      ParagraphsOf(content), Spans(ParagraphsOf(content), 0)[k], Spans(ParagraphsOf(content), 0)[k + 1].first)
  {
    var lines, ps, spans := ChunkAt(content, hash, k);
    OverlapAt(ps, spans, k);
  }

  lemma {:induction false} OverlapAt(ps: seq<Paragraph>, spans: seq<Span>, k: nat)
    requires Tiled(ps, spans, 0) && k + 1 < |spans|
    ensures Overlaps(ps, spans[k], spans[k + 1].first)
  {
    StepAtRestart(ps, spans, k);
    RestartExact(ps, spans[k].first, spans[k].last);
  }

  lemma {:induction false} StepAtRestart(ps: seq<Paragraph>, spans: seq<Span>, k: nat)
    requires Tiled(ps, spans, 0) && k + 1 < |spans|
    ensures spans[k].first < spans[k].last <= |ps|
    ensures spans[k + 1].first == Restart(ps, spans[k].first, spans[k].last)
  {
    assert StepAt(ps, spans, k);
  }

  lemma {:induction false} RestartExact(ps: seq<Paragraph>, i: nat, j: nat)
    requires i < j <= |ps|
    ensures var n := Restart(ps, i, j);
      && i < n <= j
      && (n == j <==> j == i + 1)
      && (n > i + 1 ==> OverlapSize(ps, n, j) >= OVERLAP_CHARS)
      && (n < j ==> OverlapSize(ps, n + 1, j) < OVERLAP_CHARS)
  {
    BackUpExact(ps, i, j - 1, j);
  }

  // ---------- reading a chunk back ----------

  /** `extractLines` of the searcher: lines startLine..endLine, 1-based and inclusive. */
  function ExtractLines(text: string, startLine: nat, endLine: nat): string {
    ExtractFrom(SplitLines(text), startLine, endLine)
  }

  function ExtractFrom(lines: seq<string>, startLine: nat, endLine: nat): string {
    var start := if startLine == 0 then 0 else startLine - 1;
    var end := if endLine < |lines| then endLine else |lines|;
    Join(if start < end then lines[start..end] else [], "\n")
  }

  /** The range read back is the whole text exactly when it covers every line, or the text is empty. */
  lemma {:induction false} ExtractWholeIff(text: string, startLine: nat, endLine: nat)
    ensures ExtractLines(text, startLine, endLine) == text <==>
      text == "" || (startLine <= 1 && endLine >= |SplitLines(text)|)
  {
    var lines := SplitLines(text);
    var start := if startLine == 0 then 0 else startLine - 1;
    var end := if endLine < |lines| then endLine else |lines|;
    JoinSplit(text);
    if start < end {
      if end - start < |lines| {
        JoinPart(lines, start, end);
      } else {
        assert lines[start..end] == lines;
      }
    }
    assert text == "" ==> lines == [""];
  }

  /** It is empty exactly when it holds no line, out of range or backwards, or a single empty one. */
  lemma {:induction false} ExtractEmptyIff(text: string, startLine: nat, endLine: nat)
    ensures var lines := SplitLines(text);
      var start := if startLine == 0 then 1 else startLine;
      ExtractLines(text, startLine, endLine) == "" <==>
        start > endLine || start > |lines| || (lines[start - 1] == "" && (start == endLine || start == |lines|))
  {
    var lines := SplitLines(text);
    var start := if startLine == 0 then 0 else startLine - 1;
    var end := if endLine < |lines| then endLine else |lines|;
    var part := if start < end then lines[start..end] else [];
    JoinEmptyIff(part);
    assert |part| == 1 ==> part == [lines[start]];
  }

  ghost predicate Blocks(lines: seq<string>, ps: seq<Paragraph>, i: nat, j: nat)
    requires j <= |ps|
  {
    forall k :: i <= k < j ==> IsBlock(lines, ps[k])
  }

  /** The lines of paragraphs i..j with one empty line between paragraphs. */
  function Spaced(lines: seq<string>, ps: seq<Paragraph>, i: nat, j: nat): seq<string>
    requires i < j <= |ps| && Blocks(lines, ps, i, j)
    decreases j - i
  {
    assert IsBlock(lines, ps[i]);
    LinesOf(lines, ps[i]) + if i + 1 == j then [] else [""] + Spaced(lines, ps, i + 1, j)
  }

  lemma {:induction false} SpacedOne(lines: seq<string>, ps: seq<Paragraph>, i: nat)
    requires i < |ps| && Blocks(lines, ps, i, i + 1)
    ensures IsBlock(lines, ps[i]) && Spaced(lines, ps, i, i + 1) == LinesOf(lines, ps[i])
  {
    assert IsBlock(lines, ps[i]);
  }

  lemma {:induction false} SpacedCons(lines: seq<string>, ps: seq<Paragraph>, i: nat, j: nat)
    requires i + 1 < j <= |ps| && Blocks(lines, ps, i, j)
    ensures IsBlock(lines, ps[i])
    ensures Spaced(lines, ps, i, j) == LinesOf(lines, ps[i]) + ([""] + Spaced(lines, ps, i + 1, j))
  {
    assert IsBlock(lines, ps[i]);
  }

  lemma {:induction false} SpacedText(lines: seq<string>, ps: seq<Paragraph>, i: nat, j: nat)
    requires i < j <= |ps| && Blocks(lines, ps, i, j)
    ensures ChunkText(ps, i, j) == Join(Spaced(lines, ps, i, j), "\n")
    decreases j - i
  {
    if i + 1 == j {
      ChunkTextOne(ps, i);
      SpacedOne(lines, ps, i);
    } else {
      SpacedText(lines, ps, i + 1, j);
      ChunkTextPrepend(ps, i, j);
      SpacedCons(lines, ps, i, j);
      JoinSpaced(LinesOf(lines, ps[i]), Spaced(lines, ps, i + 1, j));
    }
  }

  /** An empty line between two groups of lines joins to two newlines. */
  lemma {:induction false} JoinSpaced(head: seq<string>, tail: seq<string>)
    requires head != [] && tail != []
    ensures Join(head + ([""] + tail), "\n") == Join(head, "\n") + "\n\n" + Join(tail, "\n")
  {
    JoinConcat([""], tail, "\n");
    JoinConcat(head, [""] + tail, "\n");
  }

  lemma {:induction false} SpacedNoNewline(lines: seq<string>, ps: seq<Paragraph>, i: nat, j: nat)
    requires i < j <= |ps| && Blocks(lines, ps, i, j)
    requires forall k :: 0 <= k < |lines| ==> '\n' !in lines[k]
    ensures forall k :: 0 <= k < |Spaced(lines, ps, i, j)| ==> '\n' !in Spaced(lines, ps, i, j)[k]
    decreases j - i
  {
    if i + 1 < j {
      SpacedNoNewline(lines, ps, i + 1, j);
    }
  }

  lemma {:induction false} SpanRange(lines: seq<string>, ps: seq<Paragraph>, i: nat, j: nat)
    requires i < j <= |ps| && Placed(lines, ps)
    ensures 1 <= ps[i].startLine <= ps[i].endLine <= ps[j - 1].endLine <= |lines|
  {
    PlacedRange(lines, ps, i);
    PlacedRange(lines, ps, j - 1);
    if i < j - 1 {
      PlacedOrder(lines, ps, i, j - 1);
    }
  }

  /** Spaced paragraphs and the document's own lines differ only in blank lines. */
  ghost predicate SameNonBlank(lines: seq<string>, ps: seq<Paragraph>, i: nat, j: nat)
    requires i < j <= |ps| && Blocks(lines, ps, i, j)
  {
    && 1 <= ps[i].startLine <= ps[j - 1].endLine <= |lines|
    && NonBlank(Spaced(lines, ps, i, j)) == NonBlank(lines[ps[i].startLine - 1..ps[j - 1].endLine])
  }

  lemma {:induction false} SpacedNonBlank(lines: seq<string>, ps: seq<Paragraph>, i: nat, j: nat)
    requires i < j <= |ps| && Placed(lines, ps) && Blocks(lines, ps, i, j)
    ensures SameNonBlank(lines, ps, i, j)
    decreases j - i
  {
    if i + 1 == j {
      SpacedNonBlankOne(lines, ps, i);
    } else {
      SpacedNonBlank(lines, ps, i + 1, j);
      SpacedNonBlankStep(lines, ps, i, j);
    }
  }

  lemma {:induction false} SpacedNonBlankOne(lines: seq<string>, ps: seq<Paragraph>, i: nat)
    requires i < |ps| && Blocks(lines, ps, i, i + 1)
    ensures SameNonBlank(lines, ps, i, i + 1)
  {
    SpacedOne(lines, ps, i);
  }

  lemma {:induction false} SpacedNonBlankStep(lines: seq<string>, ps: seq<Paragraph>, i: nat, j: nat)
    requires i + 1 < j <= |ps| && Placed(lines, ps) && Blocks(lines, ps, i, j)
    requires SameNonBlank(lines, ps, i + 1, j)
    ensures SameNonBlank(lines, ps, i, j)
  {
    SpacedNonBlankCons(lines, ps, i, j);
    SpanGap(lines, ps, i, j);
  }

  lemma {:induction false} SpacedNonBlankCons(lines: seq<string>, ps: seq<Paragraph>, i: nat, j: nat)
    requires i + 1 < j <= |ps| && Blocks(lines, ps, i, j)
    ensures IsBlock(lines, ps[i])
    ensures NonBlank(Spaced(lines, ps, i, j)) ==
            NonBlank(LinesOf(lines, ps[i])) + NonBlank(Spaced(lines, ps, i + 1, j))
  {
    SpacedCons(lines, ps, i, j);
    EmptyLineDropped(LinesOf(lines, ps[i]), Spaced(lines, ps, i + 1, j));
  }

  lemma {:induction false} SpanGap(lines: seq<string>, ps: seq<Paragraph>, i: nat, j: nat)
    requires i + 1 < j <= |ps| && Placed(lines, ps)
    ensures 1 <= ps[i].startLine <= ps[i].endLine < ps[i + 1].startLine <= ps[j - 1].endLine <= |lines|
    ensures NonBlank(lines[ps[i].startLine - 1..ps[j - 1].endLine]) ==
            NonBlank(LinesOf(lines, ps[i])) + NonBlank(lines[ps[i + 1].startLine - 1..ps[j - 1].endLine])
  {
    NextBlock(lines, ps, i);
    SpanRange(lines, ps, i + 1, j);
    GapDropped(lines, ps[i].startLine - 1, ps[i].endLine, ps[i + 1].startLine - 1, ps[j - 1].endLine);
  }

  /** Between neighbouring paragraphs there are only blank lines. */
  lemma {:induction false} NextBlock(lines: seq<string>, ps: seq<Paragraph>, i: nat)
    requires Placed(lines, ps) && i + 1 < |ps|
    ensures 1 <= ps[i].startLine <= ps[i].endLine < ps[i + 1].startLine <= |lines|
    ensures AllBlank(lines, ps[i].endLine, ps[i + 1].startLine - 1)
  {
    assert PlacedAt(lines, ps, i);
  }

  lemma {:induction false} GapDropped(lines: seq<string>, x: nat, a: nat, b: nat, end: nat)
    requires x <= a <= b <= end <= |lines| && AllBlank(lines, a, b)
    ensures NonBlank(lines[x..end]) == NonBlank(lines[x..a]) + NonBlank(lines[b..end])
  {
    NonBlankNone(lines[a..b]);
    assert lines[x..end] == lines[x..a] + (lines[a..b] + lines[b..end]);
    NonBlankConcat(lines[a..b], lines[b..end]);
    NonBlankConcat(lines[x..a], lines[a..b] + lines[b..end]);
  }

  lemma {:induction false} EmptyLineDropped(head: seq<string>, tail: seq<string>)
    ensures NonBlank(head + ([""] + tail)) == NonBlank(head) + NonBlank(tail)
  {
    EmptyLineFirst(tail);
    NonBlankConcat(head, [""] + tail);
  }

  lemma {:induction false} EmptyLineFirst(tail: seq<string>)
    ensures NonBlank([""] + tail) == NonBlank(tail)
  {
    assert ([""] + tail)[1..] == tail && Blank("");
  }

  /** `content` is the text without the spaces around it. */
  ghost predicate Stripped(text: string, content: string) {
    && content != "" && NoEdgeSpace(content)
    && exists u, v :: Blank(u) && Blank(v) && text == u + content + v
  }

  /** The lines with one empty line in place of every run of blank ones. */
  function Squeeze(lines: seq<string>): seq<string> {
    if lines == [] then []
    else if !Blank(lines[0]) then [lines[0]] + Squeeze(lines[1..])
    else if |lines| > 1 && Blank(lines[1]) then Squeeze(lines[1..])
    else [""] + Squeeze(lines[1..])
  }

  lemma {:induction false} SqueezeBlock(head: seq<string>, tail: seq<string>)
    requires NoneBlank(head, 0, |head|)
    ensures Squeeze(head + tail) == head + Squeeze(tail)
    decreases head
  {
    if head == [] {
      assert head + tail == tail;
    } else {
      SqueezeBlock(head[1..], tail);
      assert (head + tail)[1..] == head[1..] + tail;
      assert [head[0]] + (head[1..] + Squeeze(tail)) == head + Squeeze(tail);
    }
  }

  lemma {:induction false} SqueezeGap(gap: seq<string>, tail: seq<string>)
    requires gap != [] && AllBlank(gap, 0, |gap|) && tail != [] && !Blank(tail[0])
    ensures Squeeze(gap + tail) == [""] + Squeeze(tail)
    decreases gap
  {
    assert (gap + tail)[1..] == gap[1..] + tail;
    if |gap| > 1 {
      assert (gap + tail)[1] == gap[1];
      SqueezeGap(gap[1..], tail);
    } else {
      assert gap[1..] + tail == tail;
    }
  }

  /** The lines of a chunk's paragraphs and of the document, blank lines squeezed, are the same. */
  ghost predicate SqueezedTo(lines: seq<string>, ps: seq<Paragraph>, i: nat, j: nat)
    requires i < j <= |ps| && Blocks(lines, ps, i, j)
  {
    && 1 <= ps[i].startLine <= ps[j - 1].endLine <= |lines|
    && Squeeze(lines[ps[i].startLine - 1..ps[j - 1].endLine]) == Spaced(lines, ps, i, j)
  }

  lemma {:induction false} SpacedSqueezed(lines: seq<string>, ps: seq<Paragraph>, i: nat, j: nat)
    requires i < j <= |ps| && Placed(lines, ps) && Blocks(lines, ps, i, j)
    ensures SqueezedTo(lines, ps, i, j)
    decreases j - i
  {
    if i + 1 == j {
      SqueezedOne(lines, ps, i);
    } else {
      SpacedSqueezed(lines, ps, i + 1, j);
      SqueezedStep(lines, ps, i, j);
    }
  }

  lemma {:induction false} SqueezedOne(lines: seq<string>, ps: seq<Paragraph>, i: nat)
    requires i < |ps| && Blocks(lines, ps, i, i + 1)
    ensures SqueezedTo(lines, ps, i, i + 1)
  {
    SpacedOne(lines, ps, i);
    var block := LinesOf(lines, ps[i]);
    SqueezeBlock(block, []);
    assert block + [] == block;
  }

  lemma {:induction false} SqueezedStep(lines: seq<string>, ps: seq<Paragraph>, i: nat, j: nat)
    requires i + 1 < j <= |ps| && Placed(lines, ps) && Blocks(lines, ps, i, j)
    requires SqueezedTo(lines, ps, i + 1, j)
    ensures SqueezedTo(lines, ps, i, j)
  {
    assert PlacedAt(lines, ps, i) && PlacedAt(lines, ps, i + 1);
    SpacedCons(lines, ps, i, j);
    RestAfterGap(lines, ps[i].startLine - 1, ps[i].endLine, ps[i + 1].startLine - 1, ps[j - 1].endLine);
  }

  lemma {:induction false} RestAfterGap(lines: seq<string>, x: nat, a: nat, b: nat, end: nat)
    requires x <= a < b < end <= |lines| && NoneBlank(lines, x, a) && AllBlank(lines, a, b) && !Blank(lines[b])
    ensures Squeeze(lines[x..end]) == lines[x..a] + ([""] + Squeeze(lines[b..end]))
  {
    assert lines[x..end] == lines[x..a] + (lines[a..b] + lines[b..end]);
    SqueezeBlock(lines[x..a], lines[a..b] + lines[b..end]);
    SqueezeGap(lines[a..b], lines[b..end]);
  }

  /**
   A chunk is the document's own lines in its range, with every run of blank lines made
   one empty line and no spaces at the ends; it is never empty and carries its hash.
   */
  lemma {:induction false} ChunkContent(content: string, hash: HashFn, k: nat)
    requires k < |Chunks(content, hash)|
    ensures var c, lines := Chunks(content, hash)[k], SplitLines(content);
      && 1 <= c.startLine <= c.endLine <= |lines| && c.hash == hash(c.content)
      && Stripped(Join(Squeeze(lines[c.startLine - 1..c.endLine]), "\n"), c.content)
  {
    var lines, ps, spans := ChunkAt(content, hash, k);
    var s := spans[k];
    ContentNotEmpty(lines, ps, s, Chunks(content, hash)[k]);
    TextStripped(ps, s, Chunks(content, hash)[k]);
    PlacedBlocks(lines, ps, s.first, s.last);
    SpacedText(lines, ps, s.first, s.last);
    SpacedSqueezed(lines, ps, s.first, s.last);
  }

  lemma {:induction false} TextStripped(ps: seq<Paragraph>, s: Span, c: Chunk)
    requires HasText(ps, s, c) && c.content != ""
    ensures Stripped(ChunkText(ps, s.first, s.last), c.content)
  {
    var u, v := TrimExact(ChunkText(ps, s.first, s.last));
    assert ChunkText(ps, s.first, s.last) == u + c.content + v;
  }

  /** Reading a chunk's line range back gives its non-blank lines, as they were before the final trim. */
  lemma {:induction false} ReadBack(content: string, hash: HashFn, k: nat)
    requires k < |Chunks(content, hash)|
    ensures var ps := ParagraphsOf(content);
      var s := Spans(ps, 0)[k];
      var c := Chunks(content, hash)[k];
      && s.first < s.last <= |ps|
      && c.content == Trim(ChunkText(ps, s.first, s.last)) && c.content != ""
      && NonBlank(SplitLines(ExtractLines(content, c.startLine, c.endLine))) ==
         NonBlank(SplitLines(ChunkText(ps, s.first, s.last)))
  {
    var lines, ps, spans := ChunkAt(content, hash, k);
    ContentNotEmpty(lines, ps, spans[k], Chunks(content, hash)[k]);
    SpanReadBack(lines, ps, spans[k], Chunks(content, hash)[k]);
  }

  lemma {:induction false} ContentNotEmpty(lines: seq<string>, ps: seq<Paragraph>, s: Span, c: Chunk)
    requires Placed(lines, ps) && HasText(ps, s, c)
    ensures c.content != ""
  {
    PlacedNotBlank(lines, ps);
    ChunkTextNotBlank(ps, s.first, s.last);
  }

  lemma {:induction false} SpanReadBack(lines: seq<string>, ps: seq<Paragraph>, s: Span, c: Chunk)
    requires Placed(lines, ps) && HasRange(ps, s, c)
    requires forall k :: 0 <= k < |lines| ==> '\n' !in lines[k]
    ensures NonBlank(SplitLines(ExtractFrom(lines, c.startLine, c.endLine))) ==
            NonBlank(SplitLines(ChunkText(ps, s.first, s.last)))
  {
    BlocksReadBack(lines, ps, s.first, s.last);
  }

  lemma {:induction false} BlocksReadBack(lines: seq<string>, ps: seq<Paragraph>, i: nat, j: nat)
    requires Placed(lines, ps) && i < j <= |ps|
    requires forall k :: 0 <= k < |lines| ==> '\n' !in lines[k]
    ensures NonBlank(SplitLines(ExtractFrom(lines, ps[i].startLine, ps[j - 1].endLine))) ==
            NonBlank(SplitLines(ChunkText(ps, i, j)))
  {
    PlacedBlocks(lines, ps, i, j);
    SpacedNonBlank(lines, ps, i, j);
    SplitChunkText(lines, ps, i, j);
    SplitExtract(lines, ps[i].startLine, ps[j - 1].endLine);
  }

  lemma {:induction false} PlacedBlocks(lines: seq<string>, ps: seq<Paragraph>, i: nat, j: nat)
    requires Placed(lines, ps) && j <= |ps|
    ensures Blocks(lines, ps, i, j)
  {
    forall q | i <= q < j ensures IsBlock(lines, ps[q]) {
      assert PlacedAt(lines, ps, q);
    }
  }

  lemma {:induction false} SplitChunkText(lines: seq<string>, ps: seq<Paragraph>, i: nat, j: nat)
    requires i < j <= |ps| && Blocks(lines, ps, i, j)
    requires forall k :: 0 <= k < |lines| ==> '\n' !in lines[k]
    ensures SplitLines(ChunkText(ps, i, j)) == Spaced(lines, ps, i, j)
  {
    SpacedText(lines, ps, i, j);
    SpacedNoNewline(lines, ps, i, j);
    assert IsBlock(lines, ps[i]);
    assert LinesOf(lines, ps[i]) != [];
    SplitJoin(Spaced(lines, ps, i, j));
  }

  lemma {:induction false} SplitExtract(lines: seq<string>, startLine: nat, endLine: nat)
    requires 1 <= startLine <= endLine <= |lines|
    requires forall k :: 0 <= k < |lines| ==> '\n' !in lines[k]
    ensures SplitLines(ExtractFrom(lines, startLine, endLine)) == lines[startLine - 1..endLine]
  {
    SplitJoin(lines[startLine - 1..endLine]);
  }
}
