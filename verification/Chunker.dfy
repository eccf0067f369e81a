/**
 The markdown chunker: greedy chunks of paragraphs up to a size, each next chunk
 starting some paragraphs back for overlap.
 */
module Chunker {
  import opened Text
  import opened Paragraphs

  const CHUNK_SIZE_CHARS := 1600
  const OVERLAP_CHARS := 320

  type HashFn = string -> string

  datatype Chunk = Chunk(content: string, startLine: nat, endLine: nat, hash: string)

  /** The paragraphs a chunk is made of: positions `first` up to, not including, `last`. */
  datatype Span = Span(first: nat, last: nat)

  function Texts(ps: seq<Paragraph>): (r: seq<string>)
    ensures |r| == |ps| && forall k :: 0 <= k < |r| ==> r[k] == ps[k].text
  {
    seq(|ps|, k requires 0 <= k < |ps| => ps[k].text)
  }

  /** The text of paragraphs i..j before the final trim. */
  function ChunkText(ps: seq<Paragraph>, i: nat, j: nat): string
    requires i <= j <= |ps|
  {
    Join(Texts(ps)[i..j], "\n\n")
  }

  /** The end of the chunk that starts at `i` and already has the paragraphs up to `j`. */
  function Grow(ps: seq<Paragraph>, i: nat, j: nat): (r: nat)
    requires i < j <= |ps|
    ensures j <= r <= |ps|
    decreases |ps| - j
  {
    if j < |ps| && |ChunkText(ps, i, j + 1)| <= CHUNK_SIZE_CHARS then Grow(ps, i, j + 1) else j
  }

  /** The overlap loop: from `k` down to `i`, until enough characters are covered. */
  function BackUp(ps: seq<Paragraph>, i: nat, k: nat, overlap: nat, next: nat): (r: nat)
    requires i <= k < |ps|
    ensures r == next || i < r <= k
    decreases k
  {
    if k > i && overlap < OVERLAP_CHARS then BackUp(ps, i, k - 1, overlap + |ps[k].text| + 2, k)
    else next
  }

  /** Where the chunk after i..j starts. */
  function Restart(ps: seq<Paragraph>, i: nat, j: nat): (r: nat)
    requires i < j <= |ps|
    ensures i < r <= j
    ensures j - i >= 2 ==> r < j
  {
    BackUp(ps, i, j - 1, 0, j)
  }

  function Spans(ps: seq<Paragraph>, i: nat): seq<Span>
    decreases |ps| - i
  {
    if i >= |ps| then []
    else
      var j := Grow(ps, i, i + 1);
      [Span(i, j)] + if j >= |ps| then [] else Spans(ps, Restart(ps, i, j))
  }

  function ChunkOf(ps: seq<Paragraph>, s: Span, hash: HashFn): Chunk
    requires s.first < s.last <= |ps|
  {
    var content := Trim(ChunkText(ps, s.first, s.last));
    Chunk(content, ps[s.first].startLine, ps[s.last - 1].endLine, hash(content))
  }

  ghost predicate InRange(spans: seq<Span>, n: nat) {
    forall k :: 0 <= k < |spans| ==> spans[k].first < spans[k].last <= n
  }

  lemma {:induction false} SpansInRange(ps: seq<Paragraph>, i: nat)
    ensures InRange(Spans(ps, i), |ps|)
    ensures i < |ps| ==> Spans(ps, i) != [] && Spans(ps, i)[0].first == i
    decreases |ps| - i
  {
    if i < |ps| {
      var j := Grow(ps, i, i + 1);
      if j < |ps| {
        SpansInRange(ps, Restart(ps, i, j));
      }
    }
  }

  function ChunksOf(ps: seq<Paragraph>, spans: seq<Span>, hash: HashFn): (r: seq<Chunk>)
    requires InRange(spans, |ps|)
    ensures |r| == |spans| && forall k :: 0 <= k < |r| ==> r[k] == ChunkOf(ps, spans[k], hash)
  {
    seq(|spans|, k requires 0 <= k < |spans| => ChunkOf(ps, spans[k], hash))
  }

  function ParagraphsOf(content: string): seq<Paragraph> {
    ParagraphsFrom(SplitLines(content), 0)
  }

  /** The chunks of a document. */
  function Chunks(content: string, hash: HashFn): seq<Chunk> {
    var ps := ParagraphsOf(content);
    SpansInRange(ps, 0);
    ChunksOf(ps, Spans(ps, 0), hash)
  }

  // ---------- texts ----------

  lemma {:induction false} ChunkTextOne(ps: seq<Paragraph>, i: nat)
    requires i < |ps|
    ensures ChunkText(ps, i, i + 1) == ps[i].text
  {
    assert Texts(ps)[i..i + 1] == [ps[i].text];
  }

  lemma {:induction false} ChunkTextAppend(ps: seq<Paragraph>, i: nat, j: nat)
    requires i < j < |ps|
    ensures ChunkText(ps, i, j + 1) == ChunkText(ps, i, j) + "\n\n" + ps[j].text
  {
    assert Texts(ps)[i..j + 1] == Texts(ps)[i..j] + [ps[j].text];
    JoinConcat(Texts(ps)[i..j], [ps[j].text], "\n\n");
  }

  lemma {:induction false} ChunkTextPrepend(ps: seq<Paragraph>, i: nat, j: nat)
    requires i + 1 < j <= |ps|
    ensures ChunkText(ps, i, j) == ps[i].text + "\n\n" + ChunkText(ps, i + 1, j)
  {
    assert Texts(ps)[i..j] == [ps[i].text] + Texts(ps)[i + 1..j];
    JoinConcat([ps[i].text], Texts(ps)[i + 1..j], "\n\n");
  }

  lemma {:induction false} NonSpaceInJoin(lines: seq<string>, sep: string)
    requires lines != [] && !Blank(lines[0])
    ensures !Blank(Join(lines, sep))
  {
    var k :| 0 <= k < |lines[0]| && !IsSpace(lines[0][k]);
    assert Join(lines, sep)[k] == lines[0][k];
  }

  ghost predicate NotBlank(ps: seq<Paragraph>) {
    forall k :: 0 <= k < |ps| ==> !Blank(ps[k].text)
  }

  lemma {:induction false} PlacedNotBlank(lines: seq<string>, ps: seq<Paragraph>)
    requires Placed(lines, ps)
    ensures NotBlank(ps)
  {
    forall k | 0 <= k < |ps| ensures !Blank(ps[k].text) {
      assert PlacedAt(lines, ps, k);
      assert LinesOf(lines, ps[k])[0] == lines[ps[k].startLine - 1];
      NonSpaceInJoin(LinesOf(lines, ps[k]), "\n");
    }
  }

  /** No chunk text is blank, so the trimmed content is never empty. */
  lemma {:induction false} ChunkTextNotBlank(ps: seq<Paragraph>, i: nat, j: nat)
    requires NotBlank(ps) && i < j <= |ps|
    ensures ChunkText(ps, i, j) != "" && Trim(ChunkText(ps, i, j)) != ""
  {
    assert Texts(ps)[i..j][0] == ps[i].text;
    NonSpaceInJoin(Texts(ps)[i..j], "\n\n");
    BlankIff(ChunkText(ps, i, j));
  }

  // ---------- the loops ----------

  lemma {:induction false} AdditionExtends(ps: seq<Paragraph>, i: nat, j: nat, text: string)
    requires i <= j < |ps|
    requires if j == i then text == "" else text != "" && text == ChunkText(ps, i, j)
    ensures text + (if text != "" then "\n\n" + ps[j].text else ps[j].text) == ChunkText(ps, i, j + 1)
  {
    if j == i {
      ChunkTextOne(ps, i);
      assert text + ps[j].text == ps[j].text;
    } else {
      ChunkTextAppend(ps, i, j);
      assert text + ("\n\n" + ps[j].text) == text + "\n\n" + ps[j].text;
    }
  }

  /** The inner loop that fills a chunk from paragraph `i` on. */
  method FillChunk(paragraphs: seq<Paragraph>, i: nat)
    returns (chunkText: string, chunkEnd: nat, j: nat)
    requires NotBlank(paragraphs) && i < |paragraphs|
    ensures j == Grow(paragraphs, i, i + 1)
    ensures chunkText == ChunkText(paragraphs, i, j)
    ensures chunkEnd == paragraphs[j - 1].endLine && Trim(chunkText) != ""
  {
    chunkText := "";
    chunkEnd := paragraphs[i].endLine;
    j := i;
    while j < |paragraphs|
      invariant i <= j <= |paragraphs|
      invariant if j == i then chunkText == ""
                else chunkText == ChunkText(paragraphs, i, j) && chunkText != "" &&
                     chunkEnd == paragraphs[j - 1].endLine
      invariant j > i ==> Grow(paragraphs, i, i + 1) == Grow(paragraphs, i, j)
    {
      var para := paragraphs[j];
      var addition := if chunkText != "" then "\n\n" + para.text else para.text;
      var prospective := chunkText + addition;
      ChunkTextNotBlank(paragraphs, i, j + 1);
      AdditionExtends(paragraphs, i, j, chunkText);
      if |prospective| > CHUNK_SIZE_CHARS && |chunkText| > 0 {
        break;
      }
      chunkText := prospective;
      chunkEnd := para.endLine;
      j := j + 1;
    }
    ChunkTextNotBlank(paragraphs, i, j);
  }

  /** The loop that walks back from the end of a chunk to where the next one starts. */
  method WalkBack(paragraphs: seq<Paragraph>, i: nat, j: nat) returns (nextStart: nat)
    requires i < j <= |paragraphs|
    ensures nextStart == Restart(paragraphs, i, j)
  {
    var overlapChars := 0;
    nextStart := j;
    var k := j - 1;
    while k > i && overlapChars < OVERLAP_CHARS
      invariant i <= k < j && overlapChars >= 0
      invariant BackUp(paragraphs, i, k, overlapChars, nextStart) == Restart(paragraphs, i, j)
    {
      overlapChars := overlapChars + |paragraphs[k].text| + 2;
      nextStart := k;
      k := k - 1;
    }
  }

  method ChunkMarkdown(content: string, hash: HashFn) returns (chunks: seq<Chunk>)
    ensures chunks == Chunks(content, hash)
  {
    var lines := SplitLines(content);
    ghost var ps := ParagraphsOf(content);
    ParagraphsPlaced(lines);
    PlacedNotBlank(lines, ps);
    SpansInRange(ps, 0);
    BlankIff(content);
    if |Trim(content)| == 0 {
      BlankContent(content);
      return [];
    }
    var paragraphs := GetParagraphs(lines);
    if |paragraphs| == 0 {
      return [];
    }
    chunks := ChunkParagraphs(paragraphs, hash);
    assert chunks == ChunksOf(ps, Spans(ps, 0), hash);
  }

  ghost predicate MadeFrom(ps: seq<Paragraph>, spans: seq<Span>, hash: HashFn, chunks: seq<Chunk>) {
    InRange(spans, |ps|) && chunks == ChunksOf(ps, spans, hash)
  }

  /** The outer loop over the starts of chunks. */
  method ChunkParagraphs(paragraphs: seq<Paragraph>, hash: HashFn) returns (chunks: seq<Chunk>)
    requires NotBlank(paragraphs) && InRange(Spans(paragraphs, 0), |paragraphs|)
    ensures MadeFrom(paragraphs, Spans(paragraphs, 0), hash, chunks)
  {
    chunks := [];
    ghost var done: seq<Span> := [];
    var i := 0;
    while i < |paragraphs|
      invariant 0 <= i <= |paragraphs|
      invariant Progress(paragraphs, done, i, hash, chunks)
      decreases |paragraphs| - i
    {
      var chunkText, chunkEnd, j := FillChunk(paragraphs, i);
      var finalContent := Trim(chunkText);
      if |finalContent| > 0 {
        var chunk := Chunk(finalContent, paragraphs[i].startLine, chunkEnd, hash(finalContent));
        Advance(paragraphs, done, i, j, hash, chunks, chunk);
        chunks := chunks + [chunk];
      }
      done := done + [Span(i, j)];
      if j >= |paragraphs| {
        return;
      }
      var nextStart := WalkBack(paragraphs, i, j);
      if nextStart <= i {
        i := if j == i then i + 1 else j;
      } else {
        i := nextStart;
      }
    }
    AllDone(paragraphs, done, i, hash, chunks);
  }

  /** The spans made so far and those still to come from paragraph `i` on make up the whole. */
  ghost predicate Done(ps: seq<Paragraph>, done: seq<Span>, i: nat) {
    InRange(done, |ps|) && done + Spans(ps, i) == Spans(ps, 0)
  }

  lemma {:induction false} SpanDone(ps: seq<Paragraph>, done: seq<Span>, i: nat, j: nat)
    requires i < |ps| && Done(ps, done, i) && j == Grow(ps, i, i + 1)
    ensures InRange(done + [Span(i, j)], |ps|)
    ensures if j >= |ps| then done + [Span(i, j)] == Spans(ps, 0)
            else Done(ps, done + [Span(i, j)], Restart(ps, i, j))
  {
    var rest := if j >= |ps| then [] else Spans(ps, Restart(ps, i, j));
    SpansUnfold(ps, i, j);
    Regroup(done, Span(i, j), rest);
  }

  ghost predicate Progress(ps: seq<Paragraph>, done: seq<Span>, i: nat, hash: HashFn, chunks: seq<Chunk>) {
    Done(ps, done, i) && MadeFrom(ps, done, hash, chunks)
  }

  lemma {:induction false} Advance(
      ps: seq<Paragraph>, done: seq<Span>, i: nat, j: nat, hash: HashFn, chunks: seq<Chunk>, chunk: Chunk)
    requires Progress(ps, done, i, hash, chunks) && i < |ps| && j == Grow(ps, i, i + 1)
    requires chunk == ChunkOf(ps, Span(i, j), hash)
    ensures if j >= |ps| then MadeFrom(ps, Spans(ps, 0), hash, chunks + [chunk])
            else Progress(ps, done + [Span(i, j)], Restart(ps, i, j), hash, chunks + [chunk])
  {
    SpanDone(ps, done, i, j);
    ChunksAppend(ps, done, Span(i, j), hash, chunks, chunk);
  }

  lemma {:induction false} AllDone(ps: seq<Paragraph>, done: seq<Span>, i: nat, hash: HashFn, chunks: seq<Chunk>)
    requires i >= |ps| && Progress(ps, done, i, hash, chunks)
    ensures MadeFrom(ps, Spans(ps, 0), hash, chunks)
  {
    assert Spans(ps, i) == [];
    assert done == Spans(ps, 0);
  }

  lemma {:induction false} SpansUnfold(ps: seq<Paragraph>, i: nat, j: nat)
    requires i < |ps| && j == Grow(ps, i, i + 1)
    ensures Spans(ps, i) == [Span(i, j)] + if j >= |ps| then [] else Spans(ps, Restart(ps, i, j))
  {}

  lemma {:induction false} Regroup(done: seq<Span>, s: Span, rest: seq<Span>)
    ensures done + ([s] + rest) == (done + [s]) + rest
    ensures rest == [] ==> done + ([s] + rest) == done + [s]
  {}

  lemma {:induction false} ChunksAppend(
      ps: seq<Paragraph>, done: seq<Span>, s: Span, hash: HashFn, chunks: seq<Chunk>, chunk: Chunk)
    requires MadeFrom(ps, done, hash, chunks)
    requires s.first < s.last <= |ps| && chunk == ChunkOf(ps, s, hash)
    ensures MadeFrom(ps, done + [s], hash, chunks + [chunk])
  {
    assert (done + [s])[|done|] == s;
  }

  /** A document of spaces has no paragraphs. */
  lemma {:induction false} BlankContent(content: string)
    requires Blank(content)
    ensures ParagraphsOf(content) == []
  {
    var lines := SplitLines(content);
    forall k | 0 <= k < |lines| ensures Blank(lines[k]) {
      LineOfBlank(content, k);
    }
    NoParagraphs(lines, 0);
  }

  lemma {:induction false} LineOfBlank(s: string, k: nat)
    requires Blank(s) && k < |SplitLines(s)|
    ensures Blank(SplitLines(s)[k])
    decreases s
  {
    if s != [] {
      LineOfBlank(s[1..], if s[0] == '\n' && k > 0 then k - 1 else if s[0] == '\n' then 0 else k);
    }
  }

  lemma {:induction false} NoParagraphs(lines: seq<string>, i: nat)
    requires i <= |lines| && forall k :: 0 <= k < |lines| ==> Blank(lines[k])
    ensures ParagraphsFrom(lines, i) == []
    decreases |lines| - i
  {
    if i < |lines| {
      NoParagraphs(lines, i + 1);
    }
  }
}
