/**
 Paragraph blocks of a document: maximal runs of non-blank lines with their 1-based
 line ranges.
 */
module Paragraphs {
  import opened Text

  datatype Paragraph = Paragraph(text: string, startLine: nat, endLine: nat)

  /** First blank line at or after `i`, or the end. */
  function RunEnd(lines: seq<string>, i: nat): (e: nat)
    requires i <= |lines|
    ensures i <= e <= |lines|
    ensures forall k :: i <= k < e ==> !Blank(lines[k])
    ensures e < |lines| ==> Blank(lines[e])
    decreases |lines| - i
  {
    if i < |lines| && !Blank(lines[i]) then RunEnd(lines, i + 1) else i
  }

  /** The paragraphs of the lines from position `i` on. */
  function ParagraphsFrom(lines: seq<string>, i: nat): seq<Paragraph>
    requires i <= |lines|
    decreases |lines| - i
  {
    if i == |lines| then []
    else if Blank(lines[i]) then ParagraphsFrom(lines, i + 1)
    else
      var e := RunEnd(lines, i);
      assert e > i;
      [Paragraph(Join(lines[i..e], "\n"), i + 1, e)] + ParagraphsFrom(lines, e)
  }

  ghost predicate NoneBlank(lines: seq<string>, from: nat, to: nat)
    requires to <= |lines|
  {
    forall k :: from <= k < to ==> !Blank(lines[k])
  }

  lemma {:induction false} RunEndAt(lines: seq<string>, i: nat, e: nat)
    requires i <= e <= |lines| && NoneBlank(lines, i, e) && (e < |lines| ==> Blank(lines[e]))
    ensures RunEnd(lines, i) == e
    decreases e - i
  {
    if i < e {
      RunEndAt(lines, i + 1, e);
    }
  }

  /** A maximal run of non-blank lines is the next paragraph. */
  lemma {:induction false} NextParagraph(lines: seq<string>, i: nat, e: nat)
    requires i < e <= |lines| && NoneBlank(lines, i, e) && (e < |lines| ==> Blank(lines[e]))
    ensures ParagraphsFrom(lines, i) == [Paragraph(Join(lines[i..e], "\n"), i + 1, e)] + ParagraphsFrom(lines, e)
  {
    RunEndAt(lines, i, e);
  }

  lemma {:induction false} SkipBlank(lines: seq<string>, i: nat)
    requires i < |lines| && Blank(lines[i])
    ensures ParagraphsFrom(lines, i) == ParagraphsFrom(lines, i + 1)
  {}

  /** The lines collected since `start`. */
  ghost predicate Collected(lines: seq<string>, start: nat, i: nat, block: seq<string>) {
    start < i <= |lines| && block == lines[start..i] && NoneBlank(lines, start, i)
  }

  lemma {:induction false} Collect(lines: seq<string>, start: nat, i: nat, block: seq<string>)
    requires i < |lines| && !Blank(lines[i])
    requires if start == i then block == [] else Collected(lines, start, i, block)
    ensures Collected(lines, start, i + 1, block + [lines[i]])
  {}

  /** The paragraphs found so far and those still to come from `from` on make up the whole. */
  ghost predicate Found(lines: seq<string>, paragraphs: seq<Paragraph>, from: nat) {
    from <= |lines| && paragraphs + ParagraphsFrom(lines, from) == ParagraphsFrom(lines, 0)
  }

  lemma {:induction false} Flush(lines: seq<string>, paragraphs: seq<Paragraph>, start: nat, i: nat, block: seq<string>)
    requires Found(lines, paragraphs, start) && Collected(lines, start, i, block)
    requires i < |lines| ==> Blank(lines[i])
    ensures Found(lines, paragraphs + [Paragraph(Join(block, "\n"), start + 1, i)], i)
  {
    NextParagraph(lines, start, i);
  }

  lemma {:induction false} Skip(lines: seq<string>, paragraphs: seq<Paragraph>, i: nat)
    requires i < |lines| && Found(lines, paragraphs, i) && Blank(lines[i])
    ensures Found(lines, paragraphs, i + 1)
  {
    SkipBlank(lines, i);
  }

  /** The source's loop: collect lines, flush the block at each blank line and at the end. */
  method GetParagraphs(lines: seq<string>) returns (paragraphs: seq<Paragraph>)
    ensures paragraphs == ParagraphsFrom(lines, 0)
  {
    paragraphs := [];
    var blockLines: seq<string> := [];
    var blockStart := -1;
    for i := 0 to |lines|
      invariant if blockStart == -1 then blockLines == [] && Found(lines, paragraphs, i)
                else blockStart >= 1 && Collected(lines, blockStart - 1, i, blockLines) &&
                     Found(lines, paragraphs, blockStart - 1)
    {
      var line := lines[i];
      BlankIff(line);
      if Trim(line) == "" {
        if |blockLines| > 0 {
          Flush(lines, paragraphs, blockStart - 1, i, blockLines);
          paragraphs := paragraphs + [Paragraph(Join(blockLines, "\n"), blockStart, i)];
          blockLines, blockStart := [], -1;
        }
        Skip(lines, paragraphs, i);
      } else {
        if blockStart == -1 {
          blockStart := i + 1;
        }
        Collect(lines, blockStart - 1, i, blockLines);
        blockLines := blockLines + [line];
      }
    }
    if |blockLines| > 0 {
      Flush(lines, paragraphs, blockStart - 1, |lines|, blockLines);
      paragraphs := paragraphs + [Paragraph(Join(blockLines, "\n"), blockStart, |lines|)];
    }
  }

  /** The lines a paragraph covers. */
  function LinesOf(lines: seq<string>, p: Paragraph): seq<string>
    requires 1 <= p.startLine <= p.endLine <= |lines|
  {
    lines[p.startLine - 1..p.endLine]
  }

  ghost predicate AllBlank(lines: seq<string>, from: nat, to: nat)
    requires to <= |lines|
  {
    forall k :: from <= k < to ==> Blank(lines[k])
  }

  /** The block ends with the document or at a blank line. */
  ghost predicate EndsBlank(lines: seq<string>, p: Paragraph) {
    p.endLine < |lines| ==> Blank(lines[p.endLine])
  }

  ghost predicate IsBlock(lines: seq<string>, p: Paragraph) {
    && 1 <= p.startLine <= p.endLine <= |lines|
    && p.text == Join(LinesOf(lines, p), "\n")
    && NoneBlank(lines, p.startLine - 1, p.endLine)
  }

  /**
   From line position `from` on, the paragraphs are maximal blocks of non-blank lines
   in order, and every line outside them is blank.
   */
  ghost predicate Layout(lines: seq<string>, ps: seq<Paragraph>, from: nat)
    requires from <= |lines|
    decreases ps
  {
    if ps == [] then AllBlank(lines, from, |lines|)
    else
      && IsBlock(lines, ps[0])
      && from < ps[0].startLine
      && AllBlank(lines, from, ps[0].startLine - 1)
      && EndsBlank(lines, ps[0])
      && Layout(lines, ps[1..], ps[0].endLine)
  }

  lemma {:induction false} LayoutBack(lines: seq<string>, ps: seq<Paragraph>, from: nat)
    requires from < |lines| && Blank(lines[from]) && Layout(lines, ps, from + 1)
    ensures Layout(lines, ps, from)
  {}

  lemma {:induction false} ParagraphsLayout(lines: seq<string>, i: nat)
    requires i <= |lines|
    ensures Layout(lines, ParagraphsFrom(lines, i), i)
    decreases |lines| - i
  {
    if i < |lines| {
      if Blank(lines[i]) {
        ParagraphsLayout(lines, i + 1);
        LayoutBack(lines, ParagraphsFrom(lines, i + 1), i);
      } else {
        var e := RunEnd(lines, i);
        assert e > i;
        ParagraphsLayout(lines, e);
        var ps := ParagraphsFrom(lines, i);
        assert ps[1..] == ParagraphsFrom(lines, e);
      }
    }
  }

  /** The layout seen from any paragraph on. */
  lemma {:induction false} LayoutAt(lines: seq<string>, ps: seq<Paragraph>, from: nat, k: nat)
    requires from <= |lines| && Layout(lines, ps, from) && k < |ps|
    ensures IsBlock(lines, ps[k]) && EndsBlank(lines, ps[k]) && from < ps[k].startLine
    ensures Layout(lines, ps[k + 1..], ps[k].endLine)
    ensures Layout(lines, ps[k..], ps[k].startLine - 1)
    ensures k + 1 < |ps| ==> ps[k].endLine < ps[k + 1].startLine
    decreases k
  {
    if k > 0 {
      LayoutAt(lines, ps[1..], ps[0].endLine, k - 1);
      assert ps[1..][k..] == ps[k + 1..] && ps[1..][k - 1..] == ps[k..];
    } else {
      assert ps[0..] == ps;
    }
  }

  /** Paragraph `k` is a maximal block, with only blank lines, and at least one, between it and the next. */
  ghost predicate PlacedAt(lines: seq<string>, ps: seq<Paragraph>, k: nat)
    requires k < |ps|
  {
    && IsBlock(lines, ps[k]) && EndsBlank(lines, ps[k])
    && (k + 1 < |ps| ==>
          ps[k].endLine + 1 < ps[k + 1].startLine <= |lines| && AllBlank(lines, ps[k].endLine, ps[k + 1].startLine - 1))
  }

  ghost predicate Placed(lines: seq<string>, ps: seq<Paragraph>) {
    forall k :: 0 <= k < |ps| ==> PlacedAt(lines, ps, k)
  }

  lemma {:induction false} ParagraphsPlaced(lines: seq<string>)
    ensures Placed(lines, ParagraphsFrom(lines, 0))
  {
    var ps := ParagraphsFrom(lines, 0);
    ParagraphsLayout(lines, 0);
    forall k | 0 <= k < |ps| ensures PlacedAt(lines, ps, k) {
      LayoutAt(lines, ps, 0, k);
      if k + 1 < |ps| {
        LayoutAt(lines, ps, 0, k + 1);
        assert ps[k + 1..][0] == ps[k + 1];
        assert !Blank(lines[ps[k + 1].startLine - 1]);
      }
    }
  }

  lemma {:induction false} PlacedRange(lines: seq<string>, ps: seq<Paragraph>, k: nat)
    requires Placed(lines, ps) && k < |ps|
    ensures 1 <= ps[k].startLine <= ps[k].endLine <= |lines|
    ensures k + 1 < |ps| ==> ps[k].endLine < ps[k + 1].startLine
  {
    assert PlacedAt(lines, ps, k);
  }

  /** Later paragraphs start after earlier ones end. */
  lemma {:induction false} PlacedOrder(lines: seq<string>, ps: seq<Paragraph>, k: nat, m: nat)
    requires Placed(lines, ps) && k < m < |ps|
    ensures ps[k].endLine < ps[m].startLine
    decreases m
  {
    PlacedRange(lines, ps, m - 1);
    if k < m - 1 {
      PlacedOrder(lines, ps, k, m - 1);
    }
  }

  /** Every non-blank line is in a paragraph. */
  lemma {:induction false} LayoutCovers(lines: seq<string>, ps: seq<Paragraph>, from: nat, line: nat) returns (k: nat)
    requires from <= line < |lines| && Layout(lines, ps, from) && !Blank(lines[line])
    ensures k < |ps| && ps[k].startLine - 1 <= line < ps[k].endLine
    decreases ps
  {
    if line < ps[0].endLine {
      return 0;
    }
    k := LayoutCovers(lines, ps[1..], ps[0].endLine, line);
    k := k + 1;
  }
}
