/**
 The `endLine` metadata of the vector index: when an update leaves it right, what it
 is after any run, and a document for which it is stale.
 */
module EndLines {
  import opened Text
  import opened Paragraphs
  import opened Chunker
  import opened Indexer
  import opened IndexTheorems

  // ---------- one update ----------

  ghost predicate EndLinesExact(index: map<string, Entry>, cfg: Config, path: string, cs: seq<Chunk>) {
    forall k :: 0 <= k < |cs| ==>
      var id := cfg.vectorId(path, cs[k].startLine); id in index && index[id].endLine == cs[k].endLine
  }

  /** An old chunk with the same start line and hash has the same end line. */
  predicate EndKept(olds: seq<Chunk>, c: Chunk) {
    forall j :: 0 <= j < |olds| && olds[j].startLine == c.startLine && olds[j].hash == c.hash ==>
      olds[j].endLine == c.endLine
  }

  /** No chunk keeps its start line and hash while its end line moves. */
  predicate NoMovedEnd(olds: seq<Chunk>, news: seq<Chunk>) {
    forall k :: 0 <= k < |news| ==> EndKept(olds, news[k])
  }

  /**
   Re-indexing a document whose end lines were right leaves them right exactly when
   no chunk kept its start line and hash while its end line moved.
   */
  lemma {:induction false} EndLinesExactIff(s: Store, cfg: Config, w: Meaning, docs: Docs, path: string, cs: seq<Chunk>)
    requires Suitable(cfg, w) && Synced(s, cfg, w, docs) && AllProper(docs, cfg.hash) && Proper(cs, cfg.hash)
    requires path in docs && EndLinesExact(s.index, cfg, path, docs[path])
    ensures EndLinesExact(IndexChunks(s, cfg, path, cs).index, cfg, path, cs) <==> NoMovedEnd(docs[path], cs)
  {
    assert RecordIs(s.hashes[path], s.vectors[path], cfg, path, docs[path]);
    EndLinesAll(s, cfg, w, docs[path], path, cs);
  }

  lemma {:induction false} EndLinesAll(
      s: Store, cfg: Config, w: Meaning, olds: seq<Chunk>, path: string, cs: seq<Chunk>)
    requires Suitable(cfg, w) && Proper(olds, cfg.hash) && Proper(cs, cfg.hash)
    requires path in s.hashes && s.hashes[path] == HashesOf(olds) && EndLinesExact(s.index, cfg, path, olds)
    ensures EndLinesExact(IndexChunks(s, cfg, path, cs).index, cfg, path, cs) <==> NoMovedEnd(olds, cs)
  {
    var after := IndexChunks(s, cfg, path, cs).index;
    forall k | 0 <= k < |cs|
      ensures var id := cfg.vectorId(path, cs[k].startLine);
        id in after && (after[id].endLine == cs[k].endLine <==> EndKept(olds, cs[k]))
    {
      EndLineAt(s, cfg, w, olds, path, cs, k);
    }
  }

  lemma {:induction false} EndLineAt(
      s: Store, cfg: Config, w: Meaning, olds: seq<Chunk>, path: string, cs: seq<Chunk>, k: nat)
    requires Suitable(cfg, w) && Proper(olds, cfg.hash) && Proper(cs, cfg.hash) && k < |cs|
    requires path in s.hashes && s.hashes[path] == HashesOf(olds) && EndLinesExact(s.index, cfg, path, olds)
    ensures var id := cfg.vectorId(path, cs[k].startLine);
      var after := IndexChunks(s, cfg, path, cs).index;
      id in after && (after[id].endLine == cs[k].endLine <==> EndKept(olds, cs[k]))
  {
    NotStale(s, cfg, path, cs, k);
    UpsertedAt(s, cfg, w, path, cs, k);
    KeptEndLine(s.index, cfg, w, path, olds, cs[k]);
  }

  /** Whether an unchanged chunk's stored end line is right. */
  lemma {:induction false} KeptEndLine(
      index: map<string, Entry>, cfg: Config, w: Meaning, path: string, olds: seq<Chunk>, c: Chunk)
    requires Suitable(cfg, w) && Proper(olds, cfg.hash) && c.hash == cfg.hash(c.content)
    requires EndLinesExact(index, cfg, path, olds)
    ensures var id := cfg.vectorId(path, c.startLine);
      var kept := c.startLine in HashesOf(olds) && HashesOf(olds)[c.startLine] == c.hash;
      && (kept ==> id in index)
      && ((kept ==> index[id].endLine == c.endLine) <==> EndKept(olds, c))
  {
    var id := cfg.vectorId(path, c.startLine);
    if c.startLine in HashesOf(olds) && HashesOf(olds)[c.startLine] == c.hash {
      var j := KeptChunk(cfg.hash, w.textOf, olds, c);
      assert id in index && index[id].endLine == olds[j].endLine;
      assert forall i :: 0 <= i < |olds| && olds[i].startLine == olds[j].startLine ==> i == j;
    } else {
      NoOldTwin(olds, c);
    }
  }

  lemma {:induction false} NoOldTwin(olds: seq<Chunk>, c: Chunk)
    requires Increasing(olds)
    requires !(c.startLine in HashesOf(olds) && HashesOf(olds)[c.startLine] == c.hash)
    ensures forall j :: 0 <= j < |olds| && olds[j].startLine == c.startLine ==> olds[j].hash != c.hash
  {
    forall j | 0 <= j < |olds| && olds[j].startLine == c.startLine ensures olds[j].hash != c.hash {
      HashesAt(olds, j);
    }
  }

  // ---------- runs ----------

  /** The n-th operation gave the path this chunk, with a hash that was not at its start line before. */
  ghost predicate Wrote(hash: HashFn, ops: seq<Op>, n: nat, path: string, c: Chunk)
    requires n < |ops|
  {
    && ops[n].Index? && ops[n].path == path && c in Chunks(ops[n].content, hash)
    && !(path in Latest(ops[..n]) && HasTwin(Chunks(Latest(ops[..n])[path], hash), c))
  }

  ghost predicate HasTwin(olds: seq<Chunk>, c: Chunk) {
    exists j :: 0 <= j < |olds| && olds[j].startLine == c.startLine && olds[j].hash == c.hash
  }

  /** The n-th operation was the last to write at the start line of `d`, and it wrote `d`. */
  ghost predicate LastWrote(hash: HashFn, ops: seq<Op>, n: nat, path: string, d: Chunk) {
    && n < |ops| && Wrote(hash, ops, n, path, d)
    && forall m, e :: n < m < |ops| && Wrote(hash, ops, m, path, e) ==> e.startLine != d.startLine
  }

  /** The stored end line of the chunk is that of the last operation that changed the hash at its start line. */
  ghost predicate EndFromLastWrite(index: map<string, Entry>, cfg: Config, ops: seq<Op>, path: string, c: Chunk) {
    var id := cfg.vectorId(path, c.startLine);
    id in index &&
    exists n: nat, d ::
      LastWrote(cfg.hash, ops, n, path, d) && d.startLine == c.startLine && d.hash == c.hash &&
      index[id].endLine == d.endLine
  }

  lemma {:induction false} TwinIff(olds: seq<Chunk>, c: Chunk)
    requires Increasing(olds)
    ensures HasTwin(olds, c) <==> c.startLine in HashesOf(olds) && HashesOf(olds)[c.startLine] == c.hash
  {
    if HasTwin(olds, c) {
      var j :| 0 <= j < |olds| && olds[j].startLine == c.startLine && olds[j].hash == c.hash;
      HashesAt(olds, j);
    }
    if c.startLine in HashesOf(olds) && HashesOf(olds)[c.startLine] == c.hash {
      var j := HashesOnly(olds, c.startLine);
    }
  }

  lemma {:induction false} WroteStable(hash: HashFn, ops: seq<Op>, op: Op, n: nat, path: string, d: Chunk)
    requires n < |ops|
    ensures Wrote(hash, ops + [op], n, path, d) <==> Wrote(hash, ops, n, path, d)
  {
    assert (ops + [op])[..n] == ops[..n];
  }

  /** An operation that writes nothing at the start line leaves the last write what it was. */
  lemma {:induction false} LastWroteStable(hash: HashFn, ops: seq<Op>, op: Op, n: nat, path: string, d: Chunk)
    requires LastWrote(hash, ops, n, path, d)
    requires forall e :: Wrote(hash, ops + [op], |ops|, path, e) ==> e.startLine != d.startLine
    ensures LastWrote(hash, ops + [op], n, path, d)
  {
    WroteStable(hash, ops, op, n, path, d);
    forall m, e | n < m < |ops + [op]| && Wrote(hash, ops + [op], m, path, e) ensures e.startLine != d.startLine {
      if m < |ops| {
        WroteStable(hash, ops, op, m, path, e);
      }
    }
  }

  lemma {:induction false} EndStable(
      index: map<string, Entry>, index': map<string, Entry>, cfg: Config, ops: seq<Op>, op: Op, path: string,
      c: Chunk, c': Chunk)
    requires EndFromLastWrite(index, cfg, ops, path, c) && c'.startLine == c.startLine && c'.hash == c.hash
    requires SameEntry(index, index', cfg.vectorId(path, c.startLine))
    requires forall e :: Wrote(cfg.hash, ops + [op], |ops|, path, e) ==> e.startLine != c.startLine
    ensures EndFromLastWrite(index', cfg, ops + [op], path, c')
  {
    var id := cfg.vectorId(path, c.startLine);
    var n: nat, d :| LastWrote(cfg.hash, ops, n, path, d) && d.startLine == c.startLine && d.hash == c.hash &&
                     index[id].endLine == d.endLine;
    LastWroteStable(cfg.hash, ops, op, n, path, d);
  }

  /** What an update of the path itself does to the entry of one of its chunks. */
  lemma {:induction false} OwnEntry(
      s: Store, cfg: Config, w: Meaning, path: string, olds: seq<Chunk>, cs: seq<Chunk>, k: nat)
    requires Suitable(cfg, w) && Proper(cs, cfg.hash) && k < |cs|
    requires if path in s.hashes then PathSynced(s, cfg, w, path, olds) else olds == []
    ensures var c, index := cs[k], IndexChunks(s, cfg, path, cs).index;
      var id := cfg.vectorId(path, c.startLine);
      if HasTwin(olds, c) then SameEntry(s.index, index, id)
      else id in index && index[id].endLine == c.endLine
  {
    NotStale(s, cfg, path, cs, k);
    UpsertedAt(s, cfg, w, path, cs, k);
    TwinIff(olds, cs[k]);
  }

  lemma {:induction false} OwnEndStep(cfg: Config, w: Meaning, ops: seq<Op>, path: string, content: string, k: nat)
    requires Suitable(cfg, w) && k < |Chunks(content, cfg.hash)| && EndsRight(cfg, ops, path)
    ensures EndFromLastWrite(
      IndexChunks(Run(cfg, ops), cfg, path, Chunks(content, cfg.hash)).index, cfg, ops + [Index(path, content)], path,
      Chunks(content, cfg.hash)[k])
  {
    var s, cs := Run(cfg, ops), Chunks(content, cfg.hash);
    var olds := OldChunks(cfg, ops, path);
    ChunksProper(content, cfg.hash);
    PathState(cfg, w, ops, path);
    OwnEntry(s, cfg, w, path, olds, cs, k);
    OwnEnd(s.index, IndexChunks(s, cfg, path, cs).index, cfg, ops, path, content, olds, k);
  }

  /** The chunks of the current document at the path, if there is one. */
  function OldChunks(cfg: Config, ops: seq<Op>, path: string): seq<Chunk> {
    if path in Latest(ops) then Chunks(Latest(ops)[path], cfg.hash) else []
  }

  lemma {:induction false} PathState(cfg: Config, w: Meaning, ops: seq<Op>, path: string)
    requires Suitable(cfg, w)
    ensures var s, olds := Run(cfg, ops), OldChunks(cfg, ops, path);
      if path in s.hashes then PathSynced(s, cfg, w, path, olds) else olds == []
  {
    var docs := ChunkedDocs(Latest(ops), cfg.hash);
    RunSynced(cfg, w, ops);
    DocsProper(Latest(ops), cfg.hash);
    SyncedPath(Run(cfg, ops), cfg, w, docs, path);
    assert path in Run(cfg, ops).hashes.Keys <==> path in docs.Keys;
  }

  lemma {:induction false} OwnEnd(
      index: map<string, Entry>, index': map<string, Entry>, cfg: Config, ops: seq<Op>, path: string, content: string,
      olds: seq<Chunk>, k: nat)
    requires k < |Chunks(content, cfg.hash)| && Increasing(Chunks(content, cfg.hash))
    requires olds == OldChunks(cfg, ops, path)
    requires var c := Chunks(content, cfg.hash)[k];
      var id := cfg.vectorId(path, c.startLine);
      if HasTwin(olds, c) then SameEntry(index, index', id) else id in index' && index'[id].endLine == c.endLine
    requires forall j :: 0 <= j < |olds| ==> EndFromLastWrite(index, cfg, ops, path, olds[j])
    ensures EndFromLastWrite(index', cfg, ops + [Index(path, content)], path, Chunks(content, cfg.hash)[k])
  {
    var c, op := Chunks(content, cfg.hash)[k], Index(path, content);
    WroteNow(cfg.hash, ops, path, content, olds, k);
    if HasTwin(olds, c) {
      var j :| 0 <= j < |olds| && olds[j].startLine == c.startLine && olds[j].hash == c.hash;
      EndStable(index, index', cfg, ops, op, path, olds[j], c);
    } else {
      assert LastWrote(cfg.hash, ops + [op], |ops|, path, c);
    }
  }

  /** An update writes a chunk exactly when the path had none like it before, and nothing else at that line. */
  lemma {:induction false} WroteNow(hash: HashFn, ops: seq<Op>, path: string, content: string, olds: seq<Chunk>, k: nat)
    requires k < |Chunks(content, hash)| && Increasing(Chunks(content, hash))
    requires olds == if path in Latest(ops) then Chunks(Latest(ops)[path], hash) else []
    ensures var c, all := Chunks(content, hash)[k], ops + [Index(path, content)];
      && (Wrote(hash, all, |ops|, path, c) <==> !HasTwin(olds, c))
      && forall e :: Wrote(hash, all, |ops|, path, e) ==> e == c || e.startLine != c.startLine
  {
    var cs, all := Chunks(content, hash), ops + [Index(path, content)];
    assert all[..|ops|] == ops && all[|ops|] == Index(path, content);
    forall e | e in cs ensures e == cs[k] || e.startLine != cs[k].startLine {
      var i :| 0 <= i < |cs| && cs[i] == e;
      assert i < k || i == k || k < i;
    }
  }

  lemma {:induction false} OtherEndStep(cfg: Config, w: Meaning, ops: seq<Op>, op: Op, path: string, c: Chunk)
    requires Suitable(cfg, w) && op.path != path
    requires EndFromLastWrite(Run(cfg, ops).index, cfg, ops, path, c)
    ensures EndFromLastWrite(Apply(Run(cfg, ops), cfg, op).index, cfg, ops + [op], path, c)
  {
    RunSettled(cfg, w, ops, op.path);
    EntryKept(Run(cfg, ops), cfg, w, op, path, c.startLine);
    OtherEnd(Run(cfg, ops).index, Apply(Run(cfg, ops), cfg, op).index, cfg, ops, op, path, c);
  }

  lemma {:induction false} RunSettled(cfg: Config, w: Meaning, ops: seq<Op>, path: string)
    requires Suitable(cfg, w)
    ensures PathSettled(Run(cfg, ops), cfg, w, path)
  {
    RunSynced(cfg, w, ops);
    DocsProper(Latest(ops), cfg.hash);
    SyncedPath(Run(cfg, ops), cfg, w, ChunkedDocs(Latest(ops), cfg.hash), path);
  }

  lemma {:induction false} EntryKept(s: Store, cfg: Config, w: Meaning, op: Op, p: string, line: nat)
    requires Suitable(cfg, w) && PathSettled(s, cfg, w, op.path) && p != op.path
    ensures SameEntry(s.index, Apply(s, cfg, op).index, cfg.vectorId(p, line))
  {
    match op
    case Index(path, content) => OtherEntryKept(s, cfg, w, path, Chunks(content, cfg.hash), p, line);
    case Remove(path) => RemoveEntryKept(s, cfg, w, path, p, line);
  }

  lemma {:induction false} OtherEnd(
      index: map<string, Entry>, index': map<string, Entry>, cfg: Config, ops: seq<Op>, op: Op, path: string, c: Chunk)
    requires EndFromLastWrite(index, cfg, ops, path, c) && op.path != path
    requires SameEntry(index, index', cfg.vectorId(path, c.startLine))
    ensures EndFromLastWrite(index', cfg, ops + [op], path, c)
  {
    assert (ops + [op])[|ops|] == op;
    EndStable(index, index', cfg, ops, op, path, c, c);
  }

  ghost predicate EndsRight(cfg: Config, ops: seq<Op>, path: string) {
    path in Latest(ops) ==>
      forall k :: 0 <= k < |Chunks(Latest(ops)[path], cfg.hash)| ==>
        EndFromLastWrite(Run(cfg, ops).index, cfg, ops, path, Chunks(Latest(ops)[path], cfg.hash)[k])
  }

  lemma {:induction false} OneMore(cfg: Config, ops: seq<Op>, op: Op)
    ensures Latest(ops + [op]) == Update(Latest(ops), op)
    ensures Run(cfg, ops + [op]) == Apply(Run(cfg, ops), cfg, op)
  {
    assert (ops + [op])[..|ops|] == ops;
  }

  lemma {:induction false} NoEnds(cfg: Config, path: string)
    ensures EndsRight(cfg, [], path)
  {
    assert Latest([]) == map[];
  }

  lemma {:induction false} EndsStep(cfg: Config, w: Meaning, ops: seq<Op>, op: Op, path: string)
    requires Suitable(cfg, w) && EndsRight(cfg, ops, path)
    ensures EndsRight(cfg, ops + [op], path)
  {
    OneMore(cfg, ops, op);
    if op == Remove(path) {
      assert path !in Latest(ops + [op]);
    } else if op.path == path {
      forall k | 0 <= k < |Chunks(op.content, cfg.hash)|
        ensures EndFromLastWrite(Run(cfg, ops + [op]).index, cfg, ops + [op], path, Chunks(op.content, cfg.hash)[k])
      {
        OwnEndStep(cfg, w, ops, path, op.content, k);
      }
    } else if path in Latest(ops) {
      forall k | 0 <= k < |Chunks(Latest(ops)[path], cfg.hash)|
        ensures EndFromLastWrite(
          Run(cfg, ops + [op]).index, cfg, ops + [op], path, Chunks(Latest(ops)[path], cfg.hash)[k])
      {
        OtherEndStep(cfg, w, ops, op, path, Chunks(Latest(ops)[path], cfg.hash)[k]);
      }
    }
  }

  /** After any run, a current chunk has the end line of the last operation that changed the hash at its start line. */
  lemma {:induction false} RunEndLines(cfg: Config, w: Meaning, ops: seq<Op>, path: string)
    requires Suitable(cfg, w)
    ensures EndsRight(cfg, ops, path)
    decreases ops
  {
    if ops == [] {
      NoEnds(cfg, path);
    } else {
      var init, op := ops[..|ops| - 1], ops[|ops| - 1];
      RunEndLines(cfg, w, init, path);
      EndsStep(cfg, w, init, op, path);
      SameEnds(cfg, init + [op], ops, path);
    }
  }

  lemma {:induction false} SameEnds(cfg: Config, ops: seq<Op>, same: seq<Op>, path: string)
    requires ops == same && EndsRight(cfg, ops, path)
    ensures EndsRight(cfg, same, path)
  {}

  /** The end line the store holds for line 1 of "p" after indexing two versions of it. */
  ghost predicate StoredEnd(cfg: Config, first: string, second: string, endLine: nat) {
    var index, id := Run(cfg, [Index("p", first), Index("p", second)]).index, cfg.vectorId("p", 1);
    id in index && index[id].endLine == endLine
  }

  /**
   A document whose blank run grows: its single chunk keeps start line and hash, its
   end line moves from 3 to 4, and the stored one stays 3.
   */
  lemma {:induction false} GrowingBlankRun(cfg: Config, w: Meaning)
    requires Suitable(cfg, w)
    ensures |Chunks("a\n\n\nb", cfg.hash)| == 1 && Chunks("a\n\n\nb", cfg.hash)[0].endLine == 4
    ensures !NoMovedEnd(Chunks("a\n\nb", cfg.hash), Chunks("a\n\n\nb", cfg.hash))
    ensures StoredEnd(cfg, "a\n\nb", "a\n\n\nb", 3)
  {
    var text := Trim("a\n\nb");
    var c, d := Chunk(text, 1, 3, cfg.hash(text)), Chunk(text, 1, 4, cfg.hash(text));
    GrowingChunks(cfg.hash);
    MovedEnd([c], [d]);
    StaleEnd(cfg, w, "a\n\nb", "a\n\n\nb", c, d);
  }

  lemma {:induction false} GrowingChunks(hash: HashFn)
    ensures var text := Trim("a\n\nb");
      && Chunks("a\n\nb", hash) == [Chunk(text, 1, 3, hash(text))]
      && Chunks("a\n\n\nb", hash) == [Chunk(text, 1, 4, hash(text))]
  {
    Letters();
    SplitExamples();
    TwoParagraphs(["a", "", "b"], 2);
    TwoParagraphs(["a", "", "", "b"], 3);
    TwoLetters("a\n\nb", hash, 3);
    TwoLetters("a\n\n\nb", hash, 4);
  }

  /** Two versions of a document that differ in the end line of their one chunk: the stored one is the first. */
  lemma {:induction false} StaleEnd(cfg: Config, w: Meaning, first: string, second: string, c: Chunk, d: Chunk)
    requires Suitable(cfg, w) && Chunks(first, cfg.hash) == [c] && Chunks(second, cfg.hash) == [d]
    requires c.startLine == 1 && d.startLine == 1 && c.hash == d.hash
    ensures StoredEnd(cfg, first, second, c.endLine)
  {
    var ops := [Index("p", first), Index("p", second)];
    LatestOfTwo(first, second);
    RunEndLines(cfg, w, ops, "p");
    assert EndFromLastWrite(Run(cfg, ops).index, cfg, ops, "p", Chunks(second, cfg.hash)[0]);
    OnlyFirstWrote(cfg.hash, first, second, c, d);
  }

  lemma {:induction false} LatestOfTwo(first: string, second: string)
    ensures Latest([Index("p", first)]) == map["p" := first]
    ensures Latest([Index("p", first), Index("p", second)]) == map["p" := second]
  {
    var ops := [Index("p", first), Index("p", second)];
    assert [Index("p", first)][..0] == [] && Latest([]) == map[];
    assert ops[..1] == [Index("p", first)];
    assert ops[1] == Index("p", second);
  }

  lemma {:induction false} OnlyFirstWrote(hash: HashFn, first: string, second: string, c: Chunk, d: Chunk)
    requires Chunks(first, hash) == [c] && Chunks(second, hash) == [d] && c.startLine == d.startLine && c.hash == d.hash
    ensures forall n: nat, e :: LastWrote(hash, [Index("p", first), Index("p", second)], n, "p", e) ==> e == c
  {
    var ops := [Index("p", first), Index("p", second)];
    LatestOfTwo(first, second);
    assert ops[..1] == [Index("p", first)] && ops[1] == Index("p", second);
    SecondNotWritten(hash, ops, c, d);
    FirstWritten(hash, ops, c);
  }

  lemma {:induction false} SecondNotWritten(hash: HashFn, ops: seq<Op>, c: Chunk, d: Chunk)
    requires |ops| == 2 && ops[1].Index? && Chunks(ops[1].content, hash) == [d]
    requires "p" in Latest(ops[..1]) && Chunks(Latest(ops[..1])["p"], hash) == [c]
    requires c.startLine == d.startLine && c.hash == d.hash
    ensures forall e :: !Wrote(hash, ops, 1, "p", e)
  {
    assert [c][0] == c;
    assert HasTwin([c], d);
  }

  lemma {:induction false} FirstWritten(hash: HashFn, ops: seq<Op>, c: Chunk)
    requires |ops| == 2 && ops[0].Index? && Chunks(ops[0].content, hash) == [c]
    ensures forall e :: Wrote(hash, ops, 0, "p", e) ==> e == c
  {}

  lemma {:induction false} MovedEnd(olds: seq<Chunk>, news: seq<Chunk>)
    requires |olds| == 1 && |news| == 1 && olds[0].startLine == news[0].startLine && olds[0].hash == news[0].hash
    requires olds[0].endLine != news[0].endLine
    ensures !NoMovedEnd(olds, news)
  {
    assert !EndKept(olds, news[0]);
  }

  lemma {:induction false} Letters()
    ensures !Blank("a") && !Blank("b") && Blank("")
  {
    BlankIff("");
    BlankIff("a");
    BlankIff("b");
    assert !IsSpace("a"[0]) && !IsSpace("b"[0]);
  }

  lemma {:induction false} SplitExamples()
    ensures SplitLines("a\n\nb") == ["a", "", "b"]
    ensures SplitLines("a\n\n\nb") == ["a", "", "", "b"]
  {
    SplitNoNewline("b", "");
    SplitNoNewline("", "b");
    SplitNoNewline("", "\nb");
    SplitNoNewline("a", "\nb");
    SplitNoNewline("a", "\n\nb");
    assert "" + "\n" + "b" == "\nb" && "" + "\n" + "\nb" == "\n\nb";
    assert "a" + "\n" + "\nb" == "a\n\nb" && "a" + "\n" + "\n\nb" == "a\n\n\nb";
    assert SplitLines("\nb") == ["", "b"];
    assert SplitLines("\n\nb") == ["", "", "b"];
  }

  lemma {:induction false} TwoParagraphs(lines: seq<string>, k: nat)
    requires 2 <= k <= 3 && |lines| == k + 1 && lines[0] == "a" && lines[k] == "b"
    requires forall i :: 1 <= i < k ==> lines[i] == ""
    requires !Blank("a") && !Blank("b") && Blank("")
    ensures ParagraphsFrom(lines, 0) == [Paragraph("a", 1, 1), Paragraph("b", k + 1, k + 1)]
  {
    assert RunEnd(lines, 0) == 1 && RunEnd(lines, k) == k + 1;
    assert lines[0..1] == ["a"] && lines[k..k + 1] == ["b"];
    assert ParagraphsFrom(lines, k + 1) == [];
    assert ParagraphsFrom(lines, k) == [Paragraph("b", k + 1, k + 1)];
    assert ParagraphsFrom(lines, k - 1) == ParagraphsFrom(lines, k);
    assert ParagraphsFrom(lines, 1) == ParagraphsFrom(lines, k);
  }

  lemma {:induction false} TwoLetters(content: string, hash: HashFn, line: nat)
    requires ParagraphsOf(content) == [Paragraph("a", 1, 1), Paragraph("b", line, line)]
    ensures Chunks(content, hash) == [Chunk(Trim("a\n\nb"), 1, line, hash(Trim("a\n\nb")))]
  {
    var ps := ParagraphsOf(content);
    assert Texts(ps) == ["a", "b"] && Texts(ps)[0..2] == ["a", "b"];
    assert ["a", "b"][1..] == ["b"];
    assert "a" + "\n\n" + "b" == "a\n\nb";
    assert ChunkText(ps, 0, 2) == "a\n\nb";
    assert Grow(ps, 0, 1) == 2;
    assert Spans(ps, 0) == [Span(0, 2)];
  }
}
