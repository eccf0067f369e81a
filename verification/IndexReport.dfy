/** What the counts that indexing and removal return mean for the documents. */
module IndexReport {
  import opened Sequences
  import opened Chunker
  import opened Indexer
  import opened IndexTheorems
  import opened EndLines

  /** No chunk starts at the line of `d`. */
  ghost predicate StartGone(cs: seq<Chunk>, d: Chunk) {
    forall k :: 0 <= k < |cs| ==> cs[k].startLine != d.startLine
  }

  lemma {:induction false} ChangedCount(cs: seq<Chunk>, olds: map<nat, string>, isNew: Chunk -> bool)
    requires forall c :: c in cs ==> (isNew(c) <==> !(c.startLine in olds && olds[c.startLine] == c.hash))
    ensures |Changed(cs, olds)| == Count(cs, isNew)
    decreases cs
  {
    if cs != [] {
      assert forall c :: c in cs[1..] ==> c in cs;
      ChangedCount(cs[1..], olds, isNew);
    }
  }

  lemma {:induction false} StaleCount(
      cfg: Config, path: string, olds: seq<Chunk>, news: seq<string>, gone: Chunk -> bool)
    requires forall d :: d in olds ==> (gone(d) <==> cfg.vectorId(path, d.startLine) !in news)
    ensures |Stale(IdsOf(cfg, path, olds), news)| == Count(olds, gone)
    decreases olds
  {
    if olds != [] {
      assert forall d :: d in olds[1..] ==> d in olds;
      assert IdsOf(cfg, path, olds)[1..] == IdsOf(cfg, path, olds[1..]);
      StaleCount(cfg, path, olds[1..], news, gone);
    }
  }

  lemma {:induction false} GoneIff(cfg: Config, w: Meaning, path: string, cs: seq<Chunk>, d: Chunk)
    requires Suitable(cfg, w)
    ensures cfg.vectorId(path, d.startLine) !in IdsOf(cfg, path, cs) <==> StartGone(cs, d)
  {
    if StartGone(cs, d) {
      NotAmongIds(cfg, w, path, d.startLine, path, cs);
    } else {
      var k :| 0 <= k < |cs| && cs[k].startLine == d.startLine;
      assert IdsOf(cfg, path, cs)[k] == cfg.vectorId(path, d.startLine);
    }
  }

  /** The predicates that the counts are about. */
  ghost predicate Counters(olds: seq<Chunk>, cs: seq<Chunk>, isNew: Chunk -> bool, gone: Chunk -> bool) {
    (forall c :: isNew(c) <==> !HasTwin(olds, c)) && forall d :: gone(d) <==> StartGone(cs, d)
  }

  /**
   After any run, indexing a document reports its chunks, how many of them have a hash
   new at their start line, and how many old chunks start where no chunk starts now.
   */
  lemma {:induction false} ReportExact(
      cfg: Config, w: Meaning, ops: seq<Op>, path: string, content: string, isNew: Chunk -> bool, gone: Chunk -> bool)
    requires Suitable(cfg, w)
    requires Counters(OldChunks(cfg, ops, path), Chunks(content, cfg.hash), isNew, gone)
    ensures Report(Run(cfg, ops), cfg, path, Chunks(content, cfg.hash)) ==
      IndexResult(
        |Chunks(content, cfg.hash)|,
        Count(Chunks(content, cfg.hash), isNew),
        Count(OldChunks(cfg, ops, path), gone))
  {
    PathState(cfg, w, ops, path);
    RecordsOfPath(cfg, w, ops, path);
    ReportFrom(Run(cfg, ops), cfg, w, path, OldChunks(cfg, ops, path), Chunks(content, cfg.hash), isNew, gone);
  }

  lemma {:induction false} RecordsOfPath(cfg: Config, w: Meaning, ops: seq<Op>, path: string)
    requires Suitable(cfg, w)
    ensures Run(cfg, ops).hashes.Keys == Run(cfg, ops).vectors.Keys
    ensures Increasing(OldChunks(cfg, ops, path))
    ensures OldHashes(Run(cfg, ops), path) == HashesOf(OldChunks(cfg, ops, path))
    ensures OldIds(Run(cfg, ops), path) == IdsOf(cfg, path, OldChunks(cfg, ops, path))
  {
    RunSynced(cfg, w, ops);
    DocsProper(Latest(ops), cfg.hash);
    PathState(cfg, w, ops, path);
    var s, docs := Run(cfg, ops), ChunkedDocs(Latest(ops), cfg.hash);
    assert path in s.hashes.Keys <==> path in docs.Keys;
    assert path in s.vectors.Keys <==> path in docs.Keys;
  }

  lemma {:induction false} ReportFrom(
      s: Store, cfg: Config, w: Meaning, path: string, olds: seq<Chunk>, cs: seq<Chunk>,
      isNew: Chunk -> bool, gone: Chunk -> bool)
    requires Suitable(cfg, w) && Counters(olds, cs, isNew, gone) && Increasing(olds)
    requires OldHashes(s, path) == HashesOf(olds) && OldIds(s, path) == IdsOf(cfg, path, olds)
    ensures Report(s, cfg, path, cs) == IndexResult(|cs|, Count(cs, isNew), Count(olds, gone))
  {
    forall c | c in cs ensures isNew(c) <==> !(c.startLine in HashesOf(olds) && HashesOf(olds)[c.startLine] == c.hash) {
      TwinIff(olds, c);
    }
    ChangedCount(cs, HashesOf(olds), isNew);
    forall d | d in olds ensures gone(d) <==> cfg.vectorId(path, d.startLine) !in IdsOf(cfg, path, cs) {
      GoneIff(cfg, w, path, cs, d);
    }
    StaleCount(cfg, path, olds, IdsOf(cfg, path, cs), gone);
    assert |cfg.embed(Contents(Changed(cs, HashesOf(olds))))| == |Contents(Changed(cs, HashesOf(olds)))|;
  }

  /** Removing a document reports its chunks. */
  lemma {:induction false} RemovedCount(cfg: Config, w: Meaning, ops: seq<Op>, path: string)
    requires Suitable(cfg, w)
    ensures |OldIds(Run(cfg, ops), path)| == |OldChunks(cfg, ops, path)|
  {
    RecordsOfPath(cfg, w, ops, path);
  }
}
