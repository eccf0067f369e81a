/**
 What a wrong number of vectors does. The upsert is skipped, but the new hashes are
 recorded all the same, so indexing the same document again does not repair it.
 */
module SkippedUpserts {
  import opened Chunker
  import opened ChunkTheorems
  import opened Indexer
  import opened IndexTheorems

  /** What an update asks to be embedded. */
  function Asked(s: Store, path: string, cs: seq<Chunk>): seq<string> {
    Contents(Changed(cs, OldHashes(s, path)))
  }

  /** The embedding answers these texts as a right one does, or with a wrong number of vectors. */
  ghost predicate RightOrMiscounted(embed: EmbedFn, good: EmbedFn, texts: seq<string>) {
    embed(texts) == good(texts) || |embed(texts)| != |texts|
  }

  /**
   One update of a store in step with its documents leaves it in step exactly when there
   was nothing to embed or the number of vectors was right.
   */
  lemma {:induction false} UpdateSyncedIff(
      s: Store, cfg: Config, good: EmbedFn, w: Meaning, docs: Docs, path: string, cs: seq<Chunk>)
    requires Suitable(cfg.(embed := good), w) && Synced(s, cfg, w, docs) && AllProper(docs, cfg.hash)
    requires Proper(cs, cfg.hash) && RightOrMiscounted(cfg.embed, good, Asked(s, path, cs))
    ensures Synced(IndexChunks(s, cfg, path, cs), cfg, w, docs[path := cs]) <==>
      Asked(s, path, cs) == [] || |cfg.embed(Asked(s, path, cs))| == |Asked(s, path, cs)|
  {
    var texts := Asked(s, path, cs);
    if texts == [] || |cfg.embed(texts)| == |texts| {
      SameUpdate(s, cfg, good, path, cs);
      SyncedWith(s, cfg, good, w, docs);
      IndexKeepsSynced(s, cfg.(embed := good), w, docs, path, cs);
      SyncedWith(IndexChunks(s, cfg, path, cs), cfg, good, w, docs[path := cs]);
    } else {
      var c := Changed(cs, OldHashes(s, path))[0];
      assert c in Changed(cs, OldHashes(s, path));
      NotHeld(s, cfg, good, w, docs, path, cs, c);
      var k :| 0 <= k < |cs| && cs[k] == c;
      assert docs[path := cs][path][k] == c;
    }
  }

  lemma {:induction false} SameIds(cfg: Config, good: EmbedFn, path: string, cs: seq<Chunk>)
    ensures IdsOf(cfg.(embed := good), path, cs) == IdsOf(cfg, path, cs)
  {}

  /** Being in step does not depend on the embedding in use. */
  lemma {:induction false} SyncedWith(s: Store, cfg: Config, good: EmbedFn, w: Meaning, docs: Docs)
    ensures Synced(s, cfg, w, docs) <==> Synced(s, cfg.(embed := good), w, docs)
  {
    RecordsWith(s, cfg, good, docs);
    StrayWith(s.index, cfg, good, docs);
    HeldWith(s.index, cfg, good, w, docs);
  }

  lemma {:induction false} RecordsWith(s: Store, cfg: Config, good: EmbedFn, docs: Docs)
    ensures RecordsMatch(s, cfg, docs) <==> RecordsMatch(s, cfg.(embed := good), docs)
  {
    forall p, cs ensures IdsOf(cfg.(embed := good), p, cs) == IdsOf(cfg, p, cs) {
      SameIds(cfg, good, p, cs);
    }
  }

  lemma {:induction false} StrayWith(index: map<string, Entry>, cfg: Config, good: EmbedFn, docs: Docs)
    ensures NoStray(index, cfg, docs) <==> NoStray(index, cfg.(embed := good), docs)
  {
    forall p, cs ensures IdsOf(cfg.(embed := good), p, cs) == IdsOf(cfg, p, cs) {
      SameIds(cfg, good, p, cs);
    }
    forall id ensures Listed(docs, cfg, id) <==> Listed(docs, cfg.(embed := good), id) {}
  }

  lemma {:induction false} HeldWith(index: map<string, Entry>, cfg: Config, good: EmbedFn, w: Meaning, docs: Docs)
    ensures AllHeld(index, cfg, w, docs) <==> AllHeld(index, cfg.(embed := good), w, docs)
  {
    forall p, c ensures Holds(index, cfg, w, p, c) <==> Holds(index, cfg.(embed := good), w, p, c) {}
  }

  lemma {:induction false} UpsertWith(
      index: map<string, Entry>, cfg: Config, good: EmbedFn, path: string, cs: seq<Chunk>, vs: seq<Vector>)
    requires |cs| == |vs|
    ensures Upsert(index, cfg.(embed := good), path, cs, vs) == Upsert(index, cfg, path, cs, vs)
    decreases cs
  {
    if cs != [] {
      UpsertWith(index, cfg, good, path, cs[..|cs| - 1], vs[..|cs| - 1]);
    }
  }

  /** With the right number of vectors the update is that of the right embedding. */
  lemma {:induction false} SameUpdate(s: Store, cfg: Config, good: EmbedFn, path: string, cs: seq<Chunk>)
    requires var texts := Asked(s, path, cs); texts == [] || cfg.embed(texts) == good(texts)
    ensures IndexChunks(s, cfg.(embed := good), path, cs) == IndexChunks(s, cfg, path, cs)
  {
    var changed := Changed(cs, OldHashes(s, path));
    if changed != [] && |good(Contents(changed))| == |changed| {
      UpsertWith(s.index, cfg, good, path, changed, good(Contents(changed)));
    }
    SameIds(cfg, good, path, cs);
  }

  /** A changed chunk whose upsert was skipped is not in the index: its id is not, or with another hash. */
  lemma {:induction false} NotHeld(
      s: Store, cfg: Config, good: EmbedFn, w: Meaning, docs: Docs, path: string, cs: seq<Chunk>, c: Chunk)
    requires Suitable(cfg.(embed := good), w) && Synced(s, cfg, w, docs) && AllProper(docs, cfg.hash)
    requires c in Changed(cs, OldHashes(s, path))
    requires |cfg.embed(Asked(s, path, cs))| != |Asked(s, path, cs)|
    ensures !Holds(IndexChunks(s, cfg, path, cs).index, cfg, w, path, c)
  {
    var id := cfg.vectorId(path, c.startLine);
    NothingAdded(s, cfg, path, cs, id);
    if id in s.index {
      KeyInverse(cfg, good, w);
      RecordedHash(s, cfg, w, docs, path, c.startLine);
    }
  }

  lemma {:induction false} KeyInverse(cfg: Config, good: EmbedFn, w: Meaning)
    requires Suitable(cfg.(embed := good), w)
    ensures Inverse(cfg, w)
  {
    forall p: string, m: nat ensures w.keyOf(cfg.vectorId(p, m)) == (p, m) {
      assert cfg.(embed := good).vectorId(p, m) == cfg.vectorId(p, m);
    }
  }

  ghost predicate Inverse(cfg: Config, w: Meaning) {
    forall p: string, m: nat :: w.keyOf(cfg.vectorId(p, m)) == (p, m)
  }

  /** A skipped upsert only deletes. */
  lemma {:induction false} NothingAdded(s: Store, cfg: Config, path: string, cs: seq<Chunk>, id: string)
    requires |cfg.embed(Asked(s, path, cs))| != |Asked(s, path, cs)|
    ensures var after := IndexChunks(s, cfg, path, cs).index;
      id in after ==> id in s.index && after[id] == s.index[id]
  {
    assert Upserted(s, cfg, path, cs) == s.index;
  }

  /** The hash in the index is the hash on record. */
  lemma {:induction false} RecordedHash(s: Store, cfg: Config, w: Meaning, docs: Docs, path: string, line: nat)
    requires Inverse(cfg, w) && Synced(s, cfg, w, docs) && AllProper(docs, cfg.hash)
    requires cfg.vectorId(path, line) in s.index
    ensures line in OldHashes(s, path) && OldHashes(s, path)[line] == s.index[cfg.vectorId(path, line)].hash
  {
    var k := ListedAt(s, cfg, w, docs, path, line);
    RecordedChunk(s, cfg, w, docs, path, k);
  }

  /** An id in the index is that of a current chunk. */
  lemma {:induction false} ListedAt(s: Store, cfg: Config, w: Meaning, docs: Docs, path: string, line: nat)
    returns (k: nat)
    requires Inverse(cfg, w) && NoStray(s.index, cfg, docs) && cfg.vectorId(path, line) in s.index
    ensures path in docs && k < |docs[path]| && docs[path][k].startLine == line
  {
    var id := cfg.vectorId(path, line);
    assert Listed(docs, cfg, id);
    var p :| p in docs && id in IdsOf(cfg, p, docs[p]);
    k :| 0 <= k < |docs[p]| && IdsOf(cfg, p, docs[p])[k] == id;
    assert w.keyOf(cfg.vectorId(p, docs[p][k].startLine)) == (p, docs[p][k].startLine);
    assert w.keyOf(id) == (path, line);
  }

  lemma {:induction false} RecordedChunk(s: Store, cfg: Config, w: Meaning, docs: Docs, path: string, k: nat)
    requires Synced(s, cfg, w, docs) && AllProper(docs, cfg.hash) && path in docs && k < |docs[path]|
    ensures var line := docs[path][k].startLine;
      && line in OldHashes(s, path) && cfg.vectorId(path, line) in s.index
      && OldHashes(s, path)[line] == s.index[cfg.vectorId(path, line)].hash
  {
    SyncedPath(s, cfg, w, docs, path);
    assert Holds(s.index, cfg, w, path, docs[path][k]);
    HashesAt(docs[path], k);
  }

  lemma {:induction false} NothingChanged(cs: seq<Chunk>, olds: map<nat, string>)
    requires forall k :: 0 <= k < |cs| ==> cs[k].startLine in olds && olds[cs[k].startLine] == cs[k].hash
    ensures Changed(cs, olds) == []
    decreases cs
  {
    if cs != [] {
      NothingChanged(cs[1..], olds);
    }
  }

  lemma {:induction false} NothingStale(olds: seq<string>, news: seq<string>)
    requires forall k :: 0 <= k < |olds| ==> olds[k] in news
    ensures Stale(olds, news) == []
    decreases olds
  {
    if olds != [] {
      NothingStale(olds[1..], news);
    }
  }

  /**
   Indexing the same document again, with whatever embedding, changes nothing: an upsert
   that was skipped is not made up for.
   */
  lemma {:induction false} SkippedForGood(s: Store, cfg: Config, other: EmbedFn, path: string, cs: seq<Chunk>)
    requires Proper(cs, cfg.hash)
    ensures var after := IndexChunks(s, cfg, path, cs);
      IndexChunks(after, cfg.(embed := other), path, cs) == after
  {
    var after := IndexChunks(s, cfg, path, cs);
    forall k | 0 <= k < |cs| ensures cs[k].startLine in HashesOf(cs) && HashesOf(cs)[cs[k].startLine] == cs[k].hash {
      HashesAt(cs, k);
    }
    SameIds(cfg, other, path, cs);
    NothingChanged(cs, OldHashes(after, path));
    NothingStale(OldIds(after, path), IdsOf(cfg, path, cs));
    DeleteNone(after.index, []);
  }
}
