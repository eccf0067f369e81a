# Verified kernels of the agent SDK

A Dafny 4.11 model of the stateful and algorithmic kernels of an agent SDK, with
proofs of what each promises over every input, every run or every interleaving.
`dafny verify dfyconfig.toml` checks all of it.

Code that updates objects step by step is a class or a loop here. Each method of a
class is proved to compute a specification function of the old state, and the
theorems are about those functions, lifted to runs. The steps of the two protocols
are shared in the same way: the network's steps in `Peering` change and look up
records with the functions that the methods of `Agent` compute, and each method of `PendingStore` that
changes records is a stretch of an actor's steps in `Subagents`, uninterrupted. Pure
code is functions.

- **Task store** (`Graph`, `TaskTables`, `TaskStore`, `TaskInvariants`, `TaskRuns`,
  `ReadyOrder`, `TaskEffects`, `TaskTree`). Two tables, tasks and typed dependency edges. The class `Store` holds
  them; its cycle search is the source's loop over a stack and a visited set. Runs are
  any sequences of calls by any callers under any auth checkers, throwing calls
  included. A created id is fresh: no row has it and no row mentions it.
- **Glob compiler** (`Regex`, `Glob`, `GlobDocs`). The emitted text is parsed by a
  parser for the needed part of the regular expressions of ECMA-262 (section 22.2.1)
  and the tree's matching relation is compared with a matcher that reads the pattern
  itself, and that one with the documented rules.
- **Chunker and incremental index** (`Text`, `Paragraphs`, `Chunker`,
  `ChunkTheorems`, `VectorIds`, `Indexer`, `IndexTheorems`, `IndexReport`, `EndLines`,
  `SkippedUpserts`). Overlapping
  chunks of paragraphs, ids `path:line`, and a hash-diffing indexer over three stores.
- **Rate limiter** (`RateLimit`). The fixed window, over runs of many senders.
- **Peering handshake** (`Peering`). Two or more agents; requests, responses and
  callbacks stay available until they are lost, so each may arrive late, twice or never,
  and the handshake handler may be interrupted between its look-up and its write.
- **Tokens** (`Base64Url`, `Token`). base64url of section 5 of RFC 4648 built from
  `btoa` and `atob`, and `payload:signature` framing.
- **Doom-loop detector** (`KeyOrder`, `StableStringify`, `DoomLoop`). A canonical
  JSON printer, and a bounded window of recent calls.
- **Directory rename** (`Utf8`, `StoragePaths`, `DirectoryRename`). Path normalisation and a
  rename over a flat key-value bucket.
- **Subagents** (`Subagents`, `AuthChecker`). One pending record and the completion
  callbacks, cancels and orphan clean-ups that race on it; the walk up a possibly
  cyclic parent map.
- **Session output** (`SessionOutput`). A pending buffer and a capped buffer.

## Where the code does not do what its text says

Each of these is proved, with the exact condition under which the promise holds.

- `create` is documented to add its dependencies atomically with the row
  (types.ts:60). It throws when a target occurs twice or the parent is also listed,
  and the row stays: `CreateAtomicIff`, `CreateNotAtomic`.
- `deleteBySession` returns the number of deleted rows unless the caller is the empty
  string and others own tasks: `DeleteCountIff`.
- By its documented rules `**` matches any characters and a "/" is a "/". The compiled
  pattern misses documented texts exactly when the pattern has a `**`, which stops at
  line terminators (`NothingMissedIff`), and accepts further ones exactly when a `**`
  is followed by a "/", which it skips, as in `**/b` on `xb` (`NothingExtraIff`,
  `DisagreementExamples`). For one pattern and one text: `SlashAgreeIff`,
  `LineAgreeIff`, `CompiledReading`.
- The configured maximum of the rate limiter holds in every window length exactly when
  it is 1, or larger with a window of no length (`KeepsMaximumIff`); else it is exceeded,
  though never beyond 2m-1, where m is the larger of it and 1 (`RateBound`, `BoundReached`).
- Stored `endLine` metadata goes stale when only the blank lines inside a chunk
  change: `EndLinesExactIff` for one update, `RunEndLines` for runs, `GrowingBlankRun`.
- When the embedding gives a wrong number of vectors the upsert is skipped but the new
  hashes are stored, so the index stays behind (`UpdateSyncedIff`), also when the same
  document is indexed again (`SkippedForGood`).
- A window shorter than threshold-1 silently disables doom-loop blocking: `BlockedIff`.
- Renaming a directory and back loses the content of a non-empty directory marker:
  `RenameBack`.
- The handshake handler looks up and writes in two steps. Handshakes can change an
  existing status, an approval for one, exactly when a handler had looked the sender up
  before the record was there and the status is no longer the policy's
  (`HandshakesKeepIff`, `InterruptedHandshakeOverwrites`).
- A revocation deletes both records. Without a new look-up the inbound one comes back
  exactly when a handler had looked the peer up and was still to write
  (`InboundRevocationHoldsIff`). The outbound one comes back exactly when the peer's
  answer was coming: a response that may still arrive, or such a handler at the peer
  (`OutboundRevocationHoldsIff`). `RevocationHoldsIff` speaks of both.
- A callback is lost exactly when no response has been delivered since the record was
  last dropped: `CallbackLostIff`, `OvertakingCallbackLost`.
- A completion interrupted between its save and its delete leaves a record nothing
  clears, because clean-up and cancel act on running records only:
  `LeftoverClearedIff`, `CrashLeaksRecord`.
- The comment of `extractLines` promises the whole text for a range out of bounds. The
  code gives the whole text exactly when the range covers every line or the text is
  empty (`ExtractWholeIff`), and the empty text exactly when the range holds no line, or
  a single empty one (`ExtractEmptyIff`).
- The chunker's forced advance for a chunk that makes no progress cannot happen: the
  branch is kept in `ChunkParagraphs`, and the contract of `Restart` rules it out.

## Assumptions

HMAC, JSON text and its parser, `embed` and the chunk hash are parameters: JSON text
parses back to the payload, `embed` returns one vector per text that depends on that
text alone, and the hash has no collisions. Storage, the bucket and the vector index
are maps; listings are complete. Clocks are parameters. Message senders are genuine.

## Model

| member | source | states |
|---|---|---|
| TaskStore.Store.AssertNoCycle | packages/capabilities/task-tracker/src/task-store.ts:356-385 | The stack-and-visited search ends on every edge set and throws exactly when the source is reachable from the target along blocking edges, shared descendants and dangling targets included |
| TaskStore.Store.InsertDependency | packages/capabilities/task-tracker/src/task-store.ts:249-271 | The insert refuses self-edges, cycles of blocking edges and duplicate keys, in this order, and otherwise adds exactly one edge |
| TaskStore.Store.CreateTask | packages/capabilities/task-tracker/src/task-store.ts:106-151 | The whole new state and answer, including what stays written when it throws part way |
| TaskStore.Store.UpdateTask | packages/capabilities/task-tracker/src/task-store.ts:170-207 | Not found, not authorised, bad transition, nothing to do, or exactly the named fields of that row changed |
| TaskStore.Store.CloseTask | packages/capabilities/task-tracker/src/task-store.ts:209-222 | Only along an allowed transition does exactly that row become closed, with its reason |
| TaskStore.Store.DeleteSession | packages/capabilities/task-tracker/src/task-store.ts:225-234 | Deletes the caller's rows and the edges that leave them; edges into them stay |
| TaskStore.Store.AddDependency | packages/capabilities/task-tracker/src/task-store.ts:238-247 | Both ends must exist and the caller must own the source before the insert is tried |
| TaskStore.Store.RemoveDependency | packages/capabilities/task-tracker/src/task-store.ts:273-283 | Removes exactly the edges from source to target |
| TaskEffects.CloseExact | packages/capabilities/task-tracker/src/task-store.ts:209-222 | In a valid table, closing a row is refused without authority or when it is closed; otherwise that row alone gets status closed and the reason, every other field and row staying |
| TaskEffects.CloseUnblocks | packages/capabilities/task-tracker/src/task-store.ts:311-317 | After a close a task has an open blocker exactly when it waits for some other unclosed task: one whose only unclosed blocker was closed waits no longer |
| TaskEffects.UpdateExact | packages/capabilities/task-tracker/src/task-store.ts:170-207 | An update is refused without authority or for a status pair outside the listed six; otherwise each given field has its value, each other field its own, and no other row changes |
| TaskEffects.CreateExact | packages/capabilities/task-tracker/src/task-store.ts:106-151 | A create writes nothing when a named parent is missing or may not be written; otherwise its row is last, open, with the given fields and owner, also when a dependency then fails |
| TaskEffects.AddDepExact | packages/capabilities/task-tracker/src/task-store.ts:238-271 | Which refusal wins, with a cycle refused exactly when the edge would make the edges other than related ones cyclic; otherwise exactly that dependency is added |
| TaskEffects.RemoveDepExact | packages/capabilities/task-tracker/src/task-store.ts:273-283 | Every dependency row stays, as often as it was there, but those from source to target, which go |
| TaskEffects.DeleteExact | packages/capabilities/task-tracker/src/task-store.ts:224-234 | Every row stays, as often and in the same order, but those of the caller, and every edge but those out of them |
| TaskEffects.MissingRow | packages/capabilities/task-tracker/src/task-store.ts:170-283 | Update, close, adding and removing dependencies on an absent id change nothing and answer not found |
| TaskTables.Ready | packages/capabilities/task-tracker/src/task-store.ts:299-323 | Returns exactly the open tasks (of the owner, if one is given) with no unclosed blocker; a dangling target does not block |
| TaskEffects.WaitsExact | packages/capabilities/task-tracker/src/task-store.ts:311-317 | One more dependency makes a task wait exactly when it is not a related one and its target is an unclosed row; without dependencies nothing waits |
| ReadyOrder.ReadyInOrder | packages/capabilities/task-tracker/src/task-store.ts:307-322 | They come by priority, ties in creation order, each row as often as the table has it |
| TaskRuns.RunKeepsValid | packages/capabilities/task-tracker/src/task-store.ts:106-283 | Every run keeps the tables valid: blocking edges acyclic, ids unique, parents before children, edge keys unique, edge sources live |
| TaskRuns.ReachableStatesAcyclic | packages/capabilities/task-tracker/src/task-store.ts:106-283 | No reachable state, calls that threw part way included, has a closed walk of blocking edges |
| Graph.AcyclicIffNoClosedWalk | packages/capabilities/task-tracker/src/task-store.ts:352-385 | The acyclicity that is kept is the absence of closed walks |
| Graph.AddEdgeAcyclic | packages/capabilities/task-tracker/src/task-store.ts:254-257 | On an acyclic graph, adding an edge keeps it acyclic exactly when its source is not reachable from its target: the cycle search refuses nothing without need |
| TaskRuns.SomeTaskUnblocked | packages/capabilities/task-tracker/src/task-store.ts:311-317 | In a valid state with an unclosed task, some unclosed task has no unclosed blocker |
| TaskRuns.NoDeadlock | packages/capabilities/task-tracker/src/task-store.ts:299-323 | After any run, if the unclosed tasks are all open and there is one, the unfiltered ready query is not empty |
| TaskRuns.CreateAtomicIff | packages/capabilities/task-tracker/src/types.ts:60-61 | Once the parent check passes, create returns a task exactly when parent and targets are pairwise distinct, and then all promised links are added and no others; otherwise it throws on a duplicate key, with the row and the links before the repeated one already written |
| TaskRuns.CreateNotAtomic | packages/capabilities/task-tracker/src/task-store.ts:134-144 | A concrete create that throws and leaves its row behind |
| TaskRuns.OwnershipFrame | packages/capabilities/task-tracker/src/task-store.ts:98-234 | No call changes a task's owner or parent; its status moves only along allowed transitions; any change needs the caller's authority, and only its owner deletes it |
| TaskRuns.DeleteCountIff | packages/capabilities/task-tracker/src/task-store.ts:224-234 | The returned count is the number of rows deleted exactly when the caller is not empty or owns every task |
| TaskTree.Tree | packages/capabilities/task-tracker/src/task-store.ts:328-348 | The recursive query-and-push ends and builds the specified tree, or nothing when the root is absent; it needs parents to precede children, which ReachableStatesAcyclic shows of every reachable state |
| TaskTree.ReachableTreeExact | packages/capabilities/task-tracker/src/task-store.ts:328-348 | After any run the tree of a root holds a row, all its fields included, at a depth exactly once when the row is that many parent links below the root, and otherwise never |
| TaskTree.ReachableTreeNested | packages/capabilities/task-tracker/src/task-store.ts:337-348 | After any run the tree is nested by parent: the children of a node are all the rows that name it as parent, one level deeper and in table order |
| Glob.GlobToRegex | packages/capabilities/file-tools/src/paths.ts:112-153 | The loop with its look-ahead emits the token-by-token text |
| Glob.EmitParses | packages/capabilities/file-tools/src/paths.ts:112-153 | Every emitted text is well formed and parses, to its end, to the tree of the pattern: no piece changes how its neighbours parse |
| Glob.CompiledGlobIsExact | packages/capabilities/file-tools/src/paths.ts:112-153 | The compiled expression accepts exactly the texts a direct matcher of the pattern accepts |
| Glob.DirectoriesAbsorbed | packages/capabilities/file-tools/src/paths.ts:119-127 | What the optional group after `**` takes, the `**` before it can take as well |
| GlobDocs.NothingExtraIff | packages/capabilities/file-tools/src/paths.ts:103-127 | A compiled pattern accepts only documented texts exactly when no `**` in it is followed by a "/" |
| GlobDocs.NothingMissedIff | packages/capabilities/file-tools/src/paths.ts:103-121 | It accepts every documented text exactly when it has no `**`, because `**` stops at line terminators |
| GlobDocs.CompiledReading | packages/capabilities/file-tools/src/paths.ts:112-144 | In terms of the documented rules, the compiled pattern is the pattern without the "/" after each `**`, with no `**` taking a line terminator |
| GlobDocs.SlashAgreeIff | packages/capabilities/file-tools/src/paths.ts:123-127 | On a text without line terminators, pattern and compiled pattern agree exactly when the documented rules do not need such a "/" to reject it |
| GlobDocs.LineAgreeIff | packages/capabilities/file-tools/src/paths.ts:119-121 | For a pattern without such a "/", they agree on a text exactly when the text is rejected or can be accepted with no `**` taking a line terminator |
| GlobDocs.DisagreementExamples | packages/capabilities/file-tools/src/paths.ts:103-127 | The two causes apart: `**/b` compiled accepts `xb`, and `**` compiled rejects a line feed |
| Paragraphs.GetParagraphs | packages/capabilities/vector-memory/src/chunker.ts:30-59 | The collect-and-flush loop finds the maximal runs of non-blank lines with their line ranges |
| Paragraphs.ParagraphsPlaced | packages/capabilities/vector-memory/src/chunker.ts:26-59 | Paragraphs are in order, hold exactly their non-blank lines, end at a blank line or the end, and only blank lines, at least one, lie between them |
| Chunker.ChunkMarkdown | packages/capabilities/vector-memory/src/chunker.ts:66-134 | The nested loops end for every content and produce the specified chunks |
| Chunker.FillChunk | packages/capabilities/vector-memory/src/chunker.ts:79-98 | The inner loop takes paragraphs while they fit and returns their text, end line and end |
| Chunker.WalkBack | packages/capabilities/vector-memory/src/chunker.ts:116-123 | The overlap loop finds the restart, which is always after the chunk's first paragraph |
| ChunkTheorems.ChunkLinesOrdered | packages/capabilities/vector-memory/src/chunker.ts:66-134 | Start lines strictly increase and end lines never go back |
| ChunkTheorems.EveryLineChunked | packages/capabilities/vector-memory/src/chunker.ts:61-134 | Every non-blank line of the document lies in the line range of some chunk |
| ChunkTheorems.ChunkSize | packages/capabilities/vector-memory/src/chunker.ts:85-98 | A chunk has at most 1600 characters or is a single paragraph, and one more paragraph would have exceeded the limit |
| ChunkTheorems.ChunkOverlap | packages/capabilities/vector-memory/src/chunker.ts:116-130 | Neighbouring chunks share the fewest trailing paragraphs that make 320 characters but never all; none exactly when the earlier chunk is one paragraph |
| ChunkTheorems.ChunkContent | packages/capabilities/vector-memory/src/chunker.ts:79-111 | A chunk's content is the document's own lines from its start to its end line with every run of blank lines made one empty line and the spaces at both ends taken off; it is never empty, and its hash is that of the content |
| ChunkTheorems.ReadBack | packages/capabilities/vector-memory/src/searcher.ts:19-24 | Reading a chunk's line range back gives, blank lines dropped, the lines of the chunk's text before its final trim; contents are never empty |
| ChunkTheorems.ExtractWholeIff | packages/capabilities/vector-memory/src/searcher.ts:15-24 | Lines read back are the whole text exactly when the range covers every line or the text is empty |
| ChunkTheorems.ExtractEmptyIff | packages/capabilities/vector-memory/src/searcher.ts:15-24 | They are the empty text exactly when the range holds no line, or a single empty one |
| Text.SplitJoin | packages/capabilities/vector-memory/src/searcher.ts:20-23 | Splitting undoes joining for lines without newlines |
| VectorIds.VectorIdInjective | packages/capabilities/vector-memory/src/indexer.ts:31-31 | Ids of different paths or lines never collide, whatever colons and digits the paths hold |
| VectorIds.VectorIdExact | packages/capabilities/vector-memory/src/indexer.ts:31-31 | An id is the path, a colon and the decimal numeral of the line |
| Indexer.VectorMemory.IndexDocument | packages/capabilities/vector-memory/src/indexer.ts:18-95 | The three stores after an update, and the three counts returned |
| Indexer.VectorMemory.RemoveDocument | packages/capabilities/vector-memory/src/indexer.ts:102-123 | The three stores after a removal, and the count returned |
| IndexTheorems.RunSynced | packages/capabilities/vector-memory/src/indexer.ts:18-123 | After any updates and removals, the records are those of the current documents, every current chunk is in the index with its own vector, hash and metadata but the end line, and nothing else is |
| IndexTheorems.RunEntries | packages/capabilities/vector-memory/src/indexer.ts:56-68 | After any run, for every chunk of every current document the entry under `path:line` has, field by field, that path, the prefix, its start line and hash and the vector of its content, and the records of the path list its hash and id |
| IndexReport.ReportExact | packages/capabilities/vector-memory/src/indexer.ts:86-90 | After any run, an update reports its chunks, those whose hash is new at their start line, and the old chunks that start where none starts now |
| IndexReport.RemovedCount | packages/capabilities/vector-memory/src/indexer.ts:109-118 | After any run, a removal reports the number of chunks of the document |
| SkippedUpserts.UpdateSyncedIff | packages/capabilities/vector-memory/src/indexer.ts:46-84 | With an embedding that may give a wrong number of vectors, an update of a store in step with its documents leaves it in step exactly when nothing had to be embedded or the number was right |
| SkippedUpserts.SkippedForGood | packages/capabilities/vector-memory/src/indexer.ts:41-84 | Indexing the same document again, with any embedding, changes nothing: a skipped upsert is not made up for |
| IndexTheorems.IncrementalRefinesFull | packages/capabilities/vector-memory/src/indexer.ts:11-95 | Two runs that end in the same documents, such as one that rebuilds from nothing, leave the same stores up to end lines |
| EndLines.EndLinesExactIff | packages/capabilities/vector-memory/src/indexer.ts:41-68 | Re-indexing keeps the end lines right exactly when no chunk keeps start line and hash while its end line moves |
| EndLines.RunEndLines | packages/capabilities/vector-memory/src/indexer.ts:41-84 | After any run, the stored end line of every current chunk is that of the last operation that changed the hash at its path and start line |
| EndLines.GrowingBlankRun | packages/capabilities/vector-memory/src/chunker.ts:85-111 | Indexing a document and then the same with one blank line more stores end line 3 for a chunk that ends at line 4 |
| RateLimit.RateLimiter.CheckRateLimit | packages/federation/agent-peering/src/rate-limit.ts:15-40 | One request's decision and new entry; no other sender's entry changes |
| RateLimit.SendersIndependent | packages/federation/agent-peering/src/rate-limit.ts:21-40 | In any interleaving each sender's entry and grants are those of its own requests alone |
| RateLimit.RateBound | packages/federation/agent-peering/src/rate-limit.ts:15-40 | With a clock that never goes back, any closed interval of one window length holds at most 2m-1 grants to a sender, and its entry counts the grants of the current window, at most m, where m is the larger of 1 and the maximum |
| RateLimit.RefusedIff | packages/federation/agent-peering/src/rate-limit.ts:21-40 | A request is refused exactly when it falls, ends included, into the window that an earlier grant opened and the grants in that window have reached the maximum |
| RateLimit.BoundReached | packages/federation/agent-peering/src/rate-limit.ts:25-33 | For every maximum and every positive window some run reaches 2m-1 |
| RateLimit.KeepsMaximumIff | packages/federation/agent-peering/src/rate-limit.ts:11-40 | Every run keeps the configured maximum in every interval of one window length exactly when the maximum is 1, or larger with a window of no length |
| Peering.Agent.HandleHandshake | packages/federation/agent-peering/src/handlers.ts:48-79 | Without interruption a known sender gets its stored status and nothing changes; a new one gets the policy's, which is stored |
| Peering.Agent.AdmitSender | packages/federation/agent-peering/src/handlers.ts:56-79 | A sender found unknown is given the policy's status, which is stored and answered: the write of the step CommitHandshake |
| Peering.Agent.Decide | packages/federation/agent-peering/src/handlers.ts:100-124 | Approval and denial change an existing inbound record and create none; a callback with the new status is due exactly when there was a record |
| Peering.Agent.HandleApprove | packages/federation/agent-peering/src/handlers.ts:84-132 | An existing inbound record becomes accepted and a callback saying so is due; else nothing |
| Peering.Agent.HandleDeny | packages/federation/agent-peering/src/handlers.ts:134-182 | An existing inbound record becomes rejected and a callback saying so is due; else nothing |
| Peering.Agent.constructor | packages/federation/agent-peering/src/handlers.ts:6-11 | Without a configured policy the policy is to allow everybody |
| Peering.Agent.HandleCallback | packages/federation/agent-peering/src/handlers.ts:208-220 | A callback with a valid status changes an existing outbound record and creates none |
| Peering.RecordIsLastWrite | packages/federation/agent-peering/src/handlers.ts:48-220 | In every run, any inbound or outbound record has a status exactly when the last event that wrote it put that status there |
| Peering.InboundStatusIff | packages/federation/agent-peering/src/handlers.ts:13-182 | In every run and under every policy an inbound record is accepted, rejected or pending exactly when the last event that wrote it was an approval, a denial, or a handshake under the policy for that status |
| Peering.Provenance | packages/federation/agent-peering/src/handlers.ts:49-124 | In every run, each outbound status and each status in a response or callback was at some step the inbound status it speaks of |
| Peering.OutboundWasInbound | packages/federation/agent-peering/src/service.ts:36-66 | Whenever A holds a status for B, B's record of A had it at that or an earlier step |
| Peering.AuthorizedIffApproved | packages/federation/agent-peering/src/service.ts:27-30 | Under every policy a peer is authorised exactly when the last event that wrote its record was an approval or, with an owner that allows everybody, a handshake |
| Peering.HandshakesKeepIff | packages/federation/agent-peering/src/handlers.ts:48-68 | No handshakes, however many, interleaved or interrupted, change an existing status, exactly unless a handler had looked the sender up before the record was there and the status is not the policy's |
| Peering.HandshakeIdempotent | packages/federation/agent-peering/src/handlers.ts:48-79 | Any number of uninterrupted handshakes keep an existing status or give a new peer the policy's, all answer the same, and touch no other record |
| Peering.FirstHandshake | packages/federation/agent-peering/src/handlers.ts:56-79 | A new peer is stored and answered accepted, rejected or pending as the policy is to allow, to disallow or to ask |
| Peering.InterruptedHandshakeOverwrites | packages/federation/agent-peering/src/handlers.ts:49-68 | A run from nothing in which two interleaved handshakes undo an approval |
| Peering.InboundRevocationHoldsIff | packages/federation/agent-peering/src/service.ts:69-69 | Once the inbound record is deleted, nothing but a handler's fresh look-up of the peer brings one back, exactly when no handler had looked it up before and was still to write |
| Peering.OutboundRevocationHoldsIff | packages/federation/agent-peering/src/service.ts:70-70 | Once the outbound record is deleted, nothing but the peer's fresh look-up of the owner brings one back, exactly when no answer was coming: no response that may still arrive, and no handler at the peer still to write |
| Peering.RevocationHoldsIff | packages/federation/agent-peering/src/service.ts:68-71 | After revokePeer both records stay away until one of the two looks the other up afresh, exactly when neither of these is under way |
| Peering.CallbackLostIff | packages/federation/agent-peering/src/handlers.ts:216-220 | In every run an arriving callback is lost, changing no record, exactly when no response has been delivered since the record was last dropped; otherwise the record takes its status |
| Peering.OvertakingCallbackLost | packages/federation/agent-peering/src/handlers.ts:216-220 | A run that delivers every message and yet leaves A pending while B has accepted |
| Base64Url.Base64UrlEncode | packages/infra/agent-auth/src/encoding.ts:1-7 | The loop, `btoa` and the replacements compute the specified encoding |
| Base64Url.Base64UrlDecode | packages/infra/agent-auth/src/encoding.ts:9-18 | The replacements, the recomputed padding, `atob` and the loop compute the specified decoding, or throw |
| Base64Url.DecodeEncode | packages/infra/agent-auth/src/encoding.ts:1-18 | Decoding gives back every encoded byte sequence |
| Base64Url.EncodeExact | packages/infra/agent-auth/src/encoding.ts:1-7 | The text is that of section 4 of RFC 4648 in the URL alphabet of its section 5: four letters for the 24-bit number of three bytes, two or three for what is left |
| Base64Url.ForgivingExamples | packages/infra/agent-auth/src/encoding.ts:9-12 | Padding already there, spaces and unused bits are forgiven; a letter on its own is refused |
| Base64Url.BtoaIsPadded | packages/infra/agent-auth/src/encoding.ts:6-11 | The padding that is stripped is the padding the decoder recomputes |
| Base64Url.EncodeAlphabet | packages/infra/agent-auth/src/encoding.ts:6-6 | An encoding holds none of `+`, `/`, `=` and `:` |
| Base64Url.EncodeDecodeIff | packages/infra/agent-auth/src/encoding.ts:9-18 | A text is an encoding, and decodes to bytes that encode to it, exactly when it uses only the URL alphabet, has no letter over and zero unused bits |
| Token.VerifySigned | packages/infra/agent-auth/src/verify.ts:6-54 | A signed token verifies exactly when the verifier's secret gives the same HMAC, the target is the expected one and the clocks differ by at most the ttl; then it gives the signed payload |
| Token.VerifiedIsSigned | packages/infra/agent-auth/src/verify.ts:12-53 | Any token that verifies carries the payload's bytes and their HMAC under the secret, for the expected target and within the ttl; and it is the text that signing gives exactly when both halves are canonical |
| KeyOrder.SortCanonical | packages/capabilities/doom-loop-detection/src/stable-stringify.ts:11-11 | Lists of distinct keys sort to the same list exactly when they hold the same keys |
| KeyOrder.LessIff | packages/capabilities/doom-loop-detection/src/stable-stringify.ts:11-11 | The order is that of the first difference, or a text comes before those it starts |
| StableStringify.Readable | packages/capabilities/doom-loop-detection/src/stable-stringify.ts:5-16 | A printed value followed by a delimiter determines the value up to key order, and what follows |
| StableStringify.StringifyCanonical | packages/capabilities/doom-loop-detection/src/stable-stringify.ts:5-16 | Two JSON values print alike exactly when they are equal up to the order of object keys |
| StableStringify.TextExact | packages/capabilities/doom-loop-detection/src/stable-stringify.ts:5-16 | The text of each kind of value: elements joined by commas in brackets; in braces the members joined by commas, keys ascending, each with the value under it |
| StableStringify.QuoteReads | packages/capabilities/doom-loop-detection/src/stable-stringify.ts:6-14 | A printed string, read back by the escapes of JSON up to its closing quote, is the string |
| DoomLoop.Detector.RecordToolCall | packages/capabilities/doom-loop-detection/src/capability.ts:137-150 | Pushing and shifting leaves the last lookback records |
| DoomLoop.Detector.BeforeToolExecution | packages/capabilities/doom-loop-detection/src/capability.ts:74-122 | The tail count, the decision and the new window, allowed tools included |
| DoomLoop.WindowIsSuffix | packages/capabilities/doom-loop-detection/src/capability.ts:137-150 | The window of a session is always the end of its unbounded history |
| DoomLoop.BlockedIff | packages/capabilities/doom-loop-detection/src/capability.ts:88-122 | A call is blocked exactly when its tool may not repeat, the window is at least threshold-1 long and the last threshold-1 calls of the whole history have the same tool and arguments up to key order |
| DoomLoop.BlockedCount | packages/capabilities/doom-loop-detection/src/capability.ts:91-121 | The count that a blocked call is told is one more than the number of last calls it repeats in the whole history, as far as the window goes |
| StoragePaths.CheckPath | packages/capabilities/file-tools/src/paths.ts:33-73 | The first of these wins: a null character, a ".." between slashes of either kind or the ends, nothing or "." left after the leading "/" and "./", more than 512 bytes left; otherwise what is left is accepted |
| StoragePaths.AcceptedPath | packages/capabilities/file-tools/src/paths.ts:33-73 | An accepted path is an end of the given one with forward slashes, without null characters, backslashes, ".." segments and leading "/" or "./", and of 1 to 512 bytes |
| Utf8.Utf8Exact | packages/capabilities/file-tools/src/paths.ts:68-68 | The bytes counted for a character are a well-formed UTF-8 sequence of its code point |
| StoragePaths.NormalizedIsFixed | packages/capabilities/file-tools/src/paths.ts:28-73 | Validating a normalised path again gives it back |
| DirectoryRename.Bucket.RenameDirectory | packages/capabilities/file-tools/src/ui-bridge.ts:388-451 | The bucket and outcome of every case: invalid paths, same path, into itself, destination exists, source missing, moved |
| DirectoryRename.PrefixesApart | packages/capabilities/file-tools/src/ui-bridge.ts:399-428 | At the copy loop neither prefix extends the other |
| DirectoryRename.RenameRefused | packages/capabilities/file-tools/src/ui-bridge.ts:388-428 | Which failure wins, told by the paths and the keys inside the two directories; every failure, and a rename to the same path, leaves the bucket as it was |
| DirectoryRename.FilesMove | packages/capabilities/file-tools/src/ui-bridge.ts:408-445 | After a rename, a file inside the old directory has its content at the same place inside the new one and is gone from the old |
| DirectoryRename.RenameConserves | packages/capabilities/file-tools/src/ui-bridge.ts:430-445 | Nothing is left under the source, every other key is as it was, and each source key is under the destination with the same suffix and content (the directory marker empty) |
| DirectoryRename.RenameBack | packages/capabilities/file-tools/src/ui-bridge.ts:388-451 | Renaming back succeeds and restores the bucket exactly when the directory marker was absent or empty |
| Subagents.PendingStore.UpdateState | packages/capabilities/subagent/src/pending-store.ts:25-31 | Without interruption it changes the state of an existing record and creates none: the actor's read and write with nothing in between |
| Subagents.PendingStore.Save | packages/capabilities/subagent/src/pending-store.ts:13-15 | It is what an actor past its read does to the record, whether or not the record is still there |
| Subagents.PendingStore.Complete | packages/capabilities/subagent/src/tools.ts:168-196 | The completion callback is the completion actor run alone |
| Subagents.PendingStore.Cancel | packages/capabilities/subagent/src/tools.ts:250-269 | cancel_subagent is the cancel actor run alone |
| Subagents.FinishExact | packages/capabilities/subagent/src/tools.ts:168-269 | An actor that runs alone deletes the record, except that cancels and clean-ups leave a record alone that is not running |
| Subagents.StateExplained | packages/capabilities/subagent/src/tools.ts:172-268 | In every run a record is completed, failed or canceled only after a completion or clean-up or cancel of that kind started, and only completions hand over a result |
| Subagents.ResultHandedOver | packages/capabilities/subagent/src/tools.ts:168-196 | A completion that does not crash hands its result over before it is gone, whatever the others do |
| Subagents.PendingStore.OnConnect | packages/capabilities/subagent/src/capability.ts:81-102 | With somebody to tell, it is the clean-up actor run alone on every record |
| Subagents.QuietMeansGone | packages/capabilities/subagent/src/tools.ts:168-196 | In every interleaving of any completions, cancels and clean-ups: once one has deleted and none is between its save and its delete, no record is left |
| Subagents.DeletedRecordReturns | packages/capabilities/subagent/src/pending-store.ts:25-31 | The read-then-save can bring a deleted record back in between |
| Subagents.LeftoverClearedIff | packages/capabilities/subagent/src/capability.ts:84-91 | A record left with no actor at work can be cleared by cancels and reconnects exactly when it is running |
| Subagents.CrashLeaksRecord | packages/capabilities/subagent/src/tools.ts:172-195 | A completion that dies between its save and its delete leaves a record that cancels and reconnects never clear |
| AuthChecker.CanWrite | packages/capabilities/subagent/src/capability.ts:117-132 | The walk ends for every parent map, cyclic ones included, and answers true exactly when the owner is the caller or one of its ancestors |
| AuthChecker.DescendsPreorder | packages/capabilities/subagent/src/capability.ts:107-132 | Write authority is reflexive and transitive |
| SessionOutput.Session.AppendSessionOutput | packages/infra/cloudflare-sandbox/container/sessions.ts:28-41 | The four fields after an append, the cut to half the cap included |
| SessionOutput.Session.DrainForPoll | packages/infra/cloudflare-sandbox/container/routes.ts:515-538 | A poll answers with the pending text and the tail, and empties the pending buffer only |
| SessionOutput.RunFaithful | packages/infra/cloudflare-sandbox/container/sessions.ts:28-41 | After any appends and polls, the polled pieces and the pending buffer make up the full output; the capped buffer is a suffix of at most 204800 characters; truncated exactly when the output was longer |
| SessionOutput.BufferExact | packages/infra/cloudflare-sandbox/container/sessions.ts:33-37 | The length of the capped buffer after any run: it grows with the output and is cut to 102400 when it would exceed 204800; it is that long an end of the full output |
| SessionOutput.PollFaithful | packages/infra/cloudflare-sandbox/container/sessions.ts:117-120 | The tail in every poll is the last 2000 characters of the full output, although the buffer was cut |

## Left out

- Indexer.VectorMemory.IndexDocument: failure paths are not modelled (a throw leaves the stores as they were at that point); the theorems about runs assume that every number of vectors is right; UpdateSyncedIff says what one update does when it is not.
- IndexTheorems.IncrementalRefinesFull: does not compare `endLine`, because the code leaves it stale; EndLinesExactIff says when. One prefix serves all calls.
- TaskStore.Store.CreateTask: the timestamps of the row are not stored; the default values of missing fields are filled in by the caller.
- TaskStore.Store.UpdateTask: the write of `updated_at` is not modelled.
- TaskStore.Store.CloseTask: the writes of `closed_at` and `updated_at` are not modelled.
- TaskTables.Ready: creation order is the order of the table.
- TaskTree.Tree: creation order is the order of the table.
- Indexer.VectorMemory.RemoveDocument: the caught failure that returns zero is not modelled.
- Subagents.PendingStore.Complete: delivery to the parent session and the broadcast are not modelled.
- Subagents.PendingStore.Cancel: the abort of the child session, its failure path and the broadcast are not modelled.
- Subagents.QuietMeansGone: one record at a time, on values rather than on the class, with every storage access atomic; host calls do not throw, and a crash is an actor that vanishes.
- Peering.Provenance: interleavings are modelled on values rather than on the class; approval and denial are one step each, because only storage accesses lie between their look-up and their write, while a handshake also awaits the request body there; names, grant times and id resolution are not part of the records.
- Peering.Agent.HandleHandshake: the peer's name, the grant time and the broadcast for a pending handshake are not modelled.
- Peering.Agent.AdmitSender: likewise.
- Peering.Agent.Decide: says which callback is due; signing, sending and losing it are the network's.
- SessionOutput.Session.DrainForPoll: running state, exit code and back-off of the reply are not modelled.
- Token.VerifySigned: key import and signing are the parameter `hmac`; equality of signatures stands for the platform's verify.
- StableStringify.StringifyCanonical: numbers are identified by the text they print as; functions, symbols, dates and cyclic values are not JSON values and are not modelled.
- Strings are sequences of Dafny characters; surrogate pairs and the escapes of lone surrogates are not modelled.
- Pagination, batching of deletes by 1000, and the listing limit: a listing is complete and a batch is one delete per key.
- The log file, the garbage-collection timers and the poll back-off of sandbox sessions.
- `deleteDirectory` and `createDirectory`: simpler uses of the same prefixes.
- Keyword search, snippets and score formatting of the searcher.
- Skills sync, cookie merging, tool-output truncation, message chunking: no property beyond one body.
- HTTP, WebSocket, browser, sandbox and scheduler plumbing.
