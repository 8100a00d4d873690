# Virage verification

Dafny models of the parts of Virage in which most can go wrong, with proofs of what those parts are meant to
guarantee. Check everything with `dafny verify dfyconfig.toml`.

Every operation the source carries out by changing variables is a method here (on a class where the source has an
object), and each such method is proved equal to a specification function of its inputs or of the old state. The
guarantees are lemmas about those functions, for all inputs, all runs or all reachable states.

| area | modules | main results |
|---|---|---|
| Chunking | `Utf8`, `Document`, `Joining`, `Segments`, `Breadcrumbs`, `Windows`, `Packing`, `PlanLaws`, `Chunks`, `ChunkFacts`, `ChunkGuarantees`, `ChunkMarks`, `NodeCounts` | greedy windows are the fewest possible; what a breadcrumb is; where each window stops and how far the next one reaches back; which windows become which chunks and what is written in them; content is lossless exactly when every text fits; size bound; progress under any overlap; the configurations that keep every truncation mark; node counts add up exactly when no node is counted twice |
| Syntax trees | `SyntaxWalker`, `SyntaxCoverage`, `Lookup` | the walker emits one node for each reached syntax node, in order and under its full name; its output is laminar; on laminar trees one lookup always finds the innermost definition, the other under an exact condition on sections that lie apart |
| Warm query daemon | `DaemonClient`, `DaemonRuns`, `DaemonRegistry`, `DaemonOutcomes`, `QueryServe` | every request settles at most once, none is forgotten, and each gets what its answer, timer or process end says; it is queued exactly while unsettled; positional matching is right exactly while no late or stray line is delivered to a waiting request; one live handle per directory |
| LaTeX parser | `LatexText`, `LatexCursor`, `LatexBraces`, `LatexTable`, `LatexRows`, `LatexDialect`, `LatexParser`, `LatexSpans`, `LatexBlocks`, `LatexTableSpans`, `LatexSteps`, `LatexRoundTrip`, `LatexWords`, `LatexPlain` | parsing undoes writing; what each kind of source text becomes; termination, cursor on boundaries, ordered and nested spans over the whole tree, disjoint blocks, the exact input on which an offset underflows, brace readers agree, tables tile, where the source of a cell lies, which tables keep their words, plain text keeps its words |
| Search results | `Ndcg`, `Toon`, `Strings`, `Pagination` | NDCG bound, its exact condition, when it is 1, and that moving a hit up raises it; printing has an inverse, and cells are never taken for other values; pages tile the ranking, with a reranker exactly when it agrees with the store |
| Embedding cache | `EmbeddingCache` | the cache is invisible exactly when no two texts that collide have different embeddings, interleaved calls included; it holds the entries stored last; size bound |

## How the model is built

* A Rust `str` is a `Text`: a Dafny `string` with one `char` per octet, and `Utf8.Valid` is the syntax of section 4 of
  RFC 3629. Lengths, offsets and spans are therefore counted in octets, as in the source. The daemon, the table printer
  and the query server work on whole characters instead (`Strings`).
* The float product `current_tokens * overlap` is an arbitrary function `overlapTarget` of the token count, and
  `overlapping` says whether the overlap is positive; no property depends on the factor.
* The float parser in `toon_escape`, the reranker's scores, the hash of the embedding cache, the embedding model, the
  answers of the query server and the set of non-ASCII letters are parameters, assumed to be nothing but functions.
* The LaTeX tables are a parameter (`Dialect`), so the theorems hold for any table; `LatexDialect.Latex` spells out the
  source's own.
* A reranker scores each passage by itself, and its sort may put equal scores in any order, as an unstable sort may.
* The daemon is a transition system: client queue, stdin pipe, one request in the server, stdout pipe. Timeouts, process
  exit, spawn errors and stray lines are events that may happen at any time.

## Where the code and its documentation disagree

The model follows the code.

* `extract_fqn_for_chunk` in `walk.rs` is documented as returning the deepest section; it returns the last overlapping
  one in source order (`Lookup.RustMayMissDeepest`); `Lookup.DeepestIffApartGoesDeep` says exactly when no
  overlapping section is deeper. Across two siblings it returns the later one, which is as deep
  (`Lookup.RustTakesLaterSibling`).
* `recursive` is documented as avoiding content loss. With a budget of 0 tokens it erases every text
  (`ChunkGuarantees.LosslessIffFits` covers this case).
* Merging a short last window drops its `truncated` mark (`ChunkMarks.MarkIsLost` for every configuration that allows
  it); `ChunkMarks.MarksKeptIff` gives the configurations under which no mark is ever lost.
* `latex.rs` lists starred sectioning commands, but its name reader never yields a star (`LatexSpans.StarredNeverRead`);
  `\section*{A}` gives a heading with an empty title (`LatexSpans.StarredSectionExample`; `LatexSpans.StarredHeadingHasNoTitle` in
  general and `LatexSpans.StarredSections` for the source's own table).
* `latex.rs` calls its byte offsets exact. A long inline formula that is never closed starts one byte too low
  (`LatexSpans.InlineStart`), which at the very start of a file is below zero
  (`LatexTableSpans.OffsetsNonNegativeIffGoodOpening`; `LatexSpans.BadOpeningExample` is the smallest such file).
* `latex.rs` calls its byte offsets exact (line 34), but those of table rows and cells are laid out from the start of the
  environment instead of the start of its body. They are too low by the length of everything before the body
  (`LatexTableSpans.DocumentTables`) and may fall inside a character (`LatexTableSpans.CellEndsInsideCharacter`).
* A last table row without the closing `\\` is dropped by `parse_tabular` (`LatexRows.UnterminatedRowIsLost`). The rows
  end behind the last row terminator of the body, wherever that is (`LatexRows.RowsEndThere`), and the cells hold all
  words exactly when no word follows it (`LatexRows.TableKeepsWordsIff`).
* The header of `query-daemon.ts` describes one response read back per request sent. A request that times out leaves its
  response behind, which is then handed to the next request (`DaemonRuns.TimeoutBreaksCorrelation`).

## Model

| member | source | states |
|---|---|---|
| Utf8.FloorCharBoundary | crates/virage-engine/src/chunkers/walk.rs:120-128 | the loop finds the greatest character boundary at or below the index |
| Utf8.FloorBoundary | crates/virage-engine/src/chunkers/walk.rs:120-128 | the result is a boundary within the text and no boundary lies between it and the index |
| Utf8.FloorLosesAtMostThree | crates/virage-engine/src/chunkers/walk.rs:120-128 | in well-formed text, rounding down loses at most three octets |
| Segments.SegmentWalker.Visit | crates/virage-engine/src/chunkers/walk.rs:170-207 | the recursive visit with its shared breadcrumb appends exactly the segments of a left fold over the subtree in source order, and leaves the fold's breadcrumb |
| Segments.WalkDocument | crates/virage-engine/src/chunkers/walk.rs:163-168 | the walk from an empty breadcrumb yields the fold over the whole tree |
| Segments.WalkKeepsLeaves | packages/virage-chunker-ce-ast/src/ast-walker.ts:15-49 | the segment texts are the non-empty leaf texts in source order, none lost, repeated or empty |
| Breadcrumbs.SegmentsAreLeaves | crates/virage-engine/src/chunkers/walk.rs:170-207 | the segments are, in source order, one for each node with a text that is no heading, image or link, and no other: with its text, kind and span, and with the breadcrumb the next two rows describe |
| Breadcrumbs.CrumbEndsInNearest | crates/virage-engine/src/chunkers/walk.rs:172-178 | the breadcrumb is empty before the first heading; behind it, it ends in the text of the nearest heading before and is no longer than the level of that (or 1) |
| Breadcrumbs.CrumbHasOnePerLevel | crates/virage-engine/src/chunkers/walk.rs:172-178 | where levels start at 1 and rise by at most one, the breadcrumb is as long as the nearest heading's level, and entry `j` is the text of the latest heading of level `j + 1` |
| Segments.SplitOversized | crates/virage-engine/src/chunkers/walk.rs:211-235 | the splitting loop, with its break on an empty piece, yields the specified pieces |
| Segments.CutAdvances | crates/virage-engine/src/chunkers/walk.rs:218-233 | with a positive budget every cut advances by at least one octet, so the break on an empty piece is never taken |
| Segments.SplitIsLossless | crates/virage-engine/src/chunkers/walk.rs:211-235 | with a positive budget the pieces concatenate to the text, tile its byte range, are well-formed, not empty and at most `4 * max_tokens` octets long |
| Windows.FillWindow | crates/virage-engine/src/chunkers/walk.rs:366-420 | the filling loop stops at the specified end, with the window of exactly the segments up to there (the last one clipped if oversized) and their token sum |
| Windows.AdvanceStart | crates/virage-engine/src/chunkers/walk.rs:425-437 | the backward walk for the overlap computes the specified next start |
| Windows.NextStart | packages/virage-chunker-ce-ast/src/chunker.ts:253-266 | the next start lies behind the last start and not behind the window's end, for every overlap target |
| Windows.BuildWindows | crates/virage-engine/src/chunkers/walk.rs:344-441 | the outer loop terminates with the windows of the plan; the branch for an empty window is not needed |
| Windows.MergeTrailing | crates/virage-engine/src/chunkers/walk.rs:443-456 | the last window is merged into its predecessor exactly when it is short and has the same breadcrumb, and no other window changes |
| PlanLaws.OverlapIsExact | crates/virage-engine/src/chunkers/walk.rs:422-437 | of consecutive windows of every plan, the later starts as late as it can with the segments shared holding at least the overlap's tokens, or right behind the earlier one's first segment; without overlap, or behind a window of one segment, it shares nothing |
| PlanLaws.OneStartTakesUp | crates/virage-engine/src/chunkers/walk.rs:425-434 | no other start satisfies that description when no segment is empty |
| PlanLaws.WindowsStopRight | crates/virage-engine/src/chunkers/walk.rs:366-397 | in every window each further segment has the first one's breadcrumb and keeps the sum within its own limit (half for code and cells under adaptive sizing); the segment behind does not, unless the window ends in a cut one |
| Packing.FillEndIsMaximal | crates/virage-engine/src/chunkers/walk.rs:366-420 | the greedy end gives a feasible window, and no feasible window from the same start is longer |
| Packing.StaysAhead | crates/virage-engine/src/chunkers/walk.rs:348-441 | started no earlier than any feasible partition, the greedy plan needs no more windows than that partition |
| Packing.GreedyIsOptimal | crates/virage-engine/src/chunkers/walk.rs:344-441 | without overlap the plan is a feasible partition, and no feasible partition has fewer windows |
| Packing.PlanProgresses | crates/virage-engine/src/chunkers/walk.rs:422-440 | for every overlap target, whether no text is empty or all are, each start lies in `[start+1, idx]`, ends never decrease, the last window reaches the end, and there are at most as many windows as segments |
| Packing.PlanCovers | packages/virage-chunker-ce-ast/src/chunker.ts:190-271 | every segment is in some window, and in exactly one without overlap |
| Packing.WithoutOverlapDisjoint | crates/virage-engine/src/chunkers/walk.rs:435-437 | without overlap a later window starts at or behind the end of an earlier one |
| Chunks.Prepare | crates/virage-engine/src/chunkers/walk.rs:335-342 | pre-splitting keeps the order of segments and splits each one as specified |
| Chunks.BuildChunks | crates/virage-engine/src/chunkers/walk.rs:458-573 | chunk `i` of `n` carries window `i`'s texts, span and breadcrumb, its token estimate, citation and node counts |
| Chunks.WalkToChunks | crates/virage-engine/src/chunkers/walk.rs:322-596 | flatten, split, pack, merge and number together compute the specified chunks, none for an empty document |
| ChunkFacts.ChunksAreWindows | crates/virage-engine/src/chunkers/walk.rs:443-460 | there is one chunk for each window of the plan, one fewer exactly when the last is short and continues the breadcrumb; each has its segments' span, breadcrumb and texts, the last with the merged tail's |
| ChunkFacts.ChunksAreWrittenRight | crates/virage-engine/src/chunkers/walk.rs:463-575 | chunk `k` of `n` is numbered so; its text is its texts with blank lines between, its dense text the breadcrumb entries with their separators, a period, a blank and the text; its token estimate, node counts and citation are those of that text and span |
| ChunkFacts.CutIsLongest | crates/virage-engine/src/chunkers/walk.rs:386-393 | a text over the budget is cut to its longest prefix of whole characters within `4 * max_tokens` octets, and no other is cut |
| Joining.JoinIsLaidOut | crates/virage-engine/src/chunkers/walk.rs:105-110 | joining puts every part at its offset with the separator behind it, and nothing else anywhere |
| Joining.LaidOutIsJoin | crates/virage-engine/src/chunkers/walk.rs:105-110 | and is the only text laid out so |
| ChunkGuarantees.LosslessIffFits | crates/virage-engine/src/chunkers/walk.rs:335-456 | without overlap the texts of the final windows concatenate to the document's leaf texts if and only if the document fits: pre-splitting with a positive budget, or no leaf longer than the budget |
| ChunkGuarantees.FewestChunks | crates/virage-engine/src/chunkers/walk.rs:322-456 | without overlap the chunks are no more than the windows of any feasible partition, and at most one fewer than the planned windows |
| ChunkGuarantees.NoMoreChunksThanSegments | crates/virage-engine/src/chunkers/walk.rs:348-441 | there are never more chunks than segments, whatever the overlap and the configuration, a zero budget with pre-splitting included |
| ChunkGuarantees.TruncationStandsAlone | crates/virage-engine/src/chunkers/walk.rs:387-396 | a truncated window holds one text, a proper prefix of one oversized segment, and there is none after pre-splitting |
| ChunkMarks.MarkIsRight | crates/virage-engine/src/chunkers/walk.rs:387-420 | a planned window is marked as truncated exactly when one of its segments is cut |
| ChunkMarks.CutTailStays | crates/virage-engine/src/chunkers/walk.rs:448-455 | while `min_tokens <= max_tokens` a window merged away was never truncated |
| ChunkMarks.MarksKeptIff | crates/virage-engine/src/chunkers/walk.rs:443-456 | every chunk of every document that holds a cut text is marked as truncated, if and only if texts are pre-split, `min_tokens <= max_tokens`, or the budget is 0 and so everything is cut |
| ChunkMarks.MarkIsLost | crates/virage-engine/src/chunkers/walk.rs:448-455 | for every other configuration, a document of two paragraphs whose one chunk holds a cut text and is not marked |
| ChunkGuarantees.ChunkHasOneBreadcrumb | crates/virage-engine/src/chunkers/walk.rs:377-380 | every text of a final chunk comes from a segment with the chunk's own breadcrumb |
| Breadcrumbs.ChunkStandsUnderHeadings | crates/virage-engine/src/chunkers/walk.rs:354 | a chunk's breadcrumb is, in the same terms, that of the headings before one of the document's leaves |
| ChunkGuarantees.ChunkSizeBound | crates/virage-engine/src/chunkers/walk.rs:496 | `estimatedTokens` of every final chunk, separators and merge included, is at most `max + max/2 + min` |
| NodeCounts.SplitKeepsOrder | crates/virage-engine/src/chunkers/walk.rs:223-228 | pre-splitting segments in source order whose texts are no longer than their spans leaves them in source order |
| NodeCounts.FinalRangesDisjoint | crates/virage-engine/src/chunkers/walk.rs:344-456 | without overlap the byte ranges of the final windows are disjoint and in order when the packed segments are in source order |
| NodeCounts.CountsAddUpIffNoneTwice | crates/virage-engine/src/chunkers/walk.rs:545-556 | for every document and configuration the in-bounds node counts of all chunks add up to the number of nodes that lie in some chunk, if and only if no node lies in the ranges of two; the condition is about the final ranges, see `NodeCounts.OrderedCountsConserved` for one about the input |
| NodeCounts.NodeCountsConserved | crates/virage-engine/src/chunkers/walk.rs:545-556 | then they add up to no more than the number of nodes |
| NodeCounts.OrderedCountsConserved | crates/virage-engine/src/chunkers/walk.rs:545-556 | the form a caller can check beforehand: they add up so without overlap, with the packed segments in source order and no empty nodes |
| NodeCounts.NestedBreaksOrder | crates/virage-engine/src/chunkers/walk.rs:185-203 | a segment that lies inside an earlier one, as the body of a definition with a signature does, is never in source order with it |
| NodeCounts.DefinitionsCountTwice | crates/virage-engine/src/chunkers/walk.rs:545-556 | a class with one statement, from a well-nested syntax tree, whose chunks count four in-bounds nodes in a document of three |
| Lookup.CountAstNodes | crates/virage-engine/src/chunkers/walk.rs:260-270 | the recursive count is the number of nodes of the tree |
| Lookup.CountAstNodesInBounds | crates/virage-engine/src/chunkers/walk.rs:273-290 | the recursive count is the number of nodes, in source order, whose span lies in the range |
| Lookup.ExtractFqnForChunk | crates/virage-engine/src/chunkers/walk.rs:294-318 | the recursive override returns the citation of the last matching section in source order; containing for TypeScript, overlapping for Rust |
| Lookup.HitSharesOctet | crates/virage-engine/src/chunkers/walk.rs:292-306 | for non-empty spans the Rust lookup looks for cited sections that share an octet with the chunk |
| Lookup.HitHoldsChunk | packages/virage-chunker-ce-ast/src/chunker.ts:43-64 | the TypeScript lookup looks for sections with a non-empty citation that hold every octet of the chunk |
| Lookup.LaminarDeepens | packages/virage-chunker-ce-ast/src/chunker.ts:55-61 | on a laminar tree, of two nodes that are not disjoint the later one in source order is strictly deeper |
| Lookup.TypeScriptFindsDeepest | packages/virage-chunker-ce-ast/src/chunker.ts:43-64 | on a laminar tree and a non-empty range the lookup returns the deepest cited section that contains it |
| Lookup.DeepestIffApartGoesDeep | crates/virage-engine/src/chunkers/walk.rs:292-318 | on a laminar tree no section found is deeper than the one either lookup returns if and only if, of any two found sections that lie apart, some section found at or behind the later one is at least as deep as the earlier |
| Lookup.OnlyDeepestIffApartGoesDeeper | crates/virage-engine/src/chunkers/walk.rs:292-318 | the section returned is the only deepest one if and only if that section at or behind the later one is always deeper |
| Lookup.RustFindsDeepestUnlessStraddling | crates/virage-engine/src/chunkers/walk.rs:292-318 | in particular the overlapping lookup does when no two cited sections that overlap the chunk lie apart |
| Lookup.RustMayMissDeepest | crates/virage-engine/src/chunkers/walk.rs:292-318 | a laminar tree and a chunk across two definitions for which it returns another citation than that of the deepest overlapping section, which is deeper than the one returned |
| Lookup.RustTakesLaterSibling | crates/virage-engine/src/chunkers/walk.rs:292-318 | a chunk across two siblings is given the later one: no overlapping section is deeper, but the other is as deep |
| SyntaxWalker.WalkChildren | crates/virage-engine/src/chunkers/lang.rs:484-615 | comments, definitions, blocks and other nodes become the specified nodes in order |
| SyntaxWalker.WalkBlockBodies | crates/virage-engine/src/chunkers/lang.rs:619-646 | the children of block nodes are walked in place, other nodes are skipped |
| SyntaxWalker.ParseDoc | crates/virage-engine/src/chunkers/lang.rs:651-686 | the document spans the source and holds the walked children of the root |
| SyntaxCoverage.DocumentShowsReached | crates/virage-engine/src/chunkers/lang.rs:484-646 | the document has exactly one node for each syntax node that is reached and shown, in the order of the walk: with its span, as a section with signature and citation, a code block or a paragraph with text, as deep as there are definitions around it; the citation is the names of those definitions and its own, joined by `::` |
| SyntaxCoverage.ReachedBelow | crates/virage-engine/src/chunkers/lang.rs:484-646 | a node is reached exactly if all nodes above it are definitions, or bodies right inside a definition: seen from the top, through the children of a definition or through its bodies |
| SyntaxWalker.DocumentIsLaminar | crates/virage-engine/src/chunkers/lang.rs:484-646 | a well-nested syntax tree gives a document tree whose children nest in their parents and whose siblings are disjoint |
| SyntaxWalker.InnermostDefinition | packages/virage-chunker-ce-ast/src/chunker.ts:43-64 | on a document made from a well-nested syntax tree the lookup returns the innermost cited definition around a chunk |
| DaemonClient.DaemonHandle.constructor | packages/virage-agent-claude/src/query-daemon.ts:38-48 | a new handle is alive with an empty queue |
| DaemonClient.DaemonHandle.HandleLine | packages/virage-agent-claude/src/query-daemon.ts:50-73 | a line settles the oldest queued request by its content; a stray line changes nothing |
| DaemonOutcomes.DeliveryOutcome | packages/virage-agent-claude/src/query-daemon.ts:50-73 | a line settles the oldest waiting request and no other: resolved with the rows if and only if it is that row array, rejected with the message if and only if it is that error object, rejected as unexpected if and only if it is neither |
| DaemonClient.DaemonHandle.KillAllPending | packages/virage-agent-claude/src/query-daemon.ts:83-89 | exit or spawn error rejects all queued requests in order, empties the queue and marks the handle dead |
| DaemonClient.DaemonHandle.HandleTimeout | packages/virage-agent-claude/src/query-daemon.ts:99-103 | a timer removes its own request from wherever it is in the queue and rejects it |
| DaemonClient.DaemonHandle.Query | packages/virage-agent-claude/src/query-daemon.ts:95-107 | a dead handle rejects at once; a live one queues the request with a timer and writes it |
| DaemonClient.DaemonMap.DaemonSearch | packages/virage-agent-claude/src/query-daemon.ts:117-130 | a missing or dead handle is replaced for its directory only, and the request goes to the handle now registered |
| DaemonRuns.StepKeepsAccounts | packages/virage-agent-claude/src/query-daemon.ts:50-107 | every event keeps: accepted requests are queued exactly while unsettled, queued exactly while their timer lives, settled at most once, and a dead handle has an empty queue |
| DaemonRuns.RunKeepsAccounts | packages/virage-agent-claude/src/query-daemon.ts:50-107 | the same over every run, timeouts, exits and stray lines included |
| DaemonRuns.SettledOnceMeansDistinct | packages/virage-agent-claude/src/query-daemon.ts:95-107 | then no request appears twice in the settlement log |
| DaemonRuns.StepKeepsAligned | packages/virage-agent-claude/src/query-daemon.ts:50-107 | whatever happens, timeouts, exits and stray lines included, the queue stays the unsettled part, in order, of the requests in stdin, in the server and answered in stdout |
| DaemonRuns.AnswerFindsItsRequest | packages/virage-agent-claude/src/query-daemon.ts:50-53 | an answer reaches the request it belongs to exactly when that request has not been settled yet |
| DaemonRuns.DeliveryIsRightUnlessLate | packages/virage-agent-claude/src/query-daemon.ts:50-53 | a delivery settles its own request, or none, exactly when it is not a stray or late line meeting a waiting request |
| DaemonRuns.MatchedIffNeverMisdelivers | packages/virage-agent-claude/src/query-daemon.ts:50-73 | over every run, every line that settled a request was that request's answer if and only if no stray and no late line was delivered to a waiting request |
| DaemonRuns.RunKeepsInStep | packages/virage-agent-claude/src/query-daemon.ts:50-107 | over every run without timeouts and stray lines, a live queue equals, in order, the requests in flight, and nothing is misdelivered |
| DaemonRuns.ProtocolCorrelates | packages/virage-agent-claude/src/query-daemon.ts:50-107 | over every run from the start, if nothing is misdelivered then every request settled by a line carries the server's answer to itself; matching is right exactly then |
| DaemonRuns.OrderlyRunsCorrelate | crates/virage-engine/src/cli/query_serve.rs:43-66 | in every interleaving without timeouts and stray lines each request settled by a line carries the server's answer to itself, and the queue equals the requests in flight |
| DaemonOutcomes.RequestsGetTheirAnswers | packages/virage-agent-claude/src/query-daemon.ts:50-73 | over every run without misdelivery, a request settled by a line is resolved with rows, or rejected with a message, if and only if the server answered that very request so; all others were timed out, lost with the process or refused |
| DaemonOutcomes.NoRequestIsForgotten | packages/virage-agent-claude/src/query-daemon.ts:95-107 | over every run each request ever issued is waiting or settled, and never both |
| DaemonOutcomes.OutcomesAreAccounted | packages/virage-agent-claude/src/query-daemon.ts:50-107 | over every run a request is rejected as timed out exactly if its timer fired, as lost only if the process ended, as refused only if it had ended before; the handle is dead exactly if its process has ended |
| DaemonOutcomes.GoneRejectsAll | packages/virage-agent-claude/src/query-daemon.ts:83-89 | the end of the process rejects every waiting request, in order |
| DaemonRuns.TimeoutBreaksCorrelation | packages/virage-agent-claude/src/query-daemon.ts:99-103 | a run with one timeout after which a request is settled with another one's answer |
| DaemonRegistry.EventKeepsSound | packages/virage-agent-claude/src/query-daemon.ts:117-130 | every event on any handle, and every search with its respawn, keeps every handle's accounts and keeps each live handle the one registered for its directory |
| DaemonRegistry.HistoryKeepsSound | packages/virage-agent-claude/src/query-daemon.ts:110-130 | the same over every history of the registry |
| DaemonRegistry.OneLiveHandlePerDirectory | packages/virage-agent-claude/src/query-daemon.ts:124-128 | after any history two live handles never serve the same directory, and a dead one, replaced or not, has settled everything it ever accepted |
| DaemonOutcomes.SearchIsQueued | packages/virage-agent-claude/src/query-daemon.ts:117-130 | a search is queued last, with a timer, and written at a living process registered for its directory |
| DaemonOutcomes.NoSearchIsRefused | packages/virage-agent-claude/src/query-daemon.ts:117-130 | over every history no search is refused because its process is dead |
| QueryServe.CmdQueryServe | crates/virage-engine/src/cli/query_serve.rs:43-66 | the loop over the whole input writes the answers to its non-blank lines, one line each, in order |
| QueryServe.RequestsOfFrame | packages/virage-agent-claude/src/query-daemon.ts:105 | framing messages with newlines and reading them back gives the same messages |
| QueryServe.OneAnswerPerRequest | crates/virage-engine/src/cli/query_serve.rs:54-65 | framed requests in, exactly one answer line per request out, in order |
| QueryServe.BlankLinesIgnored | crates/virage-engine/src/cli/query_serve.rs:49-52 | blank lines produce no answer |
| QueryServe.LineGivesRequest | crates/virage-engine/src/cli/query_serve.rs:46-56 | a line with any text is one request: the text without the whitespace around it |
| QueryServe.RequestsAreTrimmed | crates/virage-engine/src/cli/query_serve.rs:46-56 | no request is blank or has whitespace around it, whatever the input |
| LatexCursor.Cursor.AdvanceChar | crates/virage-engine/src/chunkers/latex.rs:72-76 | the cursor moves over one whole character, to the next boundary |
| LatexCursor.Cursor.SkipInlineWhitespace | crates/virage-engine/src/chunkers/latex.rs:91-95 | the cursor moves over all blanks and tabs that follow |
| LatexCursor.Cursor.ReadCommandName | crates/virage-engine/src/chunkers/latex.rs:99-116 | a run of letters with the blanks behind it, or one character; the cursor stays on a boundary |
| LatexCursor.Cursor.ReadBracedArg | crates/virage-engine/src/chunkers/latex.rs:119-168 | nested braces, comments, escapes and formatting commands as specified; terminates, moves forward, stays on a boundary |
| LatexCursor.Cursor.ReadOptionalArg | crates/virage-engine/src/chunkers/latex.rs:171-201 | the bracketed text with nested brackets, or nothing when no bracket is next |
| LatexCursor.Cursor.ReadEnvBodyVerbatim | crates/virage-engine/src/chunkers/latex.rs:204-214 | the raw text up to the end marker, which is consumed |
| LatexCursor.Cursor.ReadUntilStr | crates/virage-engine/src/chunkers/latex.rs:739-751 | the text up to the first occurrence of the needle, none of which starts before the cut, with the cursor behind it; or the text to the end when there is none |
| LatexCursor.Cursor.SkipCommentBody | crates/virage-engine/src/chunkers/latex.rs:83-89 | the cursor moves behind the next newline or to the end |
| LatexBraces.ReadArgBody | crates/virage-engine/src/chunkers/latex.rs:769-786 | the scanner's loop returns the text up to the brace that closes the argument, or all of it |
| LatexBraces.ExtractCommandArg | crates/virage-engine/src/chunkers/latex.rs:754-793 | the scanner returns the trimmed argument of the first occurrence, nothing when it is missing or blank |
| LatexBraces.BodyIsCopied | crates/virage-engine/src/chunkers/latex.rs:127-166 | from inside any nesting the cursor copies balanced text without `\` and `%` and stops behind the closing brace |
| LatexBraces.BraceReadersAgree | crates/virage-engine/src/chunkers/latex.rs:119-168 | on balanced text without `\` and `%`, with or without blanks before the brace, cursor and scanner return the same trimmed argument, and the cursor stops behind the matching brace |
| LatexSteps.FormattingInsideArgument | crates/virage-engine/src/chunkers/latex.rs:147-161 | a formatting command inside an argument adds its own trimmed argument |
| LatexSteps.OthersInsideArgument | crates/virage-engine/src/chunkers/latex.rs:147-161 | an escaped brace or percent sign inside an argument adds itself, every other command nothing |
| LatexSteps.CommentInsideArgument | crates/virage-engine/src/chunkers/latex.rs:143-146 | a comment inside an argument is left out up to the end of its line |
| LatexTable.ParseTabular | crates/virage-engine/src/chunkers/latex.rs:816-924 | the character loop with its cell and row buffers computes the specified table |
| LatexTable.TableTiles | crates/virage-engine/src/chunkers/latex.rs:816-924 | relative to the body: rows are numbered from 0 and each starts where the previous ended; a row's cells run from its start to its end, one `&` apart, numbered from 0, each with the text the body has at that place; all within `byte_start` plus the body length |
| LatexTable.FirstRowHeads | crates/virage-engine/src/chunkers/latex.rs:816-858 | the first row and its cells are headers exactly if the body starts, behind whitespace, with `\hline`, and no others are |
| LatexRows.RowsEndThere | crates/virage-engine/src/chunkers/latex.rs:816-924 | the rows end behind the last row terminator of the body, the longest prefix that ends in a non-empty even run of backslashes, and there are none without one |
| LatexRows.RowsReachEndIff | crates/virage-engine/src/chunkers/latex.rs:816-924 | they reach the end of the body if and only if the body is empty or itself ends so |
| LatexRows.TableAccountsForWords | crates/virage-engine/src/chunkers/latex.rs:816-924 | every word of the body is, in order, in some cell or behind the last row terminator |
| LatexRows.TableKeepsWordsIff | crates/virage-engine/src/chunkers/latex.rs:816-924 | the cells hold all words of the body if and only if no word follows its last row terminator |
| LatexRows.UnterminatedRowIsLost | crates/virage-engine/src/chunkers/latex.rs:857-912 | `a & b` without a terminator gives a table without rows, losing both words |
| LatexParser.Parser.ParseDisplayMath | crates/virage-engine/src/chunkers/latex.rs:282-301 | the new parser state of a display formula |
| LatexParser.Parser.ParseInlineMath | crates/virage-engine/src/chunkers/latex.rs:303-329 | short math joins the paragraph, long math is a node behind the flushed paragraph |
| LatexParser.Parser.ParseHeading | crates/virage-engine/src/chunkers/latex.rs:345-404 | the new parser state of a heading, whose title, level and span `LatexSteps.HeadingCarriesTitle` gives |
| LatexParser.Parser.ParseEnvironment | crates/virage-engine/src/chunkers/latex.rs:407-526 | an environment closes the paragraph and becomes the node of its kind, or nothing |
| LatexParser.Parser.ParseCommand | crates/virage-engine/src/chunkers/latex.rs:331-635 | every class of command changes the state as specified |
| LatexParser.Parser.ParseNewline | crates/virage-engine/src/chunkers/latex.rs:637-653 | a blank line ends the paragraph, a single newline is one space |
| LatexParser.Parser.FlushPara | crates/virage-engine/src/chunkers/latex.rs:698-717 | a non-blank buffer becomes a paragraph with collapsed whitespace; buffer and start are reset either way |
| LatexParser.Parser.ParseNext | crates/virage-engine/src/chunkers/latex.rs:275-672 | one turn of the loop dispatches on the next character as specified |
| LatexParser.Parser.Prepare | crates/virage-engine/src/chunkers/latex.rs:232-266 | the cursor moves behind the opening of the body and a line break there, and the metadata node comes first if there is one |
| LatexParser.Parser.Parse | crates/virage-engine/src/chunkers/latex.rs:229-693 | the whole parse terminates on every valid source with the specified document |
| LatexParser.ParseBytes | crates/virage-engine/src/chunkers/latex.rs:16-21 | bytes that are not UTF-8 are refused with their path, all others are parsed |
| LatexParser.Step | crates/virage-engine/src/chunkers/latex.rs:268-672 | every turn of the loop moves the cursor forward, to a character boundary within the source |
| LatexSteps.HeadingCarriesTitle | crates/virage-engine/src/chunkers/latex.rs:345-404 | at a sectioning command with a balanced argument without `\` and `%`, the open paragraph is closed and a heading with the trimmed argument and the command's level is added, up to the closing brace |
| LatexSteps.DocumentHasHeading | crates/virage-engine/src/chunkers/latex.rs:345-404 | and is a node of the document, for every such command the parse comes to |
| LatexSteps.NodesStay | crates/virage-engine/src/chunkers/latex.rs:268-693 | all nodes made so far by a parse stay at their places among the document's nodes |
| LatexSteps.FootnoteCarriesText | crates/virage-engine/src/chunkers/latex.rs:546-560 | a footnote with text becomes a node with the trimmed text, beside the paragraph that goes on |
| LatexSteps.ImageCarriesPath | crates/virage-engine/src/chunkers/latex.rs:566-579 | an image becomes a node with its path, beside the paragraph |
| LatexSteps.InlineTextJoins | crates/virage-engine/src/chunkers/latex.rs:582-588 | the trimmed argument of a formatting command, or of an unknown one without control characters, joins the paragraph |
| LatexSteps.ControlsAreDropped | crates/virage-engine/src/chunkers/latex.rs:617-631 | the argument of an unknown command with an ASCII control character other than tab and line break is dropped |
| LatexSteps.SkippedArgument | crates/virage-engine/src/chunkers/latex.rs:526-543 | the argument of a reference, citation or layout command adds nothing, and the parse goes on behind it |
| LatexSteps.BareCommands | crates/virage-engine/src/chunkers/latex.rs:331-635 | a line break is one blank, an escaped character is itself, a mark and an unknown command without brace are nothing |
| LatexSteps.CommentIsLeftOut | crates/virage-engine/src/chunkers/latex.rs:275-281 | a comment is left out up to and with its line break |
| LatexSteps.DisplayMathCarriesText | crates/virage-engine/src/chunkers/latex.rs:282-301 | display math becomes a formula with the trimmed text up to the next double dollar |
| LatexSteps.InlineMathCarriesText | crates/virage-engine/src/chunkers/latex.rs:303-329 | inline math of fewer than 60 octets joins the paragraph with its dollars; longer math becomes a formula with its trimmed text |
| LatexSteps.EnvironmentCarriesBody | crates/virage-engine/src/chunkers/latex.rs:407-526 | a verbatim, listing, math, abstract or float environment becomes the node of its kind with the text from behind its opening to its first closing command (or its caption), any other nothing |
| LatexSteps.LanguageNamed | crates/virage-engine/src/chunkers/latex.rs:795-813 | a listing's language is what `language=` names, up to a comma or bracket |
| LatexSteps.OptionRead | crates/virage-engine/src/chunkers/latex.rs:171-201 | text in brackets, without brackets inside, is read as the option |
| LatexRoundTrip.DocumentRoundTrip | crates/virage-engine/src/chunkers/latex.rs:229-693 | parsing a written document gives its metadata and then exactly the nodes of its blocks, in order, with kinds, texts, levels and languages; blocks are paragraphs of plain text, formatting, escapes, short math and footnotes, headings, display math and environments |
| LatexRoundTrip.OneHeading | crates/virage-engine/src/chunkers/latex.rs:345-404 | a document that is one `\section{Intro}`, or any other heading, is parsed as that heading with its title and level |
| LatexText.TrimMeans | crates/virage-engine/src/chunkers/latex.rs:167 | trimming takes off whitespace at both ends and all of it |
| LatexSpans.StepIsSound | crates/virage-engine/src/chunkers/latex.rs:268-672 | every turn keeps the spans well-ordered and the node ends ascending, but for unclosed long math at offset 0 |
| LatexSpans.DocumentSpans | crates/virage-engine/src/chunkers/latex.rs:229-693 | outside the bad opening every child of the document but the metadata has `0 <= start <= end <= len` on character boundaries (an unclosed formula may start off one), and ends never decrease along the children |
| LatexBlocks.BlocksDisjoint | crates/virage-engine/src/chunkers/latex.rs:229-693 | for every source, paragraphs, headings, code, tables, abstracts and captions are well-formed spans, pairwise disjoint and in source order |
| LatexTableSpans.TreeSpans | crates/virage-engine/src/chunkers/latex.rs:229-693 | outside the bad opening every node of the whole tree has `0 <= start <= end <= len` and lies within its parent's span; all but table rows and cells are on character boundaries (an unclosed formula may start off one) |
| LatexTableSpans.BeginMakesTable | crates/virage-engine/src/chunkers/latex.rs:475-481 | a table environment gives one table from its backslash to behind its end marker, read from the body between the opening and the first end marker, with rows and cells laid out as if the body began at the backslash |
| LatexTableSpans.DocumentTables | crates/virage-engine/src/chunkers/latex.rs:816-924 | in every table of every document rows nest in the table and cells in their row, and for some `h > 0` every cell is read exactly `h` octets behind its span, there between character boundaries and up to its `&` or backslashes |
| LatexTableSpans.CellEndsInsideCharacter | crates/virage-engine/src/chunkers/latex.rs:824-845 | a table whose first cell's span ends between the two octets of a character |
| LatexTableSpans.OffsetsNonNegativeIffGoodOpening | crates/virage-engine/src/chunkers/latex.rs:322 | all starts and ends in the whole tree are at least 0 if and only if the source does not, without a preamble, open with an unclosed `$` and 60 more octets |
| LatexSpans.BadOpeningExample | crates/virage-engine/src/chunkers/latex.rs:322 | a `$` and sixty letters open so |
| LatexSpans.InlineStart | crates/virage-engine/src/chunkers/latex.rs:303-326 | the start of a long inline formula is its `$` if and only if a closing `$` follows, and otherwise exactly one less |
| LatexPlain.PlainParagraphs | crates/virage-engine/src/chunkers/latex.rs:637-676 | text without special characters becomes paragraphs only: one for each block between blank lines that is not blank, in order, with exactly that block's words |
| LatexPlain.PlainTextKeepsWords | crates/virage-engine/src/chunkers/latex.rs:229-693 | the paragraphs of such a text hold all its words, in order |
| LatexWords.CollapseKeepsWords | crates/virage-engine/src/chunkers/latex.rs:733-736 | collapsing whitespace keeps the words, and leaves nothing exactly when there are none |
| LatexSpans.EnvBodyIsShortest | crates/virage-engine/src/chunkers/latex.rs:204-214 | character-wise reading finds the first end marker that occurs anywhere, and the body is the text before it |
| LatexSpans.StarredNeverRead | crates/virage-engine/src/chunkers/latex.rs:99-116 | no command name read from any source ends in a star behind other characters |
| LatexSpans.StarredHeadingHasNoTitle | crates/virage-engine/src/chunkers/latex.rs:345-404 | a sectioning command directly before a star becomes a heading with an empty title that ends before the star |
| LatexSpans.StarredSectionExample | crates/virage-engine/src/chunkers/latex.rs:345-404 | `\section*{A}` gives a heading of level 2 with an empty title and the span [0, 8) |
| LatexSpans.StarredSections | crates/virage-engine/src/chunkers/latex.rs:345-404 | in the source's own table each of the six sectioning commands has a starred entry of the same level, which no name read ever meets; the star costs the heading its title |
| Ndcg.NdcgAtK | crates/virage-engine/src/eval/metrics.rs:48-65 | the two accumulation loops compute gain over ideal gain, and 0 without relevant results or ranks |
| Ndcg.GainAtMostFront | crates/virage-engine/src/eval/metrics.rs:53-60 | a gain with `h` hits is at most that of `h` hits in front, with equality only if they are in front |
| Ndcg.AtMostOneIff | crates/virage-engine/src/eval/metrics.rs:48-65 | the score is at most 1 for every discount if and only if the first `k` results hold no more hits, repeated ones counted again, than there are relevant results |
| Ndcg.BoundedByHits | crates/virage-engine/src/eval/metrics.rs:48-65 | then the score lies in [0,1], and is 1 exactly when the first `min(relevant, k)` results are all relevant |
| Ndcg.NdcgBound | crates/virage-engine/src/eval/metrics.rs:48-65 | in particular for every ranking without duplicates |
| Ndcg.DuplicatesExceedOne | crates/virage-engine/src/eval/metrics.rs:48-65 | a relevant result listed twice scores above 1, whatever the discount |
| Ndcg.NothingToFind | crates/virage-engine/src/eval/metrics.rs:48-65 | without relevant results or ranks the score is 0 |
| Ndcg.HigherIsBetter | crates/virage-engine/src/eval/metrics.rs:48-65 | moving a relevant result up in exchange for an irrelevant one raises the score, whatever the discount |
| Toon.ToonEncode | crates/virage-engine/src/mcp.rs:98-111 | the printing loop yields the header and the rows |
| Toon.DecodeUndoesEncode | crates/virage-engine/src/mcp.rs:98-132 | a reader gets exactly the rows back, whatever the cells contain and whatever further cells are quoted |
| Toon.EncodeInjective | crates/virage-engine/src/mcp.rs:98-132 | different rows never print the same |
| Toon.EncodeInjectiveJointly | crates/virage-engine/src/mcp.rs:98-132 | for field names without commas and newlines two tables print the same if and only if they have the same rows and the same fields, up to the empty list and the list of one empty name |
| Toon.FieldNamesAreNotEscaped | crates/virage-engine/src/mcp.rs:99 | a field name with a comma prints as two names |
| Toon.CellsStayStrings | crates/virage-engine/src/mcp.rs:118-132 | a reader that takes bare cells for literals, numbers or blanks still reads every printed cell as the string it is |
| Pagination.RunSearch | crates/virage-engine/src/cli/query.rs:140-192 | fetch, rerank, filter, skip, truncate and number compute the ranked page; without reranker it is a slice of what passes the filter |
| Pagination.PageOf | crates/virage-engine/src/cli/query.rs:170-180 | filter, skip, truncate and number yield the numbered slice of the results that pass |
| Pagination.PageIsSlice | crates/virage-engine/src/cli/query.rs:140-178 | when passing results come first, filtering a fetched prefix gives the same page as slicing all passing results |
| Pagination.TiledIffPassingFirst | packages/virage-agent-claude/src/server.ts:435-438 | following the hint from 0 yields every passing result once, in order, with consecutive ranks, for every page size, if and only if passing results come first in the ranking |
| Pagination.PagesTileSortedRanking | packages/virage-agent-claude/src/server.ts:435-438 | in particular for every store that answers in non-increasing similarity |
| Pagination.PagesShowRanks | crates/virage-engine/src/cli/query.rs:170-192 | over a sorted ranking the pages show exactly the results that reach the threshold, itself included, and the result at place `i` with rank `i + 1` |
| Pagination.SortByScore | crates/virage-engine/src/cli/query.rs:153-158 | the order is a permutation of the indices by descending score |
| Pagination.TakeInOrder | crates/virage-engine/src/cli/query.rs:159-163 | no slot is found empty, and the output is the results in that order |
| Pagination.Rerank | crates/virage-engine/src/cli/query.rs:145-165 | the reranked results are a score-sorted permutation of the results |
| Pagination.PagesRepeatUnlessFalling | crates/virage-engine/src/cli/query.rs:143-178 | over distinct results, with a reranker two pages of one result may show the same result if and only if the scores do not strictly fall along the store's ranking |
| Pagination.ShownTwice | crates/virage-engine/src/cli/query.rs:143-178 | where the scores first fail to fall, two orders the sort may give that show the same result on two successive pages |
| Pagination.FallingScoresChangeNothing | crates/virage-engine/src/cli/query.rs:143-178 | with strictly falling scores every page, of any size, is the page without a reranker, so the pages tile as without one |
| EmbeddingCache.SemanticCache.Get | packages/virage-embedder-openai/src/semantic-cache.ts:62-101 | on a hit the embedding is stored under the text's key, on a miss no entry has that key; nothing changes |
| EmbeddingCache.SemanticCache.Set | packages/virage-embedder-openai/src/semantic-cache.ts:103-114 | the embedding is stored under the text's key |
| EmbeddingCache.SemanticCache.LruPut | packages/virage-embedder-openai/src/semantic-cache.ts:116-128 | at the limit the oldest entry goes, then the key moves to the end with its new embedding |
| EmbeddingCache.Embedder.Embed | packages/virage-embedder-openai/src/embedder.ts:55-63 | a hit is returned, a miss computed and stored |
| EmbeddingCache.Embedder.LookUpAll | packages/virage-embedder-openai/src/embedder.ts:88-93 | the lookups of a batch and the indices of its misses, whose texts are the missing ones in order |
| EmbeddingCache.Embedder.Scatter | packages/virage-embedder-openai/src/embedder.ts:97-103 | the computed embeddings land at their own indices and are stored in order |
| EmbeddingCache.Embedder.EmbedBatch | packages/virage-embedder-openai/src/embedder.ts:78-106 | a batch answers position by position as specified, with the specified cache afterwards |
| EmbeddingCache.HistoryIsTransparent | packages/virage-embedder-openai/src/embedder.ts:55-106 | without harmful collisions every history of calls returns what it would without a cache |
| EmbeddingCache.TransparentIffNoHarmfulCollision | packages/virage-embedder-openai/src/semantic-cache.ts:66-70 | all histories over a set of texts are answered as without a cache if and only if no two of them collide with different embeddings |
| EmbeddingCache.InterleavedIffNoHarmfulCollision | packages/virage-embedder-openai/src/embedder.ts:55-106 | the same condition for calls that interleave between lookup and store: every answer of every interleaving is the provider's if and only if no two texts collide with different embeddings |
| EmbeddingCache.CallsAreAnsweredOnce | packages/virage-embedder-openai/src/embedder.ts:55-106 | in every interleaving each started call is waiting or answered, exactly once |
| EmbeddingCache.SizeBound | packages/virage-embedder-openai/src/semantic-cache.ts:116-128 | over every history of calls one after the other the cache holds at most the larger of 1 and the greatest limit computed so far |
| EmbeddingCache.FlightSizeBound | packages/virage-embedder-openai/src/semantic-cache.ts:116-128 | over every interleaving the cache holds at most the largest of its size at the start, 1 and the greatest limit of a started or waiting text |
| EmbeddingCache.HoldsLatest | packages/virage-embedder-openai/src/semantic-cache.ts:116-128 | after any stores the cache is an end of the list of all entries not stored again, in the order of storing, so what was evicted had been stored longest ago |
| EmbeddingCache.NothingEvictedWhileItFits | packages/virage-embedder-openai/src/semantic-cache.ts:116-128 | and it is the whole list while one more entry of any size stored would still fit into the byte budget |
| EmbeddingCache.FlightStores | packages/virage-embedder-openai/src/embedder.ts:55-106 | every interleaving leaves the cache that storing its finished calls in their order leaves |
| EmbeddingCache.BytesBound | packages/virage-embedder-openai/src/semantic-cache.ts:116-128 | entries of one size never take more bytes than the budget, or than one of them |

## Left out

* The TypeScript twin's splitting counts UTF-16 units instead of octets; the model follows the Rust code. With a zero
  budget the TypeScript loop does not advance at all.
* A heading with an empty text does not enter the TypeScript breadcrumb; the model follows the Rust code, where it does.
* Line, page and language fields of windows, import and tag metadata, sibling links and the SHA-256 of the dense text.
* Overflow of machine integers: offsets and counts are unbounded, except for the saturating sum in `run_search` and
  the subtraction at `latex.rs:322`, where the result -1 stands for the underflow.
- ChunkGuarantees.ChunkSizeBound: excludes a zero budget together with pre-splitting, where all texts are erased.
- LatexBraces.BraceReadersAgree: text with `\` or `%` is excluded, because there the two readers differ by design.
- LatexRoundTrip.DocumentRoundTrip: compares kind, text, level and language; tables, options, comments, images and single
  line breaks are not written, and have theorems of their own.
* In the LaTeX model the variables of the main loop are fields of the parser object, and the table parser and the preamble
  scanner read octets; both look for ASCII characters only, which never occur inside longer characters.
* Words of LaTeX paragraphs in text with commands, as a whole: there each step, and the texts that are written as
  `LatexRoundTrip` writes them, have theorems.
* The syntax walker takes a tree of kinds, spans and texts; tree-sitter, its queries, the extraction of signatures and of
  imports are not part of this model.
* The client's own line reader: `QueryServe.OneAnswerPerRequest` reads the answers back with the server's `Requests`, which
  trims lines and skips blank ones.
* Real processes, pipes, timers and JSON text. A response line is an array, an error object or anything else.
* The semantic strategy and the SQLite branch of the embedding cache. The cache's hash is an arbitrary function.
* A page size of 0, which the search tool's schema refuses; following its hints would never end.
* The methods of the embedder run to their end; calls that interleave are the turns of `EmbeddingCache.TurnStep`, in which
  a batch is one call for each of its texts.
* Vector stores: a store answers with prefixes of one fixed ranking. Scores are reals, so they are always comparable.
* Precision, recall, hit rate and reciprocal rank, which are one-line counts.
* Floating-point rounding; the discount of NDCG is any strictly decreasing positive weight.
* The indexing pipeline, vector-store clients, command-line wizard, configuration, reports and plugin loading.
