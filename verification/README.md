# Verified model of the Artesian memory algorithms

Artesian keeps memories for agents: it chunks long texts and reassembles them, writes them
under optimistic concurrency, serves them from a cache, ranks them, lets them fade and groups
them into events. This project models those algorithms in Dafny, one module for each source
component, and proves what they promise over all inputs, all runs and all interleavings.

Loops, arrays and objects of the source are methods, arrays and classes here. Each is proved
equal to a specification function or predicate, and the lemmas are about that specification.

## What is in it

- `Splitting`, `Packing`, `Chunking`, `ChunkLimits`, `SizeLimit`: recursive splitting, greedy
  packing with an overlap tail, section handling, and which texts keep the size limit.
- `Stitching`, `RoundTrip`, `DrillDown`: appending with duplicated boundaries removed, and when
  reassembly gives back what was packed.
- `ParentWindow`, `ParentSamples`: the window around a matched chunk, and its budget from a
  cached median.
- `Connectivity`, `UnionFind`, `Events`, `EventOrder`: sweeps and union-find against the all-pairs
  closure, and when the order of the events is determined.
- `CommitProtocol`, `LaneLock`: the commit log and the lock file as systems of interleaved steps.
- `Graph`: capped breadth-first search against distance.
- `SemanticCache`, `CacheExpiry`: the cache as a list, against the uncached backend and an ideal
  recency stack; and what expires.
- `AnchorLog`, `LineTail`: a log printed, parsed and read as a map; a growing file read by lines.
- `Decay`, `Eviction`: retrieval strength and the eviction pass.
- `Mmr`, `Novelty`: greedy diversification as a search, and who is picked before whom.
- `RankFusion`, `FusionOrder`: reciprocal rank fusion as a sum, and who is ranked before whom.
- `Reconcile`, `Consolidation`, `StaleResume`: similarity and its decisions, greedy grouping, and
  the session-file check against its reading as a trace.
- `Text`, `Seqs`, `Sets`, `Numbers`, `StringOrder`, `Sorting`: shared vocabulary and small facts.

## How things are modelled

Characters are `char` and texts sequences of them, with the white space of the source as a
predicate; lengths count characters, except in `LineTail`, where offsets count UTF-8 bytes.
Scores are reals. `exp` is any function that is positive, at most one up to zero and
increasing, and where a half-life is spoken of, halved by ln 2 (`Decay.Halves`). Times are
integer seconds or instants given as parameters. Similarity, embedding, tokenising, the JSON
codec and the backend are parameters, with their assumptions in the contracts that use them. An
iteration over a hash map is over an arbitrary order, so what is proved holds for each.

## Where the code and its promises part

- The chunk documentation promises bounded chunks. With an effective overlap the tail and a
  full piece exceed the limit by up to the overlap and one, and a text whose pieces are all
  blank is kept whole at any length. `SizeLimit.WithinLimitIff` says for which texts the limit
  is kept; all texts that have words keep it if and only if the overlap is zero
  (`SizeLimit.LimitIffNoOverlap`), and no configuration bounds every text
  (`SizeLimit.BlankOverflows`).
- A drill-down over several sections drops text when section boundaries match by accident
  (`DrillDown.DrillDownExact`, `ChunkLimits.DrillDownLosesHere`). Within a single section it
  never does, whatever the pieces (`RoundTrip.MergeThenStitch`).
- The window comment promises the matched chunk. Siblings on two sides of a heading repeat
  nothing, the estimate is then too small, and the final cut can fall into a chunk that fits the
  budget (`ParentWindow.WindowShows`, `ParentWindow.AnchorCutHere`).
- One anchor payload that holds the end marker or a fence makes the whole log unreadable, for
  every key; a start marker in a payload does no harm (`AnchorLog.GetIsLastWrite`). JSON
  escapes neither, so a task that is a fence does it (`AnchorLog.FenceAsTask`).
- Beyond one process the lane lock is exclusive only where liveness can be asked, and, with
  three or more clients, only while no process that ever created the file exits
  (`LaneLock.ExclusionIsExact`). A write of the lock file that fails locks the lane for ever, for
  no client takes an unfinished file for stale (`LaneLock.FailedWriteLocksOut`).
- By default a record is protected from aging away well below the ten confirmed uses at which
  the boost saturates: one confirmed use is enough together with forty retrievals, seven without
  any (`Decay.DefaultProtectionIff`, `Eviction.NeverTooOldIff`). The comment on the boost has fifty
  retrievals reach all of it; alone, any number of them reaches four fifths
  (`Decay.FreshStrength`). More uses lower the strength
  when the boost is set below one (`Decay.UseHelpsIffBoost`).
- The cache changes answers as soon as similar queries disagree
  (`SemanticCache.TransparentIffFaithful`).
- The event documentation calls the result deterministic. The order follows a hash map and is
  determined if and only if no two events start together (`EventOrder.OrderIsDeterminedIff`,
  `EventOrder.TwoOrders`). A window of 2^63 seconds or more turns negative in a cast, and all
  events are lost (`EventOrder.CastIsHarmlessIff`).
- The grouping comment says similarity exceeds the threshold; the code admits equality
  (`Consolidation.NearIsMutual`).
- A limit of one skips diversification and takes the first hit even where a limit of two would
  pick another first (`Mmr.FirstPickIff`, `Mmr.BeatenHere`). At full weight scores can be too
  far below the best one to be told apart (`Mmr.ScoreOrderIff`, `Mmr.LostHere`).

## Model

| member | source | states |
|---|---|---|
| `Splitting.RecursiveSplit` | crates/aquifer/src/chunking.rs:98-123 | the loop over split parts, recursive on the long ones and falling back to windows, ends (each recursion is on a shorter text) and yields the pieces the lemmas below are about |
| `Splitting.PiecesCover` | crates/aquifer/src/chunking.rs:98-123 | the pieces, in order, are the text with only white space and separator dots left out between them |
| `Splitting.CoversInk` | crates/aquifer/src/chunking.rs:98-123 | so deleting white space and dots from the concatenated pieces and from the text gives the same |
| `Splitting.PiecesFit` | crates/aquifer/src/chunking.rs:98-123 | every piece of every text has at most `max` characters |
| `Splitting.WindowsCover` | crates/aquifer/src/chunking.rs:117-122 | hard windows concatenate to exactly the text, none empty, none longer than `max` |
| `Splitting.PiecesOfParts` | crates/aquifer/src/chunking.rs:98-123 | where an over-long text is cut: at the first of blank line, newline, ". " and " " that it holds, written out; its pieces are, part by part, nothing for a blank part within the limit, the part itself if it fits, and the part's own pieces if it does not |
| `Splitting.SplitIsCut` | crates/aquifer/src/chunking.rs:104 | the parts are those that the text is joined from and that end where the separator is next found; there is only one such list |
| `Splitting.PartsArePieces` | crates/aquifer/src/chunking.rs:98-123 | so if the parts are within the limit and none is blank, they are the pieces |
| `Splitting.FreePartEnds` | crates/aquifer/src/chunking.rs:104 | for newline, ". " and " " a part ends there if and only if it holds none of them |
| `Splitting.ParagraphEnds` | crates/aquifer/src/chunking.rs:104 | for a blank line it takes also that the part does not end in a newline itself |
| `Splitting.PiecesWithoutSeparator` | crates/aquifer/src/chunking.rs:117-122 | an over-long text with none of the four separators falls into windows that are all exactly `max` long but for the last |
| `Splitting.ShortTextIsPiece` | crates/aquifer/src/chunking.rs:98-101 | a text within the limit is one piece, whatever separators it holds |
| `Splitting.ParagraphsFirst` | crates/aquifer/src/chunking.rs:37 | for example, `a b`, a blank line and `c` at a limit of five are cut at the blank line and not at the space |
| `Packing.MergeWithOverlap` | crates/aquifer/src/chunking.rs:127-152 | the packing loop, with its reused `current` buffer, computes the chunks the lemmas below are about |
| `Packing.MergeFits` | crates/aquifer/src/chunking.rs:127-152 | chunks stay within a bound computed from the longest piece, the limit and the overlap; it is the limit itself when pieces leave room for tail and space |
| `Packing.PackNonEmpty` | crates/aquifer/src/chunking.rs:148-150 | anything worth a chunk yields one |
| `Packing.CleanInk` | crates/aquifer/src/chunking.rs:130-134 | trimming and dropping blank pieces loses only white space and dots |
| `RoundTrip.MergeThenStitch` | crates/aquifer/src/chunking.rs:127-162 | stitching the packed chunks with the same overlap gives back exactly the trimmed pieces joined by single spaces, for every list of pieces and every overlap from one to the limit |
| `RoundTrip.RoundTripIff` | crates/aquifer/src/chunking.rs:127-162 | that round trip holds if and only if the overlap is positive or there is at most one chunk |
| `RoundTrip.MergePlain` | crates/aquifer/src/chunking.rs:127-152 | without overlap the chunks joined by spaces are the trimmed pieces joined by spaces |
| `RoundTrip.PackGreedy` | crates/aquifer/src/chunking.rs:127-152 | the packer fills the open chunk while the next piece fits behind a space, up to and including an exact fit, closes it at the first that does not, and goes on with the last `overlap` characters before that piece |
| `RoundTrip.OneChunkIff` | crates/aquifer/src/chunking.rs:135-147 | trimmed pieces make one chunk if and only if there is one, or all of them with their spaces are within the limit |
| `Chunking.MarkdownSections` | crates/aquifer/src/chunking.rs:68-89 | the line loop computes the sections the lemmas below are about |
| `Chunking.SectionsInk` | crates/aquifer/src/chunking.rs:68-89 | sections conserve everything but white space and dots |
| `Chunking.ChunkText` | crates/aquifer/src/chunking.rs:41-64 | the two nested loops, the running index and the fallback chunk compute the chunks the lemmas below are about |
| `Chunking.ChunksAreNumbered` | crates/aquifer/src/chunking.rs:45-63 | there is always a chunk, and indices count up from one across sections |
| `Chunking.ChunksConserve` | crates/aquifer/src/chunking.rs:41-64 | with effective overlap zero, the chunks of any text conserve it up to white space and dots |
| `Chunking.ChunksFit` | crates/aquifer/src/chunking.rs:41-64 | for every text with words: at most `max` characters without overlap, at most `max + overlap + 1` with it |
| `Chunking.SectionStitches` | crates/aquifer/src/chunking.rs:46-54 | one section, chunked and stitched back, is its trimmed pieces joined by spaces and conserves the body |
| `Chunking.DrillDownConserves` | crates/aquifer/src/vector_memory.rs:1820-1825 | reassembling all chunks of a text with one section conserves the text |
| `SizeLimit.WithinLimitIff` | crates/aquifer/src/chunking.rs:41-64 | which texts are kept within the limit, for every text and configuration: one that has no words (and is kept whole) if and only if it is within the limit itself; one that has words if and only if the effective overlap is zero, or in every section each word but the first leaves room for a space and for the end of the words before it, which is trimmed for the last word |
| `SizeLimit.SectionFitsIff` | crates/aquifer/src/chunking.rs:127-152 | the same for one section: a condition on the lengths and ends of its trimmed pieces, not on the chunks |
| `SizeLimit.LimitIffNoOverlap` | crates/aquifer/src/chunking.rs:41-64 | all texts that have words are kept within the limit if and only if the effective overlap is zero |
| `SizeLimit.BlankOverflows` | crates/aquifer/src/chunking.rs:56-62 | no configuration bounds every text: a blank text one longer than the limit is kept whole |
| `Chunking.ChunkContents` | crates/aquifer/src/chunking.rs:45-63 | the chunks are the packed texts of the sections, or the whole text exactly if every piece is blank |
| `Chunking.SectionsStartAtHeadings` | crates/aquifer/src/chunking.rs:68-89 | the sections are the lines of the text cut before every heading and nowhere else, in order, blank ones left out; each is called after the heading it starts with, and only the text before the first heading is called nothing |
| `Chunking.HeadingIff` | crates/aquifer/src/chunking.rs:91-94 | a line is a heading if and only if it starts with hash marks, at least one, and a space right behind them |
| `Chunking.HeadingText` | crates/aquifer/src/chunking.rs:78 | a heading is its line without the hash marks and without the white space at either end of the rest |
| `Chunking.NoneBlank` | crates/aquifer/src/chunking.rs:86-88 | of the sections exactly those with something on them are kept |
| `Chunking.ChunksBySection` | crates/aquifer/src/chunking.rs:45-54 | section by section, every chunk of a text with words is a packed text of that section and carries its heading |
| `Chunking.ConfigBounds` | crates/aquifer/src/chunking.rs:42-43 | the limit used is the one given but at least one; the overlap used is the largest that is neither over the one given nor over half the limit |
| `Text.LinesInvert` | crates/aquifer/src/chunking.rs:72 | lines are what stands between line breaks, `\r` before a break left out, with nothing behind a final break |
| `Text.TrimSplits` | crates/aquifer/src/chunking.rs:131 | trimming takes white space off both ends, and all of it |
| `ChunkLimits.OverflowWitness` | crates/aquifer/src/chunking.rs:136-146 | for each configuration with overlap, a text of one long word whose second chunk exceeds the limit |
| `ChunkLimits.SmallPiecesFit` | crates/aquifer/src/chunking.rs:127-152 | a text with words keeps the limit, at every overlap, whenever all pieces leave room for the tail and a space |
| `ChunkLimits.DrillDownLoses` | crates/aquifer/src/vector_memory.rs:1820-1825 | over two sections reassembly loses text when the first ends in the `#` the second begins with |
| `ChunkLimits.DrillDownLosesHere` | crates/aquifer/src/vector_memory.rs:1820-1825 | a concrete text for which it does, for every configuration with overlap and room for three characters |
| `DrillDown.MergeLinks` | crates/aquifer/src/chunking.rs:127-162 | each chunk repeats a known number of characters of its predecessor, and the rest of each is new text |
| `DrillDown.StitchLinked` | crates/aquifer/src/vector_memory.rs:1060-1077 | stitching chunks that share boundaries never yields more than the new text, and yields exactly it if and only if no chunk starts with more of the end of the new text before it than it repeats on purpose; otherwise it yields less |
| `DrillDown.FullCarryIsQuiet` | crates/aquifer/src/chunking.rs:127-152 | a chunk behind a full overlap never matches by accident, the trimmed last one included |
| `DrillDown.SectionIsQuiet` | crates/aquifer/src/chunking.rs:127-152 | within a section accidents are possible only at the first chunk, and at the second if the first is shorter than the overlap |
| `DrillDown.DrillDownExact` | crates/aquifer/src/vector_memory.rs:1820-1825 | for every text, the whole drill-down gives back the words of all sections if and only if no section starts with what the words before it end with, and no second chunk behind a short first one repeats more than it, and otherwise text is lost; the words hold all ink, and a text without words comes back as it is |
| `Stitching.Cut` | crates/aquifer/src/vector_memory.rs:1066-1074 | the duplicated prefix removed is the longest prefix of the next chunk, up to the limit, that ends what is there |
| `Stitching.AppendWithOverlap` | crates/aquifer/src/vector_memory.rs:1060-1077 | the downward search over prefix lengths appends exactly what is behind that longest duplicate |
| `Stitching.StitchAll` | crates/aquifer/src/vector_memory.rs:1820-1825 | the reassembly loop is the fold that the round-trip lemmas are about |
| `ParentWindow.FindAnchor` | crates/aquifer/src/vector_memory.rs:1094-1101 | the anchor is the first sibling with the index, else the first with the node id, else the first |
| `ParentWindow.GrowRound` | crates/aquifer/src/vector_memory.rs:1106-1122 | one round takes the left and then the right neighbour when they fit, with the running total equal to the estimate of the run |
| `ParentWindow.GrowRun` | crates/aquifer/src/vector_memory.rs:1102-1126 | the loop ends in a contiguous run around the anchor that grew in rounds, left first, each side stopping for good when its next chunk did not fit; no further chunk fits at exit |
| `ParentWindow.BuildParentWindow` | crates/aquifer/src/vector_memory.rs:1085-1136 | the window is the stitched run around the anchor, cut to the budget |
| `ParentWindow.RunIsUnique` | crates/aquifer/src/vector_memory.rs:1105-1126 | that description of the run admits only one run |
| `ParentWindow.EstimateGap` | crates/aquifer/src/vector_memory.rs:1104-1121 | for siblings that repeat any amount of their predecessors, without accidental matches, the running estimate never exceeds the stitched length and falls short of it by exactly what they repeat less than a full overlap |
| `ParentWindow.WindowShows` | crates/aquifer/src/vector_memory.rs:1085-1136 | for such siblings the stitched run is a stretch of the full reconstruction; the window holds the whole anchor if and only if the anchor, the estimate for what is left of it and the gap there fit the budget, and is not cut if and only if the estimate and both gaps do |
| `ParentWindow.ChunksAreSiblings` | crates/aquifer/src/chunking.rs:41-64 | the chunks of a text with words are such siblings if and only if its sections start without accidents |
| `ParentWindow.ExactEstimate` | crates/aquifer/src/vector_memory.rs:1104-1121 | when neighbours really share the overlap, the running estimate is the exact length of the stitched run |
| `ParentWindow.WindowIsExact` | crates/aquifer/src/vector_memory.rs:1085-1136 | when neighbours share the overlap and the anchor fits, the window is not cut, fits the budget, is a substring of the full reconstruction and contains the whole anchor |
| `ParentWindow.AnchorCutHere` | crates/aquifer/src/vector_memory.rs:1132-1134 | two siblings that share nothing, the second the anchor and within the budget: the window cuts it |
| `ParentWindow.OversizedAnchor` | crates/aquifer/src/vector_memory.rs:1132-1134 | an anchor over budget stands alone, cut to the budget |
| `ParentWindow.FullCarriesChain` | crates/aquifer/src/chunking.rs:136-146 | chunks whose carried tails are all full do share the overlap |
| `ParentSamples.ParentSizeSamples.Record` | crates/aquifer/src/vector_memory.rs:1022-1026 | a size is appended up to the cap and ignored after it; the cached median stays |
| `ParentSamples.ParentSizeSamples.GetMedian` | crates/aquifer/src/vector_memory.rs:1028-1047 | the answer is the exact median of a prefix of the samples that is fewer than sixteen short of all of them |
| `ParentSamples.MedianBalances` | crates/aquifer/src/vector_memory.rs:1035-1042 | at most half the samples lie below the median and at most half above |
| `ParentSamples.MedianIsMiddle` | crates/aquifer/src/vector_memory.rs:1036-1042 | it is the mean, rounded down, of the two samples in the middle, one and the same for an odd count |
| `ParentSamples.ParentSizeSamples.EffectiveBudget` | crates/aquifer/src/vector_memory.rs:664-681 | the budget is the median (or the fixed size) clamped to the chunk size and the maximum; none exactly when expansion is off |
| `Events.BuildIndex` | crates/aquifer/src/event.rs:109-114 | each entity lists exactly the records that mention it |
| `Events.Sweep` | crates/aquifer/src/event.rs:121-132 | linking close neighbours of one sorted list adds only pairs that share the entity within the window, and all close neighbours |
| `Events.NearChain` | crates/aquifer/src/event.rs:122-131 | two records of an entity within the window are connected through the neighbours between them |
| `Events.NearIff` | crates/aquifer/src/event.rs:124-128 | the test for nearness in whole seconds: less than one second over the window either way |
| `Events.SweepsConnectPairs` | crates/aquifer/src/event.rs:108-132 | the neighbour sweeps connect the same records as linking every pair that shares an entity within the window |
| `Events.LinkRecords` | crates/aquifer/src/event.rs:116-139 | after compression two records have the same parent if and only if they are in one component of the all-pairs graph, whatever order the entities are taken in |
| `Events.ClassEvent` | crates/aquifer/src/event.rs:150-197 | an event spans exactly the creation times of its members |
| `Events.BuildEvents` | crates/aquifer/src/event.rs:141-198 | one event for every class of at least two records |
| `Events.AssembleEvents` | crates/aquifer/src/event.rs:88-203 | the events are exactly the all-pairs components with at least two members, disjoint, with exact time ranges, ordered by start |
| `Events.EventsAreDetermined` | crates/aquifer/src/event.rs:88-203 | records and window determine which events there are |
| `EventOrder.EventsExist` | crates/aquifer/src/event.rs:88-203 | there always is a list of events |
| `EventOrder.OrderIsDeterminedIff` | crates/aquifer/src/event.rs:148-202 | records and window determine the list, order included, if and only if no two events start together |
| `EventOrder.TwoOrders` | crates/aquifer/src/event.rs:148-202 | four records whose two events can come in either order, under every window |
| `EventOrder.NegativeWindow` | crates/aquifer/src/event.rs:94 | under a window that wrapped to a negative number there are no events at all |
| `EventOrder.CastIsHarmlessIff` | crates/aquifer/src/event.rs:94 | the cast changes no result if and only if the window is below 2^63 seconds, or no two records that share an entity lie within it |
| `UnionFind.Find` | crates/aquifer/src/event.rs:207-212 | `uf_find` ends and returns the root |
| `UnionFind.Union` | crates/aquifer/src/event.rs:214-220 | the class of one argument moves under the root of the other and nothing else moves; the parents stay acyclic |
| `UnionFind.LinkIsForest` | crates/aquifer/src/event.rs:217-219 | linking two roots keeps the parents acyclic |
| `UnionFind.LinkRoot` | crates/aquifer/src/event.rs:217-219 | and moves exactly one class |
| `UnionFind.UnionRepresents` | crates/aquifer/src/event.rs:214-220 | if the classes were the components of the linked pairs, they still are after the union |
| `UnionFind.Singletons` | crates/aquifer/src/event.rs:119 | the initial parents stand for no links |
| `UnionFind.Compress` | crates/aquifer/src/event.rs:134-139 | the compression pass replaces every parent by its root |
| `Connectivity.SameComponents` | crates/aquifer/src/event.rs:116-132 | edge sets whose edges are connected in each other have the same components |
| `Connectivity.LeastAlong` | crates/aquifer/src/event.rs:116-132 | connectedness is the least equivalence that holds the edges |
| `CommitProtocol.CommitLog.constructor` | crates/aquifer/src/txn.rs:84-88 | a fresh log stands at zero |
| `CommitProtocol.CommitLog.CurrentSeq` | crates/aquifer/src/txn.rs:90-92 | reads the number |
| `CommitProtocol.CommitLog.TryCommit` | crates/aquifer/src/txn.rs:99-112 | succeeds exactly when the expected number is current, then advances by one with wrap-around; otherwise changes nothing and reports both numbers |
| `CommitProtocol.CommitLog.CommitWithRetry` | crates/aquifer/src/txn.rs:188-208 | against other commits between snapshot and exchange: the outcome, the number won, the attempts made and the final number |
| `CommitProtocol.StepInv` | crates/aquifer/src/txn.rs:99-208 | every atomic step of any writer keeps the counting invariant |
| `CommitProtocol.RunInv` | crates/aquifer/src/txn.rs:99-208 | it holds after every schedule |
| `CommitProtocol.RetriesSuffice` | crates/aquifer/src/txn.rs:174-208 | with n writers and at least n-1 retries, under every schedule nobody gives up, the numbers won are distinct and exactly those after the initial one, and the log ends n further |
| `CommitProtocol.RetryBoundIsExact` | crates/aquifer/src/txn.rs:188-208 | n writers never give up, under all schedules, if and only if each has at least n-1 retries |
| `CommitProtocol.OvertakesRun` | crates/aquifer/src/txn.rs:188-208 | the schedule that makes one writer lose as often as there are others |
| `CommitProtocol.TakenBound` | crates/aquifer/src/txn.rs:188-208 | every step uses up some of the work a writer has left |
| `CommitProtocol.EveryScheduleEnds` | crates/aquifer/src/txn.rs:188-208 | at most n(3 + 2 retries) steps can ever be taken, and until all are done some step can be |
| `LaneLock.StepInv` | crates/aquifer/src/lane_lock.rs:45-114 | every file operation of any client keeps the ownership invariant, if liveness can be told; so does every exit but that of a holder |
| `LaneLock.RunInv` | crates/aquifer/src/lane_lock.rs:45-114 | it holds after every schedule |
| `LaneLock.MutualExclusion` | crates/aquifer/src/lane_lock.rs:45-114 | if liveness can be told and holders do not exit, at most one guard is active in every reachable state, its own file is the one there, and only its own release takes that file away |
| `LaneLock.ExclusionIsExact` | crates/aquifer/src/lane_lock.rs:153-183 | for every configuration of clients: the lock is exclusive in all runs if and only if all clients share a process, or liveness can be asked (Unix) and either holders do not exit or no process has two clients outside it |
| `LaneLock.OffUnixFails` | crates/aquifer/src/lane_lock.rs:180-183 | off Unix any client of a second process gets a second active guard |
| `LaneLock.ExitFails` | crates/aquifer/src/lane_lock.rs:153-170 | when a holder may exit, two clients outside its process can both be active: read-test-remove lets one remove the other's file |
| `LaneLock.StepLockedOut` | crates/aquifer/src/lane_lock.rs:54-81 | once an unfinished lock file is there that nobody is writing or about to remove, every step keeps it so |
| `LaneLock.LockedOutForEver` | crates/aquifer/src/lane_lock.rs:153-162 | from then on the file stays and no client becomes active, under every schedule and configuration |
| `LaneLock.FailedWriteLocksOut` | crates/aquifer/src/lane_lock.rs:56-65 | while the lock excludes, one write that fails brings this about |
| `LaneLock.ExitWhileWritingLocksOut` | crates/aquifer/src/lane_lock.rs:56-66 | so does a client that exits while it writes, unless another process is holding, testing or removing |
| `LaneLock.Guard.constructor` | crates/aquifer/src/lane_lock.rs:66 | a new guard is active |
| `LaneLock.Guard.ReleaseInner` | crates/aquifer/src/lane_lock.rs:96-107 | an inactive guard leaves the file alone; an active one removes it and turns inactive, unless removing failed |
| `LaneLock.Guard.ReleaseThenDrop` | crates/aquifer/src/lane_lock.rs:90-114 | release followed by drop removes the file at most once, so a successor's file stays |
| `Graph.BuildIndex` | crates/aquifer/src/graph.rs:114-131 | both indexes list exactly the mentions, without repetition |
| `Graph.LinkedIff` | crates/aquifer/src/graph.rs:138-155 | two sources are linked if and only if relations of theirs have a subject or target in common |
| `Graph.VisitSource` | crates/aquifer/src/graph.rs:138-155 | expanding one source adds only nodes one step further and stops exactly at the size limit |
| `Graph.VisitLevel` | crates/aquifer/src/graph.rs:136-156 | the same for a whole frontier |
| `Graph.LevelComplete` | crates/aquifer/src/graph.rs:136-160 | a level finished below the limit has visited exactly the ball of the next radius |
| `Graph.EmptyLevel` | crates/aquifer/src/graph.rs:157-159 | once a level adds nothing, no further one does, so the early exit is exact |
| `Graph.BallIsWithin` | crates/aquifer/src/graph.rs:133-161 | the balls are the nodes at the end of walks of at most so many entity-sharing steps |
| `Graph.NeighborNodeIds` | crates/aquifer/src/graph.rs:108-163 | blank ids and zero hops give nothing; otherwise distinct nodes other than the start, in the order of the levels, all within min(hops, 3), at most 64; none left out is nearer than one returned, and none is left out if fewer than 64 are returned |
| `Graph.NeighborhoodIsByDistance` | crates/aquifer/src/graph.rs:108-163 | read as distances: every result is within the hops, results come in order of distance, none left out is nearer than a result, and nothing within the hops is missing below the limit |
| `SemanticCache.Cache.constructor` | crates/aquifer/src/semantic_cache.rs:68-75 | an empty cache with a capacity of at least one |
| `SemanticCache.Best` | crates/aquifer/src/semantic_cache.rs:89-103 | the chosen entry is the first of the most similar among those that answer the query; none exactly when none does |
| `SemanticCache.Cache.Lookup` | crates/aquifer/src/semantic_cache.rs:85-109 | expiry, choice, move to the front and truncation of the hits, as one step on the list |
| `SemanticCache.Cache.Insert` | crates/aquifer/src/semantic_cache.rs:112-125 | a new front entry and removal from the back down to capacity |
| `SemanticCache.Cache.Clear` | crates/aquifer/src/semantic_cache.rs:127-131 | empties the cache |
| `SemanticCache.CachingBackend.FindHits` | crates/aquifer/src/semantic_cache.rs:207-222 | bypass, hit and miss as one step of cache and database |
| `SemanticCache.CachingBackend.StoreMemory` | crates/aquifer/src/semantic_cache.rs:224-231 | the write goes through and the cache is emptied |
| `SemanticCache.FaithfulIsTransparent` | crates/aquifer/src/semantic_cache.rs:171-231 | if similar queries have the same answers (up to truncation), every run of finds and stores answers as without a cache |
| `SemanticCache.AskedInARow` | crates/aquifer/src/semantic_cache.rs:85-109 | two similar queries asked in a row show what transparency demands of them |
| `SemanticCache.TransparentIffFaithful` | crates/aquifer/src/semantic_cache.rs:171-231 | the cache never changes an answer if and only if similar queries agree |
| `SemanticCache.CacheIsTopOfStack` | crates/aquifer/src/semantic_cache.rs:85-125 | with exact keys, one limit and no expiry, the cache holds the top of the ideal recency stack, over every run |
| `SemanticCache.StackIsByLastUse` | crates/aquifer/src/semantic_cache.rs:104-107 | the stack is ordered by last use, so what falls off is the least recently used |
| `SemanticCache.FindTouches` | crates/aquifer/src/semantic_cache.rs:207-222 | a find is a hit exactly when its key is cached, and brings the key to the front either way |
| `SemanticCache.Inclusion` | crates/aquifer/src/semantic_cache.rs:112-125 | a smaller cache is always the front of a larger one, so each of its hits is a hit of the larger |
| `CacheExpiry.LookUpExpires` | crates/aquifer/src/semantic_cache.rs:85-109 | with a time to live t, a lookup answers if and only if some entry covers the limit, is similar enough and is at most t old at both clock readings; the answer is the front of such an entry's hits, and exactly the entries at most t old at the first reading are left |
| `CacheExpiry.ExpireExactly` | crates/aquifer/src/semantic_cache.rs:144-149 | expiry keeps an entry if and only if it is at most t old |
| `CacheExpiry.LookUpForEver` | crates/aquifer/src/semantic_cache.rs:85-109 | without a time to live a lookup answers if and only if some entry covers the limit and is similar enough, and nothing is dropped |
| `CacheExpiry.FindAfterExpiry` | crates/aquifer/src/semantic_cache.rs:207-222 | a find after everything has expired answers as without a cache and leaves its own entry only |
| `CacheExpiry.EntriesAreAnswers` | crates/aquifer/src/semantic_cache.rs:207-231 | over every run, every entry is what the backend, as it is now, answered to an earlier find with nothing stored since |
| `CacheExpiry.ServedIsRecent` | crates/aquifer/src/semantic_cache.rs:207-222 | so over every run a hit is the front of such an answer, and that is at most the time to live old |
| `AnchorLog.AnchorFormatIsFormat` | crates/aquifer/src/anchor.rs:10-12 | the markers of the log meet what the parsing lemmas need of markers |
| `AnchorLog.BlockText` | crates/aquifer/src/anchor.rs:95-97 | a written block, character by character |
| `AnchorLog.ParseAnchors` | crates/aquifer/src/anchor.rs:146-161 | the loop over the rest of the text computes the parse the lemmas below are about |
| `AnchorLog.CleanBlock` | crates/aquifer/src/anchor.rs:163-169 | a written block whose payload is free of fences parses to its anchor |
| `AnchorLog.FencedBlock` | crates/aquifer/src/anchor.rs:163-169 | one whose payload has a fence does not parse |
| `AnchorLog.CutBlock` | crates/aquifer/src/anchor.rs:163-169 | nor does one cut inside its payload |
| `AnchorLog.NextIsBlock` | crates/aquifer/src/anchor.rs:149-158 | the next block found is the next one written, if its payload is clean; otherwise parsing fails there |
| `AnchorLog.ParseFront` | crates/aquifer/src/anchor.rs:146-161 | by blocks from the front: the log parses to its anchors or fails |
| `AnchorLog.ParseLog` | crates/aquifer/src/anchor.rs:78-102 | a log of blocks with marker-free text between parses to exactly the anchors written if every payload is free of end marker and fence; with a single other payload it does not parse at all |
| `AnchorLog.HeaderHasNoStart` | crates/aquifer/src/anchor.rs:83-88 | the header written into a new log starts no block |
| `AnchorLog.AnchorStore.constructor` | crates/aquifer/src/anchor.rs:54-58 | a store whose log does not exist yet |
| `AnchorLog.AnchorStore.SetForSession` | crates/aquifer/src/anchor.rs:69-102 | the default key is stored as no session, the time is set, and exactly one block is appended, behind a header if the log is new |
| `AnchorLog.AnchorStore.GetForSession` | crates/aquifer/src/anchor.rs:108-115 | no log gives no anchor; otherwise the last parsed anchor of the key |
| `AnchorLog.MarkedTaskBreaksLog` | crates/aquifer/src/anchor.rs:138-169 | given that printing keeps text JSON does not escape, one anchor whose task holds a fence or an end marker makes every get fail |
| `AnchorLog.FenceAsTask` | crates/aquifer/src/anchor.rs:138-169 | for example a task that is a fence |
| `AnchorLog.LatestIsWritten` | crates/aquifer/src/anchor.rs:138-144 | the last anchor with the key is the last one written for the key |
| `AnchorLog.GetIsLastWrite` | crates/aquifer/src/anchor.rs:64-115 | over any writes and any keys, a get answers with the anchor last written for the key if all payloads are clean, and fails for every key if one is not |
| `AnchorLog.GetReturnsLast` | crates/aquifer/src/anchor.rs:64-115 | while payloads are clean, a get returns task, plan, decisions and next step of the last write for its key, with the time of that write |
| `LineTail.Tail.constructor` | crates/artesian-cli/src/runs.rs:208-212 | a reader at the start with nothing pending |
| `LineTail.Tail.DrainLines` | crates/artesian-cli/src/runs.rs:229-235 | draining leaves exactly the unterminated remainder and yields the non-blank terminated lines, carriage returns trimmed |
| `LineTail.Tail.ReadAppendedLines` | crates/artesian-cli/src/runs.rs:208-237 | truncation, nothing new, unreadable end and new text as one step of the reader |
| `LineTail.CompletedAppend` | crates/artesian-cli/src/runs.rs:229-235 | splitting a text in two pieces with the remainder carried over is splitting it whole |
| `LineTail.ReadGrown` | crates/artesian-cli/src/runs.rs:217-237 | a read after any growth yields the lines completed by the growth |
| `LineTail.TailingIsBatch` | crates/artesian-cli/src/runs.rs:208-237 | over any sequence of reads of an append-only file the lines read are those of the whole text, and pending is its unterminated rest, also when reads fail in the middle of a character |
| `LineTail.TrimCrsIs` | crates/artesian-cli/src/runs.rs:230 | all carriage returns before the line feed go, and nothing else |
| `LineTail.OneLine` | crates/artesian-cli/src/runs.rs:229-235 | one line is shown without them, unless nothing but white space is on it |
| `LineTail.Utf8SizeIsLeast` | crates/artesian-cli/src/runs.rs:225 | a character counts as few bytes as can hold its code point: one for 7 bits, then 11, 16 and 21 |
| `LineTail.TruncationRestarts` | crates/artesian-cli/src/runs.rs:213-216 | a file shorter than the offset is read as if from the start |
| `Decay.StrengthBounds` | crates/aquifer/src/decay.rs:64-97 | strength stays between floor and boost |
| `Decay.StrengthGrowsWithUse` | crates/aquifer/src/decay.rs:73-96 | more uses never lower it, across all branches |
| `Decay.StrengthFallsWithAge` | crates/aquifer/src/decay.rs:77-96 | time never raises it |
| `Decay.UseHelpsIffBoost` | crates/aquifer/src/decay.rs:89-96 | uses never lower it, for all records and times, if and only if the boost is at least one |
| `Decay.AlwaysStrongIff` | crates/aquifer/src/decay.rs:68-97 | under every enabled configuration with a floor between zero and one and a boost of at least one, and for all counts: a record is at full strength at every age if and only if its boost makes up for the oldest age |
| `Decay.EnoughIsSignal` | crates/aquifer/src/decay.rs:82-87 | under the default configuration that takes a utility signal of 12/19: seven confirmed uses, or forty retrievals, or enough of both |
| `Decay.DefaultProtectionIff` | crates/aquifer/src/decay.rs:46-97 | by default a record is at full strength at every age if and only if its counts are that high, for all counts |
| `Decay.SevenUsesSuffice` | crates/aquifer/src/decay.rs:41-43 | a record never retrieved is at full strength at every age if and only if it has seven confirmed uses |
| `Decay.DefaultStrengthAtLeast` | crates/aquifer/src/decay.rs:46-97 | by default a record never accessed at a known time, or with counts that high, is at full strength at any age |
| `Decay.DefaultWeakness` | crates/aquifer/src/decay.rs:89-96 | one accessed at a known time with lower counts is below one once its age score is down at the floor |
| `Decay.SignalIs` | crates/aquifer/src/decay.rs:82-87 | the signal in thousandths is the largest of 100 for each confirmed use, 16 for each retrieval, and 70 and 6 for both together, counting ten uses and fifty retrievals at most |
| `Decay.FreshStrength` | crates/aquifer/src/decay.rs:41-43 | ten confirmed uses give a record of unknown access the full boost; retrievals alone, however many, only four fifths of it |
| `Decay.DaysCount` | crates/aquifer/src/decay.rs:78 | an age in days is seconds over 86400, and none before the access |
| `Decay.HalfLifeHalves` | crates/aquifer/src/decay.rs:57-80 | waiting another half-life, of a day or more, halves the weight of age |
| `Decay.ThirtyDays` | crates/aquifer/src/decay.rs:46-80 | by default that takes thirty days |
| `Eviction.Evict` | crates/aquifer/src/eviction.rs:84-226 | the phases compute the log the lemmas below are about, and the counts of the report count it |
| `Eviction.RunRule` | crates/aquifer/src/eviction.rs:119-154 | one rule over the scored records, skipping ids already archived |
| `Eviction.RunCap` | crates/aquifer/src/eviction.rs:181-210 | the cap loop with its skip and early exit |
| `Eviction.SweepLogs` | crates/aquifer/src/eviction.rs:119-154 | a rule logs exactly the records it hits that were not archived before |
| `Eviction.CapTakes` | crates/aquifer/src/eviction.rs:187-208 | the cap loop archives exactly as many as asked, or all that are left |
| `Eviction.CapTakesFront` | crates/aquifer/src/eviction.rs:189-207 | and from the weak end only |
| `Eviction.DeletionsExact` | crates/aquifer/src/eviction.rs:90-104 | deletions are exactly the archived records, each logged with its own id and strength |
| `Eviction.PassIsSound` | crates/aquifer/src/eviction.rs:84-226 | no id is logged twice, only active records are archived, and exactly the archived ones are deleted, when hard deletion is asked for |
| `Eviction.CapIsKept` | crates/aquifer/src/eviction.rs:179-210 | what survives is the smaller of the cap and what the other rules left; the cap rule logs exactly the difference; every survivor is at least as strong as every record it took |
| `Eviction.WeakestHalfGoes` | crates/aquifer/src/eviction.rs:161-177 | without a cap, exactly the weaker half goes, rounded down but at least one record if there is any, and nothing weaker stays |
| `Eviction.TtlIsExact` | crates/aquifer/src/eviction.rs:118-136 | the age rule archives exactly the active records over age that are not protected by use: longer since access, or else creation, than the limit in days of 86400 seconds, and never confirmed useful or weaker than one |
| `Eviction.WeakIsExact` | crates/aquifer/src/eviction.rs:138-154 | a record is logged as too weak if and only if the rule is on, its strength is below the threshold, and the age rule did not take it; the two rules together archive exactly the too old and the too weak |
| `Eviction.SurvivorsMeetRules` | crates/aquifer/src/eviction.rs:118-154 | no survivor of a pass is below the threshold or taken by the age rule, whatever the other rules do |
| `Eviction.SparedIff` | crates/aquifer/src/eviction.rs:118-154 | without a cap or the half rule the survivors are exactly the records those two rules spare |
| `Eviction.UsefulNeverTooOld` | crates/aquifer/src/eviction.rs:119-136 | by default a record confirmed useful at least once, and never accessed at a known time or used enough, is not archived for age |
| `Eviction.NeverTooOldIff` | crates/aquifer/src/eviction.rs:119-136 | by default, and for every age limit, the age rule hits a record at no time if and only if it is such a record |
| `Mmr.FindBest` | crates/aquifer/src/mmr.rs:56-69 | the search over the remaining candidates finds the first of those worth most |
| `Mmr.Select` | crates/aquifer/src/mmr.rs:53-72 | the picks are greedy, as many as the limit and the hits allow |
| `Mmr.TakeSlots` | crates/aquifer/src/mmr.rs:74-78 | every pick is handed out once, in the order of the picks |
| `Mmr.Diversify` | crates/aquifer/src/mmr.rs:37-78 | one hit or a limit of one keeps the order given; otherwise each result is the first best of what its predecessors left, for the clamped weight |
| `Mmr.DiversifyWhenLarge` | crates/aquifer/src/mmr.rs:80-91 | small pools are only cut to the limit |
| `Mmr.GreedyIsDistinct` | crates/aquifer/src/mmr.rs:53-72 | no hit is picked twice |
| `Mmr.GreedyIsPrefix` | crates/aquifer/src/mmr.rs:55-72 | hits and weight determine the picks, and a smaller limit gives the start of a larger one's |
| `Mmr.RelevanceIsStableSort` | crates/aquifer/src/mmr.rs:37-78 | at weight one the result is the stable descending sort of the scaled scores, cut to the limit |
| `Mmr.AheadIsPosition` | crates/aquifer/src/mmr.rs:53-72 | at weight one a hit stands where the number of hits ahead of it says |
| `Mmr.ScoreOrderIff` | crates/aquifer/src/mmr.rs:56-69 | at weight one the picks are the stable sort by score itself, cut to the limit, if and only if no hit with fewer than limit hits ahead of it precedes a higher score that, once scaled, is too low for the search to tell from its start value |
| `Mmr.LostHere` | crates/aquifer/src/mmr.rs:45-67 | three hits whose two picks are not the two best scores |
| `Mmr.FirstPickIff` | crates/aquifer/src/mmr.rs:38-40 | for every weight: the first hit is also the first pick, as a limit of one presumes, if and only if relevance does not count or no other hit beats it |
| `Mmr.BeatenHere` | crates/aquifer/src/mmr.rs:38-40 | two hits of which every limit but one passes over the first |
| `Novelty.JaccardIsFraction` | crates/aquifer/src/mmr.rs:26-32 | similarity of two word sets is the shared fraction of their words: zero if and only if they are disjoint, one if and only if they are equal and not empty |
| `Novelty.ClosenessIs` | crates/aquifer/src/mmr.rs:59-62 | what a candidate loses is its closeness to the closest chosen hit: a bound over all of them that one attains |
| `Novelty.NovelFirst` | crates/aquifer/src/mmr.rs:55-71 | at any weight below one, of two hits with equal scores the one picked first is no closer to its closest chosen hit (unless the other is too low to tell from the start value) |
| `Novelty.OnlyNovelty` | crates/aquifer/src/mmr.rs:55-71 | at weight zero every pick minimises that closeness, the first of the minimal ones |
| `Novelty.BetterNotPassedOver` | crates/aquifer/src/mmr.rs:55-71 | at any weight above zero a hit with a higher score that is no closer is not passed over (unless too low to tell from the start value) |
| `Novelty.NotTooLow` | crates/aquifer/src/mmr.rs:57 | scores that are not negative never are too low |
| `Novelty.TopIsBest` | crates/aquifer/src/mmr.rs:45 | scores are scaled by the best one |
| `Novelty.ScaleInvariant` | crates/aquifer/src/mmr.rs:34-47 | multiplying all scores by a positive factor leaves the picks alone whenever it multiplies the scale |
| `Novelty.ScalesBy` | crates/aquifer/src/mmr.rs:45-46 | and it does that if it keeps the scores in range and the best one's magnitude at or above the smallest step |
| `Novelty.TwinPassedOver` | crates/aquifer/src/mmr.rs:53-72 | for example, half way between relevance and novelty the twin of the first pick is passed over for a weaker hit with other words |
| `Novelty.TwinTaken` | crates/aquifer/src/mmr.rs:53-72 | and taken at nine tenths relevance |
| `RankFusion.AddChannel` | crates/aquifer/src/rrf.rs:10-20 | one channel adds its rank scores to the map and nothing else |
| `RankFusion.Fuse` | crates/aquifer/src/rrf.rs:7-39 | the result is the start of the full ranking: each node that occurs, once, with the sum of 1/(k+rank+1) over all its occurrences (infinite if one divides by zero), by score and then id |
| `RankFusion.BeforeIsTotalOrder` | crates/aquifer/src/rrf.rs:30-36 | the comparison of the results is a strict total order |
| `RankFusion.TotalOfPermutation` | crates/aquifer/src/rrf.rs:10-20 | a node's score does not depend on the order of the channels |
| `RankFusion.ChannelOrderIrrelevant` | crates/aquifer/src/rrf.rs:7-39 | nor do the ids, the scores or their order in the whole ranking |
| `FusionOrder.OneOccurrence` | crates/aquifer/src/rrf.rs:12 | the score of a node that occurs once, at rank r, times k + r + 1 is one; it is infinite exactly if that is zero |
| `FusionOrder.OneChannel` | crates/aquifer/src/rrf.rs:7-39 | for a constant of zero or more, the ranking of one channel without repetitions is the channel |
| `FusionOrder.EarlierFirst` | crates/aquifer/src/rrf.rs:7-39 | for such a constant, a node that stands at least as early as another in every channel, and earlier in one, comes before it |
| `FusionOrder.LeaderFirst` | crates/aquifer/src/rrf.rs:7-39 | the same with repetitions: a node met at least as often at every point of every channel, and more often at some point, comes first |
| `FusionOrder.RankingFalls` | crates/aquifer/src/rrf.rs:30-36 | the ranking falls by score and rises by id among equal scores |
| `Reconcile.TokensAscend` | crates/aquifer/src/reconcile.rs:141-150 | sorting and dropping repeats gives an ascending list with exactly the words |
| `Reconcile.Jaccard` | crates/aquifer/src/reconcile.rs:153-180 | the two-pointer loop over ascending lists computes the Jaccard similarity of the sets |
| `Reconcile.OneIffEqual` | crates/aquifer/src/reconcile.rs:153-180 | similarity is the shared fraction of the words: one exactly for equal sets, zero exactly for disjoint ones that are not both empty |
| `Reconcile.FindClosest` | crates/aquifer/src/reconcile.rs:88-98 | the candidate kept is the first of the closest ones, if any shares a word |
| `Reconcile.Reconcile` | crates/aquifer/src/reconcile.rs:75-138 | `Add` exactly when no candidate is close enough, `Noop` exactly when one is close enough to cover; every other decision names the first closest candidate and replaces it only by a text more than 20 characters longer |
| `Reconcile.MergeKeeps` | crates/aquifer/src/reconcile.rs:128-132 | a merge is the existing text, a blank line and the incoming one, both trimmed and in that order, or the existing text alone if they say the same; nothing but white space is lost |
| `Consolidation.Jaccard` | crates/aquifer/src/consolidation.rs:230-249 | the count map gives the Jaccard similarity of the bags of words |
| `Consolidation.BagJaccardIsFraction` | crates/aquifer/src/consolidation.rs:230-249 | that similarity is the shared count over the count of both less the shared: one exactly for equal bags, zero exactly for disjoint ones that are not both empty |
| `Consolidation.NearIsMutual` | crates/aquifer/src/consolidation.rs:162-166 | nearness is mutual, includes equality with the threshold, and at a threshold of one is having the same words |
| `Consolidation.Group` | crates/aquifer/src/consolidation.rs:149-173 | the groups, in order, are those of the records near no earlier leader, and each holds exactly the records whose first near leader it is |
| `Consolidation.FollowsOne` | crates/aquifer/src/consolidation.rs:149-173 | every record is in exactly one group |
| `Consolidation.LeadersApart` | crates/aquifer/src/consolidation.rs:153-172 | no two leaders are near each other |
| `StaleResume.AnalyzeSession` | crates/artesian-cli/src/mcp_doctor.rs:604-687 | exactly the servers whose trace is stale are reported, once each, with the time of their last removal |
| `StaleResume.ReportedIffStale` | crates/artesian-cli/src/mcp_doctor.rs:673-686 | the state kept for a server says whether, since its last removal at a known time, it was not re-added and its last instructions came at a known time |
| `StaleResume.ReadsStep` | crates/artesian-cli/src/mcp_doctor.rs:633-670 | every event keeps that reading of the state |
| `StaleResume.EventsAre` | crates/artesian-cli/src/mcp_doctor.rs:633-670 | the events of a line are the removals of the program's own servers, before the servers added or re-added, or its own servers instructed |
| `Sorting.SortIsStable` | crates/aquifer/src/eviction.rs:156-159 | sorting keeps records of equal strength in their order |

## Left out

- Floating point: scores are reals, so rounding, overflow and NaN are not modelled; only the least finite single-precision number appears, as the start of the maxima in `Mmr`.
- Tokenising and Unicode: case folding, word boundaries and entity extraction are parameters or given word lists.
- Cosine similarity: an abstract function in `SemanticCache`.
- JSON and SHA-256: an abstract codec (`AnchorLog.IsCodec`) that reads back what it prints, prints no surrounding white space and reads no proper prefix of a print, and that keeps unescaped text where a lemma says so (`AnchorLog.KeepsPlainText`).
- Storage backends, embedding and reranking models, network and CLI rendering: they would add engines that cannot be seen.
- Events.AssembleEvents: does not model the title, the hashed id and the merged entity list of an event, which are folds over its members; members are record positions.
- CommitProtocol.CommitLog.CommitWithRetry: does not model a storage failure after a successful exchange, which ends the loop with that error.
- LaneLock.MutualExclusion: does not model process id reuse, a `kill -0` that fails for a live process of another user, or the lane name; time-outs are a step that may always happen.
- SemanticCache.FaithfulIsTransparent: finds and stores do not overlap in time, and a find that fails in the backend is not modelled.
- RankFusion.Fuse: follows id and score; the record kept with an id (its first occurrence) is not modelled.
- Eviction.PassIsSound: takes records with distinct ids, as the store gives them; reasons are tags, not texts, and the audit file is not written.
- Eviction.Evict: takes a floor that does not exceed the boost, since the source's clamp panics otherwise.
- Reconcile.Reconcile: candidates are id and text, and the words of a text are a parameter.
- Consolidation.Group: covers the grouping; the claims built from the groups (canonical record, question and answer, token footprint) are not modelled.
- StaleResume.AnalyzeSession: starts from the lines that parse, with tool names already mapped to servers; the session id and the order of the findings are not modelled.
- `normalize_relations`, `by_entity_node_ids`, `bounded_trim` and hit expansion in `graph.rs`: single loops with caps.
- Working memory, queue, barrier, token accounting, configuration and update code: easy members only.
