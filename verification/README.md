# Sage-memory: a verified model of its searches, protocols and transformations

Sage-memory keeps a small knowledge store for coding agents in SQLite: memories with typed edges,
entities and their mentions, chunks of long memories, and a graph of code symbols.  This project models
the parts of it whose correctness is not obvious from reading one function, and proves what they are for:

- **Graph searches** (`Graphs`, `CycleCheck`, `FindPath`, `Affected`, `GraphTraversal`, `GraphProximity`, `RankCurves`,
  `HopQueries`): the loops with their stacks, queues and caps, against walks and distances in finite graphs.
- **Protocols over shared state** (`OwnershipProtocol`, `UndisturbedSteps`, `HubOwnership`, `CachedClaims`, `TaskQueue`,
  `Migrations`): transition systems over every interleaving, crash and restart, with inductive invariants; where a
  guarantee is conditional, the exact condition and a run that shows the failure.
- **The code graph** (`CodeIndex`, `TableEntries`, `SpecifierPaths`, `ResolvedNames`, `CodeResolve`, `RelationRows`,
  `CodeRescan`, `ScannedTables`): the definitions table, the resolvers of ten languages, the agreement of the
  incremental pass with the full one, and what a scan of changed or forced files leaves behind.
- **Text** (`Text`, `SqlMask`, `SqlTokens`, `Markers`, `MarkerText`, `DeletedBlocks`, `EnclosingBlocks`, `FixedSplit`,
  `CutPlaces`, `Structure`, `TextDivisions`, `Chunker`, `ChunkedFences`, `Normalization`, `NormalizedLines`): a masker
  against a lexer, a printer and its parser, and a chunker that loses nothing.
- **Merging and state** (`ChunkStore`, `HubImport`, `ImportedRows`, `Fusion`, `ChannelWeights`, `SearchResults`,
  `BlendedScores`, `RerankedResults`, `EntityDedup`, `DedupPairs`).

Loops of the program are methods with loops, proved against functions or predicates; what the program promises is
proved about those.  What each of these means is stated besides in literal values and in terms of the tables, texts and
rows themselves, without the function: see `RankCurves`, `HopQueries`, `CutPlaces`, `TextDivisions`, `MarkerText`,
`SqlTokens`, `ResolvedNames` and the like.  `Wrappers`, `Ids` and `Multisets` hold what several modules share.

## How the program is rendered

- Database tables are maps or sets with their unique keys and cascades; a query returns its rows in any
  order unless it has an ORDER BY.  Identifiers are an abstract type of which only equality is known, except
  where rows are sorted by id.  An id drawn from uuid4 is a parameter that is not in use yet.
- Answers of language models, cosine similarities, ranked lists and extracted relations are arbitrary inputs.
  Clocks are parameters.  Scores and ranks are real numbers.
- A regular expression is a scanner that matches the same texts.  White space is the set of characters
  that Python's `str.isspace` accepts.
- Paths of the code graph are sequences of components, joined as `pathlib` joins them.  The file an import means is the
  one of its very path or, as the program describes it for `./b`, one with an extension or an index file; that `./b.js`
  may also stand for `b.ts` is a rule of TypeScript which the program does not claim.
- Names of entities are unique within a type, as the unique key on their normalised form makes them, and are
  ordered by code point, which is the order of their UTF-8 bytes.

## What the proofs found

Where the code does less than its documentation says, the code is what is modelled, and where a guarantee is
conditional the exact condition is proved:

- **Ownership.**  Two overlapping reclaimers both succeed; an owner that slept through its heartbeats releases
  its successor's claim; a crash between creating and writing the file blocks the project for good.  A process
  that has taken a project over is refused its own writes while the former owner's claim is still cached.
- **`graph()`** with both directions and a relation filters inbound edges only; it meets its filter exactly if every
  edge that leaves a memory in reach passes it.
- **`affected`** reports truncation whenever a symbol stands exactly at the depth, also when nothing depends on it.
- **Markers.**  A begin marker without an end pairs with the end of the next block that is installed; a body line that
  starts with the block's own end marker cuts the block short, although the docstring calls such bodies safe.  Round
  trip, idempotence and deletion each hold exactly without such a line, idempotence also without such a begin marker.
- **Chunker.**  Code fences are atomic only in the structural phase.  A fence in a segment of at most 1200 characters stays
  whole; in a longer one it does exactly if no cut between neighbouring pieces meets it, and never if it has more than 600
  characters.  Offsets are in characters, not bytes.
- **`update`** accepts content shorter than the ten characters that `store` asks for, and takes empty content as none.
- **Migrations.**  A run ends at the version of the last file it applied, which is not the highest when a later file with
  virtual tables only has a lower one.
- **Hub import** can turn an edge into a self-loop, which `link` would refuse.
- **Entity dedup** can leave chains of links, in one pass or over two, while readers follow one link only.
- **Resolution.**  TypeScript and JavaScript imports through a parent directory, also as `./../b`, never reach another
  file, nor do imports that give a file's extension, such as `./b.js`, the bare directories `.` and `..`, or one that
  leads to the project's root, as `./` does there.  Restoring relations after a scan fails when the source symbol was
  deleted too, since OR IGNORE does not cover foreign keys: a forced scan of one file with a call inside it is enough,
  and the failure repeats on the same connection.  What was inserted before the failure is committed when the lock is
  released.
- **Search** returns one result for a limit of zero or less.  After a rerank a result need not be the best of its hash, since
  candidates behind the reranked head keep their scores.

## Model

| member | source | states |
|---|---|---|
| Graphs.BallIsReachability | src/sage_memory/codebase/queries.py:112-145 | the ball of radius n, by which all searches are specified, is what walks of at most n edges reach |
| Graphs.DescendingAcyclic | src/sage_memory/skills/sage-ontology/scripts/graph_check.py:141-155 | a graph whose edges all lead back in some order, such as the order in which a depth-first search finishes its nodes, has no closed walk |
| CycleCheck.BuildAdjacency | src/sage_memory/skills/sage-ontology/scripts/graph_check.py:130-136 | adjacency lists and node set hold exactly the edges of the relation type |
| CycleCheck.SearchFrom | src/sage_memory/skills/sage-ontology/scripts/graph_check.py:145-170 | the search from one node over a stack of live iterators closes a simple cycle or finishes every node it visits, in an order in which all edges lead back |
| CycleCheck.StackClosesCycle | src/sage_memory/skills/sage-ontology/scripts/graph_check.py:158-163 | a neighbour on the stack closes a simple cycle: the stack from that neighbour on, and the neighbour again |
| CycleCheck.FinishKeepsOrder | src/sage_memory/skills/sage-ontology/scripts/graph_check.py:168-170 | a node may be finished once its neighbours are: the order of finishing stays a proof that what is finished is acyclic |
| CycleCheck.FindCycle | src/sage_memory/skills/sage-ontology/scripts/graph_check.py:129-176 | reports a cycle if and only if the graph of the relation type has a closed walk, and what it reports is a simple cycle along edges |
| CycleCheck.CheckCycles | src/sage_memory/skills/sage-ontology/scripts/graph_check.py:119-178 | the relation types reported are exactly the acyclic ones whose graph has a cycle, each once and with a real cycle |
| CycleCheck.AcyclicTypes | src/sage_memory/skills/sage-ontology/scripts/graph_check.py:50-66 | two relation types are acyclic, blocks and depends_on |
| CycleCheck.CycleFollowsRelations | src/sage_memory/skills/sage-ontology/scripts/graph_check.py:130-136 | a cycle is a path along relations of the type, each from its source to its target, that closes on its start |
| FindPath.LimitedSingle | src/sage_memory/codebase/queries.py:33-72 | the LIMIT on candidates never hides an ambiguity: one row is shown if and only if there is one |
| FindPath.CandidatesAre | src/sage_memory/codebase/queries.py:33-72 | a row is a candidate if and only if its symbol is scanned and no file anchor and has the name as its qualified name, or, only if no such symbol has that, as its bare name |
| FindPath.QualifiedNameWins | src/sage_memory/codebase/queries.py:43-58 | a name that is the qualified name of one symbol stands for it, whatever bare names there are |
| FindPath.FunctionBeforeMethod | src/sage_memory/codebase/queries.py:43-58 | a function run and a method Job.run: the name run means the function |
| FindPath.Expand | src/sage_memory/codebase/queries.py:126-145 | visits the targets of one node; every visited node hangs in a tree of shortest paths; a cap is reported only when it is reached |
| FindPath.Search | src/sage_memory/codebase/queries.py:115-145 | the parent map is a tree of shortest paths; the goal, if visited, is within the depth and nothing is reported as truncated; not visited and not truncated means unreachable at any distance |
| FindPath.Replay | src/sage_memory/codebase/queries.py:147-157 | following parents ends at the start and yields resolved relations along a walk as long as the distance |
| FindPath.FindBetween | src/sage_memory/codebase/queries.py:106-184 | found: a shortest resolved path within the depth cap, not truncated; neither found nor truncated: no path of any length; truncated: no path within the cap, or the node cap lies within it |
| FindPath.ExactDecides | src/sage_memory/codebase/queries.py:115-184 | with fewer symbols in range than the node cap, the answer decides whether a path within the depth cap exists |
| FindPath.FindPath | src/sage_memory/codebase/queries.py:86-184 | unknown or ambiguous names, in the sense of `CandidatesAre`, give candidates and nothing else; otherwise the answer is that of the search between the two symbols |
| Affected.ListResolved | src/sage_memory/codebase/queries.py:216-258 | lists the resolved relations of one symbol once each, queues the new sources, and stops exactly when the list is full |
| Affected.ListNamed | src/sage_memory/codebase/queries.py:228-258 | adds the unresolved relations that name the symbol |
| Affected.ListedAre | src/sage_memory/codebase/queries.py:216-258 | listed for a symbol are the relations resolved to it and, unless resolved ones only are wanted, the unresolved ones of its name; dependents lead from a target to the source |
| Affected.ListAffected | src/sage_memory/codebase/queries.py:187-260 | every entry is a relation of a symbol at the distance it says, none twice; not truncated: every dependent at any distance is listed; truncated: the list is full, or some symbol stands at the depth and exactly the nearer ones are listed |
| Affected.AlarmExact | src/sage_memory/codebase/queries.py:209-212 | below the cap, truncation is reported if and only if some symbol stands exactly at the depth, while something is missing if and only if such a symbol has relations itself: at leaves the signal is a false alarm |
| Affected.LeafAlarm | src/sage_memory/codebase/queries.py:209-212 | one symbol that nothing uses, at the depth: truncation is reported and nothing is missing |
| GraphTraversal.BothFilterIff | src/sage_memory/graph.py:112-180 | a query for both directions and a relation finds the nodes and edges of the query with both halves filtered if and only if every edge leaving a node in reach, short of the depth, passes the filter: AND binds tighter than OR |
| GraphTraversal.ForeignEdgeReported | src/sage_memory/graph.py:126-131 | a table of one edge of another relation: it is reported, and so is the memory behind it |
| GraphTraversal.OneWayFilterHonoured | src/sage_memory/graph.py:118-131 | in one-directional queries the filter always holds |
| GraphTraversal.PassesIff | src/sage_memory/graph.py:118-131 | no relation or an empty one lets every edge pass, and any other those of that relation |
| GraphTraversal.StepsAre | src/sage_memory/graph.py:118-168 | outbound steps lead from source to target of the edges that pass, inbound ones the other way, and without a relation both directions are the union of the two |
| GraphTraversal.EdgesAtAre | src/sage_memory/graph.py:112-131 | fetched at a set of memories are, outbound, the passing edges whose source is in it, inbound those whose target is, and in both directions all with their source in it and the passing ones with their target in it |
| GraphTraversal.OneEdgeOneWay | src/sage_memory/graph.py:112-180 | one edge from a to b: outbound from a finds b and the edge, inbound from a finds nothing |
| GraphTraversal.TakeEdge | src/sage_memory/graph.py:158-180 | one fetched edge: skipped if taken before, which loses no node; else reported once and its far end queued if new |
| GraphTraversal.ExpandNode | src/sage_memory/graph.py:146-180 | all edges fetched at a node are taken and all its successors visited |
| GraphTraversal.Traverse | src/sage_memory/graph.py:133-180 | gathers exactly the nodes within the depth and exactly the edges fetched at nodes nearer than the depth, on cyclic graphs too |
| GraphTraversal.GraphStore.Link | src/sage_memory/graph.py:24-92 | creates, updates or deletes the one edge of a triple; refuses missing ends and self-loops; reports which it did |
| GraphTraversal.GraphStore.Graph | src/sage_memory/graph.py:95-197 | returns the memories at distance 1 to depth and the edges of the nearer ones, each once, in the direction that `StepsAre` and `EdgesAtAre` say; the depth is cut to 1 to 5 |
| GraphProximity.SeedsRankFirst | src/sage_memory/graph_channel.py:425-457 | under every curve a seed ranks below, that is before, whatever a hop reaches |
| RankCurves.RankIs | src/sage_memory/graph_channel.py:425-457 | one more than the distance, or its harmonic number, divided by the weight: stated as a product for each curve |
| RankCurves.FartherIsWorse | src/sage_memory/graph_channel.py:425-457 | at one weight the rank rises with the distance, strictly, under every curve |
| RankCurves.StrongerIsBetter | src/sage_memory/graph_channel.py:425-457 | at one distance the rank falls with the weight, strictly, under every curve |
| RankCurves.TypesInOrder | src/sage_memory/graph_channel.py:50-84 | at one distance a manual edge ranks before contradicts, that before depends_on, that before mentions |
| HopQueries.RelationHopIff | src/sage_memory/graph_channel.py:332-386 | a relation hop leads to another memory exactly along a mention, a relation of its entity or the one that is merged into, and a mention of the other end likewise |
| HopQueries.EdgeHopIff | src/sage_memory/graph_channel.py:389-399 | an edge hop follows a manual edge from source to target |
| HopQueries.SeedMentionedIff | src/sage_memory/graph_channel.py:317-329 | found for a seed are exactly the memories that mention it unmerged, or an entity merged into it |
| HopQueries.StepIff | src/sage_memory/graph_channel.py:332-399 | one memory leads to another exactly by a manual edge or along such a path |
| HopQueries.OneEdgeFollowed | src/sage_memory/graph_channel.py:389-399 | one manual edge is followed in its direction only |
| GraphProximity.LevelCompletes | src/sage_memory/graph_channel.py:150-186 | once all hops of a level have been considered, every memory at that distance holds the least rank over all hops arriving there |
| GraphProximity.EmptyFrontier | src/sage_memory/graph_channel.py:155-156 | stopping at an empty frontier loses nothing at any depth |
| GraphProximity.Search | src/sage_memory/graph_channel.py:131-186 | all memories within the depth cap and no others are recorded, each with its distance and the least rank over its last hops |
| GraphProximity.RankingUnique | src/sage_memory/graph_channel.py:198-211 | the set of (memory, rank, distance) is determined by the tables: no iteration order shows in it |
| GraphProximity.TopUnique | src/sage_memory/graph_channel.py:210-220 | the list cut to the limit is determined too |
| HopQueries.TopIsSorted | src/sage_memory/graph_channel.py:210-220 | the list has the smaller ranks first, then the smaller ids, and nothing left out sorts before what is in it |
| HopQueries.RankIsLeast | src/sage_memory/graph_channel.py:402-422 | a seed has rank 1, and any other memory the least rank of all hops that reach it from one step nearer |
| GraphProximity.GraphProximity | src/sage_memory/graph_channel.py:90-220 | returns the first `limit` items of the one ranking, whose ranks are those of `RankCurves`, live memories only, each with a seed that reaches it; nothing when there are no entities |
| OwnershipProtocol.StepKeepsInv | src/sage_memory/hub/ownership.py:97-236 | every step of create, write, read, replace, read back, heartbeat and release keeps the invariant while no live claim is stale and reclaims do not overlap |
| OwnershipProtocol.RunsAreSafe | src/sage_memory/hub/ownership.py:97-236 | over every such run at most one live process owns the project, and a readable owner file names the owner |
| OwnershipProtocol.ReclaimSafeIff | src/sage_memory/hub/ownership.py:207-223 | a reclaim that runs through always succeeds, and keeps exclusion if and only if nobody owned the project |
| OwnershipProtocol.ReleaseSafeIff | src/sage_memory/hub/ownership.py:226-236 | after a release the next process acquires at once, whoever the file named; exclusion then holds if and only if nobody else owned the project |
| OwnershipProtocol.AcquiredIsReached | src/sage_memory/hub/ownership.py:97-142 | the state the two failing runs begin in is reached without overlap and in time |
| OwnershipProtocol.OverlapBreaksExclusion | src/sage_memory/hub/ownership.py:207-223 | a run in which two overlapping reclaimers both become owners, with no live claim ever stale |
| OwnershipProtocol.SleeperBreaksExclusion | src/sage_memory/hub/ownership.py:159-236 | a run without overlap in which an owner that missed its heartbeats stays owner beside its successor, and then removes the successor's file |
| OwnershipProtocol.CrashWedges | src/sage_memory/hub/ownership.py:130-138 | a crash between creating and writing the file leaves an unreadable file nobody will write |
| OwnershipProtocol.WedgedForever | src/sage_memory/hub/ownership.py:145-158 | from then on no interleaving makes anybody owner |
| OwnershipProtocol.UndisturbedAcquire | src/sage_memory/hub/ownership.py:97-171 | an undisturbed acquire succeeds if and only if there is no file or the claim in it is stale |
| UndisturbedSteps.WholeAcquire | src/sage_memory/hub/ownership.py:97-223 | an undisturbed acquire leaves the file alone if it is unreadable or its claim at most a minute old, and else claims the project now |
| UndisturbedSteps.WholeHeartbeat | src/sage_memory/hub/ownership.py:299-327 | an undisturbed heartbeat refreshes the claim if the file names the process, and else changes nothing |
| UndisturbedSteps.WholeRelease | src/sage_memory/hub/ownership.py:226-236 | a release leaves no file, whoever it named |
| UndisturbedSteps.VanishedFile | src/sage_memory/hub/ownership.py:129-158 | a file that vanishes before it is read is tried again, three times in all |
| UndisturbedSteps.FirstAttempt | src/sage_memory/hub/ownership.py:112-129 | an acquire begins with its first attempt at the time it is, and reads a file that is there in the same attempt |
| UndisturbedSteps.MayStepIff | src/sage_memory/hub/ownership.py:97-327 | the clock can always go on; a process can take a step exactly when it stands in front of it, and can always crash |
| UndisturbedSteps.ThreeAttempts | src/sage_memory/hub/ownership.py:129-158 | in no run does an acquire come to a fourth attempt |
| UndisturbedSteps.StepsAreOwn | src/sage_memory/hub/ownership.py:97-327 | a step changes nobody else's phase, and only waiting changes the clock; the dead take no step |
| HubOwnership.HubProcess.Acquire | src/sage_memory/hub/ownership.py:97-171 | takes the project exactly if there is no file or a stale claim; a corrupt file is left alone |
| HubOwnership.LateRelease | src/sage_memory/hub/ownership.py:97-236 | releasing a token that was kept after a takeover lets a third process acquire at once, against a claim that is still fresh |
| HubOwnership.HubProcess.WriteHeartbeat | src/sage_memory/hub/ownership.py:299-327 | refreshes the claim exactly while the file names this process |
| HubOwnership.HubProcess.Check | src/sage_memory/hub/ownership.py:239-269 | returns a fresh claim; the cache forgets on absence or staleness, remembers foreign owners, and is left alone on an own claim |
| HubOwnership.HubProcess.IsDisabledFor | src/sage_memory/hub/ownership.py:272-296 | blocked exactly by a cached claim that is still fresh; stale entries are dropped |
| HubOwnership.HubProcess.WriteGuard | src/sage_memory/hub/ownership.py:393-395 | re-reads the file and then asks the cache |
| HubOwnership.GuardExactIff | src/sage_memory/hub/ownership.py:264-296 | the guard of a write is exact if and only if not both: the process has just read its own fresh claim, and a fresh foreign claim is still cached |
| CachedClaims.ForeignClaimBlocks | src/sage_memory/hub/ownership.py:239-296 | a fresh claim of another process refuses the write as long as it is at most a minute old, whatever is cached |
| CachedClaims.NoClaimNoBlock | src/sage_memory/hub/ownership.py:248-257 | without a readable claim, or with one more than a minute old, no write is refused |
| CachedClaims.OwnClaimLeavesCache | src/sage_memory/hub/ownership.py:258-296 | with an own fresh claim a write is refused exactly as long as a foreign claim cached before is at most a minute old |
| CachedClaims.OtherProjectsKept | src/sage_memory/hub/ownership.py:239-269 | what is cached for other projects stays |
| HubOwnership.OwnerRefused | src/sage_memory/hub/ownership.py:239-296 | a process that has just reclaimed a project is refused its own write |
| TaskQueue.Queue.Claim | src/sage_memory/worker.py:352-362 | the second step of a claim wins exactly if the row is still pending |
| TaskQueue.Queue.ClaimOne | src/sage_memory/worker.py:341-363 | the two steps undisturbed: the oldest pending row is taken, and none only if there is none |
| TaskQueue.StatementsLeave | src/sage_memory/worker.py:317-467 | each statement leaves exactly this status, these times, attempts and error; recovery after 300 seconds, pruning after 30 days |
| TaskQueue.NothingIsStuck | src/sage_memory/worker.py:317-332 | no running row is stuck, not even if its worker has crashed: time and one recovery make it pending again, with its attempts |
| TaskQueue.Queue.MaybePrune | src/sage_memory/worker.py:163-201 | prunes when a day has passed |
| TaskQueue.StepKeepsInv | src/sage_memory/worker.py:317-475 | every step of every worker keeps: a running row has a start time, a finished one an end; finished rows stay finished |
| TaskQueue.RunsKeepInv | src/sage_memory/worker.py:317-475 | so does every run |
| TaskQueue.PruneExact | src/sage_memory/worker.py:182-193 | pruning removes exactly the finished rows past the retention time |
| TaskQueue.RecoveryMissesNothing | src/sage_memory/worker.py:319-326 | the test for a start time never spares a running row |
| TaskQueue.FinishedForever | src/sage_memory/worker.py:449-467 | done and failed rows never return to pending or running |
| TaskQueue.AttemptsCountClaims | src/sage_memory/worker.py:352-358 | attempts is the number of successful claims, over every interleaving |
| TaskQueue.PendingAgainMeansRecovered | src/sage_memory/worker.py:317-332 | a claimed row is pending again only after a recovery found it stale |
| TaskQueue.OneClaimPerPendingPeriod | src/sage_memory/worker.py:341-363 | between two claims of a row it was found stale and recovered: at most one claim succeeds per pending period |
| TaskQueue.RecoverySafeIff | src/sage_memory/worker.py:317-332 | recovery keeps work exclusive if and only if no live worker is overdue |
| TaskQueue.WorkIsExclusive | src/sage_memory/worker.py:317-363 | in runs where recovery meets no overdue worker, no two workers ever work on one row |
| Migrations.Connection.PhaseA | src/sage_memory/db.py:371-373 | creates the virtual tables up to the statement at which the process dies |
| Migrations.Connection.PhaseB | src/sage_memory/db.py:375-387 | applies all statements of a file with its version, or none |
| Migrations.Connection.Migrate | src/sage_memory/db.py:339-387 | computes the run that the lemmas are about, whatever statement it dies at |
| Migrations.RestartsKeepExact | src/sage_memory/db.py:339-387 | after any crashes and restarts user_version v means exactly the phase-B statements of the files up to v, once and in order |
| Migrations.FinishedIsComplete | src/sage_memory/db.py:359-387 | a run that completes has applied every file, and no file with phase-B statements is above its version |
| Migrations.HighestReachedIff | src/sage_memory/db.py:359-387 | it ends at the version of the last file it applied, and so reaches the highest version if and only if none that it applied is higher than the last |
| Migrations.IncreasingReachesLast | src/sage_memory/db.py:359-387 | with strictly increasing versions it ends at the last file's, unless the database was past it |
| Migrations.VersionGoesBack | src/sage_memory/db.py:359-387 | two files with virtual tables only, of versions 5 and 3, leave version 3 |
| Migrations.CrashAfter | src/sage_memory/db.py:375-384 | a crash can follow any COMMIT |
| Migrations.RobustIff | src/sage_memory/db.py:359-364 | crashes and restarts are harmless if and only if file names sort in the order of their versions, from 1 on and without repeats among files with statements |
| Migrations.RunKeepsTablesFirst | src/sage_memory/db.py:371-387 | the virtual tables of a file exist whenever its other statements have been applied |
| SqlMask.EndOfString | src/sage_memory/db.py:271-286 | skips a string with doubled quotes up to its end or the end of the text |
| SqlMask.Mask | src/sage_memory/db.py:241-289 | the masker agrees with a lexer that classifies every character, at every index; code stays in place, the length is kept |
| SqlMask.MaskedHasNoTokens | src/sage_memory/db.py:241-289 | the result has no quote, no -- and no /* |
| SqlMask.MaskedFixpoint | src/sage_memory/db.py:241-289 | a text is left alone if and only if it has none of them |
| SqlMask.MaskedIdempotent | src/sage_memory/db.py:241-289 | masking twice is masking once |
| SqlTokens.CodeStays | src/sage_memory/db.py:241-289 | a character that opens no string and no comment stays, and the rest is masked on its own |
| SqlTokens.LineCommentBlanked | src/sage_memory/db.py:253-260 | a line comment is blanked up to its newline, which stays |
| SqlTokens.BlockCommentBlanked | src/sage_memory/db.py:261-270 | a block comment is blanked with its marks, up to the first end mark |
| SqlTokens.OpenBlockBlanked | src/sage_memory/db.py:261-270 | one that does not end is blanked to the end of the text |
| SqlTokens.StringBlanked | src/sage_memory/db.py:271-286 | a string is blanked with its quotes, doubled quotes being part of it |
| SqlTokens.OpenStringBlanked | src/sage_memory/db.py:271-286 | one that does not end is blanked to the end of the text |
| Markers.FindAnchoredFirst | src/sage_memory/install_skills/markers.py:56-63 | an anchored search stops at the first occurrence at its start or at the start of a line |
| MarkerText.PrintedAs | src/sage_memory/install_skills/markers.py:29-39 | a printed block is, character by character, begin marker, version line, body without newlines at its end, end marker |
| MarkerText.BlockIsIff | src/sage_memory/install_skills/markers.py:42-71 | a span is the block exactly if it begins with the first begin marker and ends with the first end marker behind that, both at line starts |
| MarkerText.NoBlockIff | src/sage_memory/install_skills/markers.py:65-70 | there is no block exactly if there is no begin marker, or no end marker behind the first |
| MarkerText.ReadAs | src/sage_memory/install_skills/markers.py:84-97 | read is what stands between the markers, without newlines at the start and without a version line |
| MarkerText.VersionDropped | src/sage_memory/install_skills/markers.py:96-97 | a version line at the start is dropped, whatever its version |
| MarkerText.OtherTextKept | src/sage_memory/install_skills/markers.py:96-97 | a text that starts with no version line is kept |
| MarkerText.SameBodyIff | src/sage_memory/install_skills/markers.py:100-108 | two printed blocks count as equal exactly if their bodies are, newlines at the end and versions apart |
| MarkerText.AppendedAs | src/sage_memory/install_skills/markers.py:122-127 | without a block the new one is all of an empty text, and else follows it behind one blank line |
| MarkerText.DeletedAs | src/sage_memory/install_skills/markers.py:147-159 | deleting takes the block and at most two of the newlines right behind it |
| Markers.MarkersDiffer | src/sage_memory/install_skills/markers.py:24-25 | two markers at one place are the same marker of the same name |
| Markers.RoundTripIff | src/sage_memory/install_skills/markers.py:29-97 | reading back a printed block gives the body with LF ends and one trailing newline, whatever the version, if and only if no line of the body starts with its own end marker |
| Markers.VersionBumpUnchanged | src/sage_memory/install_skills/markers.py:100-108 | a new version number alone never shows as a difference, whatever the body |
| Markers.IdempotentIff | src/sage_memory/install_skills/markers.py:111-129 | installing twice is installing once if and only if the text does not begin a block of that name without ending it, and no line of the body starts with its own end marker |
| Markers.OwnEndMarkerFails | src/sage_memory/install_skills/markers.py:29-159 | the body that is its own end marker: it is not read back, a second install changes the text, and deleting leaves a rest |
| Markers.OutsideKept | src/sage_memory/install_skills/markers.py:111-129 | all text outside the replaced span is kept; an appended block follows one blank line |
| Markers.InstallKeepsAbove | src/sage_memory/install_skills/markers.py:111-129 | blocks above the replaced one, and all blocks when one is appended, are found where they were with the same text |
| Markers.InstallKeepsBelowIff | src/sage_memory/install_skills/markers.py:111-129 | a block below keeps its text, and is found where it has moved to if and only if the new body does not begin it |
| Markers.DeleteUndoesInstallIff | src/sage_memory/install_skills/markers.py:132-159 | deleting a block that was appended restores the text up to its trailing newlines if and only if no line of the body starts with its own end marker |
| DeletedBlocks.DeleteKeepsAbove | src/sage_memory/install_skills/markers.py:132-159 | deleting a block keeps every block above it, in place |
| DeletedBlocks.DeleteKeepsBelowIff | src/sage_memory/install_skills/markers.py:132-159 | a block below keeps its text, and is found where it has moved to if and only if no begin marker of its name stood right behind the deleted end marker |
| EnclosingBlocks.DeleteKeepsAroundIff | src/sage_memory/install_skills/markers.py:132-159 | a block around the deleted one is found with its end moved along if and only if no end marker of its name stood right behind the deleted end marker |
| EnclosingBlocks.InstallKeepsAroundIff | src/sage_memory/install_skills/markers.py:111-129 | a block around the replaced one is found with its end moved along if and only if no line of the new body starts with its end marker |
| Text.CrlfToLfConcat | src/sage_memory/install_skills/markers.py:84-84 | line ends of two parts can be converted separately unless a pair is split |
| MarkerText.PairConverts | src/sage_memory/install_skills/markers.py:84-84 | a carriage return and line feed become one line feed |
| FixedSplit.FindBreakLands | src/sage_memory/chunker.py:129-150 | a cut lies in the look-back window, behind a blank if the window has one and at its end otherwise |
| CutPlaces.CutIsPreferred | src/sage_memory/chunker.py:129-150 | a cut lies behind the last blank line of the 200 characters; without one behind the last sentence end of the first of six kinds there is; else behind the last space, the last newline, or at 600 |
| CutPlaces.PiecesAreCut | src/sage_memory/chunker.py:108-126 | every piece but the last is cut at that place, and the next begins 60 characters before it |
| CutPlaces.LastPiece | src/sage_memory/chunker.py:114-118 | the first piece starts where the text does and the last, of at most 600 characters, ends where it ends |
| FixedSplit.FixedSizeSplit | src/sage_memory/chunker.py:108-126 | the loop computes the pieces that the lemmas are about |
| FixedSplit.GuardsNeverTaken | src/sage_memory/chunker.py:122-125 | the hard-cut guard and the fallback to i + 1 are never taken; each piece advances by at least 341 |
| FixedSplit.FixedRebuilds | src/sage_memory/chunker.py:108-126 | the first piece and the later ones without their first 60 characters are the text; 341 (count - 2) < n - 600 |
| FixedSplit.FixedTiles | src/sage_memory/chunker.py:108-126 | pieces are slices of at most 600 characters, starts and ends increase, no position is left out |
| Structure.FindFenceSpans | src/sage_memory/chunker.py:153-168 | fence marks are paired, each pair up to the end of the closing line |
| Structure.FencesClose | src/sage_memory/chunker.py:153-168 | a fence reaches from an opening mark to the end of the line of a later mark |
| TextDivisions.FencesAre | src/sage_memory/chunker.py:153-168 | the fences of a text are its line-start triples of backticks in order, two by two, each up to the end of the line of the second; an odd one is left over |
| TextDivisions.DividedIff | src/sage_memory/chunker.py:80-95 | the boundaries are exactly: both ends; if there is a heading of one to six hashes outside the fences, those headings; and else the ends of all stretches of white space with at least two newlines that begin outside the fences, behind the last newline |
| TextDivisions.SegmentsAre | src/sage_memory/chunker.py:97-105 | a segment is what lies between two neighbouring boundaries without white space in front and newlines behind, and nothing else is left out |
| TextDivisions.IsSpaceIff | src/sage_memory/chunker.py:50-50 | white space is these twenty-nine characters |
| Structure.StructuralSplit | src/sage_memory/chunker.py:77-105 | the loop computes the segments between the boundaries |
| Structure.DistinctSorts | src/sage_memory/chunker.py:95-95 | the boundaries are in strictly increasing order with no element lost |
| Structure.BoundaryKinds | src/sage_memory/chunker.py:80-95 | a boundary is an end of the text, a heading outside the fences, or the end of a blank-line break that starts outside them |
| Structure.NoBoundaryInFence | src/sage_memory/chunker.py:80-95 | no boundary falls strictly inside a fence, although the code looks only at where a blank-line break starts |
| Structure.HeadingDivides | src/sage_memory/chunker.py:83-88 | every heading outside the fences is a boundary |
| Structure.BlankLineDivides | src/sage_memory/chunker.py:90-95 | without such headings, every blank line outside the fences is followed by a boundary, with only white space up to it |
| Structure.SegmentsCoverText | src/sage_memory/chunker.py:97-105 | segments are slices in order and hold every character that is not white space |
| Structure.SegmentTrimmed | src/sage_memory/chunker.py:100-104 | a segment begins with a character that is not white space and does not end in a newline |
| Structure.FenceInOneSegment | src/sage_memory/chunker.py:77-105 | a fence is never divided between segments |
| Structure.SegmentOfFence | src/sage_memory/chunker.py:77-105 | every fence lies in one segment as a whole |
| Chunker.PiecesOfSegment | src/sage_memory/chunker.py:61-70 | the pieces of a segment are slices of it, in order, and cover it |
| Chunker.PieceSizes | src/sage_memory/chunker.py:65-69 | a segment is cut if and only if it has more than 1200 characters, and no piece has more |
| CutPlaces.SegmentIsCut | src/sage_memory/chunker.py:61-70 | a segment of at most 1200 characters is one piece, and a longer one is cut at the preferred places from its start to its end |
| Chunker.Suppress | src/sage_memory/chunker.py:175-187 | the merging loop computes the function the lemmas are about |
| Chunker.SuppressMerges | src/sage_memory/chunker.py:175-187 | merging keeps order and every piece: its span and its text are in some chunk; only the first chunk can be short |
| Chunker.ChunkStartsExact | src/sage_memory/chunker.py:175-187 | chunks start exactly where the first piece and the pieces of at least 120 characters start: nothing else is merged |
| Chunker.MergeJoins | src/sage_memory/chunker.py:180-184 | chunks read one below the other are the pieces read one below the other: merging puts a newline between |
| Chunker.ChunkedIff | src/sage_memory/chunker.py:50-53 | a text of at most 2000 characters is chunked only when forced, a longer one always and in the same way |
| Chunker.Split | src/sage_memory/chunker.py:42-72 | computes exactly the chunks the lemmas are about: segments as in `TextDivisions`, cuts as in `CutPlaces`, then merging |
| Chunker.ChunksLoseNothing | src/sage_memory/chunker.py:42-72 | a chunked text loses nothing: every character that is not white space stands in a chunk, in its surroundings; starts increase; each chunk but the first has at least 120 characters; only blank text gives no chunk |
| ChunkedFences.FenceWholeIff | src/sage_memory/chunker.py:61-70 | a fence stays whole in a piece if and only if it is cut between no two neighbouring pieces |
| ChunkedFences.ShortSegmentKeepsFence | src/sage_memory/chunker.py:65-67 | a fence in a segment of at most 1200 characters stays whole in a piece |
| ChunkedFences.LongFenceIsCut | src/sage_memory/chunker.py:68-69 | a fence of more than 600 characters in a longer segment is whole in no piece |
| ChunkedFences.WholeIsReadable | src/sage_memory/chunker.py:175-187 | a fence that is whole in a piece is spanned by a chunk, and its text can be read in one |
| ChunkedFences.FenceInOneChunkIff | src/sage_memory/chunker.py:61-72 | a fence lies within one chunk if and only if every cut that meets it is followed by a piece of less than 120 characters, which is merged back |
| ChunkedFences.FenceReadableIff | src/sage_memory/chunker.py:61-72 | the text of a fence can be read in a chunk if and only if a copy of it stands whole in a piece, or it comes about across the join of a merged piece |
| ChunkedFences.LoneFenceIsDivided | src/sage_memory/chunker.py:42-126 | a text that is one fence of more than 2008 characters: its text stands in no chunk |
| Normalization.NormalizeIsNormal | src/sage_memory/store.py:555-557 | the result is trimmed, has no carriage return and no two blank lines in a row |
| Normalization.NormalizeIdempotent | src/sage_memory/store.py:555-557 | normalising twice is normalising once, and exactly the normal texts are left alone |
| Normalization.NormalizeKeepsSolid | src/sage_memory/store.py:555-557 | the characters that are not white space stay, all of them and in order |
| NormalizedLines.LinesBetween | src/sage_memory/store.py:555-557 | line ends of whatever kinds between two words: one stays one, two or more become two line feeds |
| NormalizedLines.InlineStays | src/sage_memory/store.py:555-557 | anything without line ends between two words stays, blanks included |
| ChunkStore.HysteresisExact | src/sage_memory/store.py:676-713 | after an update a memory is chunked if and only if it is longer than 2000, or was chunked and has at least 1500 characters |
| ChunkStore.UpdateLeaves | src/sage_memory/store.py:278-395 | an update is accepted exactly if the memory exists, the status is one of three and no other memory has the text; it then has the status and text given or those it had, and nothing else changes |
| ChunkStore.UpdateLeavesChunks | src/sage_memory/store.py:352-395 | the chunks are looked at exactly if a text was given; above 2000 characters, or from 1500 on if there were chunks, they are the forced split, and otherwise there are none |
| ChunkStore.StoreLeaves | src/sage_memory/store.py:105-200 | a text of at least ten characters that no memory has is stored as normalised, active, with its chunks; any other leaves everything as it is |
| ChunkStore.DeleteLeaves | src/sage_memory/store.py:403-417 | the memory and its chunks are gone and nothing else is |
| ChunkStore.UpdateKeepsInv | src/sage_memory/store.py:278-395 | an update keeps the invariant, with empty content standing for no change |
| ChunkStore.StoreKeepsInv | src/sage_memory/store.py:105-200 | so does storing |
| ChunkStore.DeleteKeepsInv | src/sage_memory/store.py:403-417 | so does deleting, with its cascade |
| ChunkStore.RunsKeepInv | src/sage_memory/store.py:105-417 | over every run: chunked means at least 1500, longer than 2000 means chunked, chunks are the forced split of the content with consecutive indices, hashes are unique |
| ChunkStore.StoredOnce | src/sage_memory/store.py:146-154 | no two memories have the same content, and content read from the store is refused when stored again |
| ChunkStore.AlwaysLongIff | src/sage_memory/store.py:121-121 | over a run every memory always has at least ten characters if and only if no update is accepted that brings a text which normalises to fewer |
| ChunkStore.OneCharacterLeft | src/sage_memory/store.py:278-345 | a text that is stored and then updated to one character |
| ChunkStore.Store.StoreMemory | src/sage_memory/store.py:105-200 | too short, duplicate or stored, and the state that follows |
| ChunkStore.Store.UpdateMemory | src/sage_memory/store.py:278-395 | not found, invalid status, duplicate or updated, in this order, and the state that follows |
| ChunkStore.Store.UpdateChunks | src/sage_memory/store.py:676-713 | chunks, unchunks or chunks again in place |
| ChunkStore.Store.DeleteMemory | src/sage_memory/store.py:403-417 | the memory and its chunks are gone, nothing else changes |
| HubImport.CopiedExactly | src/sage_memory/hub/importer.py:209-274 | the destination keeps its memories and gains exactly the rows it knew neither by hash nor by id, whatever the order of the rows |
| ImportedRows.MemoriesAfter | src/sage_memory/hub/importer.py:209-274 | a memory is in the destination exactly if it was before, or is that of a source row whose id and content were both unknown |
| ImportedRows.StandsFor | src/sage_memory/hub/importer.py:215-240 | a source memory stands for the one of the same content if there is one, and else for the one of its own id |
| ImportedRows.VectorsAfter | src/sage_memory/hub/importer.py:261-272 | vectors are those of new embedded memories, and for the rest those that were there |
| ImportedRows.EdgesAfter | src/sage_memory/hub/importer.py:296-333 | an edge is in the destination exactly if it was before or is the first source edge to bring its triple: ends mapped, relation and properties copied, under its own id unless the destination has that |
| HubImport.ImportKeepsMemories | src/sage_memory/hub/importer.py:209-274 | ids and content hashes stay unique |
| HubImport.RemapLands | src/sage_memory/hub/importer.py:209-240 | every source memory is mapped into the destination, to the same content if and only if the ids do not collide |
| HubImport.ReimportAddsNoMemory | src/sage_memory/hub/importer.py:209-274 | importing again copies nothing and maps every memory as before |
| HubImport.ReimportChangesNothing | src/sage_memory/hub/importer.py:187-335 | importing again succeeds, and adds no memory, no vector and no edge |
| HubImport.EdgesExactly | src/sage_memory/hub/importer.py:277-335 | edges are kept and exactly the mapped triples are added, each once |
| HubImport.NewEdgesAreCopies | src/sage_memory/hub/importer.py:315-333 | a new edge is a source edge with its ends mapped, properties included, under its own id or, if that is taken, a new one |
| HubImport.EdgesLand | src/sage_memory/hub/importer.py:277-335 | edges end in memories of the destination |
| HubImport.MergedIff | src/sage_memory/hub/importer.py:215-240 | two source memories are mapped to one exactly when the one collides by id with the counterpart of the other |
| HubImport.SelfLoopIff | src/sage_memory/hub/importer.py:296-333 | an import brings a self-loop, which link() refuses, if and only if a source edge is one or joins two such memories |
| HubImport.MergedEndsLoop | src/sage_memory/hub/importer.py:215-333 | an edge between two memories of which one has the other's id in the destination becomes a self-loop |
| HubImport.Destination.CopyMemories | src/sage_memory/hub/importer.py:187-274 | fails exactly at a leftover vector row; otherwise memories, vectors, remap and counts are as specified |
| HubImport.Destination.CopyEdges | src/sage_memory/hub/importer.py:277-335 | edges and their count are as specified |
| HubImport.Destination.Import | src/sage_memory/hub/importer.py:150-176 | the transaction does all of it, memories, vectors and edges, or, exactly at a leftover vector row, nothing |
| Fusion.RrfFuse | src/sage_memory/search.py:58-86 | the score of an item is the sum of weight / (k + rank) over its places; a wrong number of weights is an error |
| Fusion.FuseChannels | src/sage_memory/search.py:407-430 | the five loops of a search compute the fusion of their five lists with their weights, duplicates included |
| ChannelWeights.OnePlace | src/sage_memory/search.py:58-86 | an item that stands once in a list gets weight / (k + rank) from it |
| ChannelWeights.ScoreInOneList | src/sage_memory/search.py:407-430 | an item in one list only scores 1 / (60 + rank) in a text channel, the quality but at least a half in a vector channel and 0.7 in the graph channel |
| Fusion.FusedUnique | src/sage_memory/search.py:58-86 | so they compute what the shared function computes |
| Fusion.FusedInAnyOrder | src/sage_memory/search.py:81-85 | the order of the lists does not matter |
| Fusion.EmptyListAddsNothing | src/sage_memory/search.py:418-430 | an empty list changes nothing, whatever its weight |
| Fusion.MovingUpHelps | src/sage_memory/search.py:81-85 | moving an item up in one list never lowers its score and never raises another's |
| Fusion.SwapRaises | src/sage_memory/search.py:81-85 | trading places with the item in front raises a score strictly when the weight is positive |
| Fusion.Normalise | src/sage_memory/search.py:435-445 | relevance lies between 0 and 1 and orders exactly as the scores do |
| BlendedScores.RelevanceIs | src/sage_memory/search.py:432-441 | relevance is the place between lowest and highest score in proportion; 0 if all are the same |
| SearchResults.SortDescSorts | src/sage_memory/search.py:458-458 | the sort rearranges, descends, and keeps ties in order |
| SearchResults.StableSortUnique | src/sage_memory/search.py:458-458 | there is only one such arrangement |
| SearchResults.BlendBetween | src/sage_memory/search.py:717-747 | a blended score lies between the fused and the rerank score |
| BlendedScores.BlendIs | src/sage_memory/search.py:690-747 | places 1 to 3, 4 to 10 and the rest mix the two scores by their weight; without a rerank score nothing changes |
| BlendedScores.CoverageIs | src/sage_memory/search.py:667-681 | coverage is the share of the head that got a score |
| BlendedScores.RerankIs | src/sage_memory/search.py:646-709 | too little coverage leaves the candidates as they are; else the head becomes the sorted blend, ties in order, and the rest stays |
| SearchResults.ApplyRerankBlend | src/sage_memory/search.py:646-709 | below the coverage the candidates are returned unchanged, else the head is blended by original position and sorted |
| SearchResults.RerankRearranges | src/sage_memory/search.py:646-709 | reranking only rearranges the head; the tail stays put |
| SearchResults.Deduplicate | src/sage_memory/search.py:471-494 | the loop keeps the first candidate of each hash up to the limit |
| SearchResults.FirstOfEachExact | src/sage_memory/search.py:471-494 | no hash twice, each result the first of its hash, none missing below the limit; a limit below one still gives one result |
| BlendedScores.ResultsInOrder | src/sage_memory/search.py:471-494 | the results stand in the order of the candidates |
| SearchResults.ResultsAreBest | src/sage_memory/search.py:458-494 | of candidates sorted by score, each result is the best of its hash |
| RerankedResults.SortPlaces | src/sage_memory/search.py:458-458 | the stable sort puts every candidate where its score, and its place among equals, says |
| RerankedResults.ResultsAreShown | src/sage_memory/search.py:471-494 | a candidate is a result if and only if its hash is new and fewer hashes than the limit come before it |
| RerankedResults.RerankedBestIff | src/sage_memory/search.py:458-494 | after a rerank all results are the best of their hashes if and only if the coverage was too low for it, or no candidate behind the head scores more than the blended score of the one in the head that becomes the result of its hash |
| RerankedResults.RoomyBestIff | src/sage_memory/search.py:458-494 | with a limit of at least the head: if and only if no candidate behind the head scores more than all blended scores of its hash in it |
| RerankedResults.OvertakenAfterRerank | src/sage_memory/search.py:646-747 | for a head of any length: the first and the candidate behind the head have one hash, the rerank gives the head 0, and the first stays the result with the lower score |
| EntityDedup.LastKeptExact | src/sage_memory/dedup.py:98-127 | the final link of a candidate goes to the last earlier one that was confirmed |
| EntityDedup.EntityTable.RunGroup | src/sage_memory/dedup.py:92-131 | all pairs of a type, or up to the pair at which the judge fails, with the links made so far |
| EntityDedup.EntityTable.RunPass | src/sage_memory/dedup.py:47-141 | a pass links every candidate as specified and counts as specified; the counts are bounded by each other and by the number of pairs; names stay and a forest stays a forest even when the judge fails |
| EntityDedup.PassBounded | src/sage_memory/dedup.py:82-141 | merged <= confirmed <= considered <= the sum of n (n - 1) / 2 over the types |
| DedupPairs.CountsAre | src/sage_memory/dedup.py:82-141 | considered is the number of pairs of one type with close names; confirmed all of these if nobody is asked, and else those called the same; merged none, and else the same |
| DedupPairs.PairsCounted | src/sage_memory/dedup.py:92-97 | the number of pairs that bounds the counts is that of the pairs of candidates of one type |
| DedupPairs.LessIff | src/sage_memory/dedup.py:137-144 | the order of names is that of the first difference, a prefix coming first |
| EntityDedup.AtKeepsForest | src/sage_memory/dedup.py:98-131 | wherever a pass stands, links join entities of one type and lead to earlier names |
| EntityDedup.ForestOverRuns | src/sage_memory/dedup.py:47-194 | over every run of passes, cut short or not, new entities and new mentions: so every chain ends at a root |
| EntityDedup.CanonicalIsRootIff | src/sage_memory/graph_channel.py:294-326 | readers follow one link: they get the root if and only if the linked entity is not linked itself |
| EntityDedup.LinkAfterPass | src/sage_memory/dedup.py:82-127 | after a pass a candidate is linked exactly to the last earlier one that was confirmed to be it; all other entities keep their links |
| DedupPairs.LinkIs | src/sage_memory/dedup.py:98-127 | a candidate is linked to the one with the latest name before it that the judge was asked about and called the same |
| EntityDedup.ReadsRootIff | src/sage_memory/dedup.py:82-194 | after a pass readers get the root of any entity, linked in this pass or before, if and only if the one it is linked to was not linked before and nothing was confirmed for it |
| EntityDedup.ChainByOnePass | src/sage_memory/dedup.py:82-141 | three entities mentioned twice, neighbours confirmed: a pass leaves a chain of two links |
| EntityDedup.ChainByTwoPasses | src/sage_memory/dedup.py:82-194 | the same chain from two passes, the first of them before the earliest entity is a candidate |
| EntityDedup.ChainMisread | src/sage_memory/graph_channel.py:294-326 | in that chain readers do not get the root |
| CodeIndex.BuildDefinitions | src/sage_memory/codebase/_resolve.py:448-485 | the table is built row by row as specified |
| TableEntries.DefinitionsHave | src/sage_memory/codebase/_resolve.py:453-458 | the table gives a name of a file the symbol of its last row, and no other names |
| TableEntries.ModuleIs | src/sage_memory/codebase/_resolve.py:488-505 | dirs/name.py is the module dirs.name and dirs/__init__.py the module dirs, if there are any |
| TableEntries.OnlyPython | src/sage_memory/codebase/_resolve.py:494-496 | no other file name is that of a module |
| TableEntries.ModulesExact | src/sage_memory/codebase/_resolve.py:477-483 | a module path leads to the last scanned file that is that module |
| SpecifierPaths.PartsJoined | src/sage_memory/codebase/_resolve.py:699-700 | the components of a specifier are those of its parts between slashes |
| SpecifierPaths.OnePart | src/sage_memory/codebase/_resolve.py:699-700 | a part is one component, or none if it is empty or a single dot |
| SpecifierPaths.TwelveTried | src/sage_memory/codebase/_resolve.py:704-711 | the file of a module is the first of twelve candidates: for each of six extensions in order the file itself and then its index file |
| SpecifierPaths.OthersAre | src/sage_memory/codebase/_resolve.py:625-630 | the siblings of a file are the files of its directory in their order, without it |
| CodeIndex.SiblingsExact | src/sage_memory/codebase/_resolve.py:604-633 | the precomputed maps give the siblings that a search through all scanned files gives |
| CodeIndex.ResolveSound | src/sage_memory/codebase/_resolve.py:517-820 | no resolver invents a link: what is found is defined under a name that the target can stand for |
| CodeIndex.PackageExact | src/sage_memory/codebase/_resolve.py:722-757 | Go and Java: resolved if and only if the file, or for a call another file of its directory, defines the name |
| CodeIndex.PythonImportExact | src/sage_memory/codebase/_resolve.py:537-551 | an import of a.b.c is the symbol c of the file that is the module a.b, or nothing |
| CodeIndex.PythonSelfExact | src/sage_memory/codebase/_resolve.py:553-568 | a call of self.leaf is the leaf of the enclosing class, unless the file defines the very name called |
| CodeIndex.TsFileExact | src/sage_memory/codebase/_resolve.py:704-711 | a base path stands for a file if and only if it does with some extension, or an index file in it does |
| ResolvedNames.OwnNameFirst | src/sage_memory/codebase/_resolve.py:592-601 | in every language but Python a name of the file itself is that symbol |
| ResolvedNames.PythonOwnName | src/sage_memory/codebase/_resolve.py:517-568 | in Python so are calls without a leading dot; what is neither import nor call is not resolved |
| ResolvedNames.OwnNameOnly | src/sage_memory/codebase/_resolve.py:641-655 | Ruby, PHP, C and C++ know nothing else |
| ResolvedNames.PythonImports | src/sage_memory/codebase/_resolve.py:537-551 | an import of mod.leaf is leaf in the file that is the module mod |
| ResolvedNames.PythonSelfCalls | src/sage_memory/codebase/_resolve.py:553-589 | a call of self.leaf in a method of a class is that class's leaf |
| ResolvedNames.ImportResolves | src/sage_memory/codebase/_resolve.py:661-711 | a TypeScript or JavaScript import whose file is found, by the condition of `MeantFileIff`, resolves to exactly what that file defines under the name |
| ResolvedNames.NothingElseInTs | src/sage_memory/codebase/_resolve.py:661-687 | calls, and imports of packages, resolve to no other file |
| ResolvedNames.BesideImportResolves | src/sage_memory/codebase/_resolve.py:661-711 | dir/a.ts importing f from ./b, where dir/b.ts defines it: resolved to that f |
| ResolvedNames.PackageCalls | src/sage_memory/codebase/_resolve.py:722-757 | a Go or Java call is the first symbol of that name in the other files of the directory; nothing but calls is |
| ResolvedNames.PythonNoClass | src/sage_memory/codebase/_resolve.py:571-582 | a source outside every class, or in one without a name, has no self: such a call is not resolved |
| ResolvedNames.RustPaths | src/sage_memory/codebase/_resolve.py:762-808 | a Rust path a::b::leaf is the file's own a.b.leaf or, for calls, leaf in a/b.rs beside the file, or else in a/b/mod.rs |
| ResolvedNames.RustFromNowhere | src/sage_memory/codebase/_resolve.py:786-806 | a path that begins with colons and has more of them leads to no other file |
| ResolvedNames.RustFromHere | src/sage_memory/codebase/_resolve.py:786-806 | one that has no others leads to mod.rs beside the file, or to a file named .rs |
| CodeIndex.ResolveIgnoresAnchors | src/sage_memory/codebase/_resolve.py:517-820 | no resolver of any language reaches a file's anchor, unless a target is named like one |
| CodeIndex.TsModuleIff | src/sage_memory/codebase/_resolve.py:685-711 | a relative specifier stands for a file exactly if a candidate of the joined path, dots and all, is one; with a component of two dots none is |
| CodeIndex.ParentImportsUnresolved | src/sage_memory/codebase/_resolve.py:661-711 | an import whose specifier has a component with two dots, at its start or behind, never resolves to another file |
| CodeIndex.MeantFileIff | src/sage_memory/codebase/_resolve.py:661-711 | an import finds the file it means, that of the very path before those with an extension and the index files, if and only if there is none, or the specifier begins with ./ or ../, has no component with two dots, does not lead to the root of the project, and does not give the very path of a file |
| CodeIndex.ParentImportFails | src/sage_memory/codebase/_resolve.py:661-711 | such as src/a/x.ts importing from ../b: not resolved, although src/b.ts defines the name |
| CodeIndex.ExactImportFails | src/sage_memory/codebase/_resolve.py:661-711 | such as src/a.js importing from ./b.js: not resolved, although src/b.js defines the name |
| CodeIndex.DirectoryImportFails | src/sage_memory/codebase/_resolve.py:661-711 | such as src/a.ts importing from its own directory by a dot: not resolved, although src/index.ts defines the name |
| CodeIndex.RootImportFails | src/sage_memory/codebase/_resolve.py:661-711 | such as a.ts in the root importing from ./: not resolved, although index.ts defines the name |
| CodeIndex.RootFromBelowFails | src/sage_memory/codebase/_resolve.py:661-711 | such as test/a.ts importing from ..: not resolved, although index.ts in the root defines the name |
| CodeResolve.KeyDetermines | src/sage_memory/codebase/_resolve.py:300-345 | a relation row comes from one extracted relation only |
| CodeResolve.InsertAllExact | src/sage_memory/codebase/_resolve.py:226-284 | the rows are the old ones and one for each relation with a source, linked as the definitions table of the start says |
| RelationRows.InsertedRow | src/sage_memory/codebase/_resolve.py:226-284 | a relation starts at the symbol of its file it names, or an import that names none at the file's anchor; a new row is linked as the rules of the file's language say, one that was there stays |
| RelationRows.NoOtherRows | src/sage_memory/codebase/_resolve.py:226-284 | every row that was not there comes from such a relation |
| RelationRows.AnchorIs | src/sage_memory/codebase/_resolve.py:409-445 | a new anchor is a symbol of its file under the name <module> |
| CodeResolve.OrderIrrelevant | src/sage_memory/codebase/_resolve.py:176-284 | the order of files and relations does not matter |
| CodeResolve.ColdScan | src/sage_memory/codebase/_resolve.py:163-401 | on a first scan the incremental pass writes the rows of the full pass |
| CodeResolve.SecondLookChangesNothing | src/sage_memory/codebase/_resolve.py:368-401 | a following run with nothing parsed anew changes no row |
| CodeResolve.IncrementalExact | src/sage_memory/codebase/_resolve.py:292-401 | links that were there stay, and what is still unresolved cannot be resolved |
| RelationRows.IncrementalRow | src/sage_memory/codebase/_resolve.py:292-401 | after the pass a row has the link it had or, without one, exactly what the rules find for its source's name, language and file; rows put aside are back |
| CodeResolve.Resolver.SiblingsInSameDirectory | src/sage_memory/codebase/_resolve.py:604-633 | the remembered list is always the one that would be computed |
| CodeResolve.Resolver.Lookup | src/sage_memory/codebase/_resolve.py:517-820 | computes what the rules say, which `ResolvedNames` states language by language |
| CodeResolve.Resolver.InsertFiles | src/sage_memory/codebase/_resolve.py:176-284 | the insertion loops of both passes compute the insertions the lemmas are about |
| CodeResolve.Resolver.ResolveAgain | src/sage_memory/codebase/_resolve.py:368-400 | every unresolved row is looked up again, and no other row touched |
| CodeResolve.Resolver.ResolveIncremental | src/sage_memory/codebase/_resolve.py:292-401 | the incremental pass, for whatever relations were put aside, also when it fails; `CodeRescan` says which ones a scan puts aside |
| CodeRescan.OwnerStaysIff | src/sage_memory/codebase/__init__.py:193-222 | a symbol is there after a scan if and only if it was before and its file was not scanned again |
| ScannedTables.LeftAloneIff | src/sage_memory/codebase/__init__.py:183-192 | a file is left alone exactly if it has the contents scanned last and the scan is not forced, or its symbols cannot be extracted |
| ScannedTables.FilesAfter | src/sage_memory/codebase/__init__.py:194-238 | the tables of files and scans gain the file, and the rest stays |
| ScannedTables.SymbolsAfter | src/sage_memory/codebase/__init__.py:224-232 | the symbols extracted replace those of the file |
| ScannedTables.RowsAfter | src/sage_memory/codebase/__init__.py:201-227 | relations from and to the old symbols of the file are gone, and those that led to them are put aside |
| ScannedTables.ScanAgainDoesNothing | src/sage_memory/codebase/__init__.py:183-192 | the same file scanned again, unforced, changes nothing |
| CodeRescan.PutAsideIff | src/sage_memory/codebase/__init__.py:199-222 | a resolved relation is put aside if and only if its target's file is scanned again, and its source's file not before; it stays in its table if and only if neither is |
| CodeRescan.RestoreFailsIff | src/sage_memory/codebase/_resolve.py:348-366 | the restore fails if and only if the target's file of a resolved relation was scanned again, and its source's file in the same step or later; or a relation is left over from an earlier failure and its source is gone |
| CodeRescan.FailureStays | src/sage_memory/codebase/_resolve.py:348-366 | what could not be restored makes every later scan on the connection fail |
| CodeRescan.FailureRepeats | src/sage_memory/codebase/_resolve.py:348-366 | so a scan after one that failed fails again, as long as what was put aside is there |
| CodeRescan.RescanKeepsRows | src/sage_memory/codebase/__init__.py:119-157 | all relations from files that were not scanned again are there after the pass |
| CodeRescan.CallInsideFileFails | src/sage_memory/codebase/__init__.py:199-222 | one resolved relation inside a file that is scanned again is enough for the failure |
| CodeRescan.ForcedScanFails | src/sage_memory/codebase/__init__.py:193-222 | a file in which main calls helper, scanned again by force: the restore fails |
| CodeRescan.Scanner.ScanFile | src/sage_memory/codebase/__init__.py:119-236 | scans one file as specified: skipped when unchanged, rolled back when it cannot be parsed |
| CodeRescan.Scanner.ScanFiles | src/sage_memory/codebase/__init__.py:413-447 | the loop over the files |
| CodeRescan.ScanAndResolve | src/sage_memory/codebase/__init__.py:413-475 | a scan fails exactly under that condition, and then keeps what was inserted before the restore and what was put aside; otherwise it leaves the rows of the incremental pass and nothing put aside |

## Left out

- Fields of result dictionaries that carry no logic, such as titles, messages and timings; access counters and their flushing.
- `hubs`, the degree ranking: one aggregate query.  `affected` starts from a resolved symbol here; names are resolved as in `FindPath`.
- FindPath.FindPath: the order of candidates in an ambiguous answer, because the query gives it none that matters.
- GraphProximity.GraphProximity: the lookup of seed entities from query tokens, and the choice of the curve from the settings; both are inputs.  The limit is not negative.
- GraphTraversal.GraphStore.Link: the check for a read-only session in front of it, which is `HubOwnership`.
- OwnershipProtocol.RunsAreSafe: reuse of process ids, a process that acquires while it holds, and failing file operations.  Retries of `acquire` are repeated attempts in the protocol; in `HubOwnership`, where nothing interleaves, there is none.
- TaskQueue.StepKeepsInv: threads, idle waits and the crash marker of the worker; each SQL statement is one atomic step.
- Migrations.RestartsKeepExact: statements that fail for other reasons than a crash, and `_split_statements`, which depends on SQLite's own test for a complete statement.
- SqlMask.Mask: the keyword counts for BEGIN and END that use the masked text.
- Markers.RoundTripIff: names with a colon or a newline and versions with `>` or a newline, none of which occur in the program.
- EnclosingBlocks.InstallKeepsAroundIff: blocks with a marker inside the span that is replaced or deleted, which goes with it; no other block is promised to be found then.
- ChunkStore.RunsKeepInv: memories that come from the hub import or a code scan, whose rows bypass the chunker and may carry salted hashes; titles, tags, timestamps, embeddings and queue entries; the hub guard in front of every write.
- HubImport.Destination.Import: taking and releasing ownership of the destination, and switching the active project.
- Fusion.Normalise: tag, recency and project boosts, which are added to the relevance, and rounding to six digits.
- SearchResults.ApplyRerankBlend: the call of the language model; its scores are an input by position.
- EntityDedup.EntityTable.RunPass: the cost estimate, printing, and commits; concurrent changes during a pass.
- CodeResolve.ColdScan: files that cannot be read or parsed any more between the scan and the full pass, counters of the result, and relation ids. A rescan of changed content creates a new file memory and leaves the old symbols behind, so no agreement with the full pass is claimed for it.
- CodeRescan.ScanAndResolve: taking and releasing the lock, and the counts that follow. The definitions table is any that agrees with the symbols, as `CodeIndex.BuildDefinitions` builds it from them.
- Grammars and syntax trees, the file walker, the MCP server, command lines, credentials, installation prompts and evaluation scripts: plumbing or external.
