# A verified model of Armin's graph engine

Armin turns what coding agents say and do into a graph of rules, decisions and open items, keeps that graph on disk,
and answers questions from it. This project models the parts of it whose correctness is not visible from one
function body, and proves what they keep:

- **Community detection** (`RealSums`, `Modularity`, `ModularityGain`, `ModularityBounds`, `Assignments`, `EdgeWeights`,
  `AdjacencyBuild`, `LocalMoving`, `Communities`): the local-moving loop over the in-place vectors, the closed-form
  gain, the running sums, renumbering, the modularity computed anew at the end, and its bounds.
- **The store on disk and in memory** (`GraphTypes`, `OrderKeys`, `Bm25`, `StoreSpec`, `Restarts`, `Reopening`,
  `CrashSafety`, `Backend`, `StoreIndex`, `StoreLoading`, `Store`): four trees, the in-memory graph with its id maps
  and orders, the incremental term index; what any run with reopens, and any crash, leaves.
- **Readers of the graph** (`Debt`, `ClosedItems`, `VerificationDebt`, `Traversal`, `StableSort`, `QueryScores`,
  `QueryTrace`, `ReasoningChains`).
- **Text** (`Chars`, `FenceScanner`, `FenceFacts`, `JsonText`, `JsonLayout`, `JsonGrammar`, `JsonRender`, `Payloads`,
  `Salvage`, `SalvageFacts`, `SalvageLists`, `SalvageExamples`): the payload scanner, a JSON reader proved to accept
  exactly the grammar, and the repair of JSON that was cut off.
- **State machines over runs** (`ScratchSpec`, `Scratch`, `Transcript`, `Worker`): the scratch of recent tool calls,
  the transcript reader, and the bounded queue with its batching worker.

Each program object that changes in place is a class (`DbBackend`, `GraphStore`, `ScratchStore`, `Engine`) or an
algorithm over arrays; every method is proved against a mathematical account of the same state (assignments and
sums over a weight function, a graph of maps, a disk of maps, the history of records, the run of steps), and the
theorems are about that account. `dafny verify dfyconfig.toml` checks everything.

## How the program is read

- Weights, gains and timestamps are exact reals. The weights are those of the code (`RelatesTo` 1.0, `Resolves` 0.8,
  `Supersedes` 0.6, `Refutes` 0.3); the module comment at the head of `communities.rs` names others, and the code is
  followed.
- A hash map iterates in an arbitrary order. The node and edge trees are maps whose iteration order is arbitrary;
  the order tree iterates by the bytes of its keys.
- Whether a write reaches a tree is an input of each operation. The next index of the order tree wraps at 2^64 as
  the addition does (a build that traps on overflow stops instead); the theorems about runs ask for fewer than 2^64
  appends.
- The tokenizer (with lower-casing), the decoder of transcript lines, the meaning of JSON escapes and the grammar of
  JSON numbers and literals are function parameters: the theorems hold for every choice. Fresh ids are inputs.
- A decoded transcript entry says whether it is an assistant entry, and a content block whether it is a text block,
  instead of carrying the names of these kinds. The node field `label` is called `title`.
- The in-memory graph is a sequence of nodes and a sequence of arcs between positions; nothing is ever removed from
  it, as in the program.
- The worker and its callers are one state with atomic steps: offering an event, closing the queue, a receive, a
  timeout, the end of an extraction. A timeout may happen at any moment while a batch is being filled.

## Findings

- A reopen rebuilds the session list from the nodes. A registered session without a node is forgotten
  (`Reopening.ForgottenSession`), and two sessions whose first nodes come in the other order change places
  (`Reopening.ReorderedSessions`). Reopening at any moment of a run leaves the list as it is if and only if every
  registration is of a session already listed (`Reopening.SessionsKeptExactly`); the index of one session after a
  reopen is the number of sessions whose first node comes before its own (`Reopening.IndexAfterReopen`). The program
  registers the session of every event before anything else.
- A closed item can come back after a reopen, but exactly when its closing is not on disk
  (`ClosedItems.StaysClosedExactly`, over all runs with any writes lost). An invalidation is undone by the next reopen
  exactly when its write failed and the node is stored as open; repeating it with success before the reopen prevents
  that (`ClosedItems.ReopenedInvalidation`, `ClosedItems.RepeatedInvalidation`). A resolution is also undone although
  its own write succeeded when the resolver's node is not stored (`ClosedItems.ReopenedResolution`,
  `ClosedItems.LostResolver`).
- The open questions are always among the open-item debts; they are the same exactly when the insertion order names
  every open item (`Debt.QuestionsMatchDebt`). A lost order entry breaks it (`ClosedItems.LostOrderEntry`); no
  crash-free run does (`Debt.QuestionsMatchDebtInRuns`).
- A batch limit of one makes batches of two, because the limit is looked at after the second event only
  (`Worker.BatchOfTwo`); batches stay within the configured limit if and only if it is at least two
  (`Worker.LimitKeptExactly`).
- A walk of a reasoning chain stops at the first usable edge when that edge leads to an id without a node, although a
  later edge would lead on. The walks are maximal in every subgraph if and only if all ids of the trace are known, or
  at most one is (`ReasoningChains.MaximalExactly`). The program builds the map of nodes from the subgraph the trace
  was found in, so there they are.
- Stripping fences returns the whole text, prose included, when what stands before the structure is only blanks or a
  removed fence and the whole happens to begin and end like an object or array: two objects in a row are returned
  together (`FenceFacts.TwoObjectsKept`); `FenceFacts.RecoveredExactly` says exactly when. An unpaired quote in the
  prose hides the structure (`FenceFacts.UnpairedQuoteHides`).
- Salvage fails exactly when none of the last 50 closing braces lies outside strings
  (`SalvageFacts.SalvageSucceedsExactly`): 50 braces inside one string hide everything complete before it
  (`SalvageExamples.NothingSalvaged`).
- The extraction result has no default for a missing list, so a salvaged value that does not name both lists is
  refused when it is converted. For a payload with both lists that is every cut at which no more objects were complete
  than the first list has (`SalvageLists.NamesBothExactly`); each payload with a non-empty first list has such a cut
  (`SalvageLists.CutInFirstList`).
- Whether a failed verification is reported can depend on the order in which a map is visited
  (`VerificationDebt.OrderMatters`). Every order reports every failing check if and only if no check that has been
  repaired shares its event id with a failing one (`VerificationDebt.ReportsAllExactly`).

## Model

| member | source | states |
|---|---|---|
| EdgeWeights.WeightsFormNetwork | armin-core/graph/src/communities.rs:39-51 | the summed edge weights are symmetric, non-negative and without self-loops, for any multigraph |
| EdgeWeights.WeightsByType | armin-core/graph/src/types.rs:64-71 | the weight between two nodes is 1.0 for each RelatesTo edge between them in either direction, 0.8 for each Resolves, 0.6 for each Supersedes and 0.3 for each Refutes |
| AdjacencyBuild.BuildAdjacency | armin-core/graph/src/communities.rs:36-61 | each row lists every node joined by an edge once, with the sum over all parallel edges in both directions, self-loops ignored |
| AdjacencyBuild.Merge | armin-core/graph/src/communities.rs:53-61 | summing duplicates through a map gives the total weight per neighbour, in any map order |
| AdjacencyBuild.Degrees | armin-core/graph/src/communities.rs:63-64 | the degrees are the row sums of the weights and m is half of the sum over all ordered pairs |
| ModularityGain.GainIsExact | armin-core/graph/src/communities.rs:111-119 | the closed-form gain is exactly the difference of the modularities after and before the move, also when there are no edges |
| Modularity.RelatedMove | armin-core/graph/src/communities.rs:114-116 | how the sum of a symmetric kernel over same-community pairs changes when one node changes its community |
| Modularity.DegreeSumMove | armin-core/graph/src/communities.rs:134-135 | a move takes the node's degree from one community's degree sum to the other's and leaves all others |
| Modularity.InsideMove | armin-core/graph/src/communities.rs:132-133 | a move changes inside weights by the node's links to the two communities and nothing else |
| LocalMoving.CommunityWeights | armin-core/graph/src/communities.rs:95-101 | the map holds, for exactly the communities of neighbours, the total weight between node and community |
| LocalMoving.BestCommunity | armin-core/graph/src/communities.rs:103-125 | in any map order the choice has the greatest positive true gain, or is the node's own community when no gain is positive |
| LocalMoving.VisitNode | armin-core/graph/src/communities.rs:91-138 | a visit keeps the running sums true; it moves the node to a neighbour's community with strictly greater modularity, the best such, or proves the node settled |
| LocalMoving.ApplyMove | armin-core/graph/src/communities.rs:132-137 | the in-place updates: the assignment at one place, both sums at two |
| LocalMoving.TrackedMove | armin-core/graph/src/communities.rs:130-137 | the updated sums are again the degree sum and once-counted inside weight of every community |
| LocalMoving.BestIsBest | armin-core/graph/src/communities.rs:106-125 | the chosen move changes modularity by exactly the recorded gain, and no move into a neighbour's community does better |
| LocalMoving.Sweep | armin-core/graph/src/communities.rs:88-139 | one sweep is a full pass: every node is visited once, in index order, and either is settled where it is or makes the best strictly better move into a neighbour's community; the history grows by exactly the changes of the pass; a pass without change leaves every node settled |
| LocalMoving.LocalMove | armin-core/graph/src/communities.rs:82-140 | the whole loop is one to 100 full passes, each from where the one before ended, and the history is made of all their changes; every pass but the last changes something, and the last changes nothing or is the hundredth; each assignment has strictly greater modularity than the one before and connected communities; ending without improvement leaves every node settled |
| Assignments.NeverRevisits | armin-core/graph/src/communities.rs:87-140 | a run of strictly growing modularity never repeats an assignment, so it has at most n^n of them even without the cap |
| EdgeWeights.MoveKeepsCohesive | armin-core/graph/src/communities.rs:97-137 | moving a node into a neighbour's community keeps every community inside one connected component |
| Communities.Renumber | armin-core/graph/src/communities.rs:142-155 | labels 0..k-1, all used, equal exactly where the old ones were, numbered by first occurrence |
| ModularityBounds.RenumberedModularity | armin-core/graph/src/communities.rs:142-174 | modularity depends on which nodes share a label only |
| Communities.InsideWeights | armin-core/graph/src/communities.rs:159-168 | the loop over rows with i < j counts every inside edge once |
| Communities.DegreeSums | armin-core/graph/src/communities.rs:160-163 | the array holds each community's degree sum |
| ModularityBounds.ReportedIsModularity | armin-core/graph/src/communities.rs:170-174 | the sum over communities equals modularity as a sum over all ordered pairs of nodes |
| Communities.FinalModularity | armin-core/graph/src/communities.rs:157-174 | the value computed from scratch is the modularity of the labels |
| ModularityBounds.UpperBound | armin-core/graph/src/communities.rs:157-174 | at most 1 - 1/k for k communities, when there is an edge |
| ModularityBounds.LowerBound | armin-core/graph/src/communities.rs:157-174 | at least -1/2, when there is an edge |
| Communities.NodeLists | armin-core/graph/src/communities.rs:176-181 | each list holds the ids with its label in node order, and together they are all ids |
| Communities.MembersAt | armin-core/graph/src/communities.rs:176-181 | a node stands in its list behind exactly the earlier nodes with its label |
| Communities.DetectCommunities | armin-core/graph/src/communities.rs:30-222 | the report: connected communities, none empty, partitioning the nodes; the reported value is their true modularity, not below the singletons', within the bounds; reached from singletons by one to 100 full passes; settled unless the hundredth pass still changed something, which needs n^n > 100 |
| OrderKeys.BigEndianRoundTrip | armin-core/graph/src/persistence.rs:117-125 | an index is recovered from its big-endian key |
| OrderKeys.KeysSortAsNumbers | armin-core/graph/src/persistence.rs:124-127 | keys of one length compare by bytes exactly as their numbers do |
| OrderKeys.NextIndexIsAfter | armin-core/graph/src/persistence.rs:110-122 | below the limit, the key of the next index sorts after all keys present |
| OrderKeys.AppendedFacts | armin-core/graph/src/persistence.rs:110-128 | appending puts the id at the end of the listing, and keeps the keys below the raised bound |
| OrderKeys.EnumeratedFacts | armin-core/graph/src/persistence.rs:97-103 | the migrated list is listed back in its order |
| Backend.DbBackend.StoreNode | armin-core/graph/src/persistence.rs:130-134 | the node tree gains or replaces this node and no other tree changes; nothing changes when the write fails |
| Backend.DbBackend.StoreEdge | armin-core/graph/src/persistence.rs:136-140 | the same for an edge |
| Backend.DbBackend.AppendNodeOrder | armin-core/graph/src/persistence.rs:110-122 | one entry under the index after the last key, or an error on a malformed last key |
| Backend.DbBackend.LoadAllNodes | armin-core/graph/src/persistence.rs:55-63 | every stored node once, in some order |
| Backend.DbBackend.LoadAllEdges | armin-core/graph/src/persistence.rs:65-73 | every stored edge once, in some order |
| Backend.DbBackend.LoadNodeOrder | armin-core/graph/src/persistence.rs:79-105 | the ids in key order, or the old list, which is moved into the tree |
| Bm25.IndexDocument | armin-core/graph/src/store.rs:57-68 | indexing a new document keeps the index equal to a rescan of all documents: token multisets, document frequencies, total length |
| Bm25.RescanAdd | armin-core/graph/src/store.rs:57-68 | why: one more document adds one to the frequency of exactly its terms |
| Bm25.RescanUnique | armin-core/graph/src/store.rs:155-158 | documents determine the index, so the order of indexing does not matter |
| StoreLoading.BuildNodes | armin-core/graph/src/store.rs:104-107 | graph and id map show exactly the loaded nodes |
| StoreLoading.BuildEdges | armin-core/graph/src/store.rs:109-126 | exactly the edges with both ends loaded are kept |
| StoreLoading.IndexNodes | armin-core/graph/src/store.rs:155-158 | the rebuilt index is the rescan of the loaded nodes, whatever their order |
| StoreLoading.CollectSessions | armin-core/graph/src/store.rs:133-143 | the sessions of the ordered nodes by first occurrence |
| StoreLoading.LoadStore | armin-core/graph/src/store.rs:91-164 | loading gives exactly the state the specification opens from the disk, for every content of the trees |
| StoreSpec.FirstOccurrencesExact | armin-core/graph/src/store.rs:135-143 | the session list has no repeats, holds exactly the sessions, in order of first occurrence |
| StoreSpec.LoadIsSound | armin-core/graph/src/store.rs:99-131 | a loaded graph has no dangling edge, all stored nodes, and an order naming existing nodes only |
| Store.GraphStore.NewPersistent | armin-core/graph/src/store.rs:91-164 | the opened store is valid and is what the disk specifies |
| Store.GraphStore.AddNode | armin-core/graph/src/store.rs:166-198 | memory, orders, index and disk after adding, for either write failing; an existing id changes nothing |
| Store.GraphStore.AddEdge | armin-core/graph/src/store.rs:200-227 | refused exactly when an end is missing; an existing id changes nothing; otherwise graph and disk gain the edge |
| Store.GraphStore.InvalidateNode | armin-core/graph/src/store.rs:229-246 | the node's status changes and nothing else, in memory and, if the write succeeds, on disk; missing ids are errors |
| Store.GraphStore.ResolveQuestion | armin-core/graph/src/store.rs:248-282 | refused exactly when a node is missing; otherwise the Resolves edge from resolver to question is added |
| Store.GraphStore.RegisterSession | armin-core/graph/src/store.rs:284-308 | the first index of the session, appended when new |
| Restarts.EmptyIsSynced | armin-core/graph/src/store.rs:91-164 | opening an empty disk gives an empty graph in agreement with it, from which runs can start |
| Restarts.StepSynced | armin-core/graph/src/store.rs:166-282 | an operation with successful writes leaves memory and disk in agreement, and acts on the graph as the pure graph step |
| Restarts.RestartsAreInvisible | armin-core/graph/src/store.rs:91-308 | after any run with any number of reopens the nodes with their status, the edges and the node order are those of the run without reopens |
| Reopening.ReopenedRun | armin-core/graph/src/store.rs:91-164 | after any such run and one more reopen: graph, sessions and disk, and a store showing the state before has the same keyword index as one showing the state after |
| Reopening.SameIndex | armin-core/graph/src/store.rs:155-158 | two stores that show the same nodes have the same keyword index |
| Reopening.IndicesStay | armin-core/graph/src/store.rs:284-308 | without a reopen the session list only grows, so no index changes |
| Reopening.StepKeepsSessions | armin-core/graph/src/store.rs:133-143 | one operation keeps the list in step with the nodes unless it registers a session that is not listed |
| Reopening.SessionsKeptExactly | armin-core/graph/src/store.rs:133-143 | a reopen at any moment of a run leaves the session list as it is if and only if every registration is of a listed session |
| Reopening.IndexAfterReopen | armin-core/graph/src/store.rs:133-143 | a session's index after a reopen is the number of sessions whose first node comes before its own; without a node it has none |
| Reopening.ForgottenSession | armin-core/graph/src/store.rs:133-143 | a run whose only session is gone after a reopen |
| Reopening.ReorderedSessions | armin-core/graph/src/store.rs:133-143 | a run after which two sessions have changed places |
| CrashSafety.SurvivorsInOrder | armin-core/graph/src/persistence.rs:110-128 | whichever writes survive, surviving order entries list in the order they were written |
| CrashSafety.RunInOrder | armin-core/graph/src/persistence.rs:110-128 | over every run with reopens and failing writes, each append uses a key after all keys on disk |
| CrashSafety.CrashSafe | armin-core/graph/src/store.rs:104-158 | reopening after any loss of writes from any run, reopens included and later writes kept without earlier ones: no dangling edge, all surviving nodes, exactly the surviving edges between them, and exactly the surviving order entries that name them, in the order written; runs and crashes can go on from that disk |
| CrashSafety.MigrationKeepsOrder | armin-core/graph/src/persistence.rs:90-104 | migrating the old order list changes neither the order nor the graph loaded, now or later |
| Debt.OpenQuestions | armin-core/graph/src/store.rs:444-469 | the newest open items of the order, up to the limit, with their current nodes |
| Debt.NewestOpenAt | armin-core/graph/src/store.rs:447-466 | these are the entries at exactly the positions of open items in the order, the last position first |
| Debt.OpenItemDebts | armin-core/graph/src/debt.rs:39-67 | one item for exactly the open items, each once, in node order, rated by the age of its session |
| Debt.QuestionsMatchDebt | armin-core/graph/src/debt.rs:39-67 | what the two readers return: every question is about a debt item, and they are about the same items if and only if the order names every open item |
| Debt.QuestionsMatchDebtInRuns | armin-core/graph/src/debt.rs:39-67 | in every state of every run with successful writes and reopens, the items of the two readers are the same, each once |
| ClosedItems.OpenAfterReopen | armin-core/graph/src/store.rs:104-126 | in every state, a node is open after a reopen if and only if it is stored as an active open item and no stored edge with a stored source resolves it |
| ClosedItems.ClosedForever | armin-core/graph/src/store.rs:91-282 | an item whose closing is on disk is never open again, over any run with any writes lost and any reopens, re-adding its id included |
| ClosedItems.StaysClosedExactly | armin-core/graph/src/store.rs:91-282 | a closed item stays closed over every run if and only if its closing is on disk; otherwise some run opens it |
| ClosedItems.RunKeyed | armin-core/graph/src/store.rs:166-246 | over every run, nodes and edges stay under their own ids in memory and on disk |
| ClosedItems.SyncedIsShut | armin-core/graph/src/store.rs:166-282 | after a run with successful writes every closing is on disk |
| ClosedItems.ReopenedInvalidation | armin-core/graph/src/store.rs:229-246 | an invalidated item is open after the next reopen if and only if the write failed and the node is stored as open; a written one never is |
| ClosedItems.ReopenedResolution | armin-core/graph/src/store.rs:248-282 | a resolved question is open after the next reopen if and only if it is stored as open and the edge's write failed or the resolver is not stored |
| ClosedItems.RepeatedInvalidation | armin-core/graph/src/store.rs:229-246 | a lost invalidation that is repeated with success before the reopen is kept |
| ClosedItems.LostResolver | armin-core/graph/src/store.rs:109-126 | a run in which the resolver's node is lost and the resolved question is open again although the edge is stored |
| ClosedItems.LostOrderEntry | armin-core/graph/src/store.rs:128-131 | a run in which an order entry is lost, and an open item is a debt but no question |
| VerificationDebt.LatestChecks | armin-core/graph/src/debt.rs:107-119 | each covered file maps to its latest check, the first recorded among equal timestamps |
| VerificationDebt.FailedVerifications | armin-core/graph/src/debt.rs:120-148 | the ids reported are those of a visit of the latest checks in some order of the files; no id twice, only ids of failing checks |
| VerificationDebt.ReportsAllExactly | armin-core/graph/src/debt.rs:120-148 | every order reports every failing check if and only if no repaired check shares its event id with a failing one |
| VerificationDebt.OrderMatters | armin-core/graph/src/debt.rs:120-131 | two checks under one event id that are reported in one order and not in the other |
| Traversal.Search | armin-core/graph/src/store.rs:472-515 | after the layers, the visited nodes are those within the depth |
| Traversal.BallIsWithin | armin-core/graph/src/store.rs:472-515 | layer by layer is the same as: some undirected walk of at most that length leads from a seed |
| Traversal.BfsSubgraph | armin-core/graph/src/store.rs:472-515 | exactly the nodes within the depth of an existing seed and exactly the edges between them, each once |
| StableSort.SortFacts | armin-core/graph/src/store.rs:679-733 | the sorting used: ordered, the same elements, equal keys in their old order |
| QueryScores.ScoreIsPairs | armin-core/graph/src/store.rs:664-679 | the score is the number of pairs of a position in the question and one in the text with the same token |
| QueryScores.TakenAreBest | armin-core/graph/src/store.rs:681-708 | the seeds lead a ranking by descending score in which equal scores keep their order, and have positive scores |
| QueryScores.SeedsAreBest | armin-core/graph/src/store.rs:664-708 | by position and counted in such pairs: at most three, each with a match, best first; each has more matches than any node left out, or as many and an earlier position; with fewer than three, no node left out has a match |
| QueryScores.NoSeedExactly | armin-core/graph/src/store.rs:697-713 | there is no seed if and only if no token of the question occurs in the title or description of any node |
| QueryTrace.ReverseAdjacency | armin-core/graph/src/store.rs:682-695 | the map gives, for each target, exactly the subgraph edges with both ends present, in order and parallel ones included |
| QueryTrace.TraceBack | armin-core/graph/src/store.rs:723-746 | the stack loop ends although the stack holds duplicates; it appends, in depth-first order, exactly what is reached from the seed and not visited before |
| QueryTrace.TraceSeeds | armin-core/graph/src/store.rs:723-748 | exactly the nodes with a directed path to a seed, each once, in depth-first order seed by seed |
| QueryTrace.ExploreStep | armin-core/graph/src/store.rs:727-746 | why the stack of unvisited neighbours goes depth first: visiting a node and pushing them explores them before all that waits |
| QueryTrace.SupportersAt | armin-core/graph/src/store.rs:735-738 | the supporters of a node are the sources of exactly the edges into it: RelatesTo edges first, then Resolves, Refutes and Supersedes, and edges of one type in edge order |
| QueryTrace.TracedFollows | armin-core/graph/src/store.rs:723-748 | the order of the trace by a rule without recursion or stack: each node is the last supporter, of all supporters of the nodes before it in turn, that is new; when none is new, the first new seed |
| QueryTrace.QuerySubgraph | armin-core/graph/src/store.rs:654-759 | the trace of a query in both cases: the seeds are the best positions, counted in token pairs, and none exactly when no token of the question occurs in any node; with seeds exactly what leads to them, in the order of the rule, and without any the first three nodes |
| ReasoningChains.HasIncoming | armin-core/engine/src/answer.rs:133-141 | a trace node is a root exactly when no edge from the trace leads to it |
| ReasoningChains.Follow | armin-core/engine/src/answer.rs:152-187 | the walk ends on cyclic graphs; it is a simple path from the root; each link goes to the target of the edge of least number that leads from the node before to an unvisited node of the trace, and carries the first edge between the two; it stops where there is no such edge or that edge leads to an unknown node |
| ReasoningChains.ExtractReasoningChains | armin-core/engine/src/answer.rs:120-195 | one such walk for each trace entry that is a root not visited by an earlier walk, none for the others; the chains are exactly the walks of two to six nodes, each once and in order; pairwise node-disjoint |
| ReasoningChains.RootsBegin | armin-core/engine/src/answer.rs:148-191 | with a trace of known nodes, an unvisited root begins a walk of two nodes or more if and only if an edge leads from it to an unvisited node of the trace |
| ReasoningChains.MaximalExactly | armin-core/engine/src/answer.rs:173-187 | for every subgraph, no edge leads from the end of a walk on to an unvisited known node of the trace, if and only if all ids of the trace are known or at most one is |
| ScratchSpec.RecencyFacts | armin-core/engine/src/toolclass.rs:165-178 | in the recency order, exactly the sessions recorded since stand behind a session |
| ScratchSpec.OthersExactly | armin-core/engine/src/toolclass.rs:165-178 | those are the sessions with a record after the last record of the session |
| ScratchSpec.RecencyOrdered | armin-core/engine/src/toolclass.rs:165-178 | that order is by last activity |
| ScratchSpec.KeptAreLive | armin-core/engine/src/toolclass.rs:165-178 | the 16 most recent are exactly the sessions with fewer than 16 distinct others since their last record |
| ScratchSpec.HoldsStep | armin-core/engine/src/toolclass.rs:186-202 | one record takes the scratch of a history to the scratch of the longer history: survivors, their order and their rings |
| ScratchSpec.RingsExactly | armin-core/engine/src/toolclass.rs:186-202 | the rings are, in order, the last 100 edits and the last 100 checks among the records of the session at and after each of which it has stayed live |
| Scratch.ScratchStore.SessionMut | armin-core/engine/src/toolclass.rs:165-178 | the session moves to the back, the oldest beyond the limit and their rings go, all other rings stay |
| Scratch.ScratchStore.RecordEdit | armin-core/engine/src/toolclass.rs:186-193 | the scratch is again exactly that of everything recorded |
| Scratch.ScratchStore.RecordCheck | armin-core/engine/src/toolclass.rs:195-202 | the same for checks |
| Scratch.ScratchStore.Snapshot | armin-core/engine/src/toolclass.rs:205-214 | the last 100 edits and checks since the session was last admitted; nothing for an evicted one |
| FenceScanner.StripJsonFences | armin-core/extraction/src/provider.rs:131-186 | all of what is left without fences when it looks like JSON; else the structure that starts at the first opener outside strings and is the shortest that balances; else all of it |
| FenceScanner.FirstBalanced | armin-core/extraction/src/provider.rs:151-185 | the scanner finds that structure if and only if there is one |
| FenceScanner.OneStructure | armin-core/extraction/src/provider.rs:151-185 | there is at most one such structure |
| FenceFacts.FoundInProse | armin-core/extraction/src/provider.rs:151-185 | after prose that ends outside strings and opens no bracket outside them, and before anything, a balanced text is that structure |
| FenceFacts.FencesAround | armin-core/extraction/src/provider.rs:135-142 | trimming and unfencing touch only what surrounds a bracketed text; an opening fence goes only together with a closing one |
| FenceFacts.TrimExactly | armin-core/extraction/src/provider.rs:132-141 | trimming takes white space off both ends, and all of it |
| Chars.WhiteByCode | armin-core/extraction/src/provider.rs:132-141 | the white space characters by code point |
| FenceFacts.RecoveredExactly | armin-core/extraction/src/provider.rs:131-186 | a balanced text after such prose and before anything is returned if and only if some prose remains before it, or nothing after it, or the whole does not look like JSON |
| FenceFacts.RecoveredFromProse | armin-core/extraction/src/provider.rs:128-130 | so such prose, unless it is blank or begins with a fence, never hides the structure |
| FenceFacts.RecoveredFromFences | armin-core/extraction/src/provider.rs:128-142 | a structure between fences is returned |
| FenceFacts.TwoObjectsKept | armin-core/extraction/src/provider.rs:144-149 | two objects with a blank between them are returned together |
| FenceFacts.HiddenInString | armin-core/extraction/src/provider.rs:157-166 | after prose that ends inside a string the scanner finds no structure there |
| FenceFacts.UnpairedQuoteHides | armin-core/extraction/src/provider.rs:157-166 | an unpaired quote before an object: all of the text is returned |
| FenceFacts.StrippingTwice | armin-core/extraction/src/provider.rs:131-186 | stripping a result that begins with an opener and ends with a closer returns it |
| Payloads.JsonIsBalanced | armin-core/extraction/src/provider.rs:151-185 | every JSON object or array without white space around it is one balanced structure for the scanner |
| Payloads.ReadFromProse | armin-core/extraction/src/provider.rs:128-186 | so every object or array, in any layout, comes out of such prose and is read |
| Payloads.ReadFromFences | armin-core/extraction/src/provider.rs:128-142 | and out of a fenced block, with or without the language name |
| JsonText.EveryStateLeadsOn | armin-core/extraction/src/provider.rs:203-205 | in every state on the way to a document, what is read of each open array and object is a beginning of its final value |
| JsonLayout.ParseOfLayout | armin-core/extraction/src/provider.rs:203-205 | every value is read back from each of its layouts: any run of blanks, tabs, line feeds and carriage returns may stand before and after each bracket, comma, colon, name and value |
| JsonGrammar.ParsesExactly | armin-core/extraction/src/provider.rs:203-205 | a text is read as a value if and only if it is such a layout of the value: the reader accepts exactly the grammar of section 2 of RFC 8259 |
| JsonRender.CompactIsRender | armin-core/extraction/src/provider.rs:203-205 | what is written without white space is one of the layouts |
| JsonRender.ParseOfRendered | armin-core/extraction/src/provider.rs:203-205 | so every value, written as JSON text, is read back as itself, and each payload is a document the salvage results are about |
| Salvage.TryParseExtractionJson | armin-core/extraction/src/provider.rs:202-224 | the parsed text, or the closing of the last of the 50 last braces that can be closed, list closer first, or nothing when none can |
| Salvage.CandidatesAreLast | armin-core/extraction/src/provider.rs:206-213 | the candidates are exactly the last 50 closing braces |
| SalvageFacts.SalvageIsSound | armin-core/extraction/src/provider.rs:196-224 | for every cut of a document with a root object, what is recovered is a beginning of its members, the last list possibly a beginning of its list |
| SalvageFacts.SalvagedListsArePrefixes | armin-core/extraction/src/provider.rs:196-224 | so each recovered list is a prefix of the original one |
| SalvageFacts.SalvageSucceedsExactly | armin-core/extraction/src/provider.rs:206-223 | for a payload of flat objects, something is recovered from a cut if and only if one of its last 50 closing braces lies outside strings |
| SalvageFacts.NothingCompleteIsLost | armin-core/extraction/src/provider.rs:196-201 | what is recovered holds as many objects as were complete at the cut, and the root |
| SalvageLists.NamesBothExactly | armin-core/extraction/src/provider.rs:196-224 | what is salvaged from a payload with both lists names both, as the conversion asks, if and only if more objects were complete than the first list has |
| SalvageLists.CutInFirstList | armin-core/extraction/src/provider.rs:196-224 | each payload with a non-empty first list can be cut so that the salvaged value lacks the other list |
| SalvageLists.OneNodeCut | armin-core/graph/src/types.rs:133-137 | for example a payload of one node and no edge |
| SalvageLists.BuriedByBraces | armin-core/extraction/src/provider.rs:211-213 | nothing is salvaged from a payload cut after 50 closing braces inside a string |
| SalvageExamples.NothingSalvaged | armin-core/extraction/src/provider.rs:211-213 | a written document and a cut of it with a complete node from which nothing is salvaged |
| SalvageFacts.QuotesAgree | armin-core/extraction/src/provider.rs:157-166 | the fence scanner and the JSON reader agree on what lies inside strings |
| Transcript.ReadNew | armin-core/hook/src/transcript.rs:70-118 | whole lines from the cursor (from zero after a shrink, with the flag set) and exactly their texts; it stops at the cap or with no complete line left; only the last line may reach the cap; it moves whenever a complete line is unread |
| Transcript.TextsFromContent | armin-core/hook/src/transcript.rs:40-60 | the non-blank texts of the text blocks, in order |
| Transcript.LineYields | armin-core/hook/src/transcript.rs:40-112 | which texts a line yields: none unless it begins with an opening brace and is an assistant entry outside side chains with a message; then the bare text, or the texts at exactly the text blocks with a character that is not white space, in order |
| Transcript.LinesByNewlines | armin-core/hook/src/transcript.rs:86-95 | lines are complete exactly by their newlines |
| Transcript.ReadsAreChunkIndependent | armin-core/hook/src/transcript.rs:62-69 | over any growth and any caps, the texts delivered are those of the complete lines before the cursor, always a line boundary |
| Transcript.NeverResets | armin-core/hook/src/transcript.rs:73-78 | a file that only grows never makes a read start over |
| Transcript.CaughtUp | armin-core/hook/src/transcript.rs:62-69 | after a read below its cap, everything complete in the file has been delivered, however it was chunked |
| Worker.Engine.TryIngest | armin-core/engine/src/routes.rs:57-85 | one event of a request takes the engine one step on: counted, queued, dropped when full, ignored when closed |
| Worker.Engine.Ingest | armin-core/engine/src/routes.rs:49-94 | a request offers its events in order and reports its own queued and dropped counts |
| Worker.Engine.ReceiveStep | armin-core/engine/src/worker.rs:32-60 | one receive takes the engine one step on: the first event, the next one up to the limit, or the end |
| Worker.Engine.TimeoutStep | armin-core/engine/src/worker.rs:54-59 | the window closes and the batch is handed over |
| Worker.Engine.ExtractionDone | armin-core/engine/src/worker.rs:49-59 | after extraction the worker waits again, or has stopped if the queue was closed |
| Worker.EveryRun | armin-core/engine/src/worker.rs:32-60 | in every interleaving the accepted events are the batches extracted, the current batch and the queue, in order; queue and batches within their limits; a stopped worker has seen the queue closed and empty; counters equal what happened |
| Worker.CountersAddUp | armin-core/engine/src/routes.rs:54-85 | ingested = tool calls + queued + dropped + offered without a sender, and queued = extracted + pending |
| Worker.AdmittedExactly | armin-core/engine/src/routes.rs:61-84 | over every run: a prose event is queued exactly while the queue is open and has room, and dropped exactly when it is open and full |
| Worker.EveryBatchEnds | armin-core/engine/src/worker.rs:32-60 | every batch of every run was ended by one step: by the event that made it as long as configured, at least two; by a timeout; or by the news that the queue is closed and drained |
| Worker.FullBatches | armin-core/engine/src/worker.rs:42-48 | over every run without timeout and closing, every batch has exactly the configured number of events, at least two |
| Worker.ClosingMakesProgress | armin-core/engine/src/worker.rs:32-60 | after closing, a worker that has not stopped can move, and every move brings it nearer to stopping |
| Worker.DrainsAfterClose | armin-core/engine/src/worker.rs:48-52 | after closing, whatever the order of steps: a bounded number of them, and it can move no more exactly when it has stopped with everything accepted extracted |
| Worker.BatchOfTwo | armin-core/engine/src/worker.rs:40-49 | a limit of one still makes a batch of two, with any queue |
| Worker.LimitKeptExactly | armin-core/engine/src/worker.rs:40-49 | every batch of every run is within the configured limit if and only if it is at least two |

## Left out

- ModularityGain.GainIsExact: states the gain over exact reals; rounding of 64-bit floats and NaN are not modelled.
- Communities.DetectCommunities: does not give community labels, top node types, agents, session distributions or the surprising connections between communities, which are summaries of the partition.
- Bm25.IndexDocument: does not model scores, only the index that scores are computed from; the logarithm is not needed for it.
- QueryTrace.QuerySubgraph: does not give the cited event ids, the answer text or the mode.
- Debt.OpenItemDebts: does not give description strings or the total score.
- VerificationDebt.FailedVerifications: does not model the unverified-change and rule-violation items of the same function.
- Store.GraphStore.AddEdge: models edges without timestamp, score and provenance, and nodes without timestamp, confidence, commit and mention count; the operations modelled carry them along unread.
- Store.GraphStore.ResolveQuestion: does not model that another operation may come between its check and its write.
- Backend.DbBackend.LoadAllNodes: does not model entries that cannot be decoded, or errors of the tree.
- Backend.DbBackend.LoadAllEdges: does not model entries that cannot be decoded, or errors of the tree.
- Backend.DbBackend.LoadNodeOrder: does not model a write that fails during the migration.
- Restarts.RestartsAreInvisible: is about nodes, edges and order; the sessions and the keyword index are in Reopening.ReopenedRun.
- CrashSafety.MigrationKeepsOrder: does not model a crash during the migration, which is not atomic in the program.
- CrashSafety.CrashSafe: keeps any subset of the writes; it does not claim that the order names every node or names one once.
- JsonGrammar.ParsesExactly: reads any depth of nesting, where the parser stops at its limit, and keeps both members of an object that names one twice.
- JsonText.EveryStateLeadsOn: does not model the parser's nesting limit and number ranges; documents of flat objects do not reach the limit.
- SalvageFacts.SalvageSucceedsExactly: is stated for root objects whose only objects are the flat ones in the node and edge lists, which is what the extraction asks for; soundness holds for every root object.
- FenceFacts.RecoveredExactly: is stated for prose that ends outside strings and opens no bracket outside them, where the first structure is the intended one.
- Transcript.ReadNew: does not model read errors after opening, or a file that changes during one read.
- Worker.Engine.Ingest: is a request that runs without worker steps between its events; with them, the events are single steps of Worker.EveryRun.
- SalvageLists.NamesBothExactly: models of the conversion only that both names must be there, not the types of the items' fields.
- Worker.EveryRun: does not model what extraction makes of a batch, or a worker that dies.
- Locks and asynchronous execution apart from the worker's queue, HTTP, the language-model clients and process handling are not modelled.
- Brief rendering, decision status, risk scores, embedding retrieval and snapshots would add easy members only.
