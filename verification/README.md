# DongTai server: verified models of the taint engine, the flow graph and their supporting jobs

DongTai is an IAST server. Agents report the method calls of a request, each with the hashes of the
values it consumed and produced; the server decides whether tainted data reached a dangerous call. This
project models that decision and a few jobs around it in Dafny and proves what they guarantee.

* **Taint search.** A pool of calls is sorted by descending invoke id. `search` builds a weighted digraph
  from hash overlaps, takes one minimum-weight path per source and sink, drops sanitized ones, merges the
  rest per sink and reports stacks. The same engine holds a backtracking search (`loop`), a one-pass closure
  (`find_other_branch_v2`) and a consuming depth-first search (`dfs`). The first three are proved against
  paths and chains and against each other, the fourth against reachability.
* **Flow graph.** The second engine builds the forward graph, prunes containers to a fixpoint and exports
  it. The fixpoint is characterised exactly by reachability.
* **Indexing protocol.** Routers, single-save workers and batch workers share a list and two counters. They
  are a transition system over single operations; exact ledgers hold in every reachable state, and the
  states and steps that leave rows behind are characterised exactly. The tasks as the code writes them are
  runs of that system.
* **Smaller cores.** Highlighting of tainted ranges, chunked and concurrent deletion, replay-parameter
  rewriting.

## How to read it

| file | content |
|---|---|
| `Seqs.dfy` | sequence vocabulary |
| `TaintModel.dfy`, `TaintChains.dfy` | calls, the sorted pool, chains, backtracking and closure as functions |
| `ShortestPaths.dfy`, `TaintDigraph.dfy` | paths and Dijkstra; the digraph of a pool and its squared-distance weights |
| `PathMerge.dfy`, `MergeEnds.dfy`, `TargetValues.dfy` | the merge loop; what it merges and where the results end; the quoted target values |
| `VulEngine.dfy`, `TaintVerdicts.dfy` | the engine class; what its reports mean, and how its searches agree |
| `TaintRecords.dfy` | what the search keeps, detects and shows, read off the records |
| `TaintReports.dfy`, `TaintFailures.dfy` | a search from reports to verdicts; pools on which it goes wrong |
| `FlowDfs.dfy`, `FlowGraph.dfy` | the consuming search; the second engine |
| `EsBatching.dfy`, `EsTasks.dfy` | the indexing protocol and its ledgers; whole tasks, draining, a run with a deficit |
| `EsStranding.dfy`, `EsProgress.dfy` | when rows are stranded; what rules it out, and that work ends |
| `EsIndexer.dfy` | the tasks in their imperative form |
| `Highlight.dfy`, `DataClean.dfy`, `ParamRewrite.dfy` | the smaller cores |

Methods mirror the loops and field updates of the code and are proved against functions or predicates;
the lemmas prove what the code promises about those. `networkx` is replaced by a Dijkstra search proved
here; its choice among equally short paths is left open, so every result about `search` holds for any
choice. `SearchOutcome` collects what a choice may report; `VulEngine.Search` meets it for all reports,
`TaintVerdicts` says what it implies, `TaintRecords` puts it in terms of the records' own fields, and
`TaintReports.SearchAndReport` joins them.

Two conditions are named where they are needed: invoke ids of a pool are distinct, and a pool is
*order-respecting* when every edge between two calls goes from the smaller to the larger id. The code
checks neither.

## What turned out false

* Queued rows can be stranded: whatever the remaining processes do, the list stays as it is until another
  row arrives. Five tasks measure an empty list, then a sixth router pushes its row and sees five tasks
  (`EsStranding.StrandingHappens`). The stranded states (`StrandedExactlyWhen`) and the three kinds of step
  that lead into them (`StrandsExactlyWhen`) are exact. With the two tails atomic it never happens
  (`AtomicNeverStrands`). As written it takes five batch tasks that have measured an empty list at the same
  time (`EsProgress.FewIdleNeverStrand`), so with at most four workers it never happens, however routers,
  which run in the committing process, interleave with them (`FourWorkersNeverStrand`).
* The rate counter does not return to zero. `lrange 0..500` reads 501 rows while `ltrim` drops 500, so each
  such read takes one row twice and leaves the counter one too low for good. A run that ends with all work
  done and the counter at -1 is `EsTasks.LongReadLeavesDeficit`; the counter is back at zero exactly when no
  row was read twice (`EsBatching.Quiescence`), that is when no task ever read a list of more than 500 rows
  (`RepeatsExactlyWhen`). The setting is called a batch size of 500.
* Merged paths need not end in their sink. Sources 5 and 1 around a sink 3 are reported as the stack 1, 3, 5
  (`TaintFailures.StackMissesItsSink`). Every entry ends in the sink of the paths merged into it exactly when,
  wherever two kept paths of several calls share a sink, no call on them has a larger id
  (`MergeEnds.EntriesEndInSinksExactlyWhen`).
* Repeated ids can hide a source, since a path is reported through the last record of each id. The flow is
  found, but the search fails for want of a source signature (`TaintFailures.RepeatedIdHidesSource`), or
  signs the report like the one before (`RepeatedIdBorrowsSignature`). It fails exactly when the first
  merged path holds no source (`TaintVerdicts.CompletesExactlyWhen`); a merged path holds one exactly when a
  path merged into it does (`EntryHasSourceExactlyWhen`). If every id with an eligible source record ends in
  a source record, each report is signed by a source of its own (`SourcesLastSigns`); distinct ids ensure it.
* The digraph search and backtracking differ on a pool that records a sink before its source
  (`TaintFailures.UnorderedPoolSeparates`). On plain pools they agree exactly when a vulnerable flow implies
  an ascending path from a source into a sink call (`TaintVerdicts.EnginesAgreeExactlyWhen`).
* `batch_clean` does not delete exactly the keys up to the last expired one. That key stays exactly when whole
  intervals fit (`DataClean.LastKeyStays`), so a single expired record is never deleted (`SingleKeyStays`).
  Otherwise keys above it go as well, unless the intervals end right after it (`NothingAboveExactlyWhen`);
  with keys 1 and 2 expired, key 3 goes (`UnexpiredKeyDeleted`).
* A payload with an `&` adds parameters and reads back only up to it (`ParamRewrite.AmpersandAddsParameter`;
  exactly when in `CountKeptExactlyWhen` and `ReadsBackExactlyWhen`). Rewriting again replaces such a payload
  only in part: the second one wins exactly when the first holds no `&` (`RewritingAgain`).
* A highlighted range that does not start before it stops leaves its tags unbalanced when it is the only one
  (`Highlight.SingleRangeBalancedExactlyWhen`); among others it may go unnoticed (`HiddenEmptyRange`). The
  exact condition for any ranges is `BalancedExactlyWhen`.

## Model

| member | source | states |
|---|---|---|
| TaintModel.PoolIsSortedReports | dongtai_common/engine/vul_engine.py:49-64 | the pool holds exactly the reports whose targetHash is not null, each as often as reported, in descending invokeId; reports of one id keep their order; strictly descending when ids are distinct |
| TaintChains.ChainExactly | dongtai_common/engine/vul_engine.py:234-335 | a chain is a climbing list of positions, each call producing, directly or for a remote call, a hash that the one before consumes, and carrying taint: no trace id, a propagated service state, or a source |
| TaintChains.FindChainSound | dongtai_common/engine/vul_engine.py:309-335 | backtracking yields a chain of increasing positions linked by the shared match test, whose last call and no other is a source |
| TaintChains.FindChainLeast | dongtai_common/engine/vul_engine.py:309-335 | if any source chain exists backtracking finds one, and the lexicographically least |
| TaintChains.ClosureExact | dongtai_common/engine/vul_engine.py:234-251 | the one-pass closure appends exactly the positions some chain leads to |
| TaintChains.BacktrackingIsOnePass | dongtai_common/engine/vul_engine.py:234-335 | backtracking succeeds iff the one-pass closure contains a source iff a source chain exists, for every pool, start and hash set |
| TaintChains.ReportedStackIsLinked | dongtai_common/engine/vul_engine.py:319-325 | the reported stack runs from its only source to the sink, each call producing a hash the next one consumes |
| VulEngines.VulEngine.Loop | dongtai_common/engine/vul_engine.py:309-335 | success appends the one stack of the least chain and leaves the chain without its source on the link; failure leaves link and results as they were; terminates on size - index |
| VulEngines.VulEngine.FindOtherBranchV2 | dongtai_common/engine/vul_engine.py:234-251 | the link grows by exactly the calls of the closure, in order |
| VulEngines.VulEngine.Prepare | dongtai_common/engine/vul_engine.py:50-96 | for any reports: filters and sorts them into the pool and resets the last result |
| TaintDigraph.IndexTargets | dongtai_common/engine/vul_engine.py:137-145 | the hash index maps each hash to exactly the ids of the calls producing it |
| TaintDigraph.LastHost | dongtai_common/engine/vul_engine.py:160-165 | the hash of the last HOST entry, none iff there is no HOST entry |
| TaintDigraph.BuildGraph | dongtai_common/engine/vul_engine.py:157-173 | there is an edge from x to y iff some call x produces a hash that some call y wants: one of its source hashes, or, if it has source types, the hash of its last HOST entry and nothing else |
| TaintDigraph.LeastSumOfSquares | dongtai_common/engine/vul_engine.py:173-180 | a path is a shortest one iff the squares of its hops, written out and added, are least among all paths with its ends |
| ShortestPaths.ShortestPath | dongtai_common/engine/vul_engine.py:179-180 | finds a path iff one exists; it has minimum weight among all paths and repeats no call |
| ShortestPaths.FrontierBounds | dongtai_common/engine/vul_engine.py:179-180 | a path leaving the finished nodes is no lighter than some frontier entry |
| TaintDigraph.UnrefinableHop | dongtai_common/engine/vul_engine.py:173-180 | between neighbours u, v of a chosen path, in either direction, no call strictly between them has an edge from u and to v |
| TaintDigraph.AscendingWeight | dongtai_common/engine/vul_engine.py:173 | the weight of an ascending path lies between its span and the span times itself; the bounds are met exactly by unit hops and by one direct hop |
| TaintDigraph.SimplePathAscends | dongtai_common/engine/vul_engine.py:173-180 | on an order-respecting pool a path without repetition climbs strictly |
| PathMerge.MergePaths | dongtai_common/engine/vul_engine.py:196-209 | computes the merged paths exactly, for all paths; no call is lost or invented and each entry still holds a whole path; ascending paths give exactly one strictly ascending entry per sink with the union of the paths to it |
| MergeEnds.EntriesMergeGroups | dongtai_common/engine/vul_engine.py:196-209 | for all paths, each merged path is one kept path as it was or the strictly ascending union of its group of kept paths |
| MergeEnds.KeptIsGrouped | dongtai_common/engine/vul_engine.py:196-209 | every kept path is in the group of some merged path |
| MergeEnds.EntriesEndInSinksExactlyWhen | dongtai_common/engine/vul_engine.py:196-209 | every merged path of several calls ends in the sink of all paths merged into it iff, wherever two kept paths of several calls share a sink, no call on them exceeds it |
| MergeEnds.DescendingPathsMerge | dongtai_common/engine/vul_engine.py:205-207 | the paths 5, 3 and 1, 3 merge to 1, 3, 5 |
| PathMerge.MergedEndsInSink | dongtai_common/engine/vul_engine.py:205-207 | a merged path ends in the sink iff no call on either path has a larger id |
| VulEngines.FindPaths | dongtai_common/engine/vul_engine.py:140-195 | for every pool: for each pair of an eligible source record and a sink record, in product order, one shortest unsanitized path is kept, unless there is none or a sanitized one was chosen |
| TaintRecords.KeptExactly | dongtai_common/engine/vul_engine.py:146-195 | a path may be kept iff it runs along record edges from a source, other than the API pattern, to a record named by the signature, repeats no call, has the least sum of squared hops, takes part in an edge, and the last record of the id before its end has no ranges or a range that is not empty |
| TaintRecords.KeptHandsOn | dongtai_common/engine/vul_engine.py:182-194 | in every outcome the record before the end of each kept path has no list of ranges or one that is not empty |
| TaintRecords.AllSanitizedUndetected | dongtai_common/engine/vul_engine.py:176-195 | if every least path of every pair ends behind a record whose ranges are all empty, nothing is detected |
| TaintRecords.NeverSanitizedDetected | dongtai_common/engine/vul_engine.py:176-195 | if some pair has a path and none of its least paths does, something is detected |
| TaintRecords.VulnerableExactly | dongtai_common/engine/vul_engine.py:127-181 | a vulnerable flow exists iff some source, other than the API pattern, has a path along record edges to a record named by the signature |
| TaintRecords.PatternSourcesReportNothing | dongtai_common/engine/vul_engine.py:148-156 | a pool whose only sources are records of the API pattern reports nothing |
| TaintRecords.ShowsLastValue | dongtai_common/engine/vul_engine.py:219-231 | the value of a hit is that of its last call, without quotes and length in the newer format; a last call that is a source leaves the value of the hit before |
| VulEngines.MergedFromPool | dongtai_common/engine/vul_engine.py:210-219 | every merged path runs through pool calls, and holds a source if every id with an eligible source record stands for a source |
| VulEngines.VulEngine.Search | dongtai_common/engine/vul_engine.py:127-232 | for all reports: the hits are those of some choice of shortest paths, merged and reported in order through the last record of each id; it fails, reporting nothing, when the first path holds no source; the fields name the last hit |
| VulEngines.VulEngine.Results | dongtai_common/engine/vul_engine.py:407-412 | the hits of the last search one by one and unchanged, or one negative verdict when no source signature was set |
| TaintReports.SearchAndReport | dongtai_engine/tasks.py:83-118 | for all reports: the verdicts are the hits of an outcome of the search, in order and unchanged, or one negative verdict; with sources last it never fails and every hit is signed by the last source on its own stack; without target ranges something is found iff some path of record edges leads from a source to a call of the signature, and a failure means one; on order-respecting pools exactly the reached sink calls are named |
| TaintVerdicts.VerdictBounds | dongtai_common/engine/vul_engine.py:176-195 | with target ranges, for every pool: a detection needs an unsanitized flow, and a flow none of whose shortest paths is sanitized is detected |
| TaintVerdicts.VerdictExact | dongtai_common/engine/vul_engine.py:127-232 | without target ranges, for every pool, the search detects something (a hit, or a failure to sign one) iff a call of the sink signature is reachable from an eligible source |
| TaintVerdicts.CompletesExactlyWhen | dongtai_common/engine/vul_engine.py:211-231 | the search completes iff there is nothing to report or the first merged path holds a source |
| TaintVerdicts.SignedExactly | dongtai_common/engine/vul_engine.py:215-231 | each report is signed by the last source of its own path, or like the report before it when its path holds none |
| TaintVerdicts.EntryHasSourceExactlyWhen | dongtai_common/engine/vul_engine.py:145-217 | a merged path holds a source iff one of the paths merged into it does, both through the last record of each id |
| TaintVerdicts.SourcesLastSigns | dongtai_common/engine/vul_engine.py:140-231 | if every id with an eligible source record has a source as its last record, the search completes and each report is signed by the last source of its own stack |
| TaintVerdicts.StacksAreFlows | dongtai_common/engine/vul_engine.py:196-232 | on order-respecting pools each stack climbs to one sink call and each of its calls lies on a real flow from an eligible source into it |
| TaintVerdicts.OneStackPerSink | dongtai_common/engine/vul_engine.py:196-232 | on order-respecting pools no two stacks of several calls report the same sink call |
| TaintVerdicts.StacksNameEverySink | dongtai_common/engine/vul_engine.py:176-232 | on order-respecting pools without target ranges the sink calls that end a stack are exactly those with a flow from an eligible source |
| TaintVerdicts.StacksComeFromFlows | dongtai_common/engine/vul_engine.py:196-232 | on any pool each call of a stack lies on a flow into the signature |
| TaintVerdicts.BacktrackingIsAscendingReach | dongtai_common/engine/vul_engine.py:157-181 | on any plain pool backtracking succeeds iff an ascending digraph path leads in from another source |
| TaintVerdicts.BacktrackingIsReachability | dongtai_common/engine/vul_engine.py:137-181 | on order-respecting plain pools backtracking is reachability from another source |
| TaintVerdicts.EnginesAgreeExactlyWhen | dongtai_common/engine/vul_engine.py:127-335 | on plain pools without target ranges whose sources are eligible, `search` hits iff backtracking from some sink succeeds, exactly when a vulnerable flow implies an ascending path from a source into a sink call |
| TaintVerdicts.EnginesAgree | dongtai_common/engine/vul_engine.py:127-335 | they agree on order-respecting plain pools without target ranges, with no sink a source and no ignored source |
| TaintFailures.UnorderedPoolSeparates | dongtai_common/engine/vul_engine.py:157-335 | a pool on which every search reports a hit and backtracking from no sink succeeds |
| TaintFailures.StackMissesItsSink | dongtai_common/engine/vul_engine.py:127-232 | a pool on which the only stack is 1, 3, 5 although the sink is 3 |
| TaintFailures.RepeatedIdHidesSource | dongtai_common/engine/vul_engine.py:140-232 | reports with a vulnerable flow on which every search fails, because a later record of the source's id is no source |
| TaintFailures.RepeatedIdBorrowsSignature | dongtai_common/engine/vul_engine.py:140-232 | reports on which the second report of every search is signed by the source of the first |
| TargetValues.ParseQuoted | dongtai_common/engine/compatibility.py:56-60 | a value between any two characters, followed by `*` and its length, parses back to the value |
| TargetValues.ParseWithoutStar | dongtai_common/engine/compatibility.py:56-60 | without a `*` the first and the last two characters go |
| FlowDfs.FlowSearch.Dfs | dongtai_common/engine/vul_engine.py:343-369 | terminates; adds consecutively numbered edges, one per step, from earlier to later calls with meeting hashes; at most as many as hashes consumed; raises the link count by exactly the number of ends of the flow tree, one if nothing was entered |
| FlowDfs.EntersExactlyReachable | dongtai_common/engine/vul_engine.py:343-369 | the consuming search enters exactly the calls some flow of the untouched pool leads to |
| FlowDfs.EnterCall | dongtai_common/engine/vul_engine.py:352-366 | one entered call keeps the partial-search invariant: hashes only shrink, a lost hash means an entered call, what was handed on is followed everywhere |
| FlowGraph.NodeExactly | dongtai_common/engine/vul_engine_v2.py:147-160 | a node has the id of its call, and as type exactly the separator-free name that the class name is, or has behind a last `/` or `.` |
| FlowGraph.ContainerExactly | dongtai_common/engine/vul_engine_v2.py:219-233 | a call is a container iff its class is List, String, StringBuilder, StringReader, Enumeration or Map in some package |
| FlowGraph.VulEngineV2.CreateGraph | dongtai_common/engine/vul_engine_v2.py:174-185 | every pool call is a head with a record; its successors are exactly the later calls whose sourceHash its targetHash meets |
| FlowGraph.ForwardEdgeExactly | dongtai_common/engine/vul_engine_v2.py:182-185 | edges are exactly the pairs of a call and a later one that consumes a hash the first produces |
| FlowGraph.VulEngineV2.SearchAllLink | dongtai_common/engine/vul_engine_v2.py:118-126 | ascending pool, forward graph, and an export whose source and target pairs are exactly those of a call and a later one that consumes a hash the first produces |
| FlowGraph.VulEngineV2.CreateEdge | dongtai_common/engine/vul_engine_v2.py:128-144 | each edge exported once, ids without a gap; one record per head and per successor |
| FlowGraph.ListedTwiceIffBoth | dongtai_common/engine/vul_engine_v2.py:133-142 | a call is listed iff it is a head or a successor, twice iff it is both, never three times |
| FlowGraph.VulEngineV2.RemoveInvalid | dongtai_common/engine/vul_engine_v2.py:195-216 | one round drops empty heads and then container leaves, and reports whether a leaf went |
| FlowGraph.RoundShrinks | dongtai_common/engine/vul_engine_v2.py:187-216 | a repeated round loses an edge; a round that reports nothing leaves a stable graph |
| FlowGraph.VulEngineV2.FilterInvalidData | dongtai_common/engine/vul_engine_v2.py:187-193 | terminates; an edge survives iff its end reaches a call that is no container along original edges; a head survives iff one of its edges does |
| FlowGraph.StableIsPruned | dongtai_common/engine/vul_engine_v2.py:187-233 | on a climbing graph the stable graph is that exact fixpoint |
| FlowGraph.PrunedGraph | dongtai_common/engine/vul_engine_v2.py:118-233 | built and pruned, the graph holds an edge exactly for each call and a later one that consumes a hash it produces and from which such hand-overs lead to some call of no container class, and a head for each call with such an edge |
| EsBatching.EveryRunKeepsInv | dongtai_common/utils/es.py:17-92 | in every reachable state, for each row, routings plus repeated reads are exactly its indexings plus its places on the list plus its holders; the rate counter is exactly outstanding saves plus list plus undecremented reads minus repeated reads; the task counter is exactly the live or reserved batch tasks |
| EsBatching.OneRowOverlap | dongtai_common/utils/es.py:37-41 | a read and its trim cover the list and share exactly one row beyond a full batch, none otherwise |
| EsBatching.StepLosesNothing | dongtai_common/utils/es.py:17-92 | no single operation of any process breaks the row ledger |
| EsBatching.StepKeepsRate | dongtai_common/utils/es.py:24-82 | no single operation breaks the rate ledger |
| EsBatching.Quiescence | dongtai_common/utils/es.py:17-92 | when all work is done every routing was indexed, repeated reads once more, no task is counted, and the rate counter is zero iff no read was repeated |
| EsBatching.RepeatsExactlyWhen | dongtai_common/utils/es.py:37-41 | no row was read twice iff no batch task ever read a list of more than 500 rows |
| EsTasks.LongReadLeavesDeficit | dongtai_common/utils/es.py:37-43 | a run that ends with an empty list, every process done and the rate counter at -1 |
| EsBatching.OnlyRegisteredRowsAreBatched | dongtai_common/utils/es.py:71-73 | in every reachable state the list and the batches hold registered rows only |
| EsBatching.WithinLimitNothingIsBatched | dongtai_common/utils/es.py:68-76 | as long as the rate counter stayed within 10 no row was ever queued and no batch task started |
| EsStranding.StrandedExactlyWhen | dongtai_common/utils/es.py:28-92 | the list stays unchanged under every schedule without arrivals iff it holds rows and no process is a batch task (other than one that measured an empty list), about to start one, or a registered router that saw or can still see a rate above 10 |
| EsStranding.StrandsExactlyWhen | dongtai_common/utils/es.py:28-92 | a step strands rows iff the last such process gives up: a router that pushed sees five tasks, a router reads a rate within 10, or a save lowers the rate |
| EsStranding.CarefulRunsNeverStrand | dongtai_common/utils/es.py:28-92 | runs without such a step never strand a row |
| EsStranding.StrandingHappens | dongtai_common/utils/es.py:28-92 | a reachable state from which no schedule without arrivals changes a list with a row on it |
| EsStranding.AtomicCountsTasks | dongtai_common/utils/es.py:28-92 | with push, check, spawn atomic and measure, retire atomic the task counter equals the live batch tasks and is at most 5 |
| EsStranding.AtomicNeverStrands | dongtai_common/utils/es.py:28-92 | with these tails atomic a non-empty list has a live task and rows are never stranded |
| EsStranding.AtomicRunsAreRuns | dongtai_common/utils/es.py:28-92 | atomic runs are runs of the protocol |
| EsIndexing.EsIndexer.TaskRoutings | dongtai_common/utils/es.py:66-92 | the whole task, with add_task and add_async_batch_task, is six consecutive operations of its router |
| EsIndexing.EsIndexer.HandleSave | dongtai_common/utils/es.py:17-25 | the whole task is two consecutive operations of a single save |
| EsIndexing.EsIndexer.HandleBatchSave | dongtai_common/utils/es.py:28-54 | the whole task is five consecutive operations of a batch task |
| EsIndexing.EsIndexer.Execute | dongtai_common/utils/es.py:17-92 | with commits, routers and tasks each run whole, in any order, only states of the protocol are reached, all ledgers hold and no row is stranded |
| EsProgress.FewIdleNeverStrand | dongtai_common/utils/es.py:28-92 | in the interleaved protocol a run in which never five batch tasks at once have measured an empty list strands no row |
| EsProgress.FourWorkersNeverStrand | dongtai_common/utils/es.py:28-92 | a run in which at most four tasks are ever on a worker strands no row, whatever routers do beside them |
| EsProgress.FinishedRunIndexedAll | dongtai_common/utils/es.py:17-92 | a run that is over and stranded nothing has an empty list and has indexed every routing, repeated reads once more |
| EsProgress.AtomicFinishIndexedAll | dongtai_common/utils/es.py:17-92 | an atomic run that is over has an empty list and has indexed every routing |
| EsProgress.FinitelyManySteps | dongtai_common/utils/es.py:17-92 | without arrivals every schedule does at most a bounded number of operations that change something |
| EsProgress.WorkEnds | dongtai_common/utils/es.py:17-92 | from every state some schedule without arrivals ends with every process done |
| EsTasks.DrainsInBatches | dongtai_common/utils/es.py:28-54 | one task and its successors empty the list, index all of it and retire; every run but the last reads one row twice, which the rate counter shows |
| EsTasks.DrainsNoSooner | dongtai_common/utils/es.py:28-54 | fewer runs leave rows behind |
| EsTasks.RunsToDrainRoundsUp | dongtai_common/utils/es.py:37-54 | n rows take n / 500 runs, rounded up |
| Highlight.HighlightFull | dongtai_common/engine/compatibility.py:94-101 | fails iff a range touches a position outside the value; otherwise the marked text |
| Highlight.ErasingGivesValue | dongtai_common/engine/compatibility.py:77-101 | erasing the tags gives back exactly the escaped value, however ranges overlap |
| Highlight.EscapedExactly | dongtai_common/engine/compatibility.py:77-80 | escaping turns each `<` into `&lt;` and leaves text without one as it is |
| Highlight.EscapedReadsBack | dongtai_common/engine/compatibility.py:77-80 | for a value without `&`, replacing `&lt;` by `<` gives the value back |
| Highlight.SingleRangeText | dongtai_common/engine/compatibility.py:94-101 | for one range that starts before it stops the text is the escaped value with the red em tag around exactly its characters |
| Highlight.BalancedExactlyWhen | dongtai_common/engine/compatibility.py:94-101 | the tags balance iff nowhere more ranges have stopped than started |
| Highlight.ProperRangesHighlight | dongtai_common/engine/compatibility.py:94-101 | for ranges with start before stop the tags balance and the depth at each character is the number of ranges covering it |
| Highlight.SingleRangeBalancedExactlyWhen | dongtai_common/engine/compatibility.py:97-99 | a single range gives balanced tags iff it starts before it stops |
| Highlight.HiddenEmptyRange | dongtai_common/engine/compatibility.py:97-99 | an empty range inside another one leaves the tags balanced |
| Highlight.OrderDoesNotMatter | dongtai_common/engine/compatibility.py:90-101 | the same ranges in any order fail alike and give the same text, so sorting them first changes nothing |
| DataClean.ChunkedQueryset | dongtai_engine/plugins/data_clean.py:20-42 | yields the chunks of the original table whatever the consumer deletes from each, and leaves exactly what it keeps |
| DataClean.ChopPartitions | dongtai_engine/plugins/data_clean.py:20-42 | the chunks hold every key once in order, all full but the last, n / k of them rounded up |
| DataClean.IntervalsTile | dongtai_engine/plugins/data_clean.py:96-99 | the zipped ranges have equal length and tile from lower to an end that overshoots upper by less than a batch |
| DataClean.LoopMain | dongtai_engine/plugins/data_clean.py:80-93 | for every completion order exactly the rows in some interval are gone |
| DataClean.BatchClean | dongtai_engine/plugins/data_clean.py:96-101 | exactly the rows from lower to the end of the last whole interval are gone, in any completion order |
| DataClean.LastKeyStays | dongtai_engine/plugins/data_clean.py:58-67 | the last expired key stays iff whole intervals fit |
| DataClean.EndOfIntervals | dongtai_engine/plugins/data_clean.py:96-99 | the intervals end at upper if whole intervals fit and at the next whole one otherwise |
| DataClean.NothingAboveExactlyWhen | dongtai_engine/plugins/data_clean.py:58-67 | no key above the last expired one is deleted iff the span is a multiple of the batch size or one short of it |
| DataClean.SingleKeyStays | dongtai_engine/plugins/data_clean.py:58-67 | a single expired record is never deleted |
| DataClean.UnexpiredKeyDeleted | dongtai_engine/plugins/data_clean.py:58-67 | with keys 1 and 2 expired and the batch size in use key 3 goes |
| ParamRewrite.RewriteParameter | dongtai_engine/tasks.py:367-376 | the loop computes the rewriting of the first parameter of the name |
| ParamRewrite.NameExactly | dongtai_engine/tasks.py:371-372 | the name of an item is what precedes its first `=`, or the whole item when there is none |
| ParamRewrite.RewrittenItems | dongtai_engine/tasks.py:384-402 | for any payload the other items stay in place; an absent name changes nothing |
| ParamRewrite.PayloadReadsBack | dongtai_engine/tasks.py:367-376 | for a payload without `&` only the first item of the name changes and it reads back as the payload |
| ParamRewrite.CountKeptExactlyWhen | dongtai_engine/tasks.py:367-376 | the number of items is kept iff the name is absent or the payload holds no `&` |
| ParamRewrite.ReadsBackExactlyWhen | dongtai_engine/tasks.py:367-376 | for any payload the first item of the name stays in place and reads back as the payload up to its first `&` |
| ParamRewrite.AmpersandAddsParameter | dongtai_engine/tasks.py:367-376 | `q=1` with the payload `a&b` becomes two items |
| ParamRewrite.RewritingAgain | dongtai_engine/tasks.py:367-376 | rewriting again with another payload is rewriting once with it iff the name is absent or the first payload holds no `&`; so rewriting is idempotent exactly then |
| ParamRewrite.JoinSplit | dongtai_engine/tasks.py:368-376 | joining what was split gives the string back |

## Left out

- Order of dictionaries and sets: heads, successors and hashes are visited in any order; results hold for all.
- Tags and code strings on reported calls, and that all stacks share the same call records: the search never reads them.
- Conversion of the newer report format into source and target values: the converted values are taken as given.
- Values of one call that depend on reuse of an engine for several pools, and the cached signatures: an engine is fresh per pool.
- The unused fields hit_vul, pool_value and method_counts, and the helpers do_propagator and search_sink.
- vul_filter and the text of graph nodes: URL parsing and formatting.
- Invoke ids as strings: `str` and `int` of an id are inverse, so an id stands for both; only the node keys of the exported graph keep the difference.
- FlowDfs.FlowSearch.Dfs: keeps the source hashes in a field beside the calls instead of in the call records, since they are the only part the search changes.
- TaintReports.SearchAndReport: the branches on the first result, validators and the saving of vulnerabilities are not modelled.
- TaintVerdicts.EnginesAgree: compares the two searches on pools with distinct ids, since backtracking works on records and `search` on ids.
- FlowGraph.PrunedGraph: building and pruning are joined here; in the repository the pruning has no caller.
- Key expiry, lost or repeated tasks and failing index updates in the indexing protocol: keys are permanent and each task runs once. Rows that one batch holds twice count as indexed twice, once for each routing.
- EsTasks.DrainsInBatches: draining is stated for one chain of tasks with nothing else moving.
- Highlight.HighlightFull: the caller's checks before it and the branch for truncated values; ranges are taken as sorted, which changes nothing (Highlight.OrderDoesNotMatter).
- DataClean.BatchClean: each delete takes effect as a whole; rows are keys, and the query for the first and last expired key is a parameter.
- The JSON, header, cookie and path branches of the replay rewriting, and its database updates.
- Database queries, REST views, permissions and logging.
