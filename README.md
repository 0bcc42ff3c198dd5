# Compute graphs and a map-reduce stage, modelled in Dafny

This project models the sequential core of `playing_w_rust`. It has three parts.

1. **The concurrent compute graph** (`src/graph/concurrent.rs`).
   - The user builds a child-pointing DAG of `ConcurrentGraphNode`s, each with a transform `Vec<T> -> Vec<T>`.
   - `to_internal_graph_node` transposes it with a breadth-first walk. `ConcurrentInternalGraphNode::from` copies the transpose into an immutable parent-pointing structure, starting from the last child the walk met.
   - `apply` evaluates that structure upwards. It concatenates what the parents compute and applies the node's transform. `apply_batch` is meant to do the same for each input of a batch; as written it does not (see "## Findings"). `ConcurrentComputeGraph.ApplyBatch` follows the code as written, and `ConcurrentComputeGraph.ApplyBatchPerInput` is the corrected evaluation.
2. **The io compute graph** (`src/graph/io_graph.rs`).
   - `from` rebuilds the user graph as a forward graph of io nodes. Each io node records its number of parents, taken from the upward index `index_by_id`, and whether it forks.
   - `to_exec_plan` follows a straight run of nodes until it reaches a fork, a join or a sink.
   - `async_exec` runs such a plan.
   - `schedule_bfs` is a breadth-first work queue. It dispatches the plans below each node, keeps pending results per terminal node, and replaces its running result when a join or fork collects them.
3. **The map-reduce pipeline stage** (`src/pipeline/map_reduce.rs`) and **word count** (`src/pipeline/word_count.rs`).
   - The map stage produces keyed records.
   - The shuffle groups their values by key.
   - The reduce folds each group into one pair.
   - The word-count mapper splits on single spaces and emits a count of 1 per token. Its reducer sums the counts.

How the source is represented:
- **User graph.** The user's graph is an inductive datatype (`GraphNodes.GraphNode`). Nodes are shared by id: `ConsistentIds` says two nodes with the same id are the same node.
- **Transpose.** The mutable transposed graph of `to_internal_graph_node` is an arena `map<Id, TmpNode>` keyed by id. The per-child parent-id sets are a `map<Id, set<Id>>`.
- **Internal tree.** `from` copies a node once per path, so its result is an inductive tree (`InternalGraph.InternalNode`).
- **Io graph.** The io graph is an arena `map<Id, IoNode>` whose children lists are lists of ids. A ghost rank map orders it, so the walks along children end.
- **Loops.** Every loop of the parts that work by updating state is a Dafny `method` with a loop. It is proved against a function or ghost function that is the loop's specification:
  - the transposition against `Transpose.TransposeOf`, built from `Link`, `LinkAll` and `Walk`;
  - the scheduler against `IoSchedule.Schedule`, built from `Step` and `Drain`;
  - `to_exec_plan` against `IoPlan.PlanPath`;
  - the io `from` against `IoBuild.IoGraphOf`;
  - the shuffle against `MapReduce.ValuesOf`;
  - the reduce against one `reduce_func` pair per key;
  - `index_by_id` against the ids of the tree above its start node (`InternalGraph.AncestryIds`).
- **Recursion.** The loops inside the pure recursive code are not methods. The parents loop of the concurrent `from` is a sequence comprehension (`InternalGraph.From`). Those of `apply` and `apply_batch` are recursion over the parents list (`InternalGraph.Gathered`, `InternalGraph.GatheredBatches`), and the reducer's `sum` is recursion over the counts (`Seqs.Sum`).

## Model

| member | source | states |
|---|---|---|
| GraphNodes.New | src/graph/concurrent.rs:45-52 | the node stores exactly the given transform, name, children and id |
| GraphNodes.Empty | src/graph/concurrent.rs:53-60 | the node stores the given transform, name and id and has no children; it is `new` with an empty child list |
| Transpose.EmptyTmp | src/graph/concurrent.rs:161-168 | a transposed node starts with the given transform, name and id and no parents |
| Transpose.LinkEntry | src/graph/concurrent.rs:205-216 | after one child step, the child's parents list has no id twice and its ids are exactly the recorded parent-id set, every one a user parent of the child |
| Transpose.LinkSound | src/graph/concurrent.rs:196-218 | one child step keeps every built node sound (it carries its own id, copies the user node, and its parents list matches its parent-id set without duplicates); nothing already built is lost, and the arena gains exactly the child's id |
| Transpose.Link | src/graph/concurrent.rs:197-218 | one child step: the child's node is fetched, or created empty; the popped node's id is appended to its parents unless the child's parent-id set already holds it; the id is added to that set; the node is stored. Its properties are stated by `LinkEntry` and `LinkSound` |
| Transpose.LinkAll | src/graph/concurrent.rs:194-223 | the loop over the popped node's children: one `Link` per child, in the children's order |
| Transpose.Walk | src/graph/concurrent.rs:189-224 | the breadth-first loop from a queue: pop the front node, link its children, queue them, and move `internal_arc` to the last child; on an empty queue, the arena and `internal_arc` |
| Transpose.TransposeOf | src/graph/concurrent.rs:171-227 | the walk from the root's own empty node, alone in the maps and in the queue; `ToInternalGraphNode` is proved to return it |
| Transpose.ExpandingStep | src/graph/concurrent.rs:194-222 | one child step keeps the walk sound (every built node sound, queued or expanded, the maps only grown) and queues exactly that child |
| Transpose.ExpandingRest | src/graph/concurrent.rs:194-223 | linking the remaining children from a sound state, with `LinkAll`, keeps the walk sound and queues those children in order |
| Transpose.ExpandNode | src/graph/concurrent.rs:194-223 | after the popped node's children are handled, the queue has those children appended in order, and the arena and parent-id sets are `LinkAll` of them; `internal_arc` is the last child's id, or unchanged when there are no children |
| Transpose.Visit | src/graph/concurrent.rs:189-223 | one iteration of the breadth-first loop keeps the invariant, strictly shrinks the queue's total size, and leaves the rest of `Walk` unchanged |
| Transpose.TransposeDiamond | src/graph/concurrent.rs:189-226 | on the diamond start → mid1, mid2 → last, the walk returns `last`, whose parents list is mid1 then mid2 |
| Transpose.ParentsComplete | src/graph/concurrent.rs:189-224 | once every reached node is expanded, each node's parents list holds exactly its user parents |
| Transpose.TransposeComplete | src/graph/concurrent.rs:189-224 | at the end of the walk the arena is the transpose of the user graph and is ordered by depth |
| Transpose.ToInternalGraphNode | src/graph/concurrent.rs:171-227 | the arena and the returned id are exactly `TransposeOf` the root. The arena holds one node per reached id with its user parents listed once each. The returned node is a sink of the user graph. A root without children is returned itself |
| InternalGraph.From | src/graph/concurrent.rs:84-106 | the copy keeps the id, transform and name, and its parents are the copies of the arena node's parents in order (none when there are none) |
| InternalGraph.FromAncestry | src/graph/concurrent.rs:84-106 | every node of the copied tree is the copy `from` makes of its own id |
| InternalGraph.FromMirrors | src/graph/concurrent.rs:84-106 | every node of the copied tree copies its user node's transform and name and lists that node's user parents once each |
| InternalGraph.FromOnlyAncestors | src/graph/concurrent.rs:84-106 | every node of the tree built for `k` is a user node from which `k` is reachable |
| InternalGraph.FromHoldsAncestors | src/graph/concurrent.rs:84-106 | every user node from which `k` is reachable appears in the tree built for `k` |
| InternalGraph.FromIsReaching | src/graph/concurrent.rs:84-106 | the ids of the tree built for `k` are exactly the ids of the user nodes that reach `k` |
| InternalGraph.FromCoversSingleSink | src/graph/concurrent.rs:84-106 | with a single sink, the tree built for the sink holds every id of the user graph |
| InternalGraph.Apply | src/graph/concurrent.rs:110-121 | `apply`: a node without parents applies its transform to the input; otherwise it applies it to what `Gathered` returns. Its length is stated by `ApplyLength` |
| InternalGraph.Gathered | src/graph/concurrent.rs:116-119 | the loop over the parents: what each parent's `apply` returns for the same input, concatenated in parent order |
| InternalGraph.ApplyBatch | src/graph/concurrent.rs:125-136 | `apply_batch` as written: a node without parents maps its transform over the batch; otherwise it maps it over what `GatheredBatches` returns. Stated by `ApplyBatchLength`, `ApplyBatchOnChain` and `ApplyBatchDiamond` |
| InternalGraph.GatheredBatches | src/graph/concurrent.rs:131-134 | the loop over the parents: the whole batches the parents' `apply_batch` return, concatenated in parent order |
| InternalGraph.MapTransform | src/graph/concurrent.rs:129 | mapping the transform over a batch gives one output per input, each the transform of that input |
| InternalGraph.ApplyLength | src/graph/concurrent.rs:110-121 | when every transform keeps lengths, `apply` returns one copy of the input's length per path from a node without parents |
| InternalGraph.ApplyBatchLength | src/graph/concurrent.rs:125-136 | `apply_batch` as written returns (number of paths) × (batch size) outputs |
| InternalGraph.ApplyBatchOnChain | src/graph/concurrent.rs:125-136 | on a straight line of nodes, `apply_batch` as written is `apply` on each input |
| InternalGraph.ApplyBatchDiamond | src/graph/concurrent.rs:131-135 | on a diamond, `apply_batch` as written returns four outputs for two inputs, which differs from `apply` on each input |
| InternalGraph.ApplyBatchPerInput | src/graph/concurrent.rs:125-136 | the corrected `apply_batch` returns one output per input |
| InternalGraph.ApplyBatchPerInputIsApply | src/graph/concurrent.rs:125-136 | the corrected `apply_batch` is `apply` on each input of the batch |
| ConcurrentGraph.ConcurrentComputeGraph.New | src/graph/concurrent.rs:17-22 | the graph keeps the user root. Its internal root is exactly the copy `from` makes of the node `TransposeOf` the root returns, over that arena, so every parents list is in walk order. That node is a sink. The tree above it holds exactly the user nodes that reach it, each copied with its user parents listed once. With a single sink it holds every id |
| ConcurrentGraph.ConcurrentComputeGraph.Apply | src/graph/concurrent.rs:24-26 | `apply` is `InternalGraph.Apply` of the tree built from `TransposeOf` the root, so it depends on the root alone; a graph of one node applies that node's transform to the input |
| ConcurrentGraph.ConcurrentComputeGraph.ApplyBatch | src/graph/concurrent.rs:28-30 | `apply_batch` as written: (number of paths) × (batch size) outputs; on a straight line, one output per input, each what `apply` returns for it |
| ConcurrentGraph.ConcurrentComputeGraph.ApplyBatchPerInput | src/graph/concurrent.rs:28-30 | the corrected `apply_batch`: one output per input, each what `apply` returns for that input, on every graph |
| ConcurrentGraph.DiamondParentsOrder | src/graph/concurrent.rs:17-22 | a graph built over the diamond evaluates from `last`, whose parents are mid1 then mid2 |
| IoIndex.PopParents | src/graph/io_graph.rs:223-229 | popping a node and queueing its parents keeps the set of nodes still to be reached, less the popped one, and shrinks the queue's tree size |
| IoIndex.IndexById | src/graph/io_graph.rs:218-232 | the keys are exactly the ids reachable along parents from the start node, and each maps to a node of that tree carrying the id |
| IoPlan.PlanPath | src/graph/io_graph.rs:126-149 | the chain starts at the given node. Every node before the last is neither a fork nor a join and has exactly the next node as its only child. The last node is a fork, a join or a sink |
| IoPlan.PlanPathAt | src/graph/io_graph.rs:134-146 | the walk stops at a position exactly when that node is a fork, a join or a sink, so it stops at the first one |
| IoPlan.ToExecPlan | src/graph/io_graph.rs:126-149 | the plan is the (name, transform) of each node of the chain in order, and the node returned is the chain's last |
| IoPlan.RunChainAppend | src/graph/io_graph.rs:113-124 | running two plans one after the other is running their concatenation |
| IoPlan.AsyncExec | src/graph/io_graph.rs:113-124 | the result is the plan's transforms applied left to right to the input; an empty plan returns the input |
| IoSchedule.Collects | src/graph/io_graph.rs:72-77 | the popped node collects exactly when it is a join or a fork with pending results, and a join's pending results number its parents |
| IoSchedule.Collect | src/graph/io_graph.rs:72-85 | when the popped node collects, the results become its pending results concatenated and its entry is removed; otherwise nothing changes. Stated by `Step` |
| IoSchedule.Drain | src/graph/io_graph.rs:69-109 | the loop of `schedule_bfs` run from a state until the queue is empty; it ends with an empty queue |
| IoSchedule.Schedule | src/graph/io_graph.rs:59-111 | what `schedule_bfs` returns: the results once the loop has drained the queue from the root alone with the input as results. `ScheduleBfs` is proved to return it |
| IoSchedule.Dispatch | src/graph/io_graph.rs:95-107 | dispatching a child adds one queue entry and one pending result (its plan run on the current results) under the plan's terminal id, and changes no other id's pending results |
| IoSchedule.DispatchAll | src/graph/io_graph.rs:95-107 | dispatching the children adds one queue entry per child and changes neither the scheduled set nor the results |
| IoSchedule.Step | src/graph/io_graph.rs:69-107 | an iteration replaces the results by the concatenated pending results exactly when the popped node collects (a fork with pending results, or a join with as many as its parents). An already scheduled node is skipped; any other node is scheduled once and its children are dispatched |
| IoSchedule.Concat | src/graph/io_graph.rs:78-83 | joining the handles in order gives the concatenation of their results |
| IoSchedule.DispatchChildren | src/graph/io_graph.rs:95-107 | the loop over the children computes the queue and pending results of `DispatchAll` |
| IoSchedule.ScheduleBfs | src/graph/io_graph.rs:59-111 | the loop returns the results of the specification `Schedule`, which starts from the input |
| IoSchedule.DrainSchedulesOnce | src/graph/io_graph.rs:87-92 | the log of scheduled nodes never lists an id twice and lists exactly the scheduled set |
| IoSchedule.ScheduleOnce | src/graph/io_graph.rs:87-92 | over a whole run, each node has its children dispatched at most once |
| IoSchedule.DrainKeepsResults | src/graph/io_graph.rs:68-85 | without forks and joins the results never change |
| IoSchedule.LinearReturnsInput | src/graph/io_graph.rs:68-85 | a graph without forks and joins returns its input: the root's transform is never applied and no chain's result is collected |
| IoSchedule.DispatchEndsWithTerminal | src/graph/io_graph.rs:137-141 | a dispatched chain applies the terminal join's or fork's own transform last |
| IoBuild.IoGraphOf | src/graph/io_graph.rs:154-216 | the forward graph of the root: one io node per id, with its user children's ids, its user parent count and the fork flag. Stated by `IoGraphWellFormed`; `WalkIo` is proved to build it |
| IoBuild.IoGraphWellFormed | src/graph/io_graph.rs:154-216 | the forward graph is well formed: ids match keys, children are in the graph and smaller in rank, and forkable means more than one child |
| IoBuild.LinkIo | src/graph/io_graph.rs:182-211 | one child step fetches or creates the child's io node (parent count from the index, forkable if more than one user child), appends it to the current node's children, and queues it only when unvisited. It fails exactly when the child's id is not in the index |
| IoBuild.ExpandIo | src/graph/io_graph.rs:182-212 | after the loop over a node's children, that node is complete: its io children are its user children in order |
| IoBuild.WalkIo | src/graph/io_graph.rs:169-213 | the walk either builds exactly the forward graph of the root (one io node per id with its user children, its user parent count and its fork flag) or fails on an id the index lacks |
| IoGraph.IoFrom | src/graph/io_graph.rs:154-216 | `from` succeeds exactly when every node reaches the sink that the transposition returns. It then builds the forward graph; with a single sink it always succeeds |
| IoGraph.IoConcurrentComputeGraph.New | src/graph/io_graph.rs:21-26 | the graph keeps the root and its arena is the well-formed forward graph holding the root; a single sink guarantees success |
| IoGraph.IoConcurrentComputeGraph.Apply | src/graph/io_graph.rs:28-30 | `apply` is the breadth-first schedule from the root's io node; without forks and joins it returns its input |
| MapReduce.PipelineStage.ApplyMap | src/pipeline/map_reduce.rs:27-30 | the map function's records, unchanged |
| MapReduce.PipelineStage.ApplyShuffle | src/pipeline/map_reduce.rs:32-44 | the keys are exactly the records' keys; each group is non-empty and holds the values of exactly that key's records in record order; no records give an empty map |
| MapReduce.ValuesOfNonEmpty | src/pipeline/map_reduce.rs:37-40 | a key has a non-empty group exactly when some record carries it |
| MapReduce.GroupsSnoc | src/pipeline/map_reduce.rs:34-41 | one more record adds its value to the group of its key and to no other group |
| MapReduce.GroupsPartition | src/pipeline/map_reduce.rs:32-44 | the groups of all keys are a partition of the records' values (as multisets), and their lengths sum to the number of records |
| MapReduce.PipelineStage.ReduceStep | src/pipeline/map_reduce.rs:48-52 | reducing one more key keeps one `reduce_func(k, group)` pair per key reduced so far, each key once |
| MapReduce.PipelineStage.ApplyReduce | src/pipeline/map_reduce.rs:46-54 | one pair `reduce_func(k, group of k)` per key, each key once, so there are as many pairs as keys |
| WordCount.WordCount.GetKey | src/pipeline/word_count.rs:14-16 | `get_key`: the record's word. `KeyableRoundTrip` states that it returns the word stored |
| WordCount.WordCount.GetValue | src/pipeline/word_count.rs:18-20 | `get_value`: the record's count. `KeyableRoundTrip` states that it returns the count stored |
| WordCount.Split | src/pipeline/word_count.rs:29 | `split(" ")`: the tokens between single spaces, empty ones included; there is always at least one. Stated by `JoinSplit`, `SplitCount` and `SplitHasNoSpace` |
| WordCount.KeyableRoundTrip | src/pipeline/word_count.rs:13-21 | `get_key` and `get_value` return the word and the count unchanged |
| WordCount.JoinSplit | src/pipeline/word_count.rs:29 | splitting on `" "` loses nothing: the tokens joined with single spaces give back the text |
| WordCount.SplitCount | src/pipeline/word_count.rs:29 | there is one token more than there are spaces, empty tokens included |
| WordCount.SplitHasNoSpace | src/pipeline/word_count.rs:29 | no token holds a space |
| WordCount.Records | src/pipeline/word_count.rs:29-31 | one record per token, in order, each with count 1 |
| WordCount.WordCountMapper | src/pipeline/word_count.rs:23-35 | the mapper emits one record per `" "`-separated token of the decoded text, in order, each with count 1; there is one record more than spaces |
| WordCount.WordCountReducer | src/pipeline/word_count.rs:37-40 | the key comes back unchanged; when every count is 1, the sum is the number of counts |
| WordCount.RecordKeys | src/pipeline/word_count.rs:29-31 | the keys the shuffle groups are exactly the tokens |
| WordCount.RecordGroup | src/pipeline/word_count.rs:29-31 | the group of a word holds one 1 per occurrence of the word among the tokens |
| WordCount.WordCountPipeline | src/pipeline/word_count.rs:23-40 | mapper, then shuffle, then reducer give one pair per distinct token, each with the number of times the token occurs |

## Left out

- Threads: `spawn` and `JoinHandle` (src/graph/io_graph.rs:97, 113-123) are run eagerly. A chain's result is computed at dispatch and stored as its pending "handle". The transforms are pure, so joining yields the same value.
- The `println!` of `async_exec` and the `Display` impls of both graph files are output only.
- `Arc`/`AtomicRefCell` sharing becomes arenas keyed by id. The model does not capture aliasing beyond "one node per id".
- `Uuid::new_v4()` is a foreign call. `GraphNodes.New` and `GraphNodes.Empty` take the id as a parameter, and the precondition `ConsistentIds` says that distinct nodes carry distinct ids.
- Cycles: the user graph is an inductive datatype, so it is acyclic by construction. The transposition's divergence on a cycle is not modelled.
- IoGraph.IoConcurrentComputeGraph.New: returns `None` where `from` panics on the `unwrap` of src/graph/io_graph.rs:185, which happens when some node does not reach the chosen sink. `IoGraph.IoFrom` states exactly when that happens.
- IoSchedule.DispatchAll: states only the queue length and the unchanged fields. The per-child queue entry and pending result are stated by `IoSchedule.Dispatch`, one child at a time.
- `n_parents` is an `i32` in the source. The model uses an unbounded integer, since no graph that fits in memory has 2^31 parents.
- WordCount.WordCountReducer: does not model the `i32` overflow of `sum` (which panics in debug builds and wraps in release builds). It states the sum only for counts that are all 1, which is what the mapper emits.
- `from_utf8(...).unwrap()` and `to_lowercase` (src/pipeline/word_count.rs:25, 29) are Unicode library calls. They are given to the mapper as the function parameter `decodeLower`. Invalid UTF-8, which panics, is not modelled.
- The iteration order of the `HashMap` in `apply_reduce` is unspecified. `MapReduce.PipelineStage.ApplyReduce` picks keys in any order and returns that order as a second result, which the source does not return.
- The shuffle's `RefCell` groups are plain sequences in a map that the loop reassigns.
- The concurrent graph's evaluation is stated as `InternalGraph.Apply` of the tree built from `Transpose.TransposeOf`, through the lemmas about both, and for a one-node graph; on the diamond, the order of the sink's parents is worked out (`Transpose.TransposeDiamond`). No concrete multi-node scenario is worked out for the io scheduler; `IoSchedule.DispatchEndsWithTerminal` and `IoSchedule.LinearReturnsInput` state the general facts instead.
- `src/graph/easy_functions.rs`, `src/stupid_work.rs`, `src/io/mod.rs`, `src/compute/mod.rs`, `src/future/mod.rs` and `src/main.rs` are not part of this model: they are I/O, channels, serialisation, floating-point transforms and demo wiring.

## Findings

| source | as written | input that shows it | evidently intended | confidence | as-written member | corrected member |
|---|---|---|---|---|---|---|
| src/graph/concurrent.rs:131-135 | `apply_batch` concatenates the whole batches its parents return and maps the transform over that longer batch, so it returns (number of paths) × (batch size) outputs | a diamond (one node without parents, two identity nodes below it, an identity join below both) with the batch `[[1], [2]]`: four outputs instead of two | one output per input, equal to `apply` of that input, with the parents' outputs concatenated per input | medium; not executed | InternalGraph.ApplyBatchDiamond | ConcurrentGraph.ConcurrentComputeGraph.ApplyBatchPerInput |
