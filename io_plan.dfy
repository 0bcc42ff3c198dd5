/** The forward graph of src/graph/io_graph.rs (`IoInternalGraphNode`) and
    its chain compactor: `to_exec_plan` walks from a node along single
    children until it meets a fork, a join or a sink, and `async_exec` runs
    the resulting chain of transforms. The io nodes are shared by id and their
    children lists are filled in place, so the graph is an arena keyed by id. */
module IoPlan {
  import opened Seqs
  import opened GraphNodes

  /** `IoInternalGraphNode`: transform, name, children (as ids), id, the
      number of parents and whether the node has more than one child. */
  datatype IoNode<!T> = IoNode(f: Transform<T>, name: string, children: seq<Id>, id: Id, nParents: int, forkable: bool)

  type IoArena<!T> = map<Id, IoNode<T>>

  /** An arena as `from` builds it: every node is stored under its id, is
      forkable exactly when it has more than one child, and its children are
      nodes of the arena of smaller rank (the graph is acyclic). */
  ghost predicate WellFormed<T>(g: IoArena<T>, rank: map<Id, nat>)
  {
    forall k {:trigger g[k]} :: k in g ==>
      && g[k].id == k && k in rank
      && g[k].forkable == (|g[k].children| > 1)
      && forall i :: 0 <= i < |g[k].children| ==> g[k].children[i] in g && g[k].children[i] in rank && rank[g[k].children[i]] < rank[k]
  }

  /** A node at which a chain stops: a fork, a join or a sink. */
  predicate StopsChain<T>(n: IoNode<T>)
  {
    n.forkable || n.nParents > 1 || |n.children| == 0
  }

  /** The ids `to_exec_plan` visits from `k`: `k`, then the single child of
      each node that is neither a fork, a join nor a sink. */
  function PlanPath<T>(g: IoArena<T>, k: Id, ghost rank: map<Id, nat>): (p: seq<Id>)
    requires k in g && WellFormed(g, rank)
    ensures |p| >= 1 && p[0] == k
    ensures forall i :: 0 <= i < |p| ==> p[i] in g
    ensures forall i {:trigger g[p[i]]} :: 0 <= i < |p| - 1 ==> !StopsChain(g[p[i]]) && g[p[i]].children == [p[i + 1]]
    ensures StopsChain(g[p[|p| - 1]])
    decreases rank[k]
  {
    var n := g[k];
    if StopsChain(n) then [k] else [k] + PlanPath(g, n.children[0], rank)
  }

  /** One element of the chain: `(name, f)`. */
  datatype Stage<!T> = Stage(name: string, f: Transform<T>)

  /** The `(name, f)` pairs of the nodes `p`, in order. */
  function StagesOf<T>(g: IoArena<T>, p: seq<Id>): (r: seq<Stage<T>>)
    requires forall i :: 0 <= i < |p| ==> p[i] in g
    ensures |r| == |p| && forall i {:trigger r[i]} :: 0 <= i < |p| ==> r[i] == Stage(g[p[i]].name, g[p[i]].f)
  {
    if |p| == 0 then [] else [Stage(g[p[0]].name, g[p[0]].f)] + StagesOf(g, p[1..])
  }

  /** The chain's transforms applied left to right to `datum`. */
  function RunChain<T>(chain: seq<Stage<T>>, datum: seq<T>): seq<T>
  {
    if |chain| == 0 then datum else chain[|chain| - 1].f(RunChain(chain[..|chain| - 1], datum))
  }

  /** Running two chains one after the other is running their concatenation. */
  lemma {:induction false} RunChainAppend<T>(a: seq<Stage<T>>, b: seq<Stage<T>>, datum: seq<T>)
    ensures RunChain(a + b, datum) == RunChain(b, RunChain(a, datum))
    decreases |b|
  {
    if |b| > 0 {
      assert (a + b)[..|a + b| - 1] == a + b[..|b| - 1];
      RunChainAppend(a, b[..|b| - 1], datum);
    } else {
      assert a + b == a;
    }
  }

  lemma StagesPush<T>(g: IoArena<T>, p: seq<Id>, i: nat)
    requires i < |p| && forall j :: 0 <= j < |p| ==> p[j] in g
    ensures StagesOf(g, p[..i]) + [Stage(g[p[i]].name, g[p[i]].f)] == StagesOf(g, p[..i + 1])
  {
    assert p[..i + 1][..i] == p[..i];
  }

  /** The `i`-th id of a plan path stops the chain only when it is the last,
      and otherwise has the next id as its only child. */
  lemma PlanPathAt<T>(g: IoArena<T>, k: Id, rank: map<Id, nat>, i: nat)
    requires k in g && WellFormed(g, rank) && i < |PlanPath(g, k, rank)|
    ensures StopsChain(g[PlanPath(g, k, rank)[i]]) <==> i + 1 == |PlanPath(g, k, rank)|
    ensures i + 1 < |PlanPath(g, k, rank)| ==> g[PlanPath(g, k, rank)[i]].children == [PlanPath(g, k, rank)[i + 1]]
    ensures i + 1 == |PlanPath(g, k, rank)| ==> PlanPath(g, k, rank)[..i + 1] == PlanPath(g, k, rank)
  {
  }

  /** `to_exec_plan` (lines 126-149): pop a node, append its `(name, f)` and
      make it the last node; stop at a fork or a join, otherwise queue its
      children. Returns the last node and the chain. */
  method ToExecPlan<T>(g: IoArena<T>, start: Id, ghost rank: map<Id, nat>) returns (last: Id, chain: seq<Stage<T>>)
    requires start in g && WellFormed(g, rank)
    ensures chain == StagesOf(g, PlanPath(g, start, rank))
    ensures last == PlanPath(g, start, rank)[|PlanPath(g, start, rank)| - 1]
  {
    ghost var path := PlanPath(g, start, rank);
    chain := [];
    last := start;
    var nodes := [start];
    ghost var done := 0;
    while |nodes| > 0
      invariant 0 <= done < |path| && |nodes| <= 1
      invariant |nodes| == 1 ==> nodes[0] == path[done] && chain == StagesOf(g, path[..done])
      invariant |nodes| == 0 ==> chain == StagesOf(g, path) && last == path[|path| - 1]
      decreases |path| - done + |nodes|
    {
      var node := nodes[0];
      nodes := nodes[1..];
      PlanPathAt(g, start, rank, done);
      StagesPush(g, path, done);
      chain := chain + [Stage(g[node].name, g[node].f)];
      last := node;
      if g[node].forkable || g[node].nParents > 1 {
        assert path[..done + 1] == path;
        break;
      }
      nodes := nodes + g[node].children;
      if |nodes| == 0 {
        assert path[..done + 1] == path;
      } else {
        done := done + 1;
      }
    }
  }

  /** `async_exec` (lines 113-124) without the thread: each `(name, f)` of
      the chain in turn replaces the running result. An empty chain returns
      the input. */
  method AsyncExec<T>(chain: seq<Stage<T>>, datum: seq<T>) returns (result: seq<T>)
    ensures result == RunChain(chain, datum)
    ensures |chain| == 0 ==> result == datum
  {
    result := datum;
    for i := 0 to |chain|
      invariant result == RunChain(chain[..i], datum)
    {
      assert chain[..i + 1][..i] == chain[..i];
      result := chain[i].f(result);
    }
    assert chain[..|chain|] == chain;
  }
}
