/** `IoConcurrentComputeGraph` of src/graph/io_graph.rs: the user's root
    together with the forward graph `from` builds from it once, which `apply`
    runs with the breadth-first scheduler. */
module IoGraph {
  import opened Seqs
  import opened GraphNodes
  import opened Transpose
  import opened InternalGraph
  import opened IoIndex
  import opened IoPlan
  import opened IoSchedule
  import opened IoBuild

  /** `IoInternalGraphNode::from` (lines 154-216): transpose the user graph,
      copy the transpose upwards from the node that walk returns, index that
      copy by id for the parent counts, then build the forward graph. The
      walk fails (the `unwrap` of line 185 panics) exactly when some node
      does not reach the chosen sink; with a single sink it never fails. */
  method IoFrom<T>(root: GraphNode<T>) returns (r: Option<IoArena<T>>, ghost sink: Id)
    requires ConsistentIds(root)
    ensures sink in Ids(root) && NodeOf(root, sink).children == []
    ensures r.Some? <==> Ids(root) <= Reaching(root, sink)
    ensures r.Some? ==> r.value == IoGraphOf(root)
    ensures SingleSink(root) ==> r.Some?
  {
    var t, last := ToInternalGraphNode(root);
    var internal := From(t, last, DepthRank(root));
    var index := IndexById(internal);
    FromIsReaching(root, t, last, DepthRank(root));
    FromMirrors(root, t, last, DepthRank(root));
    forall k | k in index
      ensures |index[k].parents| == |UserParents(root, k)|
    {
      NoDupCard(ParentIds(index[k].parents));
    }
    if SingleSink(root) {
      FromCoversSingleSink(root, t, last, DepthRank(root));
    }
    ghost var bad;
    r, bad := WalkIo(root, index);
    sink := last;
    if r.Some? {
      forall k | k in Ids(root)
        ensures k in Reaching(root, sink)
      {
        if k == root.id {
          assert root in Subnodes(root);
          assert NodeOf(root, root.id) == root;
        }
      }
    }
  }

  /** The graph handed to `apply`: the user's root and its forward graph. */
  datatype IoConcurrentComputeGraph<!T> = IoConcurrentComputeGraph(root: GraphNode<T>, arena: IoArena<T>)
  {
    /** What `new` establishes: the arena is the forward graph of the root,
        which holds the root's io node and is acyclic. */
    ghost predicate Valid()
    {
      && ConsistentIds(root) && arena == IoGraphOf(root)
      && root.id in arena && WellFormed(arena, HeightRank(root))
    }

    /** `IoConcurrentComputeGraph::new` (lines 21-26), with `None` where
        `from` would panic. */
    static method New(root: GraphNode<T>) returns (r: Option<IoConcurrentComputeGraph<T>>)
      requires ConsistentIds(root)
      ensures r.Some? ==> r.value.root == root && r.value.Valid()
      ensures SingleSink(root) ==> r.Some?
    {
      var arena, sink := IoFrom(root);
      if arena.None? {
        return None;
      }
      IoGraphWellFormed(root);
      assert root in Subnodes(root);
      r := Some(IoConcurrentComputeGraph(root, arena.value));
    }

    /** `apply` (lines 28-30): schedule from the root's io node. A graph
        without forks and joins hands back its input unchanged, since only
        a fork or a join replaces the running result. */
    method Apply(datum: seq<T>) returns (result: seq<T>)
      requires Valid()
      ensures result == Schedule(arena, root.id, datum, HeightRank(root))
      ensures (forall k :: k in arena ==> !arena[k].forkable && arena[k].nParents <= 1) ==> result == datum
    {
      result := ScheduleBfs(arena, root.id, datum, HeightRank(root));
      if forall k :: k in arena ==> !arena[k].forkable && arena[k].nParents <= 1 {
        LinearReturnsInput(arena, root.id, datum, HeightRank(root));
      }
    }
  }
}
