/** `ConcurrentComputeGraph` of src/graph/concurrent.rs: the user's root
    together with the parent-pointing tree built from it once, which `apply`
    and `apply_batch` evaluate. */
module ConcurrentGraph {
  import opened Seqs
  import opened GraphNodes
  import opened Transpose
  import opened InternalGraph

  datatype ConcurrentComputeGraph<!T> = ConcurrentComputeGraph(root: GraphNode<T>, internalRoot: InternalNode<T>)
  {
    /** What `new` establishes: the internal root is the tree copied upwards
        from the node the walk of `to_internal_graph_node` returns, over the
        parents lists that walk builds (so the order of every parents list is
        the order in which the walk met the parents). That node is a sink of
        the user graph; the tree above it holds exactly the user nodes from
        which that sink is reachable, each copying its user node and listing
        that node's user parents once each; a root without children is its own
        internal node. */
    ghost predicate Valid()
    {
      && ConsistentIds(root)
      && internalRoot.id in Ids(root) && NodeOf(root, internalRoot.id).children == []
      && AncestryIds(internalRoot) == Reaching(root, internalRoot.id)
      && (forall z :: z in Ancestry(internalRoot) ==>
            && z.id in Ids(root) && z.f == NodeOf(root, z.id).f && z.name == NodeOf(root, z.id).name
            && NoDup(ParentIds(z.parents)) && Elems(ParentIds(z.parents)) == UserParents(root, z.id))
      && (|root.children| == 0 ==> internalRoot.id == root.id)
      && (var (t, last) := TransposeOf(root);
          && KeyedById(t) && TmpRanked(t, DepthRank(root)) && last in t
          && internalRoot == From(t, last, DepthRank(root)))
    }

    /** `ConcurrentComputeGraph::new` (lines 17-22): transpose the user graph
        and copy the transpose upwards from the node the walk returns. With a
        single sink nothing of the user graph is lost. */
    static method New(root: GraphNode<T>) returns (g: ConcurrentComputeGraph<T>)
      requires ConsistentIds(root)
      ensures g.root == root && g.Valid()
      ensures SingleSink(root) ==> AncestryIds(g.internalRoot) == Ids(root)
    {
      var t, last := ToInternalGraphNode(root);
      var internal := From(t, last, DepthRank(root));
      FromIsReaching(root, t, last, DepthRank(root));
      FromMirrors(root, t, last, DepthRank(root));
      if SingleSink(root) {
        FromCoversSingleSink(root, t, last, DepthRank(root));
      }
      g := ConcurrentComputeGraph(root, internal);
    }

    /** `apply` (lines 24-26): the evaluation of the tree the walk builds from
        the user's root, so the same root gives the same result. A graph of one
        node applies its transform. */
    function Apply(datum: seq<T>): (r: seq<T>)
      requires Valid()
      ensures r == InternalGraph.Apply(From(TransposeOf(root).0, TransposeOf(root).1, DepthRank(root)), datum)
      ensures |root.children| == 0 ==> r == root.f(datum)
    {
      if |root.children| == 0 then
        RootHasNoParents(root);
        assert internalRoot in Ancestry(internalRoot);
        assert NodeOf(root, root.id) == root by {
          assert root in Subnodes(root);
        }
        ElemsEmpty(ParentIds(internalRoot.parents));
        InternalGraph.Apply(internalRoot, datum)
      else
        InternalGraph.Apply(internalRoot, datum)
    }

    /** `apply_batch` (lines 28-30) as written: the internal tree's batch
        evaluation, which returns one output per path from a node without
        parents for each input. On a straight line that is one output per
        input, each what `apply` returns for it. */
    function ApplyBatch(batch: seq<seq<T>>): (r: seq<seq<T>>)
      requires Valid()
      ensures |r| == PathCount(internalRoot) * |batch|
      ensures IsChain(internalRoot) ==> |r| == |batch| && forall i :: 0 <= i < |batch| ==> r[i] == Apply(batch[i])
    {
      ApplyBatchLength(internalRoot, batch);
      assert IsChain(internalRoot) ==> InternalGraph.ApplyBatch(internalRoot, batch) == ApplyEach(internalRoot, batch) by {
        if IsChain(internalRoot) {
          ApplyBatchOnChain(internalRoot, batch);
        }
      }
      InternalGraph.ApplyBatch(internalRoot, batch)
    }

    /** The batch evaluation the interface promises, which `apply_batch` would
        be if every node evaluated each input on its own: one output per input,
        each what `apply` returns for it, on every graph. */
    function ApplyBatchPerInput(batch: seq<seq<T>>): (r: seq<seq<T>>)
      requires Valid()
      ensures |r| == |batch| && forall i :: 0 <= i < |batch| ==> r[i] == Apply(batch[i])
    {
      ApplyBatchPerInputIsApply(internalRoot, batch);
      InternalGraph.ApplyBatchPerInput(internalRoot, batch)
    }
  }

  /** A graph built over the diamond evaluates from `last`, whose parents are
      `mid1` then `mid2`: the order of the parents is the order of the walk. */
  lemma DiamondParentsOrder(g: ConcurrentComputeGraph<int>)
    requires g.root == UserDiamond() && g.Valid()
    ensures g.internalRoot.id == 3 && ParentIds(g.internalRoot.parents) == [1, 2]
  {
    TransposeDiamond();
  }
}
