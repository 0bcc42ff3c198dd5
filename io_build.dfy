/** `IoInternalGraphNode::from` of src/graph/io_graph.rs (lines 154-216): a
    breadth-first walk over the user graph that creates one io node per id,
    records its number of parents from the upward index and whether it forks,
    and appends each user child to the children of the io node it hangs
    under. The io nodes are shared and filled in place, so the walk builds an
    arena keyed by id. */
module IoBuild {
  import opened Seqs
  import opened GraphNodes
  import opened Transpose
  import opened InternalGraph
  import opened IoIndex
  import opened IoPlan

  datatype Option<+X> = None | Some(value: X)

  /** The io node of id `k` as `from` creates it, before (`expanded` false)
      or after its children were appended: the user node's transform, name
      and id, its number of user parents, and whether it has more than one
      child. */
  ghost function Entry<T>(root: GraphNode<T>, k: Id, expanded: bool): IoNode<T>
    requires k in Ids(root)
  {
    var y := NodeOf(root, k);
    IoNode(y.f, y.name, if expanded then ChildIds(y.children) else [], k, |UserParents(root, k)|, |y.children| > 1)
  }

  /** The forward graph of `root`: one io node per id, its children the ids
      of the user node's children in order. */
  ghost function IoGraphOf<T>(root: GraphNode<T>): IoArena<T>
  {
    map k | k in Ids(root) :: Entry(root, k, true)
  }

  /** The forward graph is well formed, ordered by the size of each node. */
  lemma IoGraphWellFormed<T>(root: GraphNode<T>)
    requires ConsistentIds(root)
    ensures WellFormed(IoGraphOf(root), HeightRank(root))
  {
    var g, rank := IoGraphOf(root), HeightRank(root);
    forall k | k in g
      ensures g[k].id == k && k in rank && g[k].forkable == (|g[k].children| > 1)
      ensures forall i :: 0 <= i < |g[k].children| ==> g[k].children[i] in g && g[k].children[i] in rank && rank[g[k].children[i]] < rank[k]
    {
      var y := NodeOf(root, k);
      forall i | 0 <= i < |g[k].children|
        ensures g[k].children[i] in g && g[k].children[i] in rank && rank[g[k].children[i]] < rank[k]
      {
        ParentRanks(root, y, i);
      }
    }
  }

  /** Every entry of the index has as many parents as its id has user parents. */
  ghost predicate IndexCounts<T>(root: GraphNode<T>, index: map<Id, InternalNode<T>>)
  {
    forall k :: k in index ==> |index[k].parents| == |UserParents(root, k)|
  }

  /** The ids of the queued user nodes. */
  ghost function QIds<T>(q: seq<GraphNode<T>>): set<Id>
  {
    Elems(ChildIds(q))
  }

  /** The queue holds reachable nodes, each id once. */
  ghost predicate QueueOk<T>(root: GraphNode<T>, q: seq<GraphNode<T>>)
  {
    (forall i :: 0 <= i < |q| ==> q[i] in Subnodes(root)) && NoDup(ChildIds(q))
  }

  lemma QueuePush<T>(root: GraphNode<T>, q: seq<GraphNode<T>>, c: GraphNode<T>)
    requires QueueOk(root, q) && c in Subnodes(root) && c.id !in QIds(q)
    ensures QueueOk(root, q + [c]) && QIds(q + [c]) == QIds(q) + {c.id}
  {
    assert ChildIds(q + [c]) == ChildIds(q) + [c.id];
    NoDupPush(ChildIds(q), c.id);
  }

  lemma QueuePop<T>(root: GraphNode<T>, q: seq<GraphNode<T>>)
    requires QueueOk(root, q) && |q| > 0
    ensures QueueOk(root, q[1..]) && QIds(q[1..]) == QIds(q) - {q[0].id}
  {
    NoDupPop(ChildIds(q));
    assert ChildIds(q)[1..] == ChildIds(q[1..]);
  }

  /** The arena holds the ids expanded (`done`), queued, or being expanded
      (`cur`), all reachable and each in one place; `visited` is every id
      stored but the root's. */
  ghost predicate KeysOk<T>(root: GraphNode<T>, g: IoArena<T>, q: seq<GraphNode<T>>, visited: set<Id>, done: set<Id>, cur: set<Id>)
  {
    && g.Keys <= Ids(root) && root.id in g && visited == g.Keys - {root.id}
    && g.Keys == done + QIds(q) + cur
    && done !! QIds(q) && cur !! (done + QIds(q))
  }

  lemma KeysSame<T>(root: GraphNode<T>, g: IoArena<T>, g': IoArena<T>, q: seq<GraphNode<T>>, visited: set<Id>, done: set<Id>, cur: set<Id>)
    requires KeysOk(root, g, q, visited, done, cur) && g'.Keys == g.Keys
    ensures KeysOk(root, g', q, visited, done, cur)
  {
  }

  lemma KeysFresh<T>(root: GraphNode<T>, g: IoArena<T>, q: seq<GraphNode<T>>, visited: set<Id>, done: set<Id>, cur: set<Id>,
                     c: GraphNode<T>, n: IoNode<T>)
    requires KeysOk(root, g, q, visited, done, cur) && QueueOk(root, q)
    requires c in Subnodes(root) && c.id !in g && c.id != root.id
    ensures KeysOk(root, g[c.id := n], q + [c], visited + {c.id}, done, cur) && QueueOk(root, q + [c])
  {
    QueuePush(root, q, c);
    assert g[c.id := n].Keys == g.Keys + {c.id};
  }

  lemma KeysPop<T>(root: GraphNode<T>, g: IoArena<T>, q: seq<GraphNode<T>>, visited: set<Id>, done: set<Id>)
    requires KeysOk(root, g, q, visited, done, {}) && QueueOk(root, q) && |q| > 0
    ensures KeysOk(root, g, q[1..], visited, done, {q[0].id}) && QueueOk(root, q[1..])
  {
    QueuePop(root, q);
  }

  lemma KeysFinish<T>(root: GraphNode<T>, g: IoArena<T>, q: seq<GraphNode<T>>, visited: set<Id>, done: set<Id>, k: Id)
    requires KeysOk(root, g, q, visited, done, {k})
    ensures KeysOk(root, g, q, visited, done + {k}, {})
  {
  }

  /** Each stored node other than the ones being expanded is its `Entry`. */
  ghost predicate EntriesOk<T>(root: GraphNode<T>, g: IoArena<T>, done: set<Id>, cur: set<Id>)
  {
    forall k :: k in g && k !in cur ==> k in Ids(root) && g[k] == Entry(root, k, k in done)
  }

  lemma EntriesCur<T>(root: GraphNode<T>, g: IoArena<T>, done: set<Id>, cur: set<Id>, k: Id, n: IoNode<T>)
    requires EntriesOk(root, g, done, cur) && k in cur
    ensures EntriesOk(root, g[k := n], done, cur)
  {
  }

  lemma EntriesAdd<T>(root: GraphNode<T>, g: IoArena<T>, done: set<Id>, cur: set<Id>, k: Id)
    requires EntriesOk(root, g, done, cur) && k in Ids(root) && k !in done
    ensures EntriesOk(root, g[k := Entry(root, k, false)], done, cur)
  {
  }

  lemma EntriesFinish<T>(root: GraphNode<T>, g: IoArena<T>, done: set<Id>, k: Id)
    requires EntriesOk(root, g, done, {k}) && k in Ids(root) && k in g && g[k] == Entry(root, k, true)
    ensures EntriesOk(root, g, done + {k}, {})
  {
  }

  /** Every id stored other than the root's passed the index lookup. */
  ghost predicate Indexed<T>(root: GraphNode<T>, g: IoArena<T>, index: map<Id, InternalNode<T>>)
  {
    forall k :: k in g ==> k == root.id || k in index
  }

  /** The children of every expanded node are stored. */
  ghost predicate Closed<T>(root: GraphNode<T>, g: IoArena<T>, done: set<Id>)
  {
    forall k, i :: k in done && k in Ids(root) && 0 <= i < |NodeOf(root, k).children| ==> NodeOf(root, k).children[i].id in g
  }

  lemma ClosedGrow<T>(root: GraphNode<T>, g: IoArena<T>, g': IoArena<T>, done: set<Id>)
    requires Closed(root, g, done) && g.Keys <= g'.Keys
    ensures Closed(root, g', done)
  {
  }

  lemma ClosedFinish<T>(root: GraphNode<T>, g: IoArena<T>, done: set<Id>, x: GraphNode<T>)
    requires ConsistentIds(root) && x in Subnodes(root)
    requires Closed(root, g, done) && forall j :: 0 <= j < |x.children| ==> x.children[j].id in g
    ensures Closed(root, g, done + {x.id})
  {
    assert NodeOf(root, x.id) == x;
  }

  /** The walk's state: the queue, the keys, the entries, the index lookups
      and the closure above, with `cur` the ids being expanded. */
  ghost predicate Building<T>(root: GraphNode<T>, index: map<Id, InternalNode<T>>, g: IoArena<T>,
                              q: seq<GraphNode<T>>, visited: set<Id>, done: set<Id>, cur: set<Id>)
  {
    && QueueOk(root, q)
    && KeysOk(root, g, q, visited, done, cur)
    && EntriesOk(root, g, done, cur)
    && Indexed(root, g, index)
    && Closed(root, g, done)
  }

  /** The io node of `x` while its children are walked: the first `i` of
      them are appended and stored. */
  ghost predicate Partial<T>(root: GraphNode<T>, g: IoArena<T>, x: GraphNode<T>, i: nat)
  {
    && x.id in g && x.id in Ids(root) && i <= |x.children|
    && g[x.id] == Entry(root, x.id, false).(children := ChildIds(x.children[..i]))
    && (forall j :: 0 <= j < i ==> x.children[j].id in g)
  }

  lemma PartialStep<T>(root: GraphNode<T>, g: IoArena<T>, x: GraphNode<T>, i: nat)
    requires Partial(root, g, x, i) && i < |x.children| && x.children[i].id in g
    ensures Partial(root, g[x.id := g[x.id].(children := g[x.id].children + [x.children[i].id])], x, i + 1)
  {
    var c := x.children[i];
    var e := Entry(root, x.id, false);
    assert ChildIds(x.children[..i + 1]) == ChildIds(x.children[..i]) + [c.id];
    assert g[x.id].(children := g[x.id].children + [c.id]) == e.(children := ChildIds(x.children[..i + 1]));
  }

  lemma PartialOther<T>(root: GraphNode<T>, g: IoArena<T>, x: GraphNode<T>, i: nat, k: Id, n: IoNode<T>)
    requires Partial(root, g, x, i) && k != x.id
    ensures Partial(root, g[k := n], x, i)
  {
  }

  lemma IndexedAdd<T>(root: GraphNode<T>, g: IoArena<T>, index: map<Id, InternalNode<T>>, k: Id, n: IoNode<T>)
    requires Indexed(root, g, index) && (k in g || k in index)
    ensures Indexed(root, g[k := n], index)
  {
  }

  /** The state while the children of `x` are walked. */
  ghost predicate Expanding<T>(root: GraphNode<T>, index: map<Id, InternalNode<T>>, g: IoArena<T>,
                               q: seq<GraphNode<T>>, visited: set<Id>, done: set<Id>, x: GraphNode<T>, i: nat)
  {
    && x in Subnodes(root)
    && Building(root, index, g, q, visited, done, {x.id})
    && Partial(root, g, x, i)
  }

  /** A child of a reachable node is neither the root nor the node itself. */
  lemma ChildIsNew<T>(root: GraphNode<T>, x: GraphNode<T>, i: nat)
    requires ConsistentIds(root) && x in Subnodes(root) && i < |x.children|
    ensures x.children[i] in Subnodes(root) && NodeOf(root, x.children[i].id) == x.children[i]
    ensures x.children[i].id != root.id && x.children[i].id != x.id
  {
    var c := x.children[i];
    ParentRanks(root, x, i);
    ReachableChild(root, x, i);
    RootHasNoParents(root);
    assert x.id in UserParents(root, c.id);
  }

  /** Appending a child already stored to the io node of `x`. */
  lemma LinkSeen<T>(root: GraphNode<T>, index: map<Id, InternalNode<T>>, g: IoArena<T>, q: seq<GraphNode<T>>,
                    visited: set<Id>, done: set<Id>, x: GraphNode<T>, i: nat)
    requires Expanding(root, index, g, q, visited, done, x, i) && i < |x.children| && x.children[i].id in g
    ensures Expanding(root, index, g[x.id := g[x.id].(children := g[x.id].children + [x.children[i].id])], q, visited, done, x, i + 1)
  {
    var c := x.children[i];
    var g' := g[x.id := g[x.id].(children := g[x.id].children + [c.id])];
    assert g'.Keys == g.Keys;
    KeysSame(root, g, g', q, visited, done, {x.id});
    EntriesCur(root, g, done, {x.id}, x.id, g'[x.id]);
    IndexedAdd(root, g, index, x.id, g'[x.id]);
    ClosedGrow(root, g, g', done);
    PartialStep(root, g, x, i);
  }

  /** Creating the io node of a child met for the first time and queueing it. */
  lemma AddFresh<T>(root: GraphNode<T>, index: map<Id, InternalNode<T>>, g: IoArena<T>, q: seq<GraphNode<T>>,
                    visited: set<Id>, done: set<Id>, x: GraphNode<T>, i: nat, n: IoNode<T>)
    requires ConsistentIds(root) && IndexCounts(root, index)
    requires Expanding(root, index, g, q, visited, done, x, i) && i < |x.children|
    requires x.children[i].id !in g && x.children[i].id in index
    requires n == IoNode(x.children[i].f, x.children[i].name, [], x.children[i].id,
                         |index[x.children[i].id].parents|, |x.children[i].children| > 1)
    ensures Expanding(root, index, g[x.children[i].id := n], q + [x.children[i]], visited + {x.children[i].id}, done, x, i)
  {
    var c := x.children[i];
    ChildIsNew(root, x, i);
    assert n == Entry(root, c.id, false);
    KeysFresh(root, g, q, visited, done, {x.id}, c, n);
    EntriesAdd(root, g, done, {x.id}, c.id);
    IndexedAdd(root, g, index, c.id, n);
    ClosedGrow(root, g, g[c.id := n], done);
    PartialOther(root, g, x, i, c.id, n);
  }

  /** Lines 182-211 for one child: look up its parent count (failing when the
      index lacks it), fetch or create its io node, append it to the io node
      of `x`, and queue it unless it was seen before. */
  method LinkIo<T>(root: GraphNode<T>, index: map<Id, InternalNode<T>>, g0: IoArena<T>, q0: seq<GraphNode<T>>,
                   visited0: set<Id>, ghost done: set<Id>, x: GraphNode<T>, i: nat)
      returns (ok: bool, g: IoArena<T>, q: seq<GraphNode<T>>, visited: set<Id>)
    requires ConsistentIds(root) && IndexCounts(root, index)
    requires Expanding(root, index, g0, q0, visited0, done, x, i) && i < |x.children|
    ensures ok <==> x.children[i].id in index
    ensures ok ==> Expanding(root, index, g, q, visited, done, x, i + 1)
    ensures !ok ==> x.children[i].id in Ids(root)
  {
    var c := x.children[i];
    ChildIsNew(root, x, i);
    if c.id !in index {
      return false, g0, q0, visited0;
    }
    var nParents := |index[c.id].parents|;
    g, q, visited := g0, q0, visited0;
    ghost var q1, visited1 := q, visited;
    if c.id !in g {
      var n := IoNode(c.f, c.name, [], c.id, nParents, |c.children| > 1);
      AddFresh(root, index, g, q, visited, done, x, i, n);
      g := g[c.id := n];
      q1, visited1 := q + [c], visited + {c.id};
    }
    LinkSeen(root, index, g, q1, visited1, done, x, i);
    g := g[x.id := g[x.id].(children := g[x.id].children + [c.id])];
    if c.id !in visited {
      q := q + [c];
    }
    visited := visited + {c.id};
    ok := true;
  }

  /** Lines 179-212 for one popped node: walk its children in order. */
  method ExpandIo<T>(root: GraphNode<T>, index: map<Id, InternalNode<T>>, g0: IoArena<T>, q0: seq<GraphNode<T>>,
                     visited0: set<Id>, ghost done: set<Id>, x: GraphNode<T>)
      returns (ok: bool, g: IoArena<T>, q: seq<GraphNode<T>>, visited: set<Id>, ghost bad: Id)
    requires ConsistentIds(root) && IndexCounts(root, index)
    requires Expanding(root, index, g0, q0, visited0, done, x, 0)
    ensures ok ==> Building(root, index, g, q, visited, done + {x.id}, {})
    ensures !ok ==> bad in Ids(root) && bad !in index
  {
    g, q, visited := g0, q0, visited0;
    bad := root.id;
    for i := 0 to |x.children|
      invariant Expanding(root, index, g, q, visited, done, x, i)
    {
      ok, g, q, visited := LinkIo(root, index, g, q, visited, done, x, i);
      if !ok {
        bad := x.children[i].id;
        return;
      }
    }
    assert x.children[..|x.children|] == x.children;
    assert NodeOf(root, x.id) == x;
    EntriesFinish(root, g, done, x.id);
    ClosedFinish(root, g, done, x);
    KeysFinish(root, g, q, visited, done, x.id);
    ok := true;
  }

  /** Lines 155-176: the root's io node, with no parents, alone in the arena and the queue. */
  lemma WalkStart<T>(root: GraphNode<T>, index: map<Id, InternalNode<T>>)
    requires ConsistentIds(root)
    ensures Building(root, index, map[root.id := IoNode(root.f, root.name, [], root.id, 0, |root.children| > 1)], [root], {}, {}, {})
  {
    var g: IoArena<T> := map[root.id := IoNode(root.f, root.name, [], root.id, 0, |root.children| > 1)];
    assert root in Subnodes(root);
    assert NodeOf(root, root.id) == root;
    RootHasNoParents(root);
    assert ChildIds([root]) == [root.id];
    assert QIds([root]) == {root.id};
    assert g[root.id] == Entry(root, root.id, false);
  }

  /** Lines 179-180: the popped node is expanded next, and was not before. */
  lemma WalkPop<T>(root: GraphNode<T>, index: map<Id, InternalNode<T>>, g: IoArena<T>, q: seq<GraphNode<T>>,
                   visited: set<Id>, done: set<Id>)
    requires Building(root, index, g, q, visited, done, {}) && |q| > 0
    ensures Expanding(root, index, g, q[1..], visited, done, q[0], 0)
    ensures q[0].id in Ids(root) - done
  {
    var x := q[0];
    KeysPop(root, g, q, visited, done);
    assert x.children[..0] == [];
    assert g[x.id] == Entry(root, x.id, false).(children := ChildIds(x.children[..0]));
  }

  /** When the expanded ids are closed under children, they are all the ids. */
  lemma AllDone<T>(root: GraphNode<T>, g: IoArena<T>, done: set<Id>)
    requires ConsistentIds(root) && Closed(root, g, done) && g.Keys == done && root.id in done && done <= Ids(root)
    ensures done == Ids(root)
  {
    ClosedHoldsAll(root, done, root) by {
      assert root in Subnodes(root);
      forall y, i | y in Subnodes(root) && y.id in done && 0 <= i < |y.children|
        ensures y.children[i].id in done
      {
        assert NodeOf(root, y.id) == y;
      }
    }
  }

  /** Once the queue is empty, every id has been expanded and the arena is the forward graph. */
  lemma WalkEnd<T>(root: GraphNode<T>, index: map<Id, InternalNode<T>>, g: IoArena<T>, visited: set<Id>, done: set<Id>)
    requires ConsistentIds(root) && Building(root, index, g, [], visited, done, {})
    ensures g == IoGraphOf(root) && forall k :: k in Ids(root) ==> k == root.id || k in index
  {
    var none: seq<GraphNode<T>> := [];
    ElemsEmpty(ChildIds(none));
    assert g.Keys == done;
    AllDone(root, g, done);
    var h := IoGraphOf(root);
    assert g.Keys == h.Keys;
    forall k | k in g ensures g[k] == h[k] {
      assert k in done;
    }
  }

  /** The loop of lines 178-213, failing where the `unwrap` of line 185 would. */
  method WalkIo<T>(root: GraphNode<T>, index: map<Id, InternalNode<T>>) returns (r: Option<IoArena<T>>, ghost bad: Id)
    requires ConsistentIds(root) && IndexCounts(root, index)
    ensures r.Some? ==> r.value == IoGraphOf(root) && forall k :: k in Ids(root) ==> k == root.id || k in index
    ensures r.None? ==> bad in Ids(root) && bad !in index
  {
    var g: IoArena<T> := map[root.id := IoNode(root.f, root.name, [], root.id, 0, |root.children| > 1)];
    var q := [root];
    var visited: set<Id> := {};
    ghost var done: set<Id> := {};
    WalkStart(root, index);
    bad := root.id;
    while |q| > 0
      invariant Building(root, index, g, q, visited, done, {})
      decreases Ids(root) - done
    {
      var x := q[0];
      WalkPop(root, index, g, q, visited, done);
      q := q[1..];
      var ok;
      ok, g, q, visited, bad := ExpandIo(root, index, g, q, visited, done, x);
      if !ok {
        return None, bad;
      }
      done := done + {x.id};
    }
    WalkEnd(root, index, g, visited, done);
    r := Some(g);
  }
}
