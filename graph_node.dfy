/** The user-facing graph of src/graph/concurrent.rs: a `ConcurrentGraphNode`
    holds a transform, a diagnostic name, its ordered children and an id.
    Nodes are immutable once built and children are shared by reference, so a
    node is modelled as an inductive value whose children are values; a node
    reachable along two paths appears twice with the same id. Acyclicity is
    then a property of the type. */
module GraphNodes {
  import opened Seqs

  /** Node identity (a UUID in the source). Ids are handed in by the caller. */
  type Id = nat

  /** The transforms are plain function pointers `fn(Vec<T>) -> Vec<T>`. */
  type Transform<!T> = seq<T> -> seq<T>

  datatype GraphNode<!T> = GraphNode(f: Transform<T>, name: string, children: seq<GraphNode<T>>, id: Id)

  /** `ConcurrentGraphNode::new`; the fresh UUID is the parameter `id`. */
  function New<T>(f: Transform<T>, m: string, children: seq<GraphNode<T>>, id: Id): (n: GraphNode<T>)
    ensures n.f == f && n.name == m && n.children == children && n.id == id
  {
    GraphNode(f, m, children, id)
  }

  /** `ConcurrentGraphNode::empty`: a node without children. */
  function Empty<T>(f: Transform<T>, m: string, id: Id): (n: GraphNode<T>)
    ensures n.f == f && n.name == m && n.children == [] && n.id == id
    ensures n == New(f, m, [], id)
  {
    GraphNode(f, m, [], id)
  }

  /** Every node reachable from `n` along children, `n` included. */
  ghost function Subnodes<T>(n: GraphNode<T>): set<GraphNode<T>>
  {
    {n} + set i, y | 0 <= i < |n.children| && y in Subnodes(n.children[i]) :: y
  }

  /** The ids of the nodes reachable from `n`. */
  ghost function Ids<T>(n: GraphNode<T>): set<Id>
  {
    set y | y in Subnodes(n) :: y.id
  }

  /** Ids identify nodes: two reachable nodes with the same id are the same node
      (the source draws every id from `Uuid::new_v4`). */
  ghost predicate ConsistentIds<T>(root: GraphNode<T>)
  {
    forall a, b :: a in Subnodes(root) && b in Subnodes(root) && a.id == b.id ==> a == b
  }

  /** The ids of the reachable nodes that list a node with id `k` among their children. */
  ghost function UserParents<T>(root: GraphNode<T>, k: Id): set<Id>
  {
    set y, i | y in Subnodes(root) && 0 <= i < |y.children| && y.children[i].id == k :: y.id
  }

  /** The reachable node that carries id `k`. */
  ghost function NodeOf<T>(root: GraphNode<T>, k: Id): (y: GraphNode<T>)
    requires k in Ids(root)
    ensures y in Subnodes(root) && y.id == k && Size(y) <= Size(root)
  {
    var y :| y in Subnodes(root) && y.id == k;
    SubnodeTrans(root, y, y);
    y
  }

  /** The ids of the reachable nodes from which id `s` is reachable. */
  ghost function Reaching<T>(root: GraphNode<T>, s: Id): set<Id>
  {
    set j | j in Ids(root) && s in Ids(NodeOf(root, j))
  }

  /** A graph with a single sink: all reachable nodes without children share one id. */
  ghost predicate SingleSink<T>(root: GraphNode<T>)
  {
    forall a, b :: a in Subnodes(root) && b in Subnodes(root) && a.children == [] && b.children == [] ==> a.id == b.id
  }

  /** The ids of the children of `cs`, in order. */
  function ChildIds<T>(cs: seq<GraphNode<T>>): (r: seq<Id>)
    ensures |r| == |cs| && forall i :: 0 <= i < |cs| ==> r[i] == cs[i].id
  {
    if cs == [] then [] else [cs[0].id] + ChildIds(cs[1..])
  }

  /** Number of nodes of the tree unfolding of `n` (a node shared by two paths counts twice). */
  function Size<T>(n: GraphNode<T>): nat
    decreases n
  {
    1 + QueueSize(n.children)
  }

  function QueueSize<T>(q: seq<GraphNode<T>>): nat
    decreases q
  {
    if q == [] then 0 else Size(q[0]) + QueueSize(q[1..])
  }

  lemma {:induction false} QueueSizeAppend<T>(a: seq<GraphNode<T>>, b: seq<GraphNode<T>>)
    ensures QueueSize(a + b) == QueueSize(a) + QueueSize(b)
  {
    if a == [] {
      assert a + b == b;
    } else {
      assert (a + b)[1..] == a[1..] + b;
      QueueSizeAppend(a[1..], b);
    }
  }

  lemma {:induction false} QueueSizeElement<T>(q: seq<GraphNode<T>>, i: nat)
    requires i < |q|
    ensures Size(q[i]) <= QueueSize(q)
  {
    if i > 0 {
      QueueSizeElement(q[1..], i - 1);
    }
  }

  lemma ChildSmaller<T>(n: GraphNode<T>, i: nat)
    requires i < |n.children|
    ensures Size(n.children[i]) < Size(n)
  {
    QueueSizeElement(n.children, i);
  }

  /** Reachability is transitive; every reachable node is no larger than `n`. */
  lemma {:induction false} SubnodeTrans<T>(n: GraphNode<T>, x: GraphNode<T>, y: GraphNode<T>)
    requires x in Subnodes(n) && y in Subnodes(x)
    ensures y in Subnodes(n) && Size(y) <= Size(x) <= Size(n)
    decreases n
  {
    if x != n {
      var i :| 0 <= i < |n.children| && x in Subnodes(n.children[i]);
      SubnodeTrans(n.children[i], x, y);
      ChildSmaller(n, i);
    } else if y != x {
      var i :| 0 <= i < |x.children| && y in Subnodes(x.children[i]);
      SubnodeTrans(x.children[i], x.children[i], y);
      ChildSmaller(x, i);
    }
  }

  /** A child of a reachable node is reachable and strictly smaller. */
  lemma ReachableChild<T>(root: GraphNode<T>, y: GraphNode<T>, i: nat)
    requires y in Subnodes(root) && i < |y.children|
    ensures y.children[i] in Subnodes(root)
    ensures Size(y.children[i]) < Size(y) <= Size(root)
  {
    SubnodeTrans(root, y, y.children[i]);
    SubnodeTrans(root, y, y);
    ChildSmaller(y, i);
  }

  /** No reachable node has the root among its children (the graph is acyclic). */
  lemma RootHasNoParents<T>(root: GraphNode<T>)
    requires ConsistentIds(root)
    ensures UserParents(root, root.id) == {}
  {
    if y, i :| y in Subnodes(root) && 0 <= i < |y.children| && y.children[i].id == root.id {
      ReachableChild(root, y, i);
    }
  }

  /** Rank that strictly increases from a parent to any child: the size of the
      root minus the size of the node. It orders the transposed graph. */
  ghost function DepthRank<T>(root: GraphNode<T>): map<Id, nat>
  {
    map k | k in Ids(root) :: Size(root) - Size(NodeOf(root, k))
  }

  /** Rank that strictly decreases from a parent to any child: the size of the node. */
  ghost function HeightRank<T>(root: GraphNode<T>): map<Id, nat>
  {
    map k | k in Ids(root) :: Size(NodeOf(root, k))
  }

  /** A parent id has a smaller depth rank than its child and a larger height rank. */
  lemma ParentRanks<T>(root: GraphNode<T>, y: GraphNode<T>, i: nat)
    requires ConsistentIds(root) && y in Subnodes(root) && i < |y.children|
    ensures y.id in Ids(root) && y.children[i].id in Ids(root)
    ensures DepthRank(root)[y.id] < DepthRank(root)[y.children[i].id]
    ensures HeightRank(root)[y.children[i].id] < HeightRank(root)[y.id]
  {
    ReachableChild(root, y, i);
    SubnodeTrans(root, y, y);
    assert NodeOf(root, y.id) == y;
    assert NodeOf(root, y.children[i].id) == y.children[i];
  }

  lemma UserParentRank<T>(root: GraphNode<T>, k: Id, p: Id)
    requires ConsistentIds(root) && p in UserParents(root, k)
    ensures p in Ids(root) && k in Ids(root)
    ensures DepthRank(root)[p] < DepthRank(root)[k]
  {
    var y, i :| y in Subnodes(root) && 0 <= i < |y.children| && y.children[i].id == k && y.id == p;
    ParentRanks(root, y, i);
  }

  /** A set of ids that holds `n`'s id and is closed under the children of every
      reachable node holds every id reachable from `n`. */
  lemma {:induction false} ClosedHoldsAll<T>(root: GraphNode<T>, s: set<Id>, n: GraphNode<T>)
    requires n in Subnodes(root) && n.id in s
    requires forall y, i :: y in Subnodes(root) && y.id in s && 0 <= i < |y.children| ==> y.children[i].id in s
    ensures Ids(n) <= s
    decreases n
  {
    forall k | k in Ids(n) ensures k in s {
      var y :| y in Subnodes(n) && y.id == k;
      if y != n {
        var i :| 0 <= i < |n.children| && y in Subnodes(n.children[i]);
        ReachableChild(root, n, i);
        ClosedHoldsAll(root, s, n.children[i]);
      }
    }
  }

  /** If `z` reaches `p` and the node of `p` reaches `k`, then `z` reaches `k`. */
  lemma ReachTrans<T>(root: GraphNode<T>, z: GraphNode<T>, p: Id, k: Id)
    requires ConsistentIds(root) && z in Subnodes(root) && p in Ids(z) && p in Ids(root)
    requires k in Ids(NodeOf(root, p))
    ensures k in Ids(z)
  {
    var w :| w in Subnodes(z) && w.id == p;
    SubnodeTrans(root, z, w);
    assert w == NodeOf(root, p);
    var v :| v in Subnodes(w) && v.id == k;
    SubnodeTrans(z, w, v);
  }

  /** A node that reaches id `s` without carrying it reaches `s` through one of its children. */
  lemma ChildOnTheWay<T>(y: GraphNode<T>, s: Id) returns (i: nat)
    requires s in Ids(y) && y.id != s
    ensures i < |y.children| && s in Ids(y.children[i])
  {
    var z :| z in Subnodes(y) && z.id == s;
    i :| 0 <= i < |y.children| && z in Subnodes(y.children[i]);
  }

  /** Every node reaches a node without children. */
  lemma {:induction false} ReachesSink<T>(n: GraphNode<T>) returns (z: GraphNode<T>)
    ensures z in Subnodes(n) && z.children == []
    decreases n
  {
    if n.children == [] {
      z := n;
    } else {
      z := ReachesSink(n.children[0]);
      assert Subnodes(n.children[0]) <= Subnodes(n);
    }
  }
}
