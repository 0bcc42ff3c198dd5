/** The transposition of src/graph/concurrent.rs (`ConcurrentTmpInternalGraphNode`):
    a breadth-first walk over the user graph that builds one mutable node per id,
    each holding the ids of its parents. The shared nodes and their
    `AtomicRefCell` parents lists become an arena keyed by id whose entries the
    walk reassigns. */
module Transpose {
  import opened Seqs
  import opened GraphNodes

  /** `ConcurrentTmpInternalGraphNode`: transform, name, parents (as ids) and id. */
  datatype TmpNode<!T> = TmpNode(f: Transform<T>, name: string, parents: seq<Id>, id: Id)

  /** The `id_to_internal_node` map: the one mutable node of each id. */
  type TmpArena<!T> = map<Id, TmpNode<T>>

  /** `ConcurrentTmpInternalGraphNode::empty`: a node that has no parents yet. */
  function EmptyTmp<T>(f: Transform<T>, m: string, id: Id): (n: TmpNode<T>)
    ensures n.f == f && n.name == m && n.id == id && n.parents == []
  {
    TmpNode(f, m, [], id)
  }

  /** `t` is the transpose of the graph reachable from `root`: one node per
      reachable id, carrying that node's transform and name, whose parents list
      holds each parent id exactly once. */
  ghost predicate Transposes<T>(root: GraphNode<T>, t: TmpArena<T>)
  {
    && t.Keys == Ids(root)
    && (forall y :: y in Subnodes(root) ==> t[y.id].id == y.id && t[y.id].f == y.f && t[y.id].name == y.name)
    && (forall k :: k in t ==> NoDup(t[k].parents) && Elems(t[k].parents) == UserParents(root, k))
  }

  /** Every node of `t` is stored under its own id. */
  ghost predicate KeyedById<T>(t: TmpArena<T>)
  {
    forall k :: k in t ==> t[k].id == k
  }

  /** Every parent named in `t` is a node of `t` with a smaller rank, so walking
      up the parents terminates. */
  ghost predicate TmpRanked<T>(t: TmpArena<T>, rank: map<Id, nat>)
  {
    forall k :: k in t ==> k in rank && forall i :: 0 <= i < |t[k].parents| ==> t[k].parents[i] in t && t[k].parents[i] in rank && rank[t[k].parents[i]] < rank[k]
  }

  /** `y` has been popped: each child has a node whose recorded parent ids hold `y`. */
  ghost predicate Expanded<T>(y: GraphNode<T>, t: TmpArena<T>, ps: map<Id, set<Id>>)
  {
    PartlyExpanded(y, |y.children|, t, ps)
  }

  /** The first `n` children of `y` have been handled. */
  ghost predicate PartlyExpanded<T>(y: GraphNode<T>, n: nat, t: TmpArena<T>, ps: map<Id, set<Id>>)
  {
    forall i :: 0 <= i < n && i < |y.children| ==> y.children[i].id in t && y.children[i].id in ps && y.id in ps[y.children[i].id]
  }

  /** The bookkeeping of the walk agrees with the graph: `t` and `ps`
      (`id_to_parent_ids`) have the same ids, all reachable; each node carries
      its id, transform and name; its parents list has no duplicate and holds
      exactly the recorded parent ids, each a real parent. */
  ghost predicate Sound<T>(root: GraphNode<T>, t: TmpArena<T>, ps: map<Id, set<Id>>)
  {
    && root.id in t && t.Keys == ps.Keys && t.Keys <= Ids(root)
    && (forall k :: k in t ==> t[k].id == k && NoDup(t[k].parents) && Elems(t[k].parents) == ps[k] && ps[k] <= UserParents(root, k))
    && (forall y :: y in Subnodes(root) && y.id in t ==> t[y.id].f == y.f && t[y.id].name == y.name)
  }

  /** Every queued node is reachable and already has its node in `t`. */
  ghost predicate Queued<T>(root: GraphNode<T>, q: seq<GraphNode<T>>, t: TmpArena<T>)
  {
    forall j :: 0 <= j < |q| ==> q[j] in Subnodes(root) && q[j].id in t
  }

  /** Every built node is still queued, is `x` (being expanded), or has been expanded. */
  ghost predicate ClosedBut<T>(root: GraphNode<T>, q: seq<GraphNode<T>>, x: GraphNode<T>, t: TmpArena<T>, ps: map<Id, set<Id>>)
  {
    forall y :: y in Subnodes(root) && y.id in t ==> y in q || y == x || Expanded(y, t, ps)
  }

  ghost predicate Grown<T>(t: TmpArena<T>, ps: map<Id, set<Id>>, t': TmpArena<T>, ps': map<Id, set<Id>>)
  {
    t.Keys <= t'.Keys && ps.Keys <= ps'.Keys && forall k :: k in ps ==> ps[k] <= ps'[k]
  }

  /** Lines 197-218 for one child `c` of the popped node `x`: fetch or create
      the child's node, append `x` to its parents unless already recorded,
      record `x` in its parent-id set and store the node. */
  function Link<T>(t: TmpArena<T>, ps: map<Id, set<Id>>, x: Id, c: GraphNode<T>): (r: (TmpArena<T>, map<Id, set<Id>>))
  {
    var cur := if c.id in t then t[c.id] else EmptyTmp(c.f, c.name, c.id);
    var cur' := if c.id !in ps || x !in ps[c.id] then cur.(parents := cur.parents + [x]) else cur;
    var ps' := if c.id in ps then ps[c.id := ps[c.id] + {x}] else ps[c.id := {x}];
    (t[c.id := cur'], ps')
  }

  /** The `for child in node.children` loop for the popped node of id `x`:
      `Link` each child of `cs` in turn. */
  function LinkAll<T>(t: TmpArena<T>, ps: map<Id, set<Id>>, x: Id, cs: seq<GraphNode<T>>): (TmpArena<T>, map<Id, set<Id>>)
    decreases |cs|
  {
    if |cs| == 0 then (t, ps) else LinkAll(Link(t, ps, x, cs[0]).0, Link(t, ps, x, cs[0]).1, x, cs[1..])
  }

  /** The `while bfs_q.len() != 0` loop from the queue `q`: pop the front node,
      link its children, queue them, and move `internal_arc` to its last
      child. It ends with the arena and the id of the node returned. */
  function Walk<T>(q: seq<GraphNode<T>>, t: TmpArena<T>, ps: map<Id, set<Id>>, last: Id): (TmpArena<T>, Id)
    decreases QueueSize(q)
  {
    if |q| == 0 then (t, last)
    else
      PopShrinks(q);
      var x := q[0];
      var r := LinkAll(t, ps, x.id, x.children);
      Walk(q[1..] + x.children, r.0, r.1, if |x.children| == 0 then last else x.children[|x.children| - 1].id)
  }

  /** What `to_internal_graph_node` computes from `node`: the walk from the
      root's own node, alone in the maps and the queue. */
  function TransposeOf<T>(node: GraphNode<T>): (TmpArena<T>, Id)
  {
    Walk([node], map[node.id := EmptyTmp(node.f, node.name, node.id)], map[node.id := {}], node.id)
  }

  /** The node `Link` stores for the child `c` is sound when the child's
      previous node (if any) was. */
  lemma LinkEntry<T>(root: GraphNode<T>, t: TmpArena<T>, ps: map<Id, set<Id>>, x: Id, c: GraphNode<T>)
    requires c.id in t <==> c.id in ps
    requires c.id in t ==> t[c.id].id == c.id && NoDup(t[c.id].parents) && Elems(t[c.id].parents) == ps[c.id] && ps[c.id] <= UserParents(root, c.id)
    requires x in UserParents(root, c.id)
    ensures var r := Link(t, ps, x, c);
      r.0[c.id].id == c.id && NoDup(r.0[c.id].parents) && Elems(r.0[c.id].parents) == r.1[c.id] && r.1[c.id] <= UserParents(root, c.id)
  {
    if c.id in t {
      if x !in ps[c.id] {
        NoDupPush(t[c.id].parents, x);
      }
    } else {
      NoDupPush([], x);
    }
  }

  /** After `Link`, every node still carries its id and a duplicate-free
      parents list that holds exactly its recorded parent ids. */
  lemma LinkEntries<T>(root: GraphNode<T>, t: TmpArena<T>, ps: map<Id, set<Id>>, x: Id, c: GraphNode<T>)
    requires Sound(root, t, ps) && x in UserParents(root, c.id)
    ensures var r := Link(t, ps, x, c);
      forall k :: k in r.0 ==> r.0[k].id == k && NoDup(r.0[k].parents) && Elems(r.0[k].parents) == r.1[k] && r.1[k] <= UserParents(root, k)
  {
    LinkEntry(root, t, ps, x, c);
    var r := Link(t, ps, x, c);
    forall k | k in r.0 && k != c.id
      ensures r.0[k].id == k && NoDup(r.0[k].parents) && Elems(r.0[k].parents) == r.1[k] && r.1[k] <= UserParents(root, k)
    {
      assert r.0[k] == t[k] && r.1[k] == ps[k];
    }
  }

  /** After `Link`, every node still carries the transform and name of the user node of its id. */
  lemma LinkLabels<T>(root: GraphNode<T>, t: TmpArena<T>, ps: map<Id, set<Id>>, x: Id, c: GraphNode<T>)
    requires ConsistentIds(root) && Sound(root, t, ps) && c in Subnodes(root)
    ensures var r := Link(t, ps, x, c);
      forall y :: y in Subnodes(root) && y.id in r.0 ==> r.0[y.id].f == y.f && r.0[y.id].name == y.name
  {
    var r := Link(t, ps, x, c);
    forall y | y in Subnodes(root) && y.id in r.0
      ensures r.0[y.id].f == y.f && r.0[y.id].name == y.name
    {
      if y.id == c.id {
        assert y == c;
      } else {
        assert r.0[y.id] == t[y.id];
      }
    }
  }

  lemma LinkSound<T>(root: GraphNode<T>, t: TmpArena<T>, ps: map<Id, set<Id>>, x: GraphNode<T>, i: nat)
    requires ConsistentIds(root) && Sound(root, t, ps)
    requires x in Subnodes(root) && i < |x.children|
    ensures var (t', ps') := Link(t, ps, x.id, x.children[i]);
      Sound(root, t', ps') && Grown(t, ps, t', ps') && t'.Keys == t.Keys + {x.children[i].id}
  {
    var c := x.children[i];
    ReachableChild(root, x, i);
    assert x.id in UserParents(root, c.id);
    assert c.id in Ids(root);
    LinkEntries(root, t, ps, x.id, c);
    LinkLabels(root, t, ps, x.id, c);
  }

  lemma PartlyGrows<T>(y: GraphNode<T>, n: nat, t: TmpArena<T>, ps: map<Id, set<Id>>, t': TmpArena<T>, ps': map<Id, set<Id>>)
    requires PartlyExpanded(y, n, t, ps) && Grown(t, ps, t', ps')
    ensures PartlyExpanded(y, n, t', ps')
  {
  }

  lemma LinkExpands<T>(t: TmpArena<T>, ps: map<Id, set<Id>>, x: GraphNode<T>, i: nat)
    requires i < |x.children| && PartlyExpanded(x, i, t, ps)
    requires Grown(t, ps, Link(t, ps, x.id, x.children[i]).0, Link(t, ps, x.id, x.children[i]).1)
    ensures PartlyExpanded(x, i + 1, Link(t, ps, x.id, x.children[i]).0, Link(t, ps, x.id, x.children[i]).1)
  {
    var (t', ps') := Link(t, ps, x.id, x.children[i]);
    PartlyGrows(x, i, t, ps, t', ps');
  }

  lemma LinkClosed<T>(root: GraphNode<T>, t: TmpArena<T>, ps: map<Id, set<Id>>, q: seq<GraphNode<T>>, x: GraphNode<T>, i: nat)
    requires ConsistentIds(root)
    requires x in Subnodes(root) && i < |x.children|
    requires ClosedBut(root, q, x, t, ps)
    requires Grown(t, ps, Link(t, ps, x.id, x.children[i]).0, Link(t, ps, x.id, x.children[i]).1)
    requires Link(t, ps, x.id, x.children[i]).0.Keys == t.Keys + {x.children[i].id}
    ensures ClosedBut(root, q + [x.children[i]], x, Link(t, ps, x.id, x.children[i]).0, Link(t, ps, x.id, x.children[i]).1)
  {
    var c := x.children[i];
    ReachableChild(root, x, i);
    var (t', ps') := Link(t, ps, x.id, c);
    var q' := q + [c];
    forall y | y in Subnodes(root) && y.id in t'
      ensures y in q' || y == x || Expanded(y, t', ps')
    {
      if y.id == c.id {
        assert y == c;
        assert q'[|q|] == c;
      } else if y in q {
        var j :| 0 <= j < |q| && q[j] == y;
        assert q'[j] == y;
      } else if y != x {
        PartlyGrows(y, |y.children|, t, ps, t', ps');
      }
    }
  }

  lemma LinkQueued<T>(root: GraphNode<T>, t: TmpArena<T>, ps: map<Id, set<Id>>, q: seq<GraphNode<T>>, x: GraphNode<T>, i: nat)
    requires x in Subnodes(root) && i < |x.children| && Queued(root, q, t)
    requires Link(t, ps, x.id, x.children[i]).0.Keys == t.Keys + {x.children[i].id}
    ensures Queued(root, q + [x.children[i]], Link(t, ps, x.id, x.children[i]).0)
  {
    ReachableChild(root, x, i);
  }

  lemma PushNext<X>(a: seq<X>, b: seq<X>, i: nat)
    requires i < |b|
    ensures (a + b[..i]) + [b[i]] == a + b[..i + 1]
  {
    assert b[..i + 1] == b[..i] + [b[i]];
  }

  /** Once every built node has been expanded, each parents list holds every
      parent of its node. */
  lemma ParentsComplete<T>(node: GraphNode<T>, t: TmpArena<T>, ps: map<Id, set<Id>>)
    requires Sound(node, t, ps)
    requires t.Keys == Ids(node)
    requires forall y :: y in Subnodes(node) && y.id in t ==> Expanded(y, t, ps)
    ensures forall k :: k in t ==> Elems(t[k].parents) == UserParents(node, k)
  {
    forall k, p | k in t && p in UserParents(node, k)
      ensures p in ps[k]
    {
      var y, j :| y in Subnodes(node) && 0 <= j < |y.children| && y.children[j].id == k && y.id == p;
      assert y.id in Ids(node);
      assert PartlyExpanded(y, |y.children|, t, ps);
      assert y.id in ps[y.children[j].id];
    }
  }

  /** Every parent named in a sound arena ranks below its child in `DepthRank`. */
  lemma SoundRanked<T>(node: GraphNode<T>, t: TmpArena<T>, ps: map<Id, set<Id>>)
    requires ConsistentIds(node) && Sound(node, t, ps) && t.Keys == Ids(node)
    ensures TmpRanked(t, DepthRank(node))
  {
    var rank := DepthRank(node);
    forall k, j | k in t && 0 <= j < |t[k].parents|
      ensures t[k].parents[j] in t && t[k].parents[j] in rank && rank[t[k].parents[j]] < rank[k]
    {
      var p := t[k].parents[j];
      assert p in Elems(t[k].parents);
      UserParentRank(node, k, p);
    }
  }

  /** Once every built node has been expanded, the bookkeeping is the transpose. */
  lemma TransposeComplete<T>(node: GraphNode<T>, t: TmpArena<T>, ps: map<Id, set<Id>>)
    requires ConsistentIds(node) && Sound(node, t, ps)
    requires forall y :: y in Subnodes(node) && y.id in t ==> Expanded(y, t, ps)
    ensures Transposes(node, t) && TmpRanked(t, DepthRank(node))
  {
    ClosedHoldsAll(node, t.Keys, node);
    ParentsComplete(node, t, ps);
    SoundRanked(node, t, ps);
  }

  /** What the `for child in node.children` loop keeps true after `i` children
      of `x`: the walk so far is sound, and `x`'s first `i` children are queued
      and linked. */
  ghost predicate Expanding<T>(node: GraphNode<T>, x: GraphNode<T>, t0: TmpArena<T>, ps0: map<Id, set<Id>>, q0: seq<GraphNode<T>>,
                               i: nat, t: TmpArena<T>, ps: map<Id, set<Id>>, q: seq<GraphNode<T>>)
  {
    && i <= |x.children| && q == q0 + x.children[..i]
    && Sound(node, t, ps) && Queued(node, q, t) && Grown(t0, ps0, t, ps)
    && ClosedBut(node, q, x, t, ps) && PartlyExpanded(x, i, t, ps)
  }

  /** Before the first child, `Expanding` holds of the state the pop left. */
  lemma ExpandingStart<T>(node: GraphNode<T>, x: GraphNode<T>, t0: TmpArena<T>, ps0: map<Id, set<Id>>, q0: seq<GraphNode<T>>)
    requires Sound(node, t0, ps0) && Queued(node, q0, t0) && ClosedBut(node, q0, x, t0, ps0)
    ensures Expanding(node, x, t0, ps0, q0, 0, t0, ps0, q0)
  {
    assert x.children[..0] == [];
  }

  /** After the last child, the children are all queued and linked, and every
      built node is queued or expanded. */
  lemma ExpandingDone<T>(node: GraphNode<T>, x: GraphNode<T>, t0: TmpArena<T>, ps0: map<Id, set<Id>>, q0: seq<GraphNode<T>>,
                         t: TmpArena<T>, ps: map<Id, set<Id>>, q: seq<GraphNode<T>>)
    requires Expanding(node, x, t0, ps0, q0, |x.children|, t, ps, q)
    ensures Sound(node, t, ps) && Queued(node, q, t) && Grown(t0, ps0, t, ps)
    ensures forall y :: y in Subnodes(node) && y.id in t ==> y in q || Expanded(y, t, ps)
  {
  }

  /** One turn of that loop, lines 197-218 for child `i` of the popped node
      `x`, keeps `Expanding`: the bookkeeping stays sound and the child is queued. */
  lemma ExpandingStep<T>(node: GraphNode<T>, x: GraphNode<T>, t0: TmpArena<T>, ps0: map<Id, set<Id>>, q0: seq<GraphNode<T>>,
                         i: nat, t: TmpArena<T>, ps: map<Id, set<Id>>, q: seq<GraphNode<T>>)
    requires ConsistentIds(node) && x in Subnodes(node)
    requires Expanding(node, x, t0, ps0, q0, i, t, ps, q) && i < |x.children|
    ensures var r := Link(t, ps, x.id, x.children[i]);
      Expanding(node, x, t0, ps0, q0, i + 1, r.0, r.1, q + [x.children[i]])
  {
    LinkSound(node, t, ps, x, i);
    LinkClosed(node, t, ps, q, x, i);
    LinkExpands(t, ps, x, i);
    LinkQueued(node, t, ps, q, x, i);
    var r := Link(t, ps, x.id, x.children[i]);
    PushNext(q0, x.children, i);
    GrownTrans(t0, ps0, t, ps, r.0, r.1);
  }

  /** The turns of that loop from child `i` on keep `Expanding`, up to the
      last child, where the maps are those `LinkAll` builds. */
  lemma {:induction false} ExpandingRest<T>(node: GraphNode<T>, x: GraphNode<T>, t0: TmpArena<T>, ps0: map<Id, set<Id>>, q0: seq<GraphNode<T>>,
                                            i: nat, t: TmpArena<T>, ps: map<Id, set<Id>>, q: seq<GraphNode<T>>)
    returns (t': TmpArena<T>, ps': map<Id, set<Id>>, q': seq<GraphNode<T>>)
    requires ConsistentIds(node) && x in Subnodes(node)
    requires Expanding(node, x, t0, ps0, q0, i, t, ps, q)
    ensures (t', ps') == LinkAll(t, ps, x.id, x.children[i..]) && q' == q + x.children[i..]
    ensures Expanding(node, x, t0, ps0, q0, |x.children|, t', ps', q')
    decreases |x.children| - i
  {
    if i < |x.children| {
      ExpandingStep(node, x, t0, ps0, q0, i, t, ps, q);
      var r := Link(t, ps, x.id, x.children[i]);
      t', ps', q' := ExpandingRest(node, x, t0, ps0, q0, i + 1, r.0, r.1, q + [x.children[i]]);
      LinkAllStep(t, ps, x.id, x.children, i);
      PushTail(q, x.children, i);
    } else {
      assert x.children[i..] == [];
      t', ps', q' := t, ps, q;
    }
  }

  /** Queueing element `i` and then the elements after it queues the elements from `i` on. */
  lemma PushTail<X>(a: seq<X>, b: seq<X>, i: nat)
    requires i < |b|
    ensures a + [b[i]] + b[i + 1..] == a + b[i..]
  {
    assert b[i..] == [b[i]] + b[i + 1..];
  }

  /** Linking the children from the `i`-th on is linking the `i`-th, then the rest. */
  lemma LinkAllStep<T>(t: TmpArena<T>, ps: map<Id, set<Id>>, x: Id, cs: seq<GraphNode<T>>, i: nat)
    requires i < |cs|
    ensures LinkAll(t, ps, x, cs[i..]) == LinkAll(Link(t, ps, x, cs[i]).0, Link(t, ps, x, cs[i]).1, x, cs[i + 1..])
  {
    assert cs[i..][0] == cs[i] && cs[i..][1..] == cs[i + 1..];
  }

  lemma GrownTrans<T>(t0: TmpArena<T>, ps0: map<Id, set<Id>>, t1: TmpArena<T>, ps1: map<Id, set<Id>>, t2: TmpArena<T>, ps2: map<Id, set<Id>>)
    requires Grown(t0, ps0, t1, ps1) && Grown(t1, ps1, t2, ps2)
    ensures Grown(t0, ps0, t2, ps2)
  {
  }

  /** The `for child in node.children` loop of `to_internal_graph_node` for the
      popped node `x` (lines 194-223): link every child, queue it and remember it
      as the last node built (`internal_arc`). From the state the pop left, it
      ends with all of `x`'s children queued in order, the maps `LinkAll` of
      them, and the walk still sound. */
  method ExpandNode<T>(node: GraphNode<T>, x: GraphNode<T>, t0: TmpArena<T>, ps0: map<Id, set<Id>>, q0: seq<GraphNode<T>>, last0: Id)
    returns (t: TmpArena<T>, ps: map<Id, set<Id>>, q: seq<GraphNode<T>>, last: Id)
    ensures q == q0 + x.children && (t, ps) == LinkAll(t0, ps0, x.id, x.children)
    ensures |x.children| == 0 ==> last == last0
    ensures |x.children| > 0 ==> last == x.children[|x.children| - 1].id
  {
    t, ps, q, last := t0, ps0, q0, last0;
    var i := 0;
    while i < |x.children|
      invariant 0 <= i <= |x.children| && q == q0 + x.children[..i]
      invariant LinkAll(t, ps, x.id, x.children[i..]) == LinkAll(t0, ps0, x.id, x.children)
    {
      var c := x.children[i];
      LinkAllStep(t, ps, x.id, x.children, i);
      PushNext(q0, x.children, i);
      t, ps := Link(t, ps, x.id, c).0, Link(t, ps, x.id, c).1;
      q := q + [c];
      i := i + 1;
    }
    assert x.children[..i] == x.children && x.children[i..] == [];
    // `internal_arc` is reassigned for every child, so it ends on the last one.
    if |x.children| > 0 {
      last := x.children[|x.children| - 1].id;
    }
  }

  /** `lastNode` is the last node queued, with id `last`: while the queue is
      not empty it is the queue's last node, once it is empty it has no
      children, and it stays the root while the root has no children. */
  ghost predicate TracksLast<T>(node: GraphNode<T>, q: seq<GraphNode<T>>, last: Id, lastNode: GraphNode<T>)
  {
    && lastNode in Subnodes(node) && lastNode.id == last
    && (|q| > 0 ==> q[|q| - 1] == lastNode)
    && (|q| == 0 ==> |lastNode.children| == 0)
    && (|node.children| == 0 ==> last == node.id && forall j :: 0 <= j < |q| ==> q[j] == node)
  }

  /** What the walk keeps true between two pops: the bookkeeping is sound,
      every built node is queued or expanded, and `last` names a built node,
      the last one queued. */
  ghost predicate WalkInv<T>(node: GraphNode<T>, q: seq<GraphNode<T>>, t: TmpArena<T>, ps: map<Id, set<Id>>, last: Id, lastNode: GraphNode<T>)
  {
    && Sound(node, t, ps) && Queued(node, q, t)
    && (forall y :: y in Subnodes(node) && y.id in t ==> y in q || Expanded(y, t, ps))
    && TracksLast(node, q, last, lastNode) && last in t
  }

  /** Replacing the front node of the queue by its children makes the queue smaller. */
  lemma PopShrinks<T>(q: seq<GraphNode<T>>)
    requires |q| > 0
    ensures QueueSize(q[1..] + q[0].children) < QueueSize(q)
  {
    QueueSizeAppend(q[1..], q[0].children);
    assert QueueSize(q) == Size(q[0]) + QueueSize(q[1..]);
  }

  /** After the front node `x` is replaced by its children, the last node
      queued is `x`'s last child, or the one before if `x` has none. */
  lemma NextLast<T>(node: GraphNode<T>, q0: seq<GraphNode<T>>, last0: Id, lastNode0: GraphNode<T>, last: Id)
    returns (lastNode: GraphNode<T>)
    requires |q0| > 0 && q0[0] in Subnodes(node) && TracksLast(node, q0, last0, lastNode0)
    requires |q0[0].children| == 0 ==> last == last0
    requires |q0[0].children| > 0 ==> last == q0[0].children[|q0[0].children| - 1].id
    ensures TracksLast(node, q0[1..] + q0[0].children, last, lastNode)
  {
    var x := q0[0];
    var q := q0[1..] + x.children;
    lastNode := lastNode0;
    if |x.children| > 0 {
      lastNode := x.children[|x.children| - 1];
      ReachableChild(node, x, |x.children| - 1);
      assert q[|q| - 1] == lastNode;
    } else {
      assert q == q0[1..];
      if |q| > 0 {
        assert q[|q| - 1] == q0[|q0| - 1];
      } else {
        assert q0 == [x];
      }
    }
  }

  /** One turn of the `while bfs_q.len() != 0` loop (lines 189-224): pop the
      front node (`bfs_q.pop_front().unwrap()`) and expand it. The rest of the
      walk from the new state is the rest of the walk from the old one. */
  method Visit<T>(node: GraphNode<T>, q0: seq<GraphNode<T>>, t0: TmpArena<T>, ps0: map<Id, set<Id>>, last0: Id, ghost lastNode0: GraphNode<T>)
    returns (q: seq<GraphNode<T>>, t: TmpArena<T>, ps: map<Id, set<Id>>, last: Id, ghost lastNode: GraphNode<T>)
    requires ConsistentIds(node) && |q0| > 0
    requires WalkInv(node, q0, t0, ps0, last0, lastNode0)
    ensures WalkInv(node, q, t, ps, last, lastNode)
    ensures QueueSize(q) < QueueSize(q0)
    ensures Walk(q, t, ps, last) == Walk(q0, t0, ps0, last0)
  {
    var x := q0[0];
    q := q0[1..];
    assert ClosedBut(node, q, x, t0, ps0);
    ExpandingStart(node, x, t0, ps0, q);
    ghost var t1, ps1, q1 := ExpandingRest(node, x, t0, ps0, q, 0, t0, ps0, q);
    assert x.children[0..] == x.children;
    ExpandingDone(node, x, t0, ps0, q, t1, ps1, q1);
    t, ps, q, last := ExpandNode(node, x, t0, ps0, q, last0);
    lastNode := NextLast(node, q0, last0, lastNode0, last);
    if |q| > 0 {
      assert q[|q| - 1].id == last;
    }
    PopShrinks(q0);
  }

  /** The walk starts from the root's own node, alone in the maps and the queue. */
  lemma WalkStart<T>(node: GraphNode<T>)
    requires ConsistentIds(node)
    ensures var t := map[node.id := EmptyTmp(node.f, node.name, node.id)];
      var ps: map<Id, set<Id>> := map[node.id := {}];
      WalkInv(node, [node], t, ps, node.id, node) && Walk([node], t, ps, node.id) == TransposeOf(node)
  {
    assert node in Subnodes(node);
  }

  /** When the queue is empty, the walk has built the transpose and `last`
      names a node with no children. */
  lemma WalkEnd<T>(node: GraphNode<T>, t: TmpArena<T>, ps: map<Id, set<Id>>, last: Id, lastNode: GraphNode<T>)
    requires ConsistentIds(node)
    requires WalkInv(node, [], t, ps, last, lastNode) && Walk([], t, ps, last) == TransposeOf(node)
    ensures Transposes(node, t) && KeyedById(t)
    ensures TmpRanked(t, DepthRank(node))
    ensures last in t && NodeOf(node, last).children == []
    ensures |node.children| == 0 ==> last == node.id
    ensures (t, last) == TransposeOf(node)
  {
    TransposeComplete(node, t, ps);
  }

  /** The walk of `to_internal_graph_node`. It returns the arena and the id of
      the node it returns (`internal_arc`): the root's when the root has no
      children, otherwise that of the last child handled, which has no children.
      The two parallel queues of the source (user nodes and their built nodes)
      are one queue of user nodes here; the built node is `t[id]`. */
  method ToInternalGraphNode<T>(node: GraphNode<T>) returns (t: TmpArena<T>, last: Id)
    requires ConsistentIds(node)
    ensures Transposes(node, t) && KeyedById(t)
    ensures TmpRanked(t, DepthRank(node))
    ensures last in t && NodeOf(node, last).children == []
    ensures |node.children| == 0 ==> last == node.id
    ensures (t, last) == TransposeOf(node)
  {
    var q: seq<GraphNode<T>> := [node];
    t := map[node.id := EmptyTmp(node.f, node.name, node.id)];
    var ps: map<Id, set<Id>> := map[node.id := {}];
    last := node.id;
    ghost var lastNode := node;
    WalkStart(node);
    while |q| > 0
      invariant WalkInv(node, q, t, ps, last, lastNode)
      invariant Walk(q, t, ps, last) == TransposeOf(node)
      decreases QueueSize(q)
    {
      q, t, ps, last, lastNode := Visit(node, q, t, ps, last, lastNode);
    }
    WalkEnd(node, t, ps, last, lastNode);
  }

  /** A diamond of identity nodes: `start` feeds `mid1` and `mid2`, which both
      feed `last`. */
  function UserDiamond(): GraphNode<int>
  {
    var last := GraphNode(x => x, "last", [], 3);
    var mid1 := GraphNode(x => x, "mid1", [last], 1);
    var mid2 := GraphNode(x => x, "mid2", [last], 2);
    GraphNode(x => x, "start", [mid1, mid2], 0)
  }

  /** On the diamond the walk returns `last`, whose parents list names `mid1`
      before `mid2`, the order in which the walk pops them. */
  lemma TransposeDiamond()
    ensures TransposeOf(UserDiamond()).1 == 3
    ensures 3 in TransposeOf(UserDiamond()).0 && TransposeOf(UserDiamond()).0[3].parents == [1, 2]
  {
    var d := UserDiamond();
    var mid1, mid2, last := d.children[0], d.children[1], d.children[0].children[0];
    var t0 := map[0 := EmptyTmp(d.f, d.name, 0)];
    var ps0: map<Id, set<Id>> := map[0 := {}];
    var r1 := LinkAll(t0, ps0, 0, d.children);
    assert [d][1..] + d.children == [mid1, mid2];
    assert Walk([d], t0, ps0, 0) == Walk([mid1, mid2], r1.0, r1.1, 2);
    var r2 := LinkAll(r1.0, r1.1, 1, mid1.children);
    assert r2.0[3].parents == [1];
    assert [mid1, mid2][1..] + mid1.children == [mid2, last];
    assert Walk([mid1, mid2], r1.0, r1.1, 2) == Walk([mid2, last], r2.0, r2.1, 3);
    var r3 := LinkAll(r2.0, r2.1, 2, mid2.children);
    assert r3.0[3].parents == [1, 2];
    assert [mid2, last][1..] + mid2.children == [last, last];
    assert Walk([mid2, last], r2.0, r2.1, 3) == Walk([last, last], r3.0, r3.1, 3);
    assert [last, last][1..] + last.children == [last];
    assert Walk([last, last], r3.0, r3.1, 3) == Walk([last], r3.0, r3.1, 3);
    assert [last][1..] + last.children == [];
    assert Walk([last], r3.0, r3.1, 3) == Walk([], r3.0, r3.1, 3);
  }
}
