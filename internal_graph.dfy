/** The immutable parent-pointing graph of src/graph/concurrent.rs
    (`ConcurrentInternalGraphNode`), built from the transposed arena by
    `from`, and its upward evaluators `apply` and `apply_batch`. `from` copies
    a node reached along two paths twice, so the result is a tree and is
    modelled as an inductive value. */
module InternalGraph {
  import opened Seqs
  import opened GraphNodes
  import opened Transpose

  datatype InternalNode<!T> = InternalNode(f: Transform<T>, name: string, parents: seq<InternalNode<T>>, id: Id)

  /** The ids of `ps`, in order. */
  function ParentIds<T>(ps: seq<InternalNode<T>>): (r: seq<Id>)
    ensures |r| == |ps| && forall i :: 0 <= i < |ps| ==> r[i] == ps[i].id
  {
    if |ps| == 0 then [] else [ps[0].id] + ParentIds(ps[1..])
  }

  /** `ConcurrentInternalGraphNode::from` (lines 84-106): copy the arena node
      of id `k` with its transform, name and id, and copy each of its parents
      in order; a node without parents becomes a node with an empty list.
      `rank` orders the arena so that the recursion up the parents ends. */
  function From<T>(t: TmpArena<T>, k: Id, ghost rank: map<Id, nat>): (n: InternalNode<T>)
    requires k in t && KeyedById(t) && TmpRanked(t, rank)
    ensures n.id == k && n.f == t[k].f && n.name == t[k].name
    ensures ParentIds(n.parents) == t[k].parents
    decreases rank[k]
  {
    var p := t[k].parents;
    if |p| == 0 then
      InternalNode(t[k].f, t[k].name, [], t[k].id)
    else
      InternalNode(t[k].f, t[k].name, seq(|p|, i requires 0 <= i < |p| => From(t, p[i], rank)), t[k].id)
  }

  /** Every node reachable from `n` along parents, `n` included. */
  ghost function Ancestry<T>(n: InternalNode<T>): set<InternalNode<T>>
  {
    {n} + set i, z | 0 <= i < |n.parents| && z in Ancestry(n.parents[i]) :: z
  }

  /** The ids of the nodes reachable from `n` along parents. */
  ghost function AncestryIds<T>(n: InternalNode<T>): set<Id>
  {
    set z | z in Ancestry(n) :: z.id
  }

  lemma {:induction false} AncestryTrans<T>(n: InternalNode<T>, x: InternalNode<T>, y: InternalNode<T>)
    requires x in Ancestry(n) && y in Ancestry(x)
    ensures y in Ancestry(n)
    decreases n
  {
    if x != n {
      var i :| 0 <= i < |n.parents| && x in Ancestry(n.parents[i]);
      AncestryTrans(n.parents[i], x, y);
    }
  }

  /** Every node of the tree `from` builds for `k` is what `from` builds for its own id. */
  lemma {:induction false} FromAncestry<T>(t: TmpArena<T>, k: Id, rank: map<Id, nat>)
    requires k in t && KeyedById(t) && TmpRanked(t, rank)
    ensures forall z :: z in Ancestry(From(t, k, rank)) ==> z.id in t && z == From(t, z.id, rank)
    decreases rank[k]
  {
    var n := From(t, k, rank);
    var p := t[k].parents;
    forall z | z in Ancestry(n)
      ensures z.id in t && z == From(t, z.id, rank)
    {
      if z != n {
        var i :| 0 <= i < |n.parents| && z in Ancestry(n.parents[i]);
        assert n.parents[i] == From(t, p[i], rank);
        FromAncestry(t, p[i], rank);
      }
    }
  }

  /** Each node of the tree built for `k` copies the user node of its id and
      has as parents exactly that node's user parents, each once. */
  lemma FromMirrors<T>(root: GraphNode<T>, t: TmpArena<T>, k: Id, rank: map<Id, nat>)
    requires Transposes(root, t) && KeyedById(t) && TmpRanked(t, rank) && k in t
    ensures forall z :: z in Ancestry(From(t, k, rank)) ==>
      && z.id in Ids(root) && z.f == NodeOf(root, z.id).f && z.name == NodeOf(root, z.id).name
      && NoDup(ParentIds(z.parents)) && Elems(ParentIds(z.parents)) == UserParents(root, z.id)
  {
    FromAncestry(t, k, rank);
    forall z | z in Ancestry(From(t, k, rank))
      ensures z.f == NodeOf(root, z.id).f && z.name == NodeOf(root, z.id).name
    {
      var y := NodeOf(root, z.id);
      assert t[y.id].f == y.f;
    }
  }

  /** A parent of a node reachable from `top` is reachable from `top`. */
  lemma ParentInAncestry<T>(top: InternalNode<T>, m: InternalNode<T>, j: nat)
    requires m in Ancestry(top) && j < |m.parents|
    ensures m.parents[j].id in AncestryIds(top)
  {
    var p := m.parents[j];
    assert p in Ancestry(p);
    assert p in Ancestry(m);
    AncestryTrans(top, m, p);
  }

  /** Every user node from which `s` is reachable has its id in the tree built for `s`. */
  lemma {:induction false} FromHoldsAncestors<T>(root: GraphNode<T>, t: TmpArena<T>, s: Id, rank: map<Id, nat>, y: GraphNode<T>)
    requires ConsistentIds(root) && Transposes(root, t) && KeyedById(t) && TmpRanked(t, rank) && s in t
    requires y in Subnodes(root) && s in Ids(y)
    ensures y.id in AncestryIds(From(t, s, rank))
    decreases y
  {
    var top := From(t, s, rank);
    if y.id == s {
      assert top in Ancestry(top);
    } else {
      var i := ChildOnTheWay(y, s);
      var c := y.children[i];
      ReachableChild(root, y, i);
      FromHoldsAncestors(root, t, s, rank, c);
      var m :| m in Ancestry(top) && m.id == c.id;
      FromAncestry(t, s, rank);
      assert m == From(t, c.id, rank);
      assert y.id in UserParents(root, c.id);
      assert y.id in Elems(t[c.id].parents);
      var j :| 0 <= j < |t[c.id].parents| && t[c.id].parents[j] == y.id;
      ParentInAncestry(top, m, j);
    }
  }

  /** Every node of the tree built for `k` is a user node from which `k` is reachable. */
  lemma {:induction false} FromOnlyAncestors<T>(root: GraphNode<T>, t: TmpArena<T>, k: Id, rank: map<Id, nat>)
    requires ConsistentIds(root) && Transposes(root, t) && KeyedById(t) && TmpRanked(t, rank) && k in t
    ensures forall z :: z in Ancestry(From(t, k, rank)) ==> z.id in Ids(root) && k in Ids(NodeOf(root, z.id))
    decreases rank[k]
  {
    var n := From(t, k, rank);
    var p := t[k].parents;
    forall i | 0 <= i < |n.parents|
      ensures forall z :: z in Ancestry(n.parents[i]) ==> z.id in Ids(root) && k in Ids(NodeOf(root, z.id))
    {
      assert n.parents[i] == From(t, p[i], rank);
      FromOnlyAncestors(root, t, p[i], rank);
      assert p[i] in UserParents(root, k) by {
        assert p[i] in Elems(p);
      }
      ThroughParent(root, p[i], k, n.parents[i]);
    }
    assert NodeOf(root, k) in Subnodes(NodeOf(root, k));
  }

  /** A user parent of `k` reaches `k`. */
  lemma ParentReaches<T>(root: GraphNode<T>, q: Id, k: Id)
    requires ConsistentIds(root) && q in UserParents(root, k)
    ensures q in Ids(root) && k in Ids(NodeOf(root, q))
  {
    var y, j :| y in Subnodes(root) && 0 <= j < |y.children| && y.children[j].id == k && y.id == q;
    ReachableChild(root, y, j);
    var c := y.children[j];
    assert c in Subnodes(c);
    assert k in Ids(y) by {
      SubnodeTrans(root, y, c);
      assert Subnodes(c) <= Subnodes(y);
    }
    assert NodeOf(root, q) == y;
  }

  /** The user nodes that reach a user parent `q` of `k` reach `k` too. */
  lemma ThroughParent<T>(root: GraphNode<T>, q: Id, k: Id, a: InternalNode<T>)
    requires ConsistentIds(root) && q in UserParents(root, k)
    requires forall z :: z in Ancestry(a) ==> z.id in Ids(root) && q in Ids(NodeOf(root, z.id))
    ensures forall z :: z in Ancestry(a) ==> z.id in Ids(root) && k in Ids(NodeOf(root, z.id))
  {
    ParentReaches(root, q, k);
    forall z | z in Ancestry(a)
      ensures k in Ids(NodeOf(root, z.id))
    {
      ReachTrans(root, NodeOf(root, z.id), q, k);
    }
  }

  /** The tree built for `s` holds exactly the ids of the user nodes from which `s` is reachable. */
  lemma FromIsReaching<T>(root: GraphNode<T>, t: TmpArena<T>, s: Id, rank: map<Id, nat>)
    requires ConsistentIds(root) && Transposes(root, t) && KeyedById(t) && TmpRanked(t, rank) && s in t
    ensures AncestryIds(From(t, s, rank)) == Reaching(root, s)
  {
    FromOnlyAncestors(root, t, s, rank);
    forall j | j in Reaching(root, s)
      ensures j in AncestryIds(From(t, s, rank))
    {
      FromHoldsAncestors(root, t, s, rank, NodeOf(root, j));
    }
  }

  /** With a single sink, the tree built for the sink holds every id of the graph. */
  lemma FromCoversSingleSink<T>(root: GraphNode<T>, t: TmpArena<T>, s: Id, rank: map<Id, nat>)
    requires ConsistentIds(root) && SingleSink(root)
    requires Transposes(root, t) && KeyedById(t) && TmpRanked(t, rank) && s in t
    requires NodeOf(root, s).children == []
    ensures AncestryIds(From(t, s, rank)) == Ids(root)
  {
    FromAncestry(t, s, rank);
    forall j | j in Ids(root)
      ensures j in AncestryIds(From(t, s, rank))
    {
      var y := NodeOf(root, j);
      var z := ReachesSink(y);
      SubnodeTrans(root, y, z);
      assert z.id == s;
      FromHoldsAncestors(root, t, s, rank, y);
    }
  }

  /** `apply` (lines 110-121): a node without parents applies its transform
      to the input; any other node applies it to the concatenation, in
      parent order, of what each parent computes from the same input. */
  function Apply<T>(n: InternalNode<T>, datum: seq<T>): seq<T>
    decreases n
  {
    if |n.parents| == 0 then n.f(datum) else n.f(Gathered(n.parents, datum))
  }

  /** The `data.extend(parent.apply(datum.clone()))` loop over `ps`. */
  function Gathered<T>(ps: seq<InternalNode<T>>, datum: seq<T>): seq<T>
    decreases ps
  {
    if |ps| == 0 then [] else Apply(ps[0], datum) + Gathered(ps[1..], datum)
  }

  /** `batch.iter().map(|xs| f(xs.to_vec())).collect()`. */
  function MapTransform<T>(f: Transform<T>, batch: seq<seq<T>>): (r: seq<seq<T>>)
    ensures |r| == |batch| && forall i :: 0 <= i < |batch| ==> r[i] == f(batch[i])
  {
    if |batch| == 0 then [] else [f(batch[0])] + MapTransform(f, batch[1..])
  }

  /** `apply_batch` (lines 125-136) as written: a node without parents maps its
      transform over the batch; any other node concatenates the batches its
      parents return and maps its transform over that longer batch. */
  function ApplyBatch<T>(n: InternalNode<T>, batch: seq<seq<T>>): seq<seq<T>>
    decreases n
  {
    if |n.parents| == 0 then MapTransform(n.f, batch)
    else MapTransform(n.f, GatheredBatches(n.parents, batch))
  }

  /** The `data.extend(parent.apply_batch(batch.clone()))` loop over `ps`. */
  function GatheredBatches<T>(ps: seq<InternalNode<T>>, batch: seq<seq<T>>): seq<seq<T>>
    decreases ps
  {
    if |ps| == 0 then [] else ApplyBatch(ps[0], batch) + GatheredBatches(ps[1..], batch)
  }

  /** Number of paths that end in `n` and start at a node without parents. */
  function PathCount<T>(n: InternalNode<T>): nat
    decreases n
  {
    if |n.parents| == 0 then 1 else PathCounts(n.parents)
  }

  function PathCounts<T>(ps: seq<InternalNode<T>>): nat
    decreases ps
  {
    if |ps| == 0 then 0 else PathCount(ps[0]) + PathCounts(ps[1..])
  }

  /** Multiplication distributes over addition; kept apart so that the
      solver meets the nonlinear step without the rest of a length proof. */
  lemma Distribute(a: int, b: int, n: int)
    ensures a * n + b * n == (a + b) * n
  {
  }

  /** `apply_batch` returns one batch element per path from a node without
      parents, for each input of the batch. */
  lemma {:induction false} ApplyBatchLength<T>(n: InternalNode<T>, batch: seq<seq<T>>)
    ensures |ApplyBatch(n, batch)| == PathCount(n) * |batch|
    decreases n
  {
    if |n.parents| > 0 {
      GatheredBatchesLength(n.parents, batch);
    }
  }

  lemma {:induction false} GatheredBatchesLength<T>(ps: seq<InternalNode<T>>, batch: seq<seq<T>>)
    ensures |GatheredBatches(ps, batch)| == PathCounts(ps) * |batch|
    decreases ps
  {
    if |ps| > 0 {
      ApplyBatchLength(ps[0], batch);
      GatheredBatchesLength(ps[1..], batch);
      Distribute(PathCount(ps[0]), PathCounts(ps[1..]), |batch|);
    }
  }

  /** Every transform above `n` keeps the length of its input. */
  ghost predicate KeepsLengths<T(!new)>(n: InternalNode<T>)
    decreases n
  {
    && (forall x :: |n.f(x)| == |x|)
    && forall i :: 0 <= i < |n.parents| ==> KeepsLengths(n.parents[i])
  }

  /** When every transform keeps lengths, `apply` returns a copy of the input
      per path: a node whose parents share an ancestor sees its data twice. */
  lemma {:induction false} ApplyLength<T(!new)>(n: InternalNode<T>, datum: seq<T>)
    requires KeepsLengths(n)
    ensures |Apply(n, datum)| == PathCount(n) * |datum|
    decreases n
  {
    if |n.parents| > 0 {
      GatheredLength(n.parents, datum);
    }
  }

  lemma {:induction false} GatheredLength<T(!new)>(ps: seq<InternalNode<T>>, datum: seq<T>)
    requires forall i :: 0 <= i < |ps| ==> KeepsLengths(ps[i])
    ensures |Gathered(ps, datum)| == PathCounts(ps) * |datum|
    decreases ps
  {
    if |ps| > 0 {
      ApplyLength(ps[0], datum);
      GatheredLength(ps[1..], datum);
      Distribute(PathCount(ps[0]), PathCounts(ps[1..]), |datum|);
    }
  }

  /** A straight line: every node has at most one parent. */
  ghost predicate IsChain<T>(n: InternalNode<T>)
    decreases n
  {
    |n.parents| <= 1 && (|n.parents| == 1 ==> IsChain(n.parents[0]))
  }

  /** `apply` on each input of the batch separately. */
  function ApplyEach<T>(n: InternalNode<T>, batch: seq<seq<T>>): (r: seq<seq<T>>)
    ensures |r| == |batch| && forall i :: 0 <= i < |batch| ==> r[i] == Apply(n, batch[i])
  {
    if |batch| == 0 then [] else [Apply(n, batch[0])] + ApplyEach(n, batch[1..])
  }

  /** On a straight line `apply_batch` is `apply` on each input. */
  lemma {:induction false} ApplyBatchOnChain<T>(n: InternalNode<T>, batch: seq<seq<T>>)
    requires IsChain(n)
    ensures ApplyBatch(n, batch) == ApplyEach(n, batch)
    decreases n
  {
    if |n.parents| == 1 {
      var p := n.parents[0];
      ApplyBatchOnChain(p, batch);
      assert n.parents[1..] == [];
      assert GatheredBatches(n.parents, batch) == ApplyBatch(p, batch);
      forall i | 0 <= i < |batch|
        ensures ApplyBatch(n, batch)[i] == Apply(n, batch[i])
      {
        assert Gathered(n.parents, batch[i]) == Apply(p, batch[i]);
      }
    }
  }

  /** Two copies of an identity node below a shared identity node without parents. */
  function Diamond(): InternalNode<int>
  {
    var top := InternalNode(x => x, "top", [], 0);
    var left := InternalNode(x => x, "left", [top], 1);
    var right := InternalNode(x => x, "right", [top], 2);
    InternalNode(x => x, "join", [left, right], 3)
  }

  /** On the diamond, `apply_batch` of two inputs returns four outputs, while
      `apply` of each input gives two. */
  lemma ApplyBatchDiamond()
    ensures |ApplyBatch(Diamond(), [[1], [2]])| == 4
    ensures ApplyBatch(Diamond(), [[1], [2]]) != ApplyEach(Diamond(), [[1], [2]])
  {
    ApplyBatchLength(Diamond(), [[1], [2]]);
    assert PathCount(Diamond()) == 2 by {
      var d := Diamond();
      assert PathCount(d.parents[0]) == 1;
      assert PathCount(d.parents[1]) == 1;
      assert d.parents[1..][1..] == [];
    }
  }

  /** The element-wise concatenation of two batches of the same length. */
  function Zip<T>(a: seq<seq<T>>, b: seq<seq<T>>): (r: seq<seq<T>>)
    requires |a| == |b|
    ensures |r| == |a| && forall i :: 0 <= i < |a| ==> r[i] == a[i] + b[i]
  {
    if |a| == 0 then [] else [a[0] + b[0]] + Zip(a[1..], b[1..])
  }

  /** `apply_batch` as intended: the parents' outputs for the same input are
      concatenated before the transform runs, so there is one output per input. */
  function ApplyBatchPerInput<T>(n: InternalNode<T>, batch: seq<seq<T>>): (r: seq<seq<T>>)
    ensures |r| == |batch|
    decreases n
  {
    if |n.parents| == 0 then MapTransform(n.f, batch)
    else MapTransform(n.f, GatheredPerInput(n.parents, batch))
  }

  /** For each input, the concatenation over `ps` of their outputs for it. */
  function GatheredPerInput<T>(ps: seq<InternalNode<T>>, batch: seq<seq<T>>): (r: seq<seq<T>>)
    ensures |r| == |batch|
    decreases ps
  {
    if |ps| == 0 then MapTransform(_ => [], batch)
    else Zip(ApplyBatchPerInput(ps[0], batch), GatheredPerInput(ps[1..], batch))
  }

  /** The corrected `apply_batch` is `apply` on each input of the batch. */
  lemma {:induction false} ApplyBatchPerInputIsApply<T>(n: InternalNode<T>, batch: seq<seq<T>>)
    ensures ApplyBatchPerInput(n, batch) == ApplyEach(n, batch)
    decreases n
  {
    if |n.parents| > 0 {
      GatheredPerInputIsGathered(n.parents, batch);
    }
  }

  lemma {:induction false} GatheredPerInputIsGathered<T>(ps: seq<InternalNode<T>>, batch: seq<seq<T>>)
    ensures forall i :: 0 <= i < |batch| ==> GatheredPerInput(ps, batch)[i] == Gathered(ps, batch[i])
    decreases ps
  {
    if |ps| > 0 {
      ApplyBatchPerInputIsApply(ps[0], batch);
      GatheredPerInputIsGathered(ps[1..], batch);
    }
  }
}
