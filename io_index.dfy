/** `index_by_id` of src/graph/io_graph.rs (lines 218-232): a walk up the
    parents of the tree `from` builds, recording for each id the last node
    met with that id. */
module IoIndex {
  import opened GraphNodes
  import opened InternalGraph

  /** Number of nodes of the tree `n` (a node reached by two paths counts twice). */
  function TreeSize<T>(n: InternalNode<T>): nat
    decreases n
  {
    1 + TreeSizes(n.parents)
  }

  function TreeSizes<T>(q: seq<InternalNode<T>>): nat
    decreases q
  {
    if |q| == 0 then 0 else TreeSize(q[0]) + TreeSizes(q[1..])
  }

  lemma {:induction false} TreeSizesAppend<T>(a: seq<InternalNode<T>>, b: seq<InternalNode<T>>)
    ensures TreeSizes(a + b) == TreeSizes(a) + TreeSizes(b)
  {
    if |a| == 0 {
      assert a + b == b;
    } else {
      assert (a + b)[1..] == a[1..] + b;
      TreeSizesAppend(a[1..], b);
    }
  }

  /** The nodes reachable along parents from some node of the queue `q`. */
  ghost function QueueAncestry<T>(q: seq<InternalNode<T>>): set<InternalNode<T>>
  {
    set i, z | 0 <= i < |q| && z in Ancestry(q[i]) :: z
  }

  lemma InQueueAncestry<T>(q: seq<InternalNode<T>>, i: nat, z: InternalNode<T>)
    requires i < |q| && z in Ancestry(q[i])
    ensures z in QueueAncestry(q)
  {
  }

  lemma QueueOfOne<T>(n: InternalNode<T>)
    ensures QueueAncestry([n]) == Ancestry(n)
  {
    forall z | z in Ancestry(n) ensures z in QueueAncestry([n]) {
      InQueueAncestry([n], 0, z);
    }
  }

  /** A node reachable from the head but other than it is reachable from one of its parents. */
  lemma ViaParent<T>(x: InternalNode<T>, z: InternalNode<T>) returns (j: nat)
    requires z in Ancestry(x) && z != x
    ensures j < |x.parents| && z in Ancestry(x.parents[j])
  {
    j :| 0 <= j < |x.parents| && z in Ancestry(x.parents[j]);
  }

  lemma PopSubset<T>(q: seq<InternalNode<T>>)
    requires |q| > 0
    ensures QueueAncestry(q) <= {q[0]} + QueueAncestry(q[1..] + q[0].parents)
  {
    var x, r := q[0], q[1..] + q[0].parents;
    forall z | z in QueueAncestry(q)
      ensures z in {x} + QueueAncestry(r)
    {
      var i :| 0 <= i < |q| && z in Ancestry(q[i]);
      if i > 0 {
        assert r[i - 1] == q[i];
        InQueueAncestry(r, i - 1, z);
      } else if z != x {
        var j := ViaParent(x, z);
        assert r[|q| - 1 + j] == x.parents[j];
        InQueueAncestry(r, |q| - 1 + j, z);
      }
    }
  }

  lemma PopSuperset<T>(q: seq<InternalNode<T>>)
    requires |q| > 0
    ensures {q[0]} + QueueAncestry(q[1..] + q[0].parents) <= QueueAncestry(q)
  {
    var x, r := q[0], q[1..] + q[0].parents;
    assert x in Ancestry(x);
    InQueueAncestry(q, 0, x);
    forall z | z in QueueAncestry(r)
      ensures z in QueueAncestry(q)
    {
      var i :| 0 <= i < |r| && z in Ancestry(r[i]);
      if i < |q| - 1 {
        assert q[i + 1] == r[i];
        InQueueAncestry(q, i + 1, z);
      } else {
        var j := i - (|q| - 1);
        assert r[i] == x.parents[j];
        AncestryTrans(x, x.parents[j], z) by {
          assert x.parents[j] in Ancestry(x.parents[j]);
        }
        InQueueAncestry(q, 0, z);
      }
    }
  }

  /** Popping the head of the queue and queueing its parents leaves the
      head and a smaller queue that reaches the same nodes. */
  lemma PopParents<T>(q: seq<InternalNode<T>>)
    requires |q| > 0
    ensures QueueAncestry(q) == {q[0]} + QueueAncestry(q[1..] + q[0].parents)
    ensures TreeSizes(q[1..] + q[0].parents) < TreeSizes(q)
  {
    TreeSizesAppend(q[1..], q[0].parents);
    PopSubset(q);
    PopSuperset(q);
  }

  /** `index_by_id`: every id of the tree is a key, and each key maps to a
      node of the tree that carries it. */
  method IndexById<T>(n: InternalNode<T>) returns (m: map<Id, InternalNode<T>>)
    ensures m.Keys == AncestryIds(n)
    ensures forall k :: k in m ==> m[k] in Ancestry(n) && m[k].id == k
  {
    m := map[];
    var q := [n];
    ghost var done: set<InternalNode<T>> := {};
    QueueOfOne(n);
    while |q| > 0
      invariant Ancestry(n) == done + QueueAncestry(q)
      invariant forall z :: z in done ==> z.id in m
      invariant forall k :: k in m ==> m[k] in done && m[k].id == k
      decreases TreeSizes(q)
    {
      var x := q[0];
      PopParents(q);
      q := q[1..] + x.parents;
      m := m[x.id := x];
      done := done + {x};
    }
    assert QueueAncestry(q) == {};
    forall k | k in AncestryIds(n) ensures k in m {
      var z :| z in Ancestry(n) && z.id == k;
    }
  }
}
