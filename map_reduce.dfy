/** `PipelineStage` of src/pipeline/map_reduce.rs: a map function from raw
    bytes to keyed records, a shuffle that groups the records' values by key,
    and a reduce that folds each group into one pair. */
module MapReduce {
  import opened Seqs

  /** A record behind `Box<dyn Keyable<K, V>>`, as seen through its two
      methods `get_key` and `get_value`. */
  datatype Keyable<K, V> = Keyable(key: K, value: V)

  type MapStageOutput<K, V> = seq<Keyable<K, V>>

  /** The keys of the records. */
  ghost function KeysOf<K, V>(outs: MapStageOutput<K, V>): set<K>
  {
    set i | 0 <= i < |outs| :: outs[i].key
  }

  /** The values of the records with key `k`, in record order. */
  function ValuesOf<K(==), V>(outs: MapStageOutput<K, V>, k: K): seq<V>
  {
    if |outs| == 0 then []
    else ValuesOf(outs[..|outs| - 1], k) + (if outs[|outs| - 1].key == k then [outs[|outs| - 1].value] else [])
  }

  /** The values of all the records, in record order. */
  function Values<K, V>(outs: MapStageOutput<K, V>): (r: seq<V>)
    ensures |r| == |outs| && forall i :: 0 <= i < |outs| ==> r[i] == outs[i].value
  {
    if |outs| == 0 then [] else Values(outs[..|outs| - 1]) + [outs[|outs| - 1].value]
  }

  /** A key has values exactly when some record carries it. */
  lemma {:induction false} ValuesOfNonEmpty<K, V>(outs: MapStageOutput<K, V>, k: K)
    ensures k in KeysOf(outs) <==> |ValuesOf(outs, k)| > 0
  {
    if |outs| > 0 {
      var init := outs[..|outs| - 1];
      ValuesOfNonEmpty(init, k);
      assert KeysOf(outs) == KeysOf(init) + {outs[|outs| - 1].key} by {
        forall i | 0 <= i < |init| ensures init[i] == outs[i] { }
      }
    }
  }

  /** The group of each key of `ks`, in the order of `ks`. */
  function GroupsAt<K(==), V>(outs: MapStageOutput<K, V>, ks: seq<K>): (r: seq<seq<V>>)
    ensures |r| == |ks| && forall i :: 0 <= i < |ks| ==> r[i] == ValuesOf(outs, ks[i])
  {
    if |ks| == 0 then [] else [ValuesOf(outs, ks[0])] + GroupsAt(outs, ks[1..])
  }

  /** One more record adds its value to the group of its key and to no other. */
  lemma {:induction false} GroupsSnoc<K, V>(outs: MapStageOutput<K, V>, o: Keyable<K, V>, ks: seq<K>)
    requires NoDup(ks)
    ensures multiset(Flatten(GroupsAt(outs + [o], ks)))
         == multiset(Flatten(GroupsAt(outs, ks))) + (if o.key in Elems(ks) then multiset{o.value} else multiset{})
  {
    if |ks| > 0 {
      var rest := ks[1..];
      assert NoDup(rest) by {
        forall i, j | 0 <= i < j < |rest| ensures rest[i] != rest[j] {
          assert rest[i] == ks[i + 1] && rest[j] == ks[j + 1];
        }
      }
      assert ks[0] !in Elems(rest) by {
        forall j | 0 <= j < |rest| ensures rest[j] != ks[0] {
          assert rest[j] == ks[j + 1];
        }
      }
      assert Elems(ks) == {ks[0]} + Elems(rest) by {
        assert ks == [ks[0]] + rest;
      }
      GroupsSnoc(outs, o, rest);
      assert (outs + [o])[..|outs|] == outs;
      var outs' := outs + [o];
      var a, b := ValuesOf(outs', ks[0]), ValuesOf(outs, ks[0]);
      assert a == b + (if o.key == ks[0] then [o.value] else []);
      assert Flatten(GroupsAt(outs', ks)) == a + Flatten(GroupsAt(outs', rest));
      assert Flatten(GroupsAt(outs, ks)) == b + Flatten(GroupsAt(outs, rest));
    }
  }

  /** Listing the groups of all keys (each once) gives back every value:
      the groups are a partition of the records' values, and their lengths
      sum to the number of records. */
  lemma {:induction false} GroupsPartition<K, V>(outs: MapStageOutput<K, V>, ks: seq<K>)
    requires NoDup(ks) && KeysOf(outs) <= Elems(ks)
    ensures multiset(Flatten(GroupsAt(outs, ks))) == multiset(Values(outs))
    ensures SumLengths(GroupsAt(outs, ks)) == |outs|
  {
    if |outs| == 0 {
      forall i | 0 <= i < |ks| ensures GroupsAt(outs, ks)[i] == [] { }
      EmptyGroups(GroupsAt(outs, ks));
    } else {
      var init, o := outs[..|outs| - 1], outs[|outs| - 1];
      assert outs == init + [o];
      assert KeysOf(init) <= KeysOf(outs) by {
        forall i | 0 <= i < |init| ensures init[i] == outs[i] { }
      }
      assert o.key in KeysOf(outs);
      GroupsPartition(init, ks);
      GroupsSnoc(init, o, ks);
      assert Values(outs) == Values(init) + [o.value];
    }
    assert |multiset(Flatten(GroupsAt(outs, ks)))| == |Flatten(GroupsAt(outs, ks))|;
  }

  /** Lists that are all empty flatten to nothing. */
  lemma {:induction false} EmptyGroups<V>(ss: seq<seq<V>>)
    requires forall i :: 0 <= i < |ss| ==> ss[i] == []
    ensures Flatten(ss) == []
  {
    if ss != [] {
      EmptyGroups(ss[1..]);
    }
  }

  /** Distinct keys that are exactly the keys of a map are as many as its entries. */
  lemma KeysCard<K, V>(m: map<K, V>, ks: seq<K>)
    requires NoDup(ks) && Elems(ks) == m.Keys
    ensures |ks| == |m|
  {
    NoDupCard(ks);
    assert |m| == |m.Keys|;
  }

  /** `PipelineStage`: the map function and the reduce function. */
  datatype PipelineStage<!K(==), !V> = PipelineStage(mapFunc: seq<bv8> -> MapStageOutput<K, V>, reduceFunc: (K, seq<V>) -> (K, V))
  {
    /** `apply_map` (lines 27-30): the map function's records, unchanged. */
    function ApplyMap(bytes: seq<bv8>): (r: MapStageOutput<K, V>)
      ensures r == mapFunc(bytes)
    {
      mapFunc(bytes)
    }

    /** `apply_shuffle` (lines 32-44): a group per key met, created empty the
        first time the key is met, and each record's value pushed onto the
        group of its key. The keys are those of the records, every group is
        non-empty and holds the values of its key's records in record order. */
    method ApplyShuffle(outs: MapStageOutput<K, V>) returns (groups: map<K, seq<V>>)
      ensures groups.Keys == KeysOf(outs)
      ensures forall k :: k in groups ==> groups[k] == ValuesOf(outs, k) && |groups[k]| > 0
      ensures |outs| == 0 ==> groups == map[]
    {
      groups := map[];
      for i := 0 to |outs|
        invariant groups.Keys == KeysOf(outs[..i])
        invariant forall k :: k in groups ==> groups[k] == ValuesOf(outs[..i], k)
        invariant forall k :: k !in groups ==> ValuesOf(outs[..i], k) == []
      {
        var k := outs[i].key;
        var element := outs[i].value;
        if k !in groups {
          groups := groups[k := []];
        }
        groups := groups[k := groups[k] + [element]];
        assert outs[..i + 1][..i] == outs[..i];
        assert KeysOf(outs[..i + 1]) == KeysOf(outs[..i]) + {k} by {
          forall j | 0 <= j < i ensures outs[..i + 1][j] == outs[..i][j] { }
        }
      }
      assert outs[..|outs|] == outs;
      forall k | k in groups ensures |groups[k]| > 0 {
        ValuesOfNonEmpty(outs, k);
      }
    }

    /** After reducing the keys `order` (each once) and before those of
        `rest`: `out` holds one `reduce_func` pair per key reduced. */
    ghost predicate Reduced(grouped: map<K, seq<V>>, rest: set<K>, order: seq<K>, out: seq<(K, V)>)
    {
      && rest <= grouped.Keys && Elems(order) == grouped.Keys - rest && NoDup(order)
      && |out| == |order|
      && forall i :: 0 <= i < |out| ==> order[i] in grouped && out[i] == reduceFunc(order[i], grouped[order[i]])
    }

    /** Reducing one more key not yet reduced keeps `Reduced`. */
    lemma ReduceStep(grouped: map<K, seq<V>>, rest: set<K>, order: seq<K>, out: seq<(K, V)>, k: K)
      requires Reduced(grouped, rest, order, out) && k in rest
      ensures Reduced(grouped, rest - {k}, order + [k], out + [reduceFunc(k, grouped[k])])
    {
      NoDupPush(order, k);
    }

    /** `apply_reduce` (lines 46-54): one `reduce_func(k, group)` per key, in
        the map's iteration order, which is unspecified and returned as
        `order`: every key once, so there are as many pairs as keys. */
    method ApplyReduce(grouped: map<K, seq<V>>) returns (out: seq<(K, V)>, order: seq<K>)
      ensures NoDup(order) && Elems(order) == grouped.Keys
      ensures |out| == |order| == |grouped|
      ensures forall i :: 0 <= i < |out| ==> order[i] in grouped && out[i] == reduceFunc(order[i], grouped[order[i]])
    {
      out, order := [], [];
      var rest := grouped.Keys;
      ElemsEmpty(order);
      while rest != {}
        invariant Reduced(grouped, rest, order, out)
        decreases rest
      {
        var k :| k in rest;
        ReduceStep(grouped, rest, order, out, k);
        out := out + [reduceFunc(k, grouped[k])];
        order := order + [k];
        rest := rest - {k};
      }
      KeysCard(grouped, order);
    }
  }
}
