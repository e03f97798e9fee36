// Which tensors a planned shard lists.
module Selection {
  import opened Wrappers
  import opened Bytes
  import opened Parser
  import opened Sorting
  import opened Names
  import opened Layers

  lemma {:induction false} MembersMeaning(ts: seq<TensorInfo>, numLayers: nat, g: nat, upTo: nat, i: nat)
    requires upTo <= |ts|
    ensures i in Members(ts, numLayers, g, upTo) <==> i < upTo && GroupOf(ts[i], numLayers) == g
    decreases upTo
  {
    hide GroupOf;
    if upTo > 0 {
      MembersMeaning(ts, numLayers, g, upTo - 1, i);
    }
  }

  lemma {:induction false} ConcatMeaning(ts: seq<TensorInfo>, numLayers: nat, lo: nat, hi: nat, i: nat)
    requires hi <= numLayers + 1
    ensures i in Concat(Groups(ts, numLayers), lo, hi) <==> i < |ts| && lo <= GroupOf(ts[i], numLayers) < hi
    decreases hi
  {
    hide GroupOf, Members;
    if lo < hi {
      ConcatMeaning(ts, numLayers, lo, hi - 1, i);
      MembersMeaning(ts, numLayers, hi - 1, |ts|, i);
      assert Groups(ts, numLayers)[hi - 1] == Members(ts, numLayers, hi - 1, |ts|);
    }
  }

  // The shard with layers from .. to-1, and the tensors without a layer when `tail` is set.
  function Chosen(groups: seq<seq<nat>>, from: nat, to: nat, tail: bool): seq<nat>
    requires to < |groups|
  {
    Concat(groups, from, to) + (if tail then groups[|groups| - 1] else [])
  }

  lemma ChosenMeaning(ts: seq<TensorInfo>, numLayers: nat, from: nat, to: nat, tail: bool, i: nat)
    requires to <= numLayers
    ensures i in Chosen(Groups(ts, numLayers), from, to, tail)
       <==> i < |ts| && (from <= GroupOf(ts[i], numLayers) < to || (tail && GroupOf(ts[i], numLayers) == numLayers))
  {
    hide GroupOf, Members;
    ConcatMeaning(ts, numLayers, from, to, i);
    MembersMeaning(ts, numLayers, numLayers, |ts|, i);
    assert Groups(ts, numLayers)[numLayers] == Members(ts, numLayers, numLayers, |ts|);
  }

  lemma ChosenWithin(ts: seq<TensorInfo>, numLayers: nat, from: nat, to: nat, tail: bool)
    requires from <= to <= numLayers
    ensures multiset(Chosen(Groups(ts, numLayers), from, to, tail)) <= multiset(Range(|ts|))
  {
    var groups := Groups(ts, numLayers);
    hide Groups, Concat;
    GroupsPartition(ts, numLayers, |ts|);
    WholeConcat(ts, numLayers);
    ConcatSplit(groups, 0, from, numLayers + 1);
    ConcatSplit(groups, from, to, numLayers + 1);
    ConcatSplit(groups, to, numLayers, numLayers + 1);
    LastConcat(groups, numLayers);
  }

  lemma WholeConcat(ts: seq<TensorInfo>, numLayers: nat)
    ensures Groups(ts, numLayers) == GroupsUpTo(ts, numLayers, |ts|)
  {
  }

  lemma LastConcat(groups: seq<seq<nat>>, n: nat)
    requires n < |groups|
    ensures Concat(groups, n, n + 1) == groups[n]
  {
    assert [] + groups[n] == groups[n];
  }

  // A selection names existing tensors, none twice.
  lemma ChosenDistinct(ts: seq<TensorInfo>, numLayers: nat, from: nat, to: nat, tail: bool)
    requires from <= to <= numLayers
    ensures Distinct(Chosen(Groups(ts, numLayers), from, to, tail))
    ensures Indexes(Chosen(Groups(ts, numLayers), from, to, tail), ts)
  {
    var s := Chosen(Groups(ts, numLayers), from, to, tail);
    hide Chosen, Groups;
    ChosenWithin(ts, numLayers, from, to, tail);
    DistinctCount(Range(|ts|));
    DistinctCount(s);
    forall k | 0 <= k < |s| ensures s[k] < |ts| {
      assert s[k] in s;
      ChosenMeaning(ts, numLayers, from, to, tail, s[k]);
    }
  }

  // Shard i of the plan is such a selection.
  lemma PlannedIsChosen(ts: seq<TensorInfo>, numLayers: u32, layersPerShard: u32, i: nat)
    requires numLayers > 0 && layersPerShard > 0 && i < CeilDiv(numLayers, layersPerShard)
    requires PlanShard(numLayers, layersPerShard, i).Success?
    ensures Covered(numLayers, layersPerShard, i) < Covered(numLayers, layersPerShard, i + 1) <= numLayers
    ensures i + 1 == CeilDiv(numLayers, layersPerShard) ==> Covered(numLayers, layersPerShard, i + 1) == numLayers
    ensures PlannedShard(Groups(ts, numLayers), PlanShard(numLayers, layersPerShard, i).value)
         == Chosen(Groups(ts, numLayers), Covered(numLayers, layersPerShard, i),
                   Covered(numLayers, layersPerShard, i + 1),
                   i + 1 == CeilDiv(numLayers, layersPerShard))
  {
    hide Groups, PlannedShard, Concat;
    ShardIndicesCover(Groups(ts, numLayers), numLayers, layersPerShard, i);
    ShardCovers(numLayers, layersPerShard, i);
    HeadIsLast(numLayers, layersPerShard, i);
  }

  lemma GroupOfLayer(t: TensorInfo, n: nat)
    ensures GroupOf(t, n) < n ==> LayerId(t.name).Some?
    ensures LayerId(t.name).Some? && LayerId(t.name).value < n ==> GroupOf(t, n) == LayerId(t.name).value
  {
    hide LayerId;
  }

  // The highest layer is never empty.
  lemma TopLayerHeld(ts: seq<TensorInfo>, from: nat)
    requires from < LayerCount(ts)
    ensures Concat(Groups(ts, LayerCount(ts)), from, LayerCount(ts)) != []
  {
    hide *;
    var n := LayerCount(ts);
    LayerCountIsLeast(ts);
    var top :| 0 <= top < |ts| && LayerId(ts[top].name) == Some(n - 1);
    GroupOfLayer(ts[top], n);
    ConcatMeaning(ts, n, from, n, top);
  }

  // Tensor i is the first of its layer in the source.
  ghost predicate OpensLayer(ts: seq<TensorInfo>, i: nat) {
    && i < |ts|
    && LayerId(ts[i].name).Some?
    && forall j :: 0 <= j < i ==> LayerId(ts[j].name) != LayerId(ts[i].name)
  }

  lemma {:induction false} MembersHead(ts: seq<TensorInfo>, numLayers: nat, g: nat, upTo: nat)
    requires upTo <= |ts| && Members(ts, numLayers, g, upTo) != []
    ensures Members(ts, numLayers, g, upTo)[0] < upTo
    ensures forall j :: 0 <= j < Members(ts, numLayers, g, upTo)[0] ==> GroupOf(ts[j], numLayers) != g
    decreases upTo
  {
    hide GroupOf;
    if Members(ts, numLayers, g, upTo - 1) != [] {
      MembersHead(ts, numLayers, g, upTo - 1);
    } else {
      forall j: nat | j < upTo - 1
        ensures GroupOf(ts[j], numLayers) != g
      {
        MembersMeaning(ts, numLayers, g, upTo - 1, j);
      }
    }
  }

  // Consecutive groups start with the head of one of them.
  lemma {:induction false} ConcatHead(groups: seq<seq<nat>>, lo: nat, hi: nat) returns (g: nat)
    requires hi <= |groups| && Concat(groups, lo, hi) != []
    ensures lo <= g < hi && groups[g] != [] && groups[g][0] == Concat(groups, lo, hi)[0]
    decreases hi
  {
    if Concat(groups, lo, hi - 1) == [] {
      g := hi - 1;
    } else {
      g := ConcatHead(groups, lo, hi - 1);
    }
  }

  lemma GroupHeadOpens(ts: seq<TensorInfo>, g: nat)
    requires g < LayerCount(ts) && Groups(ts, LayerCount(ts))[g] != []
    ensures OpensLayer(ts, Groups(ts, LayerCount(ts))[g][0])
  {
    var n := LayerCount(ts);
    assert Groups(ts, n)[g] == Members(ts, n, g, |ts|);
    hide LayerCount, LayerId, GroupOf, Groups, Members;
    var head := Members(ts, n, g, |ts|)[0];
    MembersHead(ts, n, g, |ts|);
    MembersMeaning(ts, n, g, |ts|, head);
    GroupOfLayer(ts[head], n);
    LayerCountIsLeast(ts);
    forall j: nat | j < head
      ensures LayerId(ts[j].name) != LayerId(ts[head].name)
    {
      GroupOfLayer(ts[j], n);
    }
  }

  // A selection that holds anything starts with the first tensor of a layer: only the last shard
  // takes tensors without a layer, and it holds the highest layer.
  lemma FirstIsLayer(ts: seq<TensorInfo>, from: nat, to: nat, tail: bool)
    requires from < to <= LayerCount(ts) && (tail ==> to == LayerCount(ts))
    requires Chosen(Groups(ts, LayerCount(ts)), from, to, tail) != []
    ensures OpensLayer(ts, Chosen(Groups(ts, LayerCount(ts)), from, to, tail)[0])
  {
    var n := LayerCount(ts);
    if tail {
      TopLayerHeld(ts, from);
    }
    hide LayerCount, Concat, Groups, OpensLayer;
    var g := ConcatHead(Groups(ts, n), from, to);
    GroupHeadOpens(ts, g);
    assert Chosen(Groups(ts, n), from, to, tail)[0] == Concat(Groups(ts, n), from, to)[0];
  }
}
