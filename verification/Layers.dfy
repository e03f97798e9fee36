// Grouping tensors by layer and planning shards of consecutive layers.
module Layers {
  import opened Wrappers
  import opened Bytes
  import opened Reader
  import opened Parser
  import opened Sorting
  import opened Names

  // ---------------------------------------------------------------------------
  // Counting layers
  // ---------------------------------------------------------------------------

  function LayerCount(ts: seq<TensorInfo>): nat {
    if ts == [] then 0
    else
      var before := LayerCount(ts[..|ts| - 1]);
      var id := LayerId(ts[|ts| - 1].name);
      if id.Some? && id.value >= before then id.value + 1 else before
  }

  lemma {:induction false} LayerCountAbove(ts: seq<TensorInfo>, i: nat)
    requires i < |ts| && LayerId(ts[i].name).Some?
    ensures LayerId(ts[i].name).value < LayerCount(ts)
  {
    hide LayerId;
    if i < |ts| - 1 {
      LayerCountAbove(ts[..|ts| - 1], i);
    }
  }

  lemma {:induction false} LayerCountAttained(ts: seq<TensorInfo>) returns (i: nat)
    requires LayerCount(ts) > 0
    ensures i < |ts| && LayerId(ts[i].name) == Some(LayerCount(ts) - 1)
  {
    hide LayerId;
    if LayerCount(ts) == LayerCount(ts[..|ts| - 1]) {
      i := LayerCountAttained(ts[..|ts| - 1]);
    } else {
      i := |ts| - 1;
    }
  }

  // The least number above every layer id that occurs.
  lemma LayerCountIsLeast(ts: seq<TensorInfo>)
    ensures forall i :: 0 <= i < |ts| && LayerId(ts[i].name).Some? ==> LayerId(ts[i].name).value < LayerCount(ts)
    ensures LayerCount(ts) > 0 ==>
              exists i :: 0 <= i < |ts| && LayerId(ts[i].name) == Some(LayerCount(ts) - 1)
  {
    hide LayerId, LayerCount;
    forall i | 0 <= i < |ts| && LayerId(ts[i].name).Some?
      ensures LayerId(ts[i].name).value < LayerCount(ts)
    {
      LayerCountAbove(ts, i);
    }
    if LayerCount(ts) > 0 {
      var i := LayerCountAttained(ts);
    }
  }

  method CountLayers(ts: seq<TensorInfo>) returns (r: Result<u32, Error>)
    ensures r == if LayerCount(ts) < U32_LIMIT then Success(LayerCount(ts)) else Failure(Overflow)
  {
    hide LayerId;
    var max: u32 := 0;
    for i := 0 to |ts|
      invariant max == LayerCount(ts[..i])
    {
      assert ts[..i + 1][..i] == ts[..i];
      var id := LayerId(ts[i].name);
      if id.Some? && id.value >= max {
        if id.value + 1 >= U32_LIMIT {
          LayerCountGrows(ts, i + 1);
          return Failure(Overflow);
        }
        max := id.value + 1;
      }
    }
    assert ts[..|ts|] == ts;
    r := Success(max);
  }

  lemma {:induction false} LayerCountGrows(ts: seq<TensorInfo>, i: nat)
    requires i <= |ts|
    ensures LayerCount(ts[..i]) <= LayerCount(ts)
    decreases |ts|
  {
    hide LayerId;
    if i == |ts| {
      assert ts[..i] == ts;
    } else {
      assert ts[..|ts| - 1][..i] == ts[..i];
      LayerCountGrows(ts[..|ts| - 1], i);
    }
  }

  // ---------------------------------------------------------------------------
  // Groups
  // ---------------------------------------------------------------------------

  // The group a tensor goes to: its layer, or the last group, number numLayers.
  function GroupOf(t: TensorInfo, numLayers: nat): (g: nat)
    ensures g <= numLayers
  {
    var id := LayerId(t.name);
    if id.Some? && id.value < numLayers then id.value else numLayers
  }

  // The first `upTo` tensors that go to group g, in file order.
  function Members(ts: seq<TensorInfo>, numLayers: nat, g: nat, upTo: nat): seq<nat>
    requires upTo <= |ts|
  {
    if upTo == 0 then []
    else
      Members(ts, numLayers, g, upTo - 1)
      + (if GroupOf(ts[upTo - 1], numLayers) == g then [upTo - 1] else [])
  }

  function GroupsUpTo(ts: seq<TensorInfo>, numLayers: nat, upTo: nat): (groups: seq<seq<nat>>)
    requires upTo <= |ts|
    ensures |groups| == numLayers + 1
  {
    seq(numLayers + 1, (g: nat) => Members(ts, numLayers, g, upTo))
  }

  function Groups(ts: seq<TensorInfo>, numLayers: nat): (groups: seq<seq<nat>>)
    ensures |groups| == numLayers + 1
  {
    GroupsUpTo(ts, numLayers, |ts|)
  }

  method GroupTensorsByLayer(ts: seq<TensorInfo>, numLayers: u32) returns (groups: seq<seq<nat>>)
    ensures groups == Groups(ts, numLayers)
  {
    groups := seq(numLayers, _ => []);
    var nonLayer: seq<nat> := [];
    for i := 0 to |ts|
      invariant |groups| == numLayers
      invariant groups + [nonLayer] == GroupsUpTo(ts, numLayers, i)
    {
      ghost var before := groups + [nonLayer];
      var id := LayerId(ts[i].name);
      if id.Some? {
        if id.value < |groups| {
          groups := groups[id.value := groups[id.value] + [i]];
        } else {
          nonLayer := nonLayer + [i];
        }
      } else {
        nonLayer := nonLayer + [i];
      }
      forall g | 0 <= g <= numLayers
        ensures (groups + [nonLayer])[g] == Members(ts, numLayers, g, i + 1)
      {
        assert before[g] == Members(ts, numLayers, g, i);
      }
    }
    groups := groups + [nonLayer];
  }

  // Groups lo .. hi-1, one after the other.
  function Concat(groups: seq<seq<nat>>, lo: nat, hi: nat): seq<nat>
    requires hi <= |groups|
  {
    if hi <= lo then [] else Concat(groups, lo, hi - 1) + groups[hi - 1]
  }

  function ShardIndices(groups: seq<seq<nat>>, firstLayer: nat, lastLayer: nat, hasLmHead: bool): seq<nat>
    requires groups != []
  {
    var layers := |groups| - 1;
    Concat(groups, firstLayer, if lastLayer + 1 < layers then lastLayer + 1 else layers)
    + (if hasLmHead then groups[layers] else [])
  }

  method GetShardTensorIndices(groups: seq<seq<nat>>, firstLayer: u32, lastLayer: u32, hasLmHead: bool)
    returns (indices: seq<nat>)
    requires groups != []
    ensures indices == ShardIndices(groups, firstLayer, lastLayer, hasLmHead)
  {
    indices := [];
    var layer: nat := firstLayer;
    while layer <= lastLayer
      invariant firstLayer <= layer && (layer <= lastLayer + 1 || layer == firstLayer)
      invariant indices == Concat(groups, firstLayer, if layer < |groups| - 1 then layer else |groups| - 1)
    {
      if layer < |groups| - 1 {
        indices := indices + groups[layer];
      }
      layer := layer + 1;
    }
    if hasLmHead {
      indices := indices + groups[|groups| - 1];
    }
  }

  // ---------------------------------------------------------------------------
  // Every tensor is in exactly one group
  // ---------------------------------------------------------------------------

  lemma GroupGrows(ts: seq<TensorInfo>, numLayers: nat, g: nat, upTo: nat)
    requires upTo < |ts| && g <= numLayers
    ensures GroupsUpTo(ts, numLayers, upTo + 1)[g]
         == GroupsUpTo(ts, numLayers, upTo)[g] + (if GroupOf(ts[upTo], numLayers) == g then [upTo] else [])
  {
  }

  lemma {:induction false} ConcatGrows(ts: seq<TensorInfo>, numLayers: nat, hi: nat, upTo: nat)
    requires upTo < |ts| && hi <= numLayers + 1
    ensures multiset(Concat(GroupsUpTo(ts, numLayers, upTo + 1), 0, hi))
         == multiset(Concat(GroupsUpTo(ts, numLayers, upTo), 0, hi))
            + (if GroupOf(ts[upTo], numLayers) < hi then multiset{upTo} else multiset{})
    decreases hi
  {
    if hi > 0 {
      var before, after := GroupsUpTo(ts, numLayers, upTo), GroupsUpTo(ts, numLayers, upTo + 1);
      hide *;
      ConcatGrows(ts, numLayers, hi - 1, upTo);
      GroupGrows(ts, numLayers, hi - 1, upTo);
      ConcatSnoc(before, 0, hi);
      ConcatSnoc(after, 0, hi);
      OneMore(Concat(before, 0, hi - 1), Concat(after, 0, hi - 1), before[hi - 1], after[hi - 1],
              GroupOf(ts[upTo], numLayers) < hi - 1, GroupOf(ts[upTo], numLayers) == hi - 1, upTo);
    }
  }

  // One more element in the first part or in the second.
  lemma OneMore(a: seq<nat>, a': seq<nat>, b: seq<nat>, b': seq<nat>, inA: bool, inB: bool, n: nat)
    requires multiset(a') == multiset(a) + (if inA then multiset{n} else multiset{})
    requires b' == b + (if inB then [n] else []) && !(inA && inB)
    ensures multiset(a' + b') == multiset(a + b) + (if inA || inB then multiset{n} else multiset{})
  {
  }

  lemma ConcatSnoc(groups: seq<seq<nat>>, lo: nat, hi: nat)
    requires lo < hi <= |groups|
    ensures Concat(groups, lo, hi) == Concat(groups, lo, hi - 1) + groups[hi - 1]
  {
  }

  lemma {:induction false} EmptyConcat(ts: seq<TensorInfo>, numLayers: nat, hi: nat)
    requires hi <= numLayers + 1
    ensures Concat(GroupsUpTo(ts, numLayers, 0), 0, hi) == []
    decreases hi
  {
    if hi > 0 {
      EmptyConcat(ts, numLayers, hi - 1);
    }
  }

  lemma {:induction false} GroupsPartition(ts: seq<TensorInfo>, numLayers: nat, upTo: nat)
    requires upTo <= |ts|
    ensures Permutation(Concat(GroupsUpTo(ts, numLayers, upTo), 0, numLayers + 1), Range(upTo))
    decreases upTo
  {
    hide *;
    if upTo == 0 {
      EmptyConcat(ts, numLayers, numLayers + 1);
      EmptyPermutes();
    } else {
      GroupsPartition(ts, numLayers, upTo - 1);
      PartitionGrows(ts, numLayers, upTo - 1);
    }
  }

  lemma EmptyPermutes()
    ensures Permutation([], Range(0))
  {
    assert Range(0) == [];
  }

  lemma PartitionGrows(ts: seq<TensorInfo>, numLayers: nat, upTo: nat)
    requires upTo < |ts|
    requires Permutation(Concat(GroupsUpTo(ts, numLayers, upTo), 0, numLayers + 1), Range(upTo))
    ensures Permutation(Concat(GroupsUpTo(ts, numLayers, upTo + 1), 0, numLayers + 1), Range(upTo + 1))
  {
    hide *;
    ConcatGrows(ts, numLayers, numLayers + 1, upTo);
    AppendPermutes(Concat(GroupsUpTo(ts, numLayers, upTo), 0, numLayers + 1),
                   Concat(GroupsUpTo(ts, numLayers, upTo + 1), 0, numLayers + 1), upTo);
  }

  lemma AppendPermutes(before: seq<nat>, after: seq<nat>, n: nat)
    requires Permutation(before, Range(n)) && multiset(after) == multiset(before) + multiset{n}
    ensures Permutation(after, Range(n + 1))
  {
    hide Range;
    RangeGrows(n);
  }

  lemma {:induction false} ConcatSplit(groups: seq<seq<nat>>, lo: nat, mid: nat, hi: nat)
    requires lo <= mid <= hi <= |groups|
    ensures Concat(groups, lo, hi) == Concat(groups, lo, mid) + Concat(groups, mid, hi)
    decreases hi
  {
    if mid < hi {
      ConcatSplit(groups, lo, mid, hi - 1);
    }
  }

  // ---------------------------------------------------------------------------
  // The shard plan
  // ---------------------------------------------------------------------------

  // (a as f64 / b as f64).ceil() as u32, which is exact for u32 operands.
  function CeilDiv(a: nat, b: nat): (q: nat)
    requires b > 0
  {
    (a + b - 1) / b
  }

  lemma DivMod(n: nat, b: nat)
    requires b > 0
    ensures n == n / b * b + n % b && 0 <= n % b < b
  {
  }

  lemma CeilDivMeaning(a: nat, b: nat)
    requires b > 0
    ensures a <= CeilDiv(a, b) * b < a + b
    ensures CeilDiv(a, b) <= a
    ensures a > 0 ==> CeilDiv(a, b) > 0
  {
    DivMod(a + b - 1, b);
    if CeilDiv(a, b) > a {
      MulMonotone(a + 1, CeilDiv(a, b), b);
      MulMonotone(1, b, a);
      assert false;
    }
  }

  datatype Shard = Shard(firstLayer: u32, lastLayer: u32, hasLmHead: bool)

  // The layer range of shard i, or the overflow of `i * lps` or of `first + lps`.
  function PlanShard(numLayers: u32, layersPerShard: u32, i: nat): (r: Result<Shard, Error>)
    requires numLayers > 0 && layersPerShard > 0
  {
    var first := i * layersPerShard;
    if first + layersPerShard >= U32_LIMIT then Failure(Overflow)
    else
      var last := if first + layersPerShard - 1 < numLayers - 1 then first + layersPerShard - 1 else numLayers - 1;
      Success(Shard(first, last, i + 1 == CeilDiv(numLayers, layersPerShard)))
  }

  // No shard overflows exactly when the last one, whose range is rounded up, does not.
  lemma PlanFits(numLayers: u32, layersPerShard: u32)
    requires numLayers > 0 && layersPerShard > 0
    ensures (forall i :: 0 <= i < CeilDiv(numLayers, layersPerShard) ==>
                           PlanShard(numLayers, layersPerShard, i).Success?)
       <==> CeilDiv(numLayers, layersPerShard) * layersPerShard < U32_LIMIT
  {
    var q := CeilDiv(numLayers, layersPerShard);
    CeilDivMeaning(numLayers, layersPerShard);
    assert (q - 1) * layersPerShard + layersPerShard == q * layersPerShard;
    if q * layersPerShard < U32_LIMIT {
      forall i | 0 <= i < q
        ensures PlanShard(numLayers, layersPerShard, i).Success?
      {
        MulMonotone(i + 1, q, layersPerShard);
        assert (i + 1) * layersPerShard == i * layersPerShard + layersPerShard;
      }
    } else {
      assert PlanShard(numLayers, layersPerShard, q - 1).Failure?;
    }
  }

  lemma MulMonotone(a: nat, b: nat, m: nat)
    requires a <= b
    ensures a * m <= b * m
  {
  }

  // Layers below the end of the first i shards.
  function Covered(numLayers: nat, layersPerShard: nat, i: nat): (c: nat)
    ensures c <= numLayers
  {
    if i * layersPerShard < numLayers then i * layersPerShard else numLayers
  }

  // Shard i holds exactly the layers from where the shards before it stop.
  lemma ShardCovers(numLayers: u32, layersPerShard: u32, i: nat)
    requires numLayers > 0 && layersPerShard > 0 && i < CeilDiv(numLayers, layersPerShard)
    requires PlanShard(numLayers, layersPerShard, i).Success?
    ensures var s := PlanShard(numLayers, layersPerShard, i).value;
            && s.firstLayer == Covered(numLayers, layersPerShard, i)
            && s.firstLayer <= s.lastLayer < numLayers
            && s.lastLayer + 1 == Covered(numLayers, layersPerShard, i + 1)
            && (s.hasLmHead <==> s.lastLayer + 1 == numLayers)
  {
    hide CeilDiv;
    ShardBounds(numLayers, layersPerShard, i);
  }

  // Where shard i starts and where the next one would.
  lemma ShardBounds(numLayers: u32, layersPerShard: u32, i: nat)
    requires numLayers > 0 && layersPerShard > 0 && i < CeilDiv(numLayers, layersPerShard)
    ensures i * layersPerShard < numLayers && (i + 1) * layersPerShard == i * layersPerShard + layersPerShard
    ensures (i + 1) * layersPerShard >= numLayers <==> i + 1 == CeilDiv(numLayers, layersPerShard)
  {
    var q := CeilDiv(numLayers, layersPerShard);
    CeilDivMeaning(numLayers, layersPerShard);
    hide CeilDiv;
    assert (i + 1) * layersPerShard == i * layersPerShard + layersPerShard;
    assert (q - 1) * layersPerShard + layersPerShard == q * layersPerShard;
    MulMonotone(i, q - 1, layersPerShard);
    if i + 1 < q {
      MulMonotone(i + 1, q - 1, layersPerShard);
    }
  }

  // The index lists of shards 0 .. i-1, one after the other.
  ghost function AllIndices(shards: seq<seq<nat>>): seq<nat> {
    if shards == [] then [] else AllIndices(shards[..|shards| - 1]) + shards[|shards| - 1]
  }

  ghost predicate PlannedIndices(ts: seq<TensorInfo>, numLayers: u32, layersPerShard: u32, shards: seq<seq<nat>>)
    requires numLayers > 0 && layersPerShard > 0
  {
    |shards| <= CeilDiv(numLayers, layersPerShard) &&
    forall i :: 0 <= i < |shards| ==>
      var plan := PlanShard(numLayers, layersPerShard, i);
      plan.Success? && shards[i] == PlannedShard(Groups(ts, numLayers), plan.value)
  }

  function PlannedShard(groups: seq<seq<nat>>, s: Shard): seq<nat>
    requires groups != []
  {
    ShardIndices(groups, s.firstLayer, s.lastLayer, s.hasLmHead)
  }

  lemma ShardIndicesCover(groups: seq<seq<nat>>, numLayers: u32, layersPerShard: u32, i: nat)
    requires numLayers > 0 && layersPerShard > 0 && i < CeilDiv(numLayers, layersPerShard)
    requires PlanShard(numLayers, layersPerShard, i).Success? && |groups| == numLayers + 1
    ensures PlannedShard(groups, PlanShard(numLayers, layersPerShard, i).value)
         == Concat(groups, Covered(numLayers, layersPerShard, i), Covered(numLayers, layersPerShard, i + 1))
            + (if i + 1 == CeilDiv(numLayers, layersPerShard) then groups[numLayers] else [])
  {
    hide PlanShard, Concat, Covered, CeilDiv;
    ShardCovers(numLayers, layersPerShard, i);
    HeadIsLast(numLayers, layersPerShard, i);
  }

  lemma HeadIsLast(numLayers: u32, layersPerShard: u32, i: nat)
    requires numLayers > 0 && layersPerShard > 0
    requires PlanShard(numLayers, layersPerShard, i).Success?
    ensures PlanShard(numLayers, layersPerShard, i).value.hasLmHead <==> i + 1 == CeilDiv(numLayers, layersPerShard)
  {
  }

  lemma CoveredEnds(numLayers: u32, layersPerShard: u32)
    requires numLayers > 0 && layersPerShard > 0
    ensures Covered(numLayers, layersPerShard, 0) == 0
    ensures Covered(numLayers, layersPerShard, CeilDiv(numLayers, layersPerShard)) == numLayers
    ensures CeilDiv(numLayers, layersPerShard) > 0
  {
    CeilDivMeaning(numLayers, layersPerShard);
  }

  lemma CoveredGrows(numLayers: u32, layersPerShard: u32, i: nat)
    requires layersPerShard > 0
    ensures Covered(numLayers, layersPerShard, i) <= Covered(numLayers, layersPerShard, i + 1)
  {
    assert (i + 1) * layersPerShard == i * layersPerShard + layersPerShard;
  }

  lemma PlannedLast(ts: seq<TensorInfo>, numLayers: u32, layersPerShard: u32, shards: seq<seq<nat>>)
    requires numLayers > 0 && layersPerShard > 0 && shards != []
    requires PlannedIndices(ts, numLayers, layersPerShard, shards)
    ensures PlannedIndices(ts, numLayers, layersPerShard, shards[..|shards| - 1])
    ensures var i := |shards| - 1;
            && i < CeilDiv(numLayers, layersPerShard)
            && PlanShard(numLayers, layersPerShard, i).Success?
            && shards[i] == PlannedShard(Groups(ts, numLayers), PlanShard(numLayers, layersPerShard, i).value)
  {
  }

  lemma {:induction false} PlannedPrefix(ts: seq<TensorInfo>, numLayers: u32, layersPerShard: u32,
                                         shards: seq<seq<nat>>)
    requires numLayers > 0 && layersPerShard > 0
    requires PlannedIndices(ts, numLayers, layersPerShard, shards)
    ensures AllIndices(shards)
         == Concat(Groups(ts, numLayers), 0, Covered(numLayers, layersPerShard, |shards|))
            + (if |shards| == CeilDiv(numLayers, layersPerShard) then Groups(ts, numLayers)[numLayers] else [])
    decreases |shards|
  {
    var groups := Groups(ts, numLayers);
    if shards == [] {
      CoveredEnds(numLayers, layersPerShard);
    } else {
      hide Groups, PlanShard, Covered, CeilDiv, PlannedShard, Concat, PlannedIndices;
      var i := |shards| - 1;
      PlannedLast(ts, numLayers, layersPerShard, shards);
      PlannedPrefix(ts, numLayers, layersPerShard, shards[..i]);
      ShardIndicesCover(groups, numLayers, layersPerShard, i);
      CoveredGrows(numLayers, layersPerShard, i);
      var from, to := Covered(numLayers, layersPerShard, i), Covered(numLayers, layersPerShard, i + 1);
      ConcatSplit(groups, 0, from, to);
      var tail := if i + 1 == CeilDiv(numLayers, layersPerShard) then groups[numLayers] else [];
      assert AllIndices(shards[..i]) == Concat(groups, 0, from) by {
        assert Concat(groups, 0, from) + [] == Concat(groups, 0, from);
      }
      assert shards[i] == Concat(groups, from, to) + tail;
      Associative(Concat(groups, 0, from), Concat(groups, from, to), tail);
    }
  }

  // Over all planned shards, each tensor index occurs exactly once.
  lemma ExactlyOnce(ts: seq<TensorInfo>, numLayers: u32, layersPerShard: u32, shards: seq<seq<nat>>)
    requires numLayers > 0 && layersPerShard > 0
    requires PlannedIndices(ts, numLayers, layersPerShard, shards)
    requires |shards| == CeilDiv(numLayers, layersPerShard)
    ensures Permutation(AllIndices(shards), Range(|ts|))
  {
    PlannedPrefix(ts, numLayers, layersPerShard, shards);
    CoveredEnds(numLayers, layersPerShard);
    GroupsPartition(ts, numLayers, |ts|);
    var groups := Groups(ts, numLayers);
    assert Concat(groups, 0, numLayers + 1) == Concat(groups, 0, numLayers) + groups[numLayers];
  }

  // With the counted number of layers, only names without a layer id reach the last group.
  lemma FallbackNeverTaken(ts: seq<TensorInfo>, i: nat)
    requires i < |ts|
    ensures GroupOf(ts[i], LayerCount(ts)) == LayerCount(ts) <==> LayerId(ts[i].name).None?
  {
    LayerCountIsLeast(ts);
  }
}
