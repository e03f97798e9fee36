// Distributing the layers of a model over nodes in proportion to their scores.
module Partition {
  import opened Wrappers

  // A node with the score its memory, GPUs, benchmark and latency add up to.
  datatype Node = Node(nodeId: string, rawScore: real, hasGpu: bool)

  datatype Part = Part(nodeId: string, firstLayer: int, numLayers: int, hasLmHead: bool, estimatedMemoryMb: real)

  datatype PartitionError = ZeroDivision

  // ---------------------------------------------------------------------------
  // Scores and shares
  // ---------------------------------------------------------------------------

  // Scores are never below 1.
  function Score(node: Node): (score: real)
    ensures node.rawScore >= 1.0 ==> score == node.rawScore
    ensures node.rawScore < 1.0 ==> score == 1.0
  {
    if node.rawScore > 1.0 then node.rawScore else 1.0
  }

  function Scores(nodes: seq<Node>): (scores: seq<real>)
    ensures |scores| == |nodes|
    ensures forall i :: 0 <= i < |scores| ==> scores[i] == Score(nodes[i])
  {
    seq(|nodes|, i requires 0 <= i < |nodes| => Score(nodes[i]))
  }

  ghost predicate Positive(scores: seq<real>) {
    forall i :: 0 <= i < |scores| ==> scores[i] > 0.0
  }

  function ScoreSum(scores: seq<real>, k: nat): real
    requires k <= |scores|
  {
    if k == 0 then 0.0 else ScoreSum(scores, k - 1) + scores[k - 1]
  }

  lemma {:induction false} ScoreSumPositive(scores: seq<real>, k: nat)
    requires Positive(scores) && k <= |scores|
    ensures k > 0 ==> ScoreSum(scores, k) > 0.0
    ensures ScoreSum(scores, k) >= 0.0
  {
    if k > 0 {
      ScoreSumPositive(scores, k - 1);
    }
  }

  // The layers a node would get if layers were divisible.
  function Share(scores: seq<real>, numLayers: int, i: nat): real
    requires Positive(scores) && i < |scores|
  {
    ScoreSumPositive(scores, |scores|);
    numLayers as real * (scores[i] / ScoreSum(scores, |scores|))
  }

  // int(): truncation toward zero.
  function Truncate(x: real): int {
    if x >= 0.0 then x.Floor else -((-x).Floor)
  }

  // The count a node starts with.
  function Base(scores: seq<real>, numLayers: int, i: nat): (count: int)
    requires Positive(scores) && i < |scores|
    ensures count >= 1
  {
    var whole := Truncate(Share(scores, numLayers, i));
    if whole > 1 then whole else 1
  }

  function BaseSum(scores: seq<real>, numLayers: int, k: nat): int
    requires Positive(scores) && k <= |scores|
  {
    if k == 0 then 0 else BaseSum(scores, numLayers, k - 1) + Base(scores, numLayers, k - 1)
  }

  // max(range(n), key=...) and min(range(n), key=...): the first best index.
  function ArgMax(scores: seq<real>): (m: nat)
    requires scores != []
    ensures m < |scores|
    ensures forall i :: 0 <= i < |scores| ==> scores[i] <= scores[m]
    ensures forall i :: 0 <= i < m ==> scores[i] < scores[m]
  {
    if |scores| == 1 then 0
    else
      var before := ArgMax(scores[..|scores| - 1]);
      if scores[|scores| - 1] > scores[before] then |scores| - 1 else before
  }

  function ArgMin(scores: seq<real>): (m: nat)
    requires scores != []
    ensures m < |scores|
    ensures forall i :: 0 <= i < |scores| ==> scores[m] <= scores[i]
    ensures forall i :: 0 <= i < m ==> scores[m] < scores[i]
  {
    if |scores| == 1 then 0
    else
      var before := ArgMin(scores[..|scores| - 1]);
      if scores[|scores| - 1] < scores[before] then |scores| - 1 else before
  }

  // The layers the starting counts fall short by.
  function Missing(scores: seq<real>, numLayers: int): nat
    requires Positive(scores)
  {
    var sum := BaseSum(scores, numLayers, |scores|);
    if sum < numLayers then numLayers - sum else 0
  }

  // The closed form of the two repair loops: the first top-scored node takes every missing layer,
  // and nothing is ever taken away.
  function Count(scores: seq<real>, numLayers: int, i: nat): (count: int)
    requires Positive(scores) && i < |scores|
    ensures count >= 1
  {
    Base(scores, numLayers, i) + (if i == ArgMax(scores) then Missing(scores, numLayers) else 0)
  }

  function Counts(scores: seq<real>, numLayers: int): (counts: seq<int>)
    requires Positive(scores)
    ensures |counts| == |scores|
    ensures forall i :: 0 <= i < |counts| ==> counts[i] == Count(scores, numLayers, i) && counts[i] >= 1
  {
    seq(|scores|, i requires 0 <= i < |scores| && Positive(scores) => Count(scores, numLayers, i))
  }

  function Sum(counts: seq<int>, k: nat): int
    requires k <= |counts|
  {
    if k == 0 then 0 else Sum(counts, k - 1) + counts[k - 1]
  }

  // ---------------------------------------------------------------------------
  // Rounding
  // ---------------------------------------------------------------------------

  lemma DivideSum(a: real, b: real, t: real, l: real)
    requires t > 0.0
    ensures l * ((a + b) / t) == l * (a / t) + l * (b / t)
  {
    assert (a + b) / t == a / t + b / t;
  }

  lemma DivideOrder(a: real, b: real, t: real, l: real)
    requires t > 0.0 && a <= b && l >= 0.0
    ensures l * (a / t) <= l * (b / t)
  {
    assert a / t <= b / t;
  }

  lemma DividePositive(a: real, t: real, l: real)
    requires t > 0.0 && a > 0.0 && l > 0.0
    ensures l * (a / t) > 0.0
  {
    assert a / t > 0.0;
  }

  function ShareSum(scores: seq<real>, numLayers: int, k: nat): real
    requires Positive(scores) && k <= |scores|
  {
    if k == 0 then 0.0 else ShareSum(scores, numLayers, k - 1) + Share(scores, numLayers, k - 1)
  }

  lemma {:induction false} SharesAddUp(scores: seq<real>, numLayers: int, k: nat)
    requires Positive(scores) && k <= |scores| && scores != []
    ensures ScoreSum(scores, |scores|) > 0.0
    ensures ShareSum(scores, numLayers, k) == numLayers as real * (ScoreSum(scores, k) / ScoreSum(scores, |scores|))
  {
    ScoreSumPositive(scores, |scores|);
    if k > 0 {
      SharesAddUp(scores, numLayers, k - 1);
      DivideSum(ScoreSum(scores, k - 1), scores[k - 1], ScoreSum(scores, |scores|), numLayers as real);
    }
  }

  // Shares add up to the number of layers.
  lemma SharesTotal(scores: seq<real>, numLayers: int)
    requires Positive(scores) && scores != []
    ensures ShareSum(scores, numLayers, |scores|) == numLayers as real
  {
    SharesAddUp(scores, numLayers, |scores|);
    var t := ScoreSum(scores, |scores|);
    assert t / t == 1.0;
  }

  lemma SharePositive(scores: seq<real>, numLayers: int, i: nat)
    requires Positive(scores) && i < |scores| && numLayers >= 1
    ensures Share(scores, numLayers, i) > 0.0
  {
    ScoreSumPositive(scores, |scores|);
    DividePositive(scores[i], ScoreSum(scores, |scores|), numLayers as real);
  }

  // A starting count is within one of its share, unless the share is below one.
  lemma BaseNearShare(scores: seq<real>, numLayers: int, i: nat)
    requires Positive(scores) && i < |scores| && numLayers >= 1
    ensures var share := Share(scores, numLayers, i);
            var base := Base(scores, numLayers, i) as real; (
            && share - 1.0 < base < share + 1.0
            && (share >= 1.0 ==> base <= share)
            && (share < 2.0 ==> base == 1.0))
  {
    SharePositive(scores, numLayers, i);
  }

  lemma {:induction false} BaseSumNearShares(scores: seq<real>, numLayers: int, k: nat)
    requires Positive(scores) && k <= |scores| && numLayers >= 1
    ensures var exact, base := ShareSum(scores, numLayers, k), BaseSum(scores, numLayers, k) as real; (
            && exact - k as real <= base <= exact + k as real
            && (k > 0 ==> exact - k as real < base < exact + k as real))
  {
    if k > 0 {
      hide Share, Base;
      BaseSumNearShares(scores, numLayers, k - 1);
      BaseNearShare(scores, numLayers, k - 1);
    }
  }

  // When every share is at least one, the starting counts never exceed the number of layers.
  lemma {:induction false} BaseSumWithin(scores: seq<real>, numLayers: int, k: nat)
    requires Positive(scores) && k <= |scores| && numLayers >= 1
    requires forall i :: 0 <= i < k ==> Share(scores, numLayers, i) >= 1.0
    ensures BaseSum(scores, numLayers, k) as real <= ShareSum(scores, numLayers, k)
  {
    if k > 0 {
      hide Share, Base;
      BaseSumWithin(scores, numLayers, k - 1);
      BaseNearShare(scores, numLayers, k - 1);
    }
  }

  lemma ShareOrder(scores: seq<real>, numLayers: int, i: nat, j: nat)
    requires Positive(scores) && i < |scores| && j < |scores| && numLayers >= 1
    requires scores[i] <= scores[j]
    ensures Share(scores, numLayers, i) <= Share(scores, numLayers, j)
    ensures Base(scores, numLayers, i) <= Base(scores, numLayers, j)
  {
    ScoreSumPositive(scores, |scores|);
    DivideOrder(scores[i], scores[j], ScoreSum(scores, |scores|), numLayers as real);
    SharePositive(scores, numLayers, i);
  }

  // Why the shrink loop never takes a layer: too many layers means the lowest-scored node is
  // already down to one.
  lemma ExcessLeavesOne(scores: seq<real>, numLayers: int)
    requires Positive(scores) && scores != []
    requires BaseSum(scores, numLayers, |scores|) > numLayers
    ensures Base(scores, numLayers, ArgMin(scores)) == 1
  {
    var m := ArgMin(scores);
    if numLayers < 1 {
      NoLayersBase(scores, numLayers, m);
    } else if Base(scores, numLayers, m) > 1 {
      BaseNearShare(scores, numLayers, m);
      hide Share, Base, BaseSum, ShareSum, ArgMin;
      forall i | 0 <= i < |scores|
        ensures Share(scores, numLayers, i) >= 1.0
      {
        ShareOrder(scores, numLayers, m, i);
      }
      BaseSumWithin(scores, numLayers, |scores|);
      SharesTotal(scores, numLayers);
      assert false;
    }
  }

  lemma NoLayersBase(scores: seq<real>, numLayers: int, i: nat)
    requires Positive(scores) && i < |scores| && numLayers < 1
    ensures Base(scores, numLayers, i) == 1
  {
    ScoreSumPositive(scores, |scores|);
    var part := scores[i] / ScoreSum(scores, |scores|);
    DividePositive(scores[i], ScoreSum(scores, |scores|), 1.0);
    assert numLayers as real * part <= 0.0;
  }

  // ---------------------------------------------------------------------------
  // The partition
  // ---------------------------------------------------------------------------

  // (2 if has_gpu else 0, score), compared lexicographically.
  predicate Below(nodes: seq<Node>, i: nat, j: nat)
    requires i < |nodes| && j < |nodes|
  {
    || (!nodes[i].hasGpu && nodes[j].hasGpu)
    || (nodes[i].hasGpu == nodes[j].hasGpu && Score(nodes[i]) < Score(nodes[j]))
  }

  lemma BelowOrders(nodes: seq<Node>, a: nat, b: nat, i: nat)
    requires a < |nodes| && b < |nodes| && i < |nodes| && Below(nodes, a, b)
    ensures !Below(nodes, a, i) ==> !Below(nodes, b, i) && Below(nodes, i, b)
    ensures Below(nodes, i, a) ==> Below(nodes, i, b)
  {
  }

  lemma NewHead(nodes: seq<Node>, before: nat, k: nat)
    requires before < k < |nodes| && Below(nodes, before, k)
    requires forall i :: 0 <= i < k ==> !Below(nodes, before, i)
    ensures forall i :: 0 <= i <= k ==> !Below(nodes, k, i)
    ensures forall i :: 0 <= i < k ==> Below(nodes, i, k)
  {
    forall i | 0 <= i < k
      ensures !Below(nodes, k, i) && Below(nodes, i, k)
    {
      BelowOrders(nodes, before, k, i);
    }
  }

  // The first node that none of the first k is above.
  function HeadAmong(nodes: seq<Node>, k: nat): (h: nat)
    requires 0 < k <= |nodes|
    ensures h < k && forall i :: 0 <= i < k ==> !Below(nodes, h, i)
    ensures forall i :: 0 <= i < h ==> Below(nodes, i, h)
  {
    if k == 1 then 0
    else
      var before := HeadAmong(nodes, k - 1);
      if Below(nodes, before, k - 1) then
        NewHead(nodes, before, k - 1);
        k - 1
      else before
  }

  function EstimatedMb(count: int, numLayers: int, modelSizeBytes: int): real
    requires numLayers != 0
  {
    (count as real / numLayers as real) * (modelSizeBytes as real / 1048576.0)
  }

  function PartOf(nodes: seq<Node>, counts: seq<int>, numLayers: int, modelSizeBytes: int, i: nat): Part
    requires i < |nodes| == |counts| && numLayers != 0
  {
    Part(nodes[i].nodeId, Sum(counts, i), counts[i], i == HeadAmong(nodes, |nodes|),
         EstimatedMb(counts[i], numLayers, modelSizeBytes))
  }

  function Parts(nodes: seq<Node>, counts: seq<int>, numLayers: int, modelSizeBytes: int, k: nat): (parts: seq<Part>)
    requires k <= |nodes| == |counts| && numLayers != 0
    ensures |parts| == k
    ensures forall i :: 0 <= i < k ==> parts[i] == PartOf(nodes, counts, numLayers, modelSizeBytes, i)
  {
    seq(k, i requires 0 <= i < k <= |nodes| == |counts| && numLayers != 0 =>
      PartOf(nodes, counts, numLayers, modelSizeBytes, i))
  }

  lemma PartsStart(nodes: seq<Node>, counts: seq<int>, numLayers: int, modelSizeBytes: int)
    requires |nodes| == |counts|
    ensures Sum(counts, 0) == 0 && (numLayers != 0 ==> Parts(nodes, counts, numLayers, modelSizeBytes, 0) == [])
  {
    hide PartOf;
  }

  lemma PartsGrow(nodes: seq<Node>, counts: seq<int>, numLayers: int, modelSizeBytes: int, i: nat)
    requires i < |nodes| == |counts| && numLayers != 0
    ensures Sum(counts, i + 1) == Sum(counts, i) + counts[i]
    ensures Parts(nodes, counts, numLayers, modelSizeBytes, i + 1)
         == Parts(nodes, counts, numLayers, modelSizeBytes, i)
            + [Part(nodes[i].nodeId, Sum(counts, i), counts[i], i == HeadAmong(nodes, |nodes|),
                    EstimatedMb(counts[i], numLayers, modelSizeBytes))]
  {
    hide EstimatedMb, HeadAmong;
  }

  // The counts both loops leave behind, computed as the source computes them.
  method AllocateLayers(scores: seq<real>, numLayers: int) returns (counts: seq<int>)
    requires Positive(scores) && scores != []
    ensures counts == Counts(scores, numLayers)
  {
    hide Base, ArgMax, ArgMin;
    counts := [];
    var total := 0;
    for i := 0 to |scores|
      invariant |counts| == i && total == BaseSum(scores, numLayers, i)
      invariant forall k :: 0 <= k < i ==> counts[k] == Base(scores, numLayers, k)
    {
      counts := counts + [Base(scores, numLayers, i)];
      total := total + counts[i];
    }
    ghost var baseSum := total;
    while total < numLayers
      invariant |counts| == |scores| && total >= baseSum
      invariant total > baseSum ==> total <= numLayers
      invariant forall k :: 0 <= k < |scores| ==>
                  counts[k] == Base(scores, numLayers, k) + (if k == ArgMax(scores) then total - baseSum else 0)
      decreases numLayers - total
    {
      var idx := ArgMax(scores);
      counts := counts[idx := counts[idx] + 1];
      total := total + 1;
    }
    ghost var grown := counts;
    ghost var shrinks := 0;
    while total > numLayers
      invariant |counts| == |scores| && shrinks >= 0 && (shrinks == 0 ==> counts == grown)
      invariant total > numLayers && shrinks == 0 ==> total == baseSum
      invariant shrinks > 0 ==> baseSum > numLayers && Base(scores, numLayers, ArgMin(scores)) > 1
      decreases total - numLayers
    {
      var idx := ArgMin(scores);
      if counts[idx] > 1 {
        counts := counts[idx := counts[idx] - 1];
        total := total - 1;
        shrinks := shrinks + 1;
      } else {
        break;
      }
    }
    if shrinks > 0 {
      ExcessLeavesOne(scores, numLayers);
      assert false;
    }
  }

  // calculate_partition: no nodes, no parts; zero layers divide by zero; otherwise one part a node.
  method CalculatePartition(nodes: seq<Node>, numLayers: int, modelSizeBytes: int)
    returns (r: Result<seq<Part>, PartitionError>)
    ensures r == Partitioned(nodes, numLayers, modelSizeBytes)
  {
    if nodes == [] {
      return Success([]);
    }
    hide EstimatedMb, HeadAmong, Counts, Sum, Parts;
    var scores := Scores(nodes);
    var layersPerNode := AllocateLayers(scores, numLayers);
    var lmHeadNode := HeadAmong(nodes, |nodes|);
    var currentLayer := 0;
    var partitions: seq<Part> := [];
    PartsStart(nodes, layersPerNode, numLayers, modelSizeBytes);
    for i := 0 to |nodes|
      invariant numLayers == 0 ==> i == 0
      invariant currentLayer == Sum(layersPerNode, i)
      invariant numLayers != 0 ==> partitions == Parts(nodes, layersPerNode, numLayers, modelSizeBytes, i)
    {
      var count := layersPerNode[i];
      if numLayers == 0 {
        return Failure(ZeroDivision);
      }
      var part := Part(nodes[i].nodeId, currentLayer, count, i == lmHeadNode,
                       EstimatedMb(count, numLayers, modelSizeBytes));
      PartsGrow(nodes, layersPerNode, numLayers, modelSizeBytes, i);
      partitions := partitions + [part];
      currentLayer := currentLayer + count;
    }
    r := Success(partitions);
  }

  function Partitioned(nodes: seq<Node>, numLayers: int, modelSizeBytes: int): Result<seq<Part>, PartitionError> {
    if nodes == [] then Success([])
    else if numLayers == 0 then Failure(ZeroDivision)
    else Success(Parts(nodes, Counts(Scores(nodes), numLayers), numLayers, modelSizeBytes, |nodes|))
  }

  // ---------------------------------------------------------------------------
  // What the partition guarantees
  // ---------------------------------------------------------------------------

  lemma {:induction false} CountsSumTo(scores: seq<real>, numLayers: int, k: nat)
    requires Positive(scores) && scores != [] && k <= |scores|
    ensures Sum(Counts(scores, numLayers), k)
         == BaseSum(scores, numLayers, k)
            + (if ArgMax(scores) < k then Missing(scores, numLayers) else 0)
  {
    hide Base, ArgMax;
    if k > 0 {
      CountsSumTo(scores, numLayers, k - 1);
    }
  }

  // The counts never fall short and exceed the layers by less than the number of nodes; the growth
  // loop runs fewer than n times.
  lemma CountsTotal(scores: seq<real>, numLayers: int)
    requires Positive(scores) && scores != [] && numLayers >= 1
    ensures numLayers <= Sum(Counts(scores, numLayers), |scores|) <= numLayers + |scores| - 1
    ensures numLayers - BaseSum(scores, numLayers, |scores|) < |scores|
    ensures Sum(Counts(scores, numLayers), |scores|) == numLayers
       <==> BaseSum(scores, numLayers, |scores|) <= numLayers
  {
    CountsSumTo(scores, numLayers, |scores|);
    BaseSumNearShares(scores, numLayers, |scores|);
    SharesTotal(scores, numLayers);
  }

  // Nodes whose share is below one layer, and the whole layers of the others.
  function SmallNodes(scores: seq<real>, numLayers: int, k: nat): nat
    requires Positive(scores) && k <= |scores|
  {
    if k == 0 then 0
    else SmallNodes(scores, numLayers, k - 1) + (if Share(scores, numLayers, k - 1) < 1.0 then 1 else 0)
  }

  function WholeLayers(scores: seq<real>, numLayers: int, k: nat): int
    requires Positive(scores) && k <= |scores|
  {
    if k == 0 then 0
    else WholeLayers(scores, numLayers, k - 1)
         + (if Share(scores, numLayers, k - 1) < 1.0 then 0 else Share(scores, numLayers, k - 1).Floor)
  }

  lemma {:induction false} BaseSumSplits(scores: seq<real>, numLayers: int, k: nat)
    requires Positive(scores) && k <= |scores| && numLayers >= 1
    ensures BaseSum(scores, numLayers, k) == SmallNodes(scores, numLayers, k) + WholeLayers(scores, numLayers, k)
  {
    if k > 0 {
      BaseSumSplits(scores, numLayers, k - 1);
      SharePositive(scores, numLayers, k - 1);
      hide Share;
    }
  }

  // The counts add up to the layers exactly when there are no more nodes with less than one layer's
  // share than the layers the other nodes' whole shares leave over.
  lemma TotalExactWhen(scores: seq<real>, numLayers: int)
    requires Positive(scores) && scores != [] && numLayers >= 1
    ensures Sum(Counts(scores, numLayers), |scores|) == numLayers
       <==> SmallNodes(scores, numLayers, |scores|) <= numLayers - WholeLayers(scores, numLayers, |scores|)
    ensures (forall i :: 0 <= i < |scores| ==> Share(scores, numLayers, i) >= 1.0) ==>
              Sum(Counts(scores, numLayers), |scores|) == numLayers
  {
    hide Share, Base, Counts;
    CountsTotal(scores, numLayers);
    BaseSumSplits(scores, numLayers, |scores|);
    if forall i :: 0 <= i < |scores| ==> Share(scores, numLayers, i) >= 1.0 {
      BaseSumWithin(scores, numLayers, |scores|);
      SharesTotal(scores, numLayers);
    }
  }

  // Scores 100, 1, 1 and ten layers: the nodes get 9, 1 and 1.
  lemma TotalCanExceed()
    ensures Positive([100.0, 1.0, 1.0])
    ensures Counts([100.0, 1.0, 1.0], 10) == [9, 1, 1]
  {
    var scores := [100.0, 1.0, 1.0];
    assert ScoreSum(scores, 3) == 102.0 by {
      assert ScoreSum(scores, 1) == 100.0;
      assert ScoreSum(scores, 2) == 101.0;
    }
    assert Base(scores, 10, 0) == 9;
    assert Base(scores, 10, 1) == 1;
    assert Base(scores, 10, 2) == 1;
    assert BaseSum(scores, 10, 1) == 9;
    assert BaseSum(scores, 10, 2) == 10;
    assert BaseSum(scores, 10, 3) == 11;
  }

  // The ranges of the parts are non-empty, start at 0 and follow one another without gap or overlap.
  lemma RangesTile(nodes: seq<Node>, numLayers: int, modelSizeBytes: int, i: nat)
    requires i < |nodes| && numLayers != 0
    ensures Partitioned(nodes, numLayers, modelSizeBytes).Success?
    ensures var parts := Partitioned(nodes, numLayers, modelSizeBytes).value;
            && |parts| == |nodes|
            && parts[0].firstLayer == 0
            && parts[i].numLayers >= 1
            && (i + 1 < |nodes| ==> parts[i + 1].firstLayer == parts[i].firstLayer + parts[i].numLayers)
            && (i + 1 == |nodes| ==>
                  parts[i].firstLayer + parts[i].numLayers == Sum(Counts(Scores(nodes), numLayers), |nodes|))
  {
    hide Counts;
  }

  // A strictly higher score never gets fewer layers.
  lemma HigherScoreNotFewer(scores: seq<real>, numLayers: int, i: nat, j: nat)
    requires Positive(scores) && i < |scores| && j < |scores| && numLayers >= 1
    requires scores[i] > scores[j]
    ensures Count(scores, numLayers, i) >= Count(scores, numLayers, j)
  {
    hide Base;
    ShareOrder(scores, numLayers, j, i);
  }

  // Every node but the first top-scored one gets more than its share less one and at most its
  // share, or the single layer that a share below one is raised to.
  lemma CountNearShare(scores: seq<real>, numLayers: int, i: nat)
    requires Positive(scores) && i < |scores| && numLayers >= 1 && i != ArgMax(scores)
    ensures var share := Share(scores, numLayers, i);
            var count := Count(scores, numLayers, i) as real; (
            && share - 1.0 < count
            && (count <= share || (count == 1.0 && share < 1.0)))
  {
    hide Share;
    BaseNearShare(scores, numLayers, i);
  }

  // Exactly one part has the LM head, and no node is above its node in the (GPU, score) order.
  lemma OneHead(nodes: seq<Node>, numLayers: int, modelSizeBytes: int) returns (head: nat)
    requires nodes != [] && numLayers != 0
    ensures head < |nodes| && Partitioned(nodes, numLayers, modelSizeBytes).Success?
    ensures var parts := Partitioned(nodes, numLayers, modelSizeBytes).value;
            forall i :: 0 <= i < |parts| ==> (parts[i].hasLmHead <==> i == head)
    ensures forall i :: 0 <= i < |nodes| ==>
              && (nodes[i].hasGpu ==> nodes[head].hasGpu)
              && (nodes[i].hasGpu == nodes[head].hasGpu ==>
                    Score(nodes[i]) <= Score(nodes[head]) && (i < head ==> Score(nodes[i]) < Score(nodes[head])))
  {
    hide Counts, EstimatedMb, Score;
    head := HeadAmong(nodes, |nodes|);
    forall i | 0 <= i < |nodes|
      ensures nodes[i].hasGpu ==> nodes[head].hasGpu
      ensures nodes[i].hasGpu == nodes[head].hasGpu ==>
                Score(nodes[i]) <= Score(nodes[head]) && (i < head ==> Score(nodes[i]) < Score(nodes[head]))
    {
      assert !Below(nodes, head, i) && (i < head ==> Below(nodes, i, head));
    }
  }

  // ---------------------------------------------------------------------------
  // What a node gets for its score
  // ---------------------------------------------------------------------------

  function ScoreTotal(nodes: seq<Node>, k: nat): real
    requires k <= |nodes|
  {
    if k == 0 then 0.0 else ScoreTotal(nodes, k - 1) + Score(nodes[k - 1])
  }

  lemma {:induction false} ScoreTotalIsSum(nodes: seq<Node>, k: nat)
    requires k <= |nodes|
    ensures ScoreTotal(nodes, k) == ScoreSum(Scores(nodes), k) >= k as real
  {
    if k > 0 {
      ScoreTotalIsSum(nodes, k - 1);
    }
  }

  // The first of the highest-scored nodes.
  ghost predicate IsTop(nodes: seq<Node>, i: nat)
    requires i < |nodes|
  {
    forall j :: 0 <= j < |nodes| ==>
      Score(nodes[j]) <= Score(nodes[i]) && (j < i ==> Score(nodes[j]) < Score(nodes[i]))
  }

  // Of L layers, a node with this part of the total has more than its exact share less one, and at
  // most that share or the one layer that everyone gets. In products, to have no rounding.
  ghost predicate InProportion(count: int, numLayers: int, score: real, total: real) {
    && numLayers as real * score < (count as real + 1.0) * total
    && (count as real * total <= numLayers as real * score || count == 1)
  }

  lemma TimesPositive(a: real, b: real, t: real)
    requires a < b && t > 0.0
    ensures a * t < b * t
  {
    assert (b - a) * t > 0.0;
  }

  lemma DivideTimes(l: real, s: real, t: real)
    requires t > 0.0
    ensures l * (s / t) * t == l * s
  {
    var part := s / t;
    assert part * t == s;
    assert l * part * t == l * (part * t);
  }

  lemma ShareTimesTotal(scores: seq<real>, numLayers: int, i: nat)
    requires Positive(scores) && i < |scores|
    ensures ScoreSum(scores, |scores|) > 0.0
    ensures Share(scores, numLayers, i) * ScoreSum(scores, |scores|) == numLayers as real * scores[i]
  {
    ScoreSumPositive(scores, |scores|);
    hide ScoreSum;
    DivideTimes(numLayers as real, scores[i], ScoreSum(scores, |scores|));
  }

  lemma CountInProportion(scores: seq<real>, numLayers: int, i: nat)
    requires Positive(scores) && i < |scores| && numLayers >= 1 && i != ArgMax(scores)
    ensures InProportion(Count(scores, numLayers, i), numLayers, scores[i], ScoreSum(scores, |scores|))
  {
    hide Positive, Count, Share, ScoreSum, ArgMax, InProportion;
    CountNearShare(scores, numLayers, i);
    ShareTimesTotal(scores, numLayers, i);
    ProportionFrom(Count(scores, numLayers, i), numLayers, scores[i], ScoreSum(scores, |scores|),
                   Share(scores, numLayers, i));
  }

  lemma ProportionFrom(count: int, numLayers: int, score: real, total: real, share: real)
    requires total > 0.0 && share * total == numLayers as real * score
    requires share - 1.0 < count as real && (count as real <= share || count == 1)
    ensures InProportion(count, numLayers, score, total)
  {
    ProductBelow(share, count as real + 1.0, total, numLayers as real * score);
    if count as real <= share {
      ProductUpTo(count as real, share, total, numLayers as real * score);
    }
  }

  lemma ProductBelow(a: real, b: real, t: real, p: real)
    requires a < b && t > 0.0 && a * t == p
    ensures p < b * t
  {
    TimesPositive(a, b, t);
  }

  lemma ProductUpTo(a: real, b: real, t: real, p: real)
    requires a <= b && t > 0.0 && b * t == p
    ensures a * t <= p
  {
    if a < b {
      TimesPositive(a, b, t);
    }
  }

  // Part i goes to node i, with the count of its score.
  lemma PartIs(nodes: seq<Node>, numLayers: int, modelSizeBytes: int, i: nat)
    requires numLayers >= 1 && i < |nodes|
    ensures Partitioned(nodes, numLayers, modelSizeBytes).Success?
    ensures var parts := Partitioned(nodes, numLayers, modelSizeBytes).value;
            && |parts| == |nodes| && parts[i].nodeId == nodes[i].nodeId
            && parts[i].numLayers == Count(Scores(nodes), numLayers, i)
            && parts[i].estimatedMemoryMb == EstimatedMb(parts[i].numLayers, numLayers, modelSizeBytes)
  {
    hide Count, EstimatedMb, HeadAmong;
  }

  lemma NotTop(nodes: seq<Node>, i: nat)
    requires i < |nodes| && !IsTop(nodes, i)
    ensures i != ArgMax(Scores(nodes))
  {
  }

  // The parts go to the nodes in order. Each node but the top one gets layers in proportion to its
  // score, a higher score never gets fewer, and together they get at least L and fewer than n more.
  lemma PartsFollowScores(nodes: seq<Node>, numLayers: int, modelSizeBytes: int, i: nat, j: nat)
    requires numLayers >= 1 && i < |nodes| && j < |nodes|
    ensures Partitioned(nodes, numLayers, modelSizeBytes).Success?
    ensures |Partitioned(nodes, numLayers, modelSizeBytes).value| == |nodes|
    ensures var parts := Partitioned(nodes, numLayers, modelSizeBytes).value;
            var last := parts[|nodes| - 1];
            && parts[i].nodeId == nodes[i].nodeId
            && (!IsTop(nodes, i) ==>
                  InProportion(parts[i].numLayers, numLayers, Score(nodes[i]), ScoreTotal(nodes, |nodes|)))
            && (Score(nodes[i]) > Score(nodes[j]) ==> parts[i].numLayers >= parts[j].numLayers)
            && numLayers <= last.firstLayer + last.numLayers < numLayers + |nodes|
  {
    hide *;
    ScoreTotalIsSum(nodes, |nodes|);
    PartIs(nodes, numLayers, modelSizeBytes, i);
    PartIs(nodes, numLayers, modelSizeBytes, j);
    AllPositive(nodes);
    if !IsTop(nodes, i) {
      NotTop(nodes, i);
      CountInProportion(Scores(nodes), numLayers, i);
    }
    if Score(nodes[i]) > Score(nodes[j]) {
      HigherScoreNotFewer(Scores(nodes), numLayers, i, j);
    }
    CountsTotal(Scores(nodes), numLayers);
    RangesTile(nodes, numLayers, modelSizeBytes, |nodes| - 1);
  }

  lemma AllPositive(nodes: seq<Node>)
    ensures Positive(Scores(nodes))
  {
  }

  function RawTotal(nodes: seq<Node>, k: nat): real
    requires k <= |nodes|
  {
    if k == 0 then 0.0 else RawTotal(nodes, k - 1) + nodes[k - 1].rawScore
  }

  lemma {:induction false} RawTotalIsTotal(nodes: seq<Node>, k: nat)
    requires k <= |nodes| && forall i :: 0 <= i < |nodes| ==> nodes[i].rawScore >= 1.0
    ensures RawTotal(nodes, k) == ScoreTotal(nodes, k)
  {
    if k > 0 {
      RawTotalIsTotal(nodes, k - 1);
    }
  }

  // From one point on, a score counts as it is: of two nodes the one with the higher score has no
  // fewer layers, and the other's are in proportion to the raw scores.
  lemma PartsFollowRawScores(nodes: seq<Node>, numLayers: int, modelSizeBytes: int, i: nat, j: nat)
    requires numLayers >= 1 && i < |nodes| && j < |nodes| && nodes[i].rawScore < nodes[j].rawScore
    requires forall x :: 0 <= x < |nodes| ==> nodes[x].rawScore >= 1.0
    ensures Partitioned(nodes, numLayers, modelSizeBytes).Success?
    ensures |Partitioned(nodes, numLayers, modelSizeBytes).value| == |nodes|
    ensures var parts := Partitioned(nodes, numLayers, modelSizeBytes).value;
            && InProportion(parts[i].numLayers, numLayers, nodes[i].rawScore, RawTotal(nodes, |nodes|))
            && parts[i].numLayers <= parts[j].numLayers
  {
    assert Score(nodes[i]) == nodes[i].rawScore && Score(nodes[j]) == nodes[j].rawScore;
    assert !IsTop(nodes, i);
    hide *;
    RawTotalIsTotal(nodes, |nodes|);
    PartsFollowScores(nodes, numLayers, modelSizeBytes, i, j);
    PartsFollowScores(nodes, numLayers, modelSizeBytes, j, i);
  }

  // Each part's estimate is in proportion to its layers: for all L layers it would be the model, in MB.
  lemma PartMemory(nodes: seq<Node>, numLayers: int, modelSizeBytes: int, i: nat)
    requires numLayers >= 1 && i < |nodes|
    ensures Partitioned(nodes, numLayers, modelSizeBytes).Success?
         && |Partitioned(nodes, numLayers, modelSizeBytes).value| == |nodes|
    ensures var part := Partitioned(nodes, numLayers, modelSizeBytes).value[i];
            part.estimatedMemoryMb * (numLayers as real * 1048576.0) == part.numLayers as real * modelSizeBytes as real
  {
    hide *;
    PartIs(nodes, numLayers, modelSizeBytes, i);
    EstimateTimes(Partitioned(nodes, numLayers, modelSizeBytes).value[i].numLayers, numLayers, modelSizeBytes);
  }

  lemma EstimateTimes(count: int, numLayers: int, modelSizeBytes: int)
    requires numLayers >= 1
    ensures EstimatedMb(count, numLayers, modelSizeBytes) * (numLayers as real * 1048576.0)
         == count as real * modelSizeBytes as real
  {
    Cancel(count as real, numLayers as real, modelSizeBytes as real, 1048576.0);
  }

  lemma Cancel(a: real, l: real, b: real, m: real)
    requires l > 0.0 && m > 0.0
    ensures (a / l) * (b / m) * (l * m) == a * b
  {
    var x, y := a / l, b / m;
    assert x * l == a && y * m == b;
    Regroup(x, y, l, m);
  }

  lemma Regroup(x: real, y: real, l: real, m: real)
    ensures x * y * (l * m) == (x * l) * (y * m)
  {
  }
}
