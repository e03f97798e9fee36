// Which tensors a node claims, the equal split of the pipeline, and how both relate to the splitter.
module Membership {
  import opened Wrappers
  import opened Bytes
  import opened Names
  import opened Parser
  import opened Layers
  import opened Selection

  datatype LayerRange = LayerRange(firstLayer: int, numLayers: int, hasLmHead: bool) {
    function LastLayer(): int {
      firstLayer + numLayers - 1
    }

    predicate Covers(layer: int) {
      firstLayer <= layer <= LastLayer()
    }
  }

  const OUTPUT: seq<byte> := [111, 117, 116, 112, 117, 116]

  // layer_from_tensor_name
  function LayerFromName(name: seq<byte>): Option<int> {
    var text := LayerText(name);
    if text.None? then None else ParseI32(text.value)
  }

  // tensor_belongs_to_node
  predicate BelongsToNode(name: seq<byte>, range: LayerRange) {
    var layer := LayerFromName(name);
    if layer.Some? then range.Covers(layer.value) else Contains(name, OUTPUT) && range.hasLmHead
  }

  // A layer tensor belongs to the node whose layers include its number.
  lemma BelongsByLayer(n: nat, rest: seq<byte>, range: LayerRange)
    requires n < 0x8000_0000
    ensures BelongsToNode([98, 108, 107, 46] + (Digits(n) + ([46] + rest)), range)
       <==> range.firstLayer <= n < range.firstLayer + range.numLayers
  {
    assert Digits(n) == ZeroDigits(0) + Digits(n);
    assert Spells(Digits(n), n);
    hide Spells;
    ParseI32Exactly(Digits(n), n);
    UnsignedHasNoDot(Digits(n), n);
    FramedReads(Digits(n), rest);
    hide LayerText, ParseI32, Digits;
  }

  // A tensor that is not named after a block belongs to the node with the head if "output" occurs in
  // its name, and to no node otherwise.
  lemma BelongsByOutput(name: seq<byte>, range: LayerRange)
    requires !([98, 108, 107, 46] <= name)
    ensures BelongsToNode(name, range) <==> range.hasLmHead && Contains(name, Ascii("output"))
  {
    hide Contains;
    assert OUTPUT == Ascii("output");
  }

  lemma OutputIsTheHeads(range: LayerRange)
    ensures BelongsToNode(Ascii("output.weight"), range) <==> range.hasLmHead
  {
    var name := Ascii("output.weight");
    assert name[0] != 98;
    BelongsByOutput(name, range);
    assert name[0..6] == Ascii("output");
    assert OccursAt(name, Ascii("output"), 0);
  }

  // ---------------------------------------------------------------------------
  // The two ways of reading a layer number
  // ---------------------------------------------------------------------------

  // Both readers agree on unsigned text below 2^31; beyond that only the splitter reads it, and
  // only the node reads a minus sign.
  lemma ParsersAgree(s: seq<byte>)
    ensures ParseU32(s).Some? && ParseU32(s).value < I32_LIMIT ==> ParseI32(s) == Some(ParseU32(s).value)
    ensures ParseU32(s).Some? && ParseU32(s).value >= I32_LIMIT ==> ParseI32(s).None?
    ensures ParseU32(s).None? && ParseI32(s).Some? ==> s != [] && s[0] == MINUS && ParseI32(s).value <= 0
  {
    if s != [] && s[0] == MINUS {
      assert !AllDigits(s);
    }
  }

  // The shard's range as the node is told it.
  function RangeOf(s: Shard): LayerRange {
    LayerRange(s.firstLayer, s.lastLayer - s.firstLayer + 1, s.hasLmHead)
  }

  // The splitter puts tensor j into shard i.
  ghost predicate InShard(ts: seq<TensorInfo>, numLayers: u32, layersPerShard: u32, i: nat, j: nat)
    requires numLayers > 0 && layersPerShard > 0 && PlanShard(numLayers, layersPerShard, i).Success?
  {
    j in PlannedShard(Groups(ts, numLayers), PlanShard(numLayers, layersPerShard, i).value)
  }

  lemma InShardMeaning(ts: seq<TensorInfo>, numLayers: u32, layersPerShard: u32, i: nat, j: nat)
    requires numLayers > 0 && layersPerShard > 0 && i < CeilDiv(numLayers, layersPerShard)
    requires PlanShard(numLayers, layersPerShard, i).Success? && j < |ts|
    ensures InShard(ts, numLayers, layersPerShard, i, j)
       <==> || RangeOf(PlanShard(numLayers, layersPerShard, i).value).Covers(GroupOf(ts[j], numLayers))
            || (GroupOf(ts[j], numLayers) == numLayers && PlanShard(numLayers, layersPerShard, i).value.hasLmHead)
  {
    hide Groups, PlannedShard, PlanShard, Covered, CeilDiv, GroupOf, Chosen;
    PlannedIsChosen(ts, numLayers, layersPerShard, i);
    ShardCovers(numLayers, layersPerShard, i);
    HeadIsLast(numLayers, layersPerShard, i);
    ChosenMeaning(ts, numLayers, Covered(numLayers, layersPerShard, i), Covered(numLayers, layersPerShard, i + 1),
                  i + 1 == CeilDiv(numLayers, layersPerShard), j);
  }

  // The splitter and the nodes agree on tensor j in every shard.
  ghost predicate Agreed(ts: seq<TensorInfo>, layersPerShard: u32, j: nat)
    requires 0 < LayerCount(ts) < I32_LIMIT && layersPerShard > 0 && j < |ts|
    requires forall i :: 0 <= i < CeilDiv(LayerCount(ts), layersPerShard) ==>
               PlanShard(LayerCount(ts), layersPerShard, i).Success?
  {
    forall i :: 0 <= i < CeilDiv(LayerCount(ts), layersPerShard) ==> AgreedIn(ts, layersPerShard, i, j)
  }

  ghost predicate AgreedIn(ts: seq<TensorInfo>, layersPerShard: u32, i: nat, j: nat)
    requires 0 < LayerCount(ts) < I32_LIMIT && layersPerShard > 0 && j < |ts|
    requires PlanShard(LayerCount(ts), layersPerShard, i).Success?
  {
    InShard(ts, LayerCount(ts), layersPerShard, i, j)
    <==> BelongsToNode(ts[j].name, RangeOf(PlanShard(LayerCount(ts), layersPerShard, i).value))
  }

  lemma LayerTensorsAgree(ts: seq<TensorInfo>, layersPerShard: u32, i: nat, j: nat)
    requires 0 < LayerCount(ts) < I32_LIMIT && layersPerShard > 0 && j < |ts|
    requires i < CeilDiv(LayerCount(ts), layersPerShard) && PlanShard(LayerCount(ts), layersPerShard, i).Success?
    requires LayerId(ts[j].name).Some?
    ensures AgreedIn(ts, layersPerShard, i, j)
  {
    LayerCountIsLeast(ts);
    InShardMeaning(ts, LayerCount(ts), layersPerShard, i, j);
    ParsersAgree(LayerText(ts[j].name).value);
    hide LayerCount, PlanShard, InShard, CeilDiv, LayerText, ParseU32, ParseI32;
  }

  lemma OtherTensors(ts: seq<TensorInfo>, layersPerShard: u32, i: nat, j: nat)
    requires 0 < LayerCount(ts) < U32_LIMIT && layersPerShard > 0 && j < |ts|
    requires i < CeilDiv(LayerCount(ts), layersPerShard) && PlanShard(LayerCount(ts), layersPerShard, i).Success?
    requires LayerId(ts[j].name).None?
    ensures InShard(ts, LayerCount(ts), layersPerShard, i, j) <==> i + 1 == CeilDiv(LayerCount(ts), layersPerShard)
    ensures LayerFromName(ts[j].name).Some? ==> LayerFromName(ts[j].name).value <= 0
  {
    hide LayerCount, PlanShard, InShard, CeilDiv, LayerText, ParseU32, ParseI32;
    InShardMeaning(ts, LayerCount(ts), layersPerShard, i, j);
    ShardCovers(LayerCount(ts), layersPerShard, i);
    HeadIsLast(LayerCount(ts), layersPerShard, i);
    if LayerText(ts[j].name).Some? {
      ParsersAgree(LayerText(ts[j].name).value);
    }
  }

  // Below 2^31 layers, splitter and nodes agree on a tensor exactly when its name carries a layer
  // number both can read, or none either can read together with "output" (or it reads as layer
  // minus zero and there is only one shard).
  lemma AgreementExact(ts: seq<TensorInfo>, layersPerShard: u32, j: nat)
    requires 0 < LayerCount(ts) < I32_LIMIT && layersPerShard > 0 && j < |ts|
    requires forall i :: 0 <= i < CeilDiv(LayerCount(ts), layersPerShard) ==>
               PlanShard(LayerCount(ts), layersPerShard, i).Success?
    ensures Agreed(ts, layersPerShard, j)
       <==> || LayerId(ts[j].name).Some?
            || (LayerFromName(ts[j].name).None? && Contains(ts[j].name, OUTPUT))
            || (LayerFromName(ts[j].name) == Some(0) && CeilDiv(LayerCount(ts), layersPerShard) == 1)
  {
    hide LayerCount, PlanShard, InShard, CeilDiv, LayerId, LayerFromName, Contains, Covered, AgreedIn;
    var q := CeilDiv(LayerCount(ts), layersPerShard);
    CoveredEnds(LayerCount(ts), layersPerShard);
    if LayerId(ts[j].name).Some? {
      forall i | 0 <= i < q ensures AgreedIn(ts, layersPerShard, i, j) {
        LayerTensorsAgree(ts, layersPerShard, i, j);
      }
    } else {
      forall i | 0 <= i < q
        ensures AgreedIn(ts, layersPerShard, i, j)
           <==> ((i + 1 == q) <==> OtherBelongs(ts[j].name, i == 0, i + 1 == q))
      {
        OtherAgreement(ts, layersPerShard, i, j);
      }
      OtherTensors(ts, layersPerShard, q - 1, j);
      assert AgreedIn(ts, layersPerShard, q - 1, j) <==> OtherBelongs(ts[j].name, q == 1, true);
      assert AgreedIn(ts, layersPerShard, 0, j) <==> ((q == 1) <==> OtherBelongs(ts[j].name, true, q == 1));
    }
  }

  lemma OtherAgreement(ts: seq<TensorInfo>, layersPerShard: u32, i: nat, j: nat)
    requires 0 < LayerCount(ts) < I32_LIMIT && layersPerShard > 0 && j < |ts|
    requires i < CeilDiv(LayerCount(ts), layersPerShard) && PlanShard(LayerCount(ts), layersPerShard, i).Success?
    requires LayerId(ts[j].name).None?
    ensures var last := i + 1 == CeilDiv(LayerCount(ts), layersPerShard);
            AgreedIn(ts, layersPerShard, i, j) <==> (last <==> OtherBelongs(ts[j].name, i == 0, last))
  {
    hide LayerCount, PlanShard, InShard, CeilDiv, LayerId, LayerFromName, Contains, Covered;
    OtherTensors(ts, layersPerShard, i, j);
    ShardCovers(LayerCount(ts), layersPerShard, i);
    HeadIsLast(LayerCount(ts), layersPerShard, i);
    FirstCovers(LayerCount(ts), layersPerShard, i);
  }

  lemma FirstCovers(numLayers: u32, layersPerShard: u32, i: nat)
    requires numLayers > 0 && layersPerShard > 0
    ensures Covered(numLayers, layersPerShard, i) == 0 <==> i == 0
  {
    if i > 0 {
      MulMonotone(1, i, layersPerShard);
    }
  }

  // A node's claim on a tensor whose layer number, if any, is not positive.
  predicate OtherBelongs(name: seq<byte>, first: bool, head: bool) {
    var layer := LayerFromName(name);
    if layer.Some? then first && layer.value == 0 else head && Contains(name, OUTPUT)
  }

  // "token_embd.weight"
  const TOKEN_EMBD: seq<byte> := [116, 111, 107, 101, 110, 95, 101, 109, 98, 100, 46, 119, 101, 105, 103, 104, 116]

  lemma TokenEmbeddingName()
    ensures LayerId(TOKEN_EMBD).None? && forall range :: !BelongsToNode(TOKEN_EMBD, range)
  {
    assert TOKEN_EMBD[0] != BLK[0];
    forall i | 0 <= i <= |TOKEN_EMBD|
      ensures !OccursAt(TOKEN_EMBD, OUTPUT, i)
    {
      NotThere(TOKEN_EMBD, OUTPUT, i, if i == 1 then 1 else 0);
    }
  }

  lemma NotThere(s: seq<byte>, part: seq<byte>, i: nat, k: nat)
    requires k < |part| && (i + |part| <= |s| ==> s[i + k] != part[k])
    ensures !OccursAt(s, part, i)
  {
    if i + |part| <= |s| {
      assert s[i..i + |part|][k] == s[i + k];
    }
  }

  // The token embedding goes to the last shard and to no node, whatever range the node is told.
  lemma TokenEmbeddingIsNobodys(ts: seq<TensorInfo>, layersPerShard: u32, j: nat)
    requires 0 < LayerCount(ts) < U32_LIMIT && layersPerShard > 0 && j < |ts|
    requires forall i :: 0 <= i < CeilDiv(LayerCount(ts), layersPerShard) ==>
               PlanShard(LayerCount(ts), layersPerShard, i).Success?
    requires ts[j].name == TOKEN_EMBD
    ensures forall i :: 0 <= i < CeilDiv(LayerCount(ts), layersPerShard) ==>
              (InShard(ts, LayerCount(ts), layersPerShard, i, j) <==> i + 1 == CeilDiv(LayerCount(ts), layersPerShard))
    ensures CeilDiv(LayerCount(ts), layersPerShard) > 0
    ensures forall range :: !BelongsToNode(TOKEN_EMBD, range)
  {
    hide *;
    TokenEmbeddingName();
    CoveredEnds(LayerCount(ts), layersPerShard);
    forall i | 0 <= i < CeilDiv(LayerCount(ts), layersPerShard)
      ensures InShard(ts, LayerCount(ts), layersPerShard, i, j) <==> i + 1 == CeilDiv(LayerCount(ts), layersPerShard)
    {
      OtherTensors(ts, layersPerShard, i, j);
    }
  }

  // ---------------------------------------------------------------------------
  // Automatic mode and the equal split
  // ---------------------------------------------------------------------------

  // A quarter of the layers per shard, rounded up, makes at most four shards.
  lemma AtMostFourShards(numLayers: nat)
    requires numLayers > 0
    ensures CeilDiv(numLayers, 4) > 0
    ensures CeilDiv(numLayers, CeilDiv(numLayers, 4)) <= 4
  {
    var k := CeilDiv(numLayers, 4);
    CeilDivMeaning(numLayers, 4);
    CeilDivMeaning(numLayers, k);
    hide CeilDiv;
    if CeilDiv(numLayers, k) > 4 {
      MulMonotone(5, CeilDiv(numLayers, k), k);
      assert false;
    }
  }

  // The range _load_shards_on_nodes sends to node idx of n.
  function EqualRange(totalLayers: nat, n: nat, idx: nat): LayerRange
    requires idx < n
  {
    var layersPer := totalLayers / n;
    var first := idx * layersPer;
    var isLast := idx == n - 1;
    LayerRange(first, if isLast then totalLayers - first else layersPer, isLast)
  }

  // The ranges follow one another from 0 to the total, none is negative, and only the last has the head.
  lemma EqualSplitTiles(totalLayers: nat, n: nat, idx: nat)
    requires idx < n
    ensures EqualRange(totalLayers, n, 0).firstLayer == 0
    ensures EqualRange(totalLayers, n, idx).numLayers >= 0
    ensures EqualRange(totalLayers, n, idx).LastLayer() + 1
         == if idx + 1 < n then EqualRange(totalLayers, n, idx + 1).firstLayer else totalLayers
    ensures EqualRange(totalLayers, n, idx).hasLmHead <==> idx + 1 == n
    ensures idx + 1 < n ==>
              var each := EqualRange(totalLayers, n, idx).numLayers; each * n <= totalLayers < (each + 1) * n
  {
    var layersPer := totalLayers / n;
    DivMod(totalLayers, n);
    MulMonotone(idx + 1, n, layersPer);
    assert (idx + 1) * layersPer == idx * layersPer + layersPer;
    assert n * layersPer == layersPer * n;
    assert idx * layersPer <= n * layersPer;
  }

  // Every layer belongs to exactly one node's range.
  lemma EachLayerOnce(totalLayers: nat, n: nat, layer: nat) returns (owner: nat)
    requires n > 0 && layer < totalLayers
    ensures owner < n && EqualRange(totalLayers, n, owner).Covers(layer)
    ensures forall idx :: 0 <= idx < n && EqualRange(totalLayers, n, idx).Covers(layer) ==> idx == owner
  {
    owner := 0;
    EqualSplitTiles(totalLayers, n, 0);
    while owner + 1 < n && EqualRange(totalLayers, n, owner + 1).firstLayer <= layer
      invariant owner < n && EqualRange(totalLayers, n, owner).firstLayer <= layer
    {
      owner := owner + 1;
    }
    EqualSplitTiles(totalLayers, n, owner);
    forall idx | 0 <= idx < n && EqualRange(totalLayers, n, idx).Covers(layer)
      ensures idx == owner
    {
      if idx < owner {
        EqualRangesOrdered(totalLayers, n, idx, owner);
      } else if owner < idx {
        EqualRangesOrdered(totalLayers, n, owner, idx);
      }
    }
  }

  lemma EqualRangesOrdered(totalLayers: nat, n: nat, a: nat, b: nat)
    requires a < b < n
    ensures EqualRange(totalLayers, n, a).LastLayer() < EqualRange(totalLayers, n, b).firstLayer
  {
    var layersPer := totalLayers / n;
    MulMonotone(a + 1, b, layersPer);
    assert (a + 1) * layersPer == a * layersPer + layersPer;
  }

  // How a node answers: no connection, or whether it reports the shard as loaded.
  datatype Answer = NoClient | NotLoaded | Loaded

  // _load_shards_on_nodes: each connected node is sent its range; success is one node loaded.
  method LoadShardsOnNodes(totalLayers: nat, answers: seq<Answer>) returns (ok: bool, sent: seq<Option<LayerRange>>)
    ensures ok <==> Loaded in answers
    ensures |sent| == |answers|
    ensures forall idx :: 0 <= idx < |answers| ==>
              sent[idx] == if answers[idx] == NoClient then None else Some(EqualRange(totalLayers, |answers|, idx))
  {
    var loaded := 0;
    var nNodes := if |answers| > 1 then |answers| else 1;
    var layersPer := totalLayers / nNodes;
    sent := [];
    for idx := 0 to |answers|
      invariant |sent| == idx && loaded >= 0
      invariant loaded > 0 <==> Loaded in answers[..idx]
      invariant forall k :: 0 <= k < idx ==>
                  sent[k] == if answers[k] == NoClient then None else Some(EqualRange(totalLayers, |answers|, k))
    {
      assert answers[..idx + 1] == answers[..idx] + [answers[idx]];
      if answers[idx] == NoClient {
        sent := sent + [None];
        continue;
      }
      var first := idx * layersPer;
      var isLast := idx == nNodes - 1;
      var num := if isLast then totalLayers - first else layersPer;
      sent := sent + [Some(LayerRange(first, num, isLast))];
      if answers[idx] == Loaded {
        loaded := loaded + 1;
      }
    }
    assert answers[..|answers|] == answers;
    ok := loaded > 0;
  }
}
