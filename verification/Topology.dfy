// Link latencies between nodes and the greedy walk over them.
module Topology {
  import opened Wrappers
  import opened PyDict

  // A Python float as a latency.
  datatype Latency = Finite(ms: real) | PosInf | NegInf | NaN

  // a < b on floats; NaN compares false with everything.
  predicate Less(a: Latency, b: Latency) {
    match (a, b)
    case (NaN, _) => false
    case (_, NaN) => false
    case (PosInf, _) => false
    case (_, NegInf) => false
    case (NegInf, _) => true
    case (_, PosInf) => true
    case (Finite(x), Finite(y)) => x < y
  }

  lemma LessOrders()
    ensures forall a: Latency, b: Latency, c: Latency :: Less(a, b) && Less(b, c) ==> Less(a, c)
    ensures forall a: Latency, b: Latency, c: Latency :: Less(a, b) && !Less(c, b) && Less(c, PosInf) ==> Less(a, c)
    ensures forall a: Latency :: !Less(a, a)
  {
  }

  datatype LinkStats = LinkStats(latency: Latency, bandwidthMbps: real)

  type NodeLinks = Dict<string, LinkStats>
  type Links = Dict<string, NodeLinks>

  // links.get(node, {})
  function Neighbours(links: Links, node: string): NodeLinks {
    var found := Get(links, node);
    if found.Some? then found.value else []
  }

  ghost predicate WellFormed(links: Links) {
    Distinct(links) && forall i :: 0 <= i < |links| ==> Distinct(links[i].1)
  }

  lemma NeighboursDistinct(links: Links, node: string)
    requires WellFormed(links)
    ensures Distinct(Neighbours(links, node))
  {
    var found := Get(links, node);
    if found.Some? {
      var i :| 0 <= i < |links| && links[i] == (node, found.value);
    }
  }

  // Every node a link leads to.
  function Targets(links: Links): (nodes: set<string>) {
    set i, j | 0 <= i < |links| && 0 <= j < |links[i].1| :: links[i].1[j].0
  }

  lemma NeighbourIsTarget(links: Links, node: string, j: nat)
    requires j < |Neighbours(links, node)|
    ensures Neighbours(links, node)[j].0 in Targets(links)
  {
    var found := Get(links, node);
    var i :| 0 <= i < |links| && links[i] == (node, found.value);
    assert links[i].1[j].0 in Targets(links);
  }

  // ---------------------------------------------------------------------------
  // One greedy hop
  // ---------------------------------------------------------------------------

  // best_next and best_latency after looking at the first k neighbours.
  function BestAmong(ns: NodeLinks, visited: set<string>, k: nat): (best: Option<(string, Latency)>)
    requires k <= |ns|
  {
    if k == 0 then None
    else
      var before := BestAmong(ns, visited, k - 1);
      var bound := if before.Some? then before.value.1 else PosInf;
      var (node, stats) := ns[k - 1];
      if node !in visited && Less(stats.latency, bound) then Some((node, stats.latency)) else before
  }

  // Entry j is the greedy choice among the first n: unvisited, below infinity, nothing unvisited is
  // lower, and no earlier entry is as low.
  ghost predicate GreedyAmong(ns: NodeLinks, visited: set<string>, n: nat, j: nat)
    requires n <= |ns|
  {
    && j < n
    && ns[j].0 !in visited
    && Less(ns[j].1.latency, PosInf)
    && (forall i :: 0 <= i < n && ns[i].0 !in visited ==> !Less(ns[i].1.latency, ns[j].1.latency))
    && (forall i :: 0 <= i < j && ns[i].0 !in visited && Less(ns[i].1.latency, PosInf) ==>
                      Less(ns[j].1.latency, ns[i].1.latency))
  }

  ghost predicate GreedyEntry(ns: NodeLinks, visited: set<string>, j: nat) {
    GreedyAmong(ns, visited, |ns|, j)
  }

  ghost predicate NoneAmong(ns: NodeLinks, visited: set<string>, n: nat)
    requires n <= |ns|
  {
    forall i :: 0 <= i < n && ns[i].0 !in visited ==> !Less(ns[i].1.latency, PosInf)
  }

  ghost predicate NoChoice(ns: NodeLinks, visited: set<string>) {
    NoneAmong(ns, visited, |ns|)
  }

  lemma {:induction false} BestAmongMeaning(ns: NodeLinks, visited: set<string>, k: nat)
    requires k <= |ns|
    ensures BestAmong(ns, visited, k).None? ==> NoneAmong(ns, visited, k)
    ensures BestAmong(ns, visited, k).Some? ==>
              exists j: nat :: GreedyAmong(ns, visited, k, j)
                            && BestAmong(ns, visited, k).value == (ns[j].0, ns[j].1.latency)
    decreases k
  {
    if k > 0 {
      BestAmongMeaning(ns, visited, k - 1);
      LessOrders();
      hide Less;
      var before := BestAmong(ns, visited, k - 1);
      if BestAmong(ns, visited, k) != before {
        if before.Some? {
          var j: nat :| GreedyAmong(ns, visited, k - 1, j) && before.value == (ns[j].0, ns[j].1.latency);
        }
        assert GreedyAmong(ns, visited, k, k - 1);
      } else if before.Some? {
        var j: nat :| GreedyAmong(ns, visited, k - 1, j) && before.value == (ns[j].0, ns[j].1.latency);
        assert GreedyAmong(ns, visited, k, j);
      }
    }
  }

  function Best(ns: NodeLinks, visited: set<string>): (r: Option<string>)
  {
    var best := BestAmong(ns, visited, |ns|);
    if best.Some? then Some(best.value.0) else None
  }

  lemma BestMeaning(ns: NodeLinks, visited: set<string>)
    ensures Best(ns, visited).None? ==> NoChoice(ns, visited)
    ensures Best(ns, visited).Some? ==>
              exists j: nat :: GreedyEntry(ns, visited, j) && Best(ns, visited).value == ns[j].0
  {
    BestAmongMeaning(ns, visited, |ns|);
    if Best(ns, visited).Some? {
      var j: nat :| GreedyAmong(ns, visited, |ns|, j)
                 && BestAmong(ns, visited, |ns|).value == (ns[j].0, ns[j].1.latency);
      assert GreedyEntry(ns, visited, j);
    }
  }

  // There is at most one greedy choice.
  lemma GreedyUnique(ns: NodeLinks, visited: set<string>, a: nat, b: nat)
    requires GreedyEntry(ns, visited, a) && GreedyEntry(ns, visited, b)
    ensures a == b
  {
  }

  // ---------------------------------------------------------------------------
  // The walk
  // ---------------------------------------------------------------------------

  // Unvisited nodes a link leads to run out.
  function Walk(links: Links, current: string, end: string, visited: set<string>): (path: seq<string>)
    decreases Targets(links) - visited - {current}
  {
    if current == end then []
    else
      var best := Best(Neighbours(links, current), visited + {current});
      if best.None? then []
      else
        BestIsNew(links, current, visited + {current});
        [best.value] + Walk(links, best.value, end, visited + {current})
  }

  lemma BestIsNew(links: Links, current: string, visited: set<string>)
    requires Best(Neighbours(links, current), visited).Some?
    ensures Best(Neighbours(links, current), visited).value in Targets(links) - visited
  {
    var ns := Neighbours(links, current);
    BestMeaning(ns, visited);
    var j: nat :| GreedyEntry(ns, visited, j) && Best(ns, visited).value == ns[j].0;
    NeighbourIsTarget(links, current, j);
  }

  // The table after a latency is recorded; known links and nodes keep their place in the order.
  function Recorded(links: Links, fromNode: string, toNode: string, latency: Latency): Links {
    Put(links, fromNode, Put(Neighbours(links, fromNode), toNode, LinkStats(latency, 0.0)))
  }

  // Recording changes the one link and no other.
  lemma RecordedMeaning(links: Links, fromNode: string, toNode: string, latency: Latency)
    requires WellFormed(links)
    ensures WellFormed(Recorded(links, fromNode, toNode, latency))
    ensures forall a, b :: Get(Neighbours(Recorded(links, fromNode, toNode, latency), a), b)
                        == if a == fromNode && b == toNode then Some(LinkStats(latency, 0.0))
                           else Get(Neighbours(links, a), b)
  {
    var stats := LinkStats(latency, 0.0);
    var ns := Neighbours(links, fromNode);
    NeighboursDistinct(links, fromNode);
    PutMeaning(ns, toNode, stats);
    PutMeaning(links, fromNode, Put(ns, toNode, stats));
    PutDistinctValues(links, fromNode, Put(ns, toNode, stats));
  }

  // Ties are broken by insertion order: a known link keeps its place, a new one goes last.
  lemma RecordedOrder(links: Links, fromNode: string, toNode: string, latency: Latency)
    requires WellFormed(links)
    ensures KeyOrder(Neighbours(Recorded(links, fromNode, toNode, latency), fromNode))
         == Extended(KeyOrder(Neighbours(links, fromNode)), toNode)
  {
    var ns := Put(Neighbours(links, fromNode), toNode, LinkStats(latency, 0.0));
    PutMeaning(links, fromNode, ns);
    assert Neighbours(Recorded(links, fromNode, toNode, latency), fromNode) == ns;
    PutKeyOrder(Neighbours(links, fromNode), toNode, LinkStats(latency, 0.0));
  }

  class TopologyManager {
    var links: Links

    ghost predicate Valid()
      reads this
    {
      WellFormed(links)
    }

    constructor ()
      ensures Valid() && links == []
    {
      links := [];
    }

    // self.links.setdefault(from_node, {})[to_node] = LinkStats(latency_ms=latency_ms)
    method RecordLatency(fromNode: string, toNode: string, latency: Latency)
      requires Valid()
      modifies this
      ensures Valid()
      ensures links == Recorded(old(links), fromNode, toNode, latency)
      ensures forall a, b :: Get(Neighbours(links, a), b)
                          == if a == fromNode && b == toNode then Some(LinkStats(latency, 0.0))
                             else Get(Neighbours(old(links), a), b)
      ensures KeyOrder(Neighbours(links, fromNode)) == Extended(KeyOrder(Neighbours(old(links), fromNode)), toNode)
    {
      RecordedMeaning(links, fromNode, toNode, latency);
      RecordedOrder(links, fromNode, toNode, latency);
      var ns := Neighbours(links, fromNode);
      links := Put(links, fromNode, Put(ns, toNode, LinkStats(latency, 0.0)));
    }

    method GetLatency(fromNode: string, toNode: string) returns (latency: Option<Latency>)
      ensures latency == var stats := Get(Neighbours(links, fromNode), toNode);
                         if stats.Some? then Some(stats.value.latency) else None
    {
      var found := Get(links, fromNode);
      if found.Some? {
        var stats := Get(found.value, toNode);
        if stats.Some? {
          return Some(stats.value.latency);
        }
      }
      return None;
    }

    method GetFastestPath(start: string, end: string) returns (path: seq<string>)
      ensures path == Walk(links, start, end, {})
    {
      var visited: set<string> := {};
      path := [];
      var current := start;
      while current != end
        invariant Walk(links, start, end, {}) == path + Walk(links, current, end, visited)
        decreases Targets(links) - visited - {current}, current != end
      {
        ghost var before := visited;
        visited := visited + {current};
        var neighbors := Neighbours(links, current);
        var bestNext: Option<string> := None;
        var bestLatency := PosInf;
        for k := 0 to |neighbors|
          invariant BestAmong(neighbors, visited, k)
                 == if bestNext.Some? then Some((bestNext.value, bestLatency)) else None
          invariant bestNext.None? ==> bestLatency == PosInf
        {
          var (node, stats) := neighbors[k];
          if node !in visited && Less(stats.latency, bestLatency) {
            bestNext := Some(node);
            bestLatency := stats.latency;
          }
        }
        if bestNext.None? {
          break;
        }
        BestIsNew(links, current, visited);
        path := path + [bestNext.value];
        current := bestNext.value;
      }
    }
  }

  lemma {:induction false} PutDistinctValues(links: Links, node: string, ns: NodeLinks)
    requires (forall i :: 0 <= i < |links| ==> Distinct(links[i].1)) && Distinct(ns)
    ensures forall i :: 0 <= i < |Put(links, node, ns)| ==> Distinct(Put(links, node, ns)[i].1)
  {
    if links != [] && links[0].0 != node {
      PutDistinctValues(links[1..], node, ns);
    }
  }

  // ---------------------------------------------------------------------------
  // What the walk is
  // ---------------------------------------------------------------------------

  // A path is the greedy walk from `current`: every hop is the greedy choice among the recorded
  // links of where it stands, and it stops exactly at `end` or where there is no choice.
  ghost predicate IsGreedy(links: Links, current: string, end: string, visited: set<string>, path: seq<string>)
    decreases |path|
  {
    var ns := Neighbours(links, current);
    if path == [] then current == end || NoChoice(ns, visited + {current})
    else
      && current != end
      && (exists j: nat :: GreedyEntry(ns, visited + {current}, j) && ns[j].0 == path[0])
      && IsGreedy(links, path[0], end, visited + {current}, path[1..])
  }

  // The walk is greedy, and nothing else is.
  lemma {:induction false} WalkIsTheGreedyPath(links: Links, current: string, end: string, visited: set<string>,
                                               path: seq<string>)
    ensures IsGreedy(links, current, end, visited, path) <==> path == Walk(links, current, end, visited)
    decreases Targets(links) - visited - {current}
  {
    var ns := Neighbours(links, current);
    var seen := visited + {current};
    BestMeaning(ns, seen);
    if current != end {
      if Best(ns, seen).Some? {
        var next := Best(ns, seen).value;
        var j: nat :| GreedyEntry(ns, seen, j) && next == ns[j].0;
        BestIsNew(links, current, seen);
        if path != [] {
          WalkIsTheGreedyPath(links, next, end, seen, path[1..]);
          if k: nat :| GreedyEntry(ns, seen, k) && ns[k].0 == path[0] {
            GreedyUnique(ns, seen, j, k);
          }
        }
      }
    }
  }

  // No node is visited twice and the start never comes back.
  lemma {:induction false} WalkNeverRepeats(links: Links, current: string, end: string, visited: set<string>)
    ensures forall i :: 0 <= i < |Walk(links, current, end, visited)| ==>
              Walk(links, current, end, visited)[i] !in visited + {current}
    ensures forall i, j :: 0 <= i < j < |Walk(links, current, end, visited)| ==>
              Walk(links, current, end, visited)[i] != Walk(links, current, end, visited)[j]
    decreases Targets(links) - visited - {current}
  {
    var seen := visited + {current};
    if current != end && Best(Neighbours(links, current), seen).Some? {
      BestIsNew(links, current, seen);
      WalkNeverRepeats(links, Best(Neighbours(links, current), seen).value, end, seen);
    }
  }

  // So it takes at most as many hops as there are link targets.
  lemma {:induction false} WalkLength(links: Links, current: string, end: string, visited: set<string>)
    ensures |Walk(links, current, end, visited)| <= |Targets(links) - visited - {current}|
    decreases Targets(links) - visited - {current}
  {
    var seen := visited + {current};
    if current != end && Best(Neighbours(links, current), seen).Some? {
      var next := Best(Neighbours(links, current), seen).value;
      BestIsNew(links, current, seen);
      WalkLength(links, next, end, seen);
      var rest := Targets(links) - visited - {current};
      assert Targets(links) - seen - {next} == rest - {next};
      assert |rest - {next}| == |rest| - 1;
    }
  }

  // ---------------------------------------------------------------------------
  // Against the documented promise of the lowest cumulative latency
  // ---------------------------------------------------------------------------

  // A path along recorded links, all of finite, non-negative latency.
  ghost predicate LinkPath(links: Links, current: string, path: seq<string>)
    decreases |path|
  {
    path == [] ||
    (&& Get(Neighbours(links, current), path[0]).Some?
     && var l := Get(Neighbours(links, current), path[0]).value.latency;
     && l.Finite? && l.ms >= 0.0
     && LinkPath(links, path[0], path[1..]))
  }

  ghost function Cost(links: Links, current: string, path: seq<string>): (c: real)
    requires LinkPath(links, current, path)
    ensures c >= 0.0
    decreases |path|
  {
    if path == [] then 0.0
    else Get(Neighbours(links, current), path[0]).value.latency.ms + Cost(links, path[0], path[1..])
  }

  // Two hops of 1 and 10 are preferred to one hop of 3: the walk does not minimise the sum.
  lemma GreedyIsNotShortest() returns (links: Links)
    ensures WellFormed(links)
    ensures Walk(links, "s", "e", {}) == ["a", "e"]
    ensures LinkPath(links, "s", ["a", "e"]) && Cost(links, "s", ["a", "e"]) == 11.0
    ensures LinkPath(links, "s", ["e"]) && Cost(links, "s", ["e"]) == 3.0
  {
    var fromS: NodeLinks := [("e", LinkStats(Finite(3.0), 0.0)), ("a", LinkStats(Finite(1.0), 0.0))];
    var fromA: NodeLinks := [("e", LinkStats(Finite(10.0), 0.0))];
    links := [("s", fromS), ("a", fromA)];
    assert "s"[0] != "a"[0] && "e"[0] != "a"[0] && "e"[0] != "s"[0];
    assert links[1..] == [("a", fromA)];
    assert Get(links[1..], "a") == Some(fromA);
    assert fromS[1..] == [("a", LinkStats(Finite(1.0), 0.0))];
    assert Neighbours(links, "s") == fromS && Neighbours(links, "a") == fromA;
    assert BestAmong(fromS, {"s"}, 1) == Some(("e", Finite(3.0)));
    assert BestAmong(fromS, {"s"}, 2) == Some(("a", Finite(1.0)));
    assert {} + {"s"} == {"s"};
    var seen: set<string> := {"s"} + {"a"};
    assert BestAmong(fromA, seen, 1) == Some(("e", Finite(10.0)));
    assert Walk(links, "e", "e", seen) == [];
    assert Walk(links, "a", "e", {"s"}) == ["e"] + [];
    assert ["a", "e"][1..] == ["e"] && ["e"][1..] == [];
    assert Cost(links, "a", ["e"]) == 10.0;
  }

  // ---------------------------------------------------------------------------
  // When the walk is the cheapest path
  // ---------------------------------------------------------------------------

  // The path runs along recorded links from start to end.
  ghost predicate Reaches(links: Links, start: string, end: string, path: seq<string>) {
    LinkPath(links, start, path) && (if path == [] then start else path[|path| - 1]) == end
  }

  // If any path leads to the end, the walk is one of the cheapest.
  ghost predicate WalkIsCheapest(links: Links, start: string, end: string) {
    forall path :: Reaches(links, start, end, path) ==>
      && Reaches(links, start, end, Walk(links, start, end, {}))
      && Cost(links, start, Walk(links, start, end, {})) <= Cost(links, start, path)
  }

  // No latency is below zero; it may be infinite or not a number.
  ghost predicate NonNegative(ns: NodeLinks) {
    forall i :: 0 <= i < |ns| ==> !Less(ns[i].1.latency, Finite(0.0))
  }

  // The end is itself the first lowest of the links.
  ghost predicate EndIsGreedy(ns: NodeLinks, start: string, end: string) {
    exists j: nat :: GreedyEntry(ns, {start}, j) && ns[j].0 == end
  }

  // In whatever table these links of the start occur, the walk is cheapest.
  ghost predicate CheapestInEveryTable(ns: NodeLinks, start: string, end: string) {
    forall links :: WellFormed(links) && Neighbours(links, start) == ns ==> WalkIsCheapest(links, start, end)
  }

  // The walk gives the documented lowest latency, whatever the rest of the table, exactly when the
  // links of the start decide it: there is nowhere to go, or the end is the lowest of them.
  lemma CheapestExactly(ns: NodeLinks, start: string, end: string)
    requires Distinct(ns) && NonNegative(ns)
    ensures CheapestInEveryTable(ns, start, end)
       <==> start == end || NoChoice(ns, {start}) || EndIsGreedy(ns, start, end)
  {
    if start == end || NoChoice(ns, {start}) || EndIsGreedy(ns, start, end) {
      forall links | WellFormed(links) && Neighbours(links, start) == ns
        ensures WalkIsCheapest(links, start, end)
      {
        FirstLinksDecide(links, start, end);
      }
    } else {
      var links := DetourTable(ns, start, end);
      assert !WalkIsCheapest(links, start, end);
    }
  }

  lemma FirstLinksDecide(links: Links, start: string, end: string)
    requires WellFormed(links) && NonNegative(Neighbours(links, start))
    requires || start == end
             || NoChoice(Neighbours(links, start), {start})
             || EndIsGreedy(Neighbours(links, start), start, end)
    ensures WalkIsCheapest(links, start, end)
  {
    hide Walk, EndIsGreedy, NoneAmong;
    if start == end {
      AtTheEnd(links, start);
    } else {
      forall path | Reaches(links, start, end, path)
        ensures Reaches(links, start, end, Walk(links, start, end, {}))
        ensures Cost(links, start, Walk(links, start, end, {})) <= Cost(links, start, path)
      {
        FirstHopMatters(links, start, end, path);
        WalkOneHop(links, start, end);
      }
    }
  }

  lemma AtTheEnd(links: Links, start: string)
    ensures Walk(links, start, start, {}) == []
  {
  }

  // A link that starts a path is among the neighbours.
  lemma LinkEntry(links: Links, current: string, next: string) returns (i: nat)
    requires Get(Neighbours(links, current), next).Some?
    ensures i < |Neighbours(links, current)|
    ensures Neighbours(links, current)[i] == (next, Get(Neighbours(links, current), next).value)
  {
    i :| 0 <= i < |Neighbours(links, current)|
         && Neighbours(links, current)[i] == (next, Get(Neighbours(links, current), next).value);
  }

  // A path to the end leaves the start by some link, which is a choice, and costs at least as much
  // as the greedy one.
  lemma {:induction false} FirstHopMatters(links: Links, start: string, end: string, path: seq<string>)
    requires start != end && Reaches(links, start, end, path)
    ensures !NoChoice(Neighbours(links, start), {start})
    ensures forall j: nat :: GreedyEntry(Neighbours(links, start), {start}, j) ==>
              && Neighbours(links, start)[j].1.latency != PosInf
              && !Less(Finite(Cost(links, start, path)), Neighbours(links, start)[j].1.latency)
    decreases |path|
  {
    var ns := Neighbours(links, start);
    var i := LinkEntry(links, start, path[0]);
    if path[0] == start {
      FirstHopMatters(links, start, end, path[1..]);
    } else {
      assert !NoChoice(ns, {start}) by {
        assert Less(ns[i].1.latency, PosInf);
      }
    }
  }

  lemma WalkOneHop(links: Links, start: string, end: string)
    requires WellFormed(links) && NonNegative(Neighbours(links, start))
    requires start != end && EndIsGreedy(Neighbours(links, start), start, end)
    ensures Walk(links, start, end, {}) == [end] && Reaches(links, start, end, [end])
    ensures exists j: nat :: GreedyEntry(Neighbours(links, start), {start}, j)
                          && Neighbours(links, start)[j].1.latency == Finite(Cost(links, start, [end]))
  {
    var ns := Neighbours(links, start);
    var j: nat :| GreedyEntry(ns, {start}, j) && ns[j].0 == end;
    NeighboursDistinct(links, start);
    GetAt(ns, j);
    assert [end][1..] == [];
    assert {} + {start} == {start};
    GreedyIsBest(ns, {start}, j);
    assert Walk(links, end, end, {start}) == [];
    assert Cost(links, end, []) == 0.0;
    assert ns[j].1.latency == Finite(Cost(links, start, [end]));
  }

  lemma GreedyIsBest(ns: NodeLinks, visited: set<string>, j: nat)
    requires GreedyEntry(ns, visited, j)
    ensures Best(ns, visited) == Some(ns[j].0)
  {
    BestMeaning(ns, visited);
    if Best(ns, visited).None? {
      assert false;
    } else {
      var k: nat :| GreedyEntry(ns, visited, k) && Best(ns, visited).value == ns[k].0;
      GreedyUnique(ns, visited, j, k);
    }
  }

  // ---------------------------------------------------------------------------
  // A table that leads the walk astray
  // ---------------------------------------------------------------------------

  function Hop(node: string, ms: real): (string, LinkStats) {
    (node, LinkStats(Finite(ms), 0.0))
  }

  // From x the walk goes on to y at 1 and pays 10 to the end; the link from x to the end costs 3.
  function Detour(ns: NodeLinks, start: string, x: string, y: string, end: string): Links {
    [(start, ns), (x, [Hop(y, 1.0), Hop(end, 3.0)]), (y, [Hop(end, 10.0)])]
  }

  lemma DetourLinks(ns: NodeLinks, start: string, x: string, y: string, end: string)
    requires Distinct(ns) && start != x && start != y && x != y && y != end
    ensures WellFormed(Detour(ns, start, x, y, end))
    ensures Neighbours(Detour(ns, start, x, y, end), start) == ns
    ensures Neighbours(Detour(ns, start, x, y, end), x) == [Hop(y, 1.0), Hop(end, 3.0)]
    ensures Neighbours(Detour(ns, start, x, y, end), y) == [Hop(end, 10.0)]
  {
    var links := Detour(ns, start, x, y, end);
    GetAt(links, 0);
    GetAt(links, 1);
    GetAt(links, 2);
  }

  lemma DetourTable(ns: NodeLinks, start: string, end: string) returns (links: Links)
    requires Distinct(ns) && NonNegative(ns)
    requires start != end && !NoChoice(ns, {start}) && !EndIsGreedy(ns, start, end)
    ensures WellFormed(links) && Neighbours(links, start) == ns
    ensures !WalkIsCheapest(links, start, end)
  {
    BestMeaning(ns, {start});
    var j: nat :| GreedyEntry(ns, {start}, j);
    var x := ns[j].0;
    var y := start + x + end + "y";
    links := Detour(ns, start, x, y, end);
    DetourLinks(ns, start, x, y, end);
    GetAt(ns, j);
    GreedyIsBest(ns, {start}, j);
    DetourWalk(links, start, x, y, end);
    DetourCosts(links, start, x, y, end);
    hide Walk, Cost, LinkPath;
    assert Reaches(links, start, end, [x, end]);
  }

  lemma DetourWalk(links: Links, start: string, x: string, y: string, end: string)
    requires start != end && start != x && start != y && x != y && y != end && x != end
    requires Best(Neighbours(links, start), {start}) == Some(x)
    requires Neighbours(links, x) == [Hop(y, 1.0), Hop(end, 3.0)] && Neighbours(links, y) == [Hop(end, 10.0)]
    ensures Walk(links, start, end, {}) == [x, y, end]
  {
    var none: set<string> := {};
    assert none + {start} == {start};
    var seen, all := {start} + {x}, {start} + {x} + {y};
    assert GreedyEntry(Neighbours(links, x), seen, 0);
    GreedyIsBest(Neighbours(links, x), seen, 0);
    assert GreedyEntry(Neighbours(links, y), all, 0);
    GreedyIsBest(Neighbours(links, y), all, 0);
    hide Best;
    assert Walk(links, end, end, all) == [];
    assert Walk(links, y, end, seen) == [end];
    assert Walk(links, x, end, {start}) == [y, end];
  }

  lemma DetourCosts(links: Links, start: string, x: string, y: string, end: string)
    requires y != end && Get(Neighbours(links, start), x).Some?
    requires Get(Neighbours(links, start), x).value.latency.Finite?
    requires Get(Neighbours(links, start), x).value.latency.ms >= 0.0
    requires Neighbours(links, x) == [Hop(y, 1.0), Hop(end, 3.0)] && Neighbours(links, y) == [Hop(end, 10.0)]
    ensures LinkPath(links, start, [x, end]) && LinkPath(links, start, [x, y, end])
    ensures Cost(links, start, [x, y, end]) == Cost(links, start, [x, end]) + 8.0
  {
    assert Neighbours(links, x)[1..] == [Hop(end, 3.0)];
    assert Get(Neighbours(links, x), end) == Some(Hop(end, 3.0).1);
    assert [x, y, end][1..] == [y, end] && [y, end][1..] == [end] && [end][1..] == [] && [x, end][1..] == [end];
    assert LinkPath(links, y, [end]) && Cost(links, y, [end]) == 10.0;
    assert LinkPath(links, x, [end]) && Cost(links, x, [end]) == 3.0;
    assert LinkPath(links, x, [y, end]) && Cost(links, x, [y, end]) == 11.0;
  }
}
