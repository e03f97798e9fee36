// The discovery service as it stands in memory: a dictionary of shared, mutable node objects.
// Every method is one step of the registry's state machine.
module Discovery {
  import opened Wrappers
  import opened PyDict
  import opened Registry

  class NodeInfo {
    const nodeId: string
    const nodeName: string
    const grpcPort: int
    const ipAddress: string
    var rpcPort: int
    var lastSeen: real
    var status: Status
    var consecutiveFailures: int

    constructor (nodeId: string, nodeName: string, grpcPort: int, rpcPort: int, ipAddress: string, now: real)
      ensures View() == Rec(nodeId, nodeName, grpcPort, rpcPort, ipAddress, now, Alive, 0)
    {
      this.nodeId, this.nodeName, this.grpcPort, this.ipAddress := nodeId, nodeName, grpcPort, ipAddress;
      this.rpcPort := rpcPort;
      lastSeen := now;
      status := Alive;
      consecutiveFailures := 0;
    }

    function View(): Rec
      reads this
    {
      Rec(nodeId, nodeName, grpcPort, rpcPort, ipAddress, lastSeen, status, consecutiveFailures)
    }

    // What a heartbeat changes on a known node.
    method Hear(rpcPort: int, now: real)
      modifies this
      ensures View() == old(View()).(lastSeen := now, status := Alive, rpcPort := rpcPort)
    {
      lastSeen := now;
      status := Alive;
      this.rpcPort := rpcPort;
    }

    // What the answer to a probe changes.
    method TakeAnswer(alive: ProbeResult, now: real)
      modifies this
      ensures View() == AfterProbe(old(View()), alive, now)
    {
      match alive {
        case Reachable =>
          consecutiveFailures := 0;
          lastSeen := now;
          status := Alive;
        case Refused =>
          consecutiveFailures := consecutiveFailures + 1;
          status := Degraded;
        case Inconclusive =>
          consecutiveFailures := 0;
          lastSeen := now;
      }
    }
  }

  class DiscoveryService {
    var nodes: Dict<string, NodeInfo>
    // The rest of the running health check's list, and the port its current probe was sent to.
    var sweep: seq<(string, NodeInfo)>
    var probePort: int
    // Every node object there has been.
    ghost var objects: set<NodeInfo>

    constructor ()
      ensures Valid()
      ensures forall now :: Snapshot(now) == State([], map[], now, [], 0)
    {
      nodes, sweep, probePort := [], [], 0;
      objects := {};
    }

    ghost function Snapshot(now: real): State<NodeInfo>
      reads this, objects
    {
      State(nodes, map o | o in objects :: o.View(), now, sweep, probePort)
    }

    ghost predicate Valid()
      reads this, objects
    {
      Consistent(Snapshot(0.0))
    }

    // _handle_discovery: a well-formed heartbeat.
    method HandleDiscovery(nodeId: string, nodeName: string, grpcPort: int, rpcPort: int, ip: string, now: real)
      returns (ghost node: NodeInfo)
      requires Valid()
      modifies this, objects
      ensures Valid()
      ensures Consistent(old(Snapshot(now)))
      ensures Enabled(old(Snapshot(now)), Heartbeat(nodeId, nodeName, grpcPort, rpcPort, ip, node))
      ensures Snapshot(now) == Step(old(Snapshot(now)), Heartbeat(nodeId, nodeName, grpcPort, rpcPort, ip, node))
      ensures fresh(objects - old(objects))
      ensures Get(nodes, nodeId) == Some(node)
      ensures node.lastSeen == now && node.status == Alive && node.rpcPort == rpcPort
      ensures nodeId !in Keys(old(nodes)) ==>
                && fresh(node) && node.nodeId == nodeId && node.nodeName == nodeName && node.ipAddress == ip
                && node.grpcPort == grpcPort && node.consecutiveFailures == 0
      ensures nodeId in Keys(old(nodes)) ==>
                && nodes == old(nodes) && node in old(objects)
                && node.consecutiveFailures == old(node.consecutiveFailures)
    {
      ghost var before := Snapshot(now);
      ConsistentAnyTime(before, 0.0);
      assert Distinct(nodes);
      hide Consistent, Put, Get, Step, Enabled, Distinct;
      var known := Get(nodes, nodeId);
      if known.None? {
        node := Add(nodeId, nodeName, grpcPort, rpcPort, ip, now);
        FirstHeartbeat(before, Heartbeat(nodeId, nodeName, grpcPort, rpcPort, ip, node));
      } else {
        node := known.value;
        LaterHeartbeat(before, Heartbeat(nodeId, nodeName, grpcPort, rpcPort, ip, node));
        HearFrom(known.value, rpcPort, now);
      }
      StepConsistent(before, Heartbeat(nodeId, nodeName, grpcPort, rpcPort, ip, node));
      ConsistentAnyTime(Snapshot(now), 0.0);
    }

    // A node not heard of before.
    method Add(nodeId: string, nodeName: string, grpcPort: int, rpcPort: int, ip: string, now: real)
      returns (node: NodeInfo)
      requires Distinct(nodes)
      modifies this`nodes, this`objects
      ensures fresh(node) && node !in old(objects) && objects == old(objects) + {node}
      ensures Snapshot(now)
           == old(Snapshot(now)).(
                nodes := Put(old(nodes), nodeId, node),
                recs := old(Snapshot(now)).recs[node := Rec(nodeId, nodeName, grpcPort, rpcPort, ip, now, Alive, 0)])
      ensures Get(nodes, nodeId) == Some(node)
      ensures && node.nodeId == nodeId && node.nodeName == nodeName && node.ipAddress == ip
              && node.grpcPort == grpcPort && node.rpcPort == rpcPort
              && node.lastSeen == now && node.status == Alive && node.consecutiveFailures == 0
    {
      hide Put, Get, Distinct;
      node := new NodeInfo(nodeId, nodeName, grpcPort, rpcPort, ip, now);
      PutMeaning(nodes, nodeId, node);
      Store(nodeId, node, now);
    }

    // self.nodes[node_id] = a new object.
    method Store(nodeId: string, node: NodeInfo, ghost now: real)
      requires node !in objects
      modifies this`nodes, this`objects
      ensures objects == old(objects) + {node}
      ensures Snapshot(now)
           == old(Snapshot(now)).(nodes := Put(old(nodes), nodeId, node),
                                  recs := old(Snapshot(now)).recs[node := old(node.View())])
    {
      nodes := Put(nodes, nodeId, node);
      objects := objects + {node};
    }

    method HearFrom(node: NodeInfo, rpcPort: int, now: real)
      requires node in objects
      modifies node
      ensures Snapshot(now)
           == old(Snapshot(now)).(
                recs := old(Snapshot(now)).recs[
                  node := old(node.View()).(lastSeen := now, status := Alive, rpcPort := rpcPort)])
    {
      node.Hear(rpcPort, now);
    }

    // register_node; `accepted` is false for the 422 answers.
    method RegisterNode(nodeId: string, name: string, grpcPort: int, rpcPort: int, clientIp: string, now: real)
      returns (accepted: bool, ghost node: NodeInfo)
      requires Valid()
      modifies this, objects
      ensures Valid()
      ensures accepted <==> Acceptable(nodeId, name, grpcPort, rpcPort)
      ensures Consistent(old(Snapshot(now)))
      ensures Enabled(old(Snapshot(now)), Register(nodeId, name, grpcPort, rpcPort, clientIp, node))
      ensures Snapshot(now) == Step(old(Snapshot(now)), Register(nodeId, name, grpcPort, rpcPort, clientIp, node))
      ensures fresh(objects - old(objects))
      ensures accepted ==>
                && fresh(node) && node in objects && Get(nodes, nodeId) == Some(node)
                && node.nodeId == nodeId && node.nodeName == name && node.ipAddress == clientIp
                && node.grpcPort == grpcPort && node.rpcPort == rpcPort
                && node.lastSeen == now && node.status == Alive && node.consecutiveFailures == 0
      ensures !accepted ==> nodes == old(nodes) && objects == old(objects) && Snapshot(now) == old(Snapshot(now))
    {
      ghost var before := Snapshot(now);
      ConsistentAnyTime(before, 0.0);
      assert Distinct(nodes);
      hide Acceptable, Consistent, Put, Get, Distinct, Step, Enabled;
      var nodeInfo := new NodeInfo(nodeId, name, grpcPort, rpcPort, clientIp, now);
      node := nodeInfo;
      RegistrationStep(before, Register(nodeId, name, grpcPort, rpcPort, clientIp, node));
      accepted := Acceptable(nodeId, name, grpcPort, rpcPort);
      if accepted {
        PutMeaning(nodes, nodeId, nodeInfo);
        Store(nodeId, nodeInfo, now);
      }
      StepConsistent(before, Register(nodeId, name, grpcPort, rpcPort, clientIp, node));
      ConsistentAnyTime(Snapshot(now), 0.0);
    }

    // _prune_dead_nodes: collect the dead keys, then delete them.
    method PruneDeadNodes(now: real)
      requires Valid()
      modifies this`nodes
      ensures Valid()
      ensures Consistent(old(Snapshot(now)))
      ensures Snapshot(now) == Step(old(Snapshot(now)), Prune)
    {
      ghost var before := Snapshot(now);
      ConsistentAnyTime(before, 0.0);
      assert Distinct(nodes);
      hide Consistent, Distinct;
      var dead := CollectDead(now);
      DeleteKeys(dead);
      StepConsistent(before, Prune);
      ConsistentAnyTime(Snapshot(now), 0.0);
    }

    // The ids of the nodes that have timed out, each once.
    method CollectDead(now: real) returns (dead: seq<string>)
      requires Valid()
      ensures (set k | k in dead) == DeadKeys(nodes, Snapshot(now).recs, now)
      ensures forall a, b :: 0 <= a < b < |dead| ==> dead[a] != dead[b]
    {
      dead := [];
      for i := 0 to |nodes|
        invariant forall k :: k in dead <==>
                    exists j :: 0 <= j < i && nodes[j].0 == k && TimedOut(nodes[j].1.View(), now)
        invariant forall a, b :: 0 <= a < b < |dead| ==> dead[a] != dead[b]
      {
        var (nid, n) := nodes[i];
        assert forall j :: 0 <= j < i ==> nodes[j].0 != nid;
        if TimedOut(n.View(), now) {
          assert nid !in dead;
          assert forall a :: 0 <= a < |dead| ==> dead[a] in dead;
          dead := dead + [nid];
        }
      }
    }

    method DeleteKeys(dead: seq<string>)
      requires Distinct(nodes) && forall a, b :: 0 <= a < b < |dead| ==> dead[a] != dead[b]
      modifies this`nodes
      ensures nodes == Without(old(nodes), set k | k in dead)
    {
      ghost var all := nodes;
      ghost var gone: set<string> := {};
      WithoutNothing(all);
      for i := 0 to |dead|
        invariant gone == set j | 0 <= j < i :: dead[j]
        invariant nodes == Without(all, gone)
      {
        RemoveFromWithout(all, gone, dead[i]);
        nodes := Remove(nodes, dead[i]);
        gone := gone + {dead[i]};
      }
      assert gone == set k | k in dead;
    }

    method GetNodes(now: real) returns (views: seq<Rec>)
      requires Valid()
      modifies this`nodes
      ensures Valid()
      ensures Consistent(old(Snapshot(now)))
      ensures Snapshot(now) == Step(old(Snapshot(now)), Prune)
      ensures |views| == |nodes| && forall i :: 0 <= i < |nodes| ==> views[i] == nodes[i].1.View()
    {
      PruneDeadNodes(now);
      views := [];
      for i := 0 to |nodes|
        invariant |views| == i && forall j :: 0 <= j < i ==> views[j] == nodes[j].1.View()
      {
        views := views + [nodes[i].1.View()];
      }
    }

    // The host and port of every node that runs an rpc-server.
    method GetRpcEndpoints(now: real) returns (endpoints: seq<(string, int)>)
      requires Valid()
      modifies this`nodes
      ensures Valid()
      ensures Consistent(old(Snapshot(now)))
      ensures Snapshot(now) == Step(old(Snapshot(now)), Prune)
      ensures endpoints == Endpoints(nodes, Snapshot(now).recs)
    {
      PruneDeadNodes(now);
      KnownNodes(Snapshot(now), 0.0);
      ghost var recs := Snapshot(now).recs;
      EndpointsGrow(nodes, recs);
      hide Consistent, DeadKeys, Endpoints;
      endpoints := [];
      for i := 0 to |nodes|
        invariant endpoints == Endpoints(nodes[..i], recs)
      {
        var n := nodes[i].1;
        assert recs[n] == n.View();
        if n.rpcPort != 0 && n.ipAddress != "" {
          endpoints := endpoints + [(n.ipAddress, n.rpcPort)];
        }
      }
      assert nodes[..|nodes|] == nodes;
    }

    // The probe in flight goes to the rpc port of the first node on the list, if it has one, and else
    // to its grpc port.
    predicate ProbeIsSent()
      reads this, set e | e in sweep :: e.1
    {
      sweep != [] ==> probePort == if sweep[0].1.rpcPort != 0 then sweep[0].1.rpcPort else sweep[0].1.grpcPort
    }

    // check_all_nodes up to its first suspension: take the list of entries and send the first probe.
    method StartCheck(now: real)
      requires Valid() && sweep == []
      modifies this`sweep, this`probePort
      ensures Valid()
      ensures Consistent(old(Snapshot(now)))
      ensures Snapshot(now) == Step(old(Snapshot(now)), Event<NodeInfo>.StartCheck)
      ensures sweep == nodes && ProbeIsSent()
    {
      sweep := nodes;
      probePort := if sweep == [] then 0 else ProbePort(sweep[0].1.View());
      StepConsistent(old(Snapshot(now)), Event<NodeInfo>.StartCheck);
    }

    // check_all_nodes from the answer of one probe to the sending of the next.
    method FinishProbe(answer: ProbeResult, now: real)
      requires Valid() && sweep != []
      modifies this, objects
      ensures Valid()
      ensures Consistent(old(Snapshot(now)))
      ensures Snapshot(now) == Step(old(Snapshot(now)), Answer(answer))
      ensures ProbeIsSent()
      ensures var node := old(sweep[0].1);
              var refused := answer == Refused || node.ipAddress == "" || old(probePort) == 0;
              && node.consecutiveFailures == (if refused then old(node.consecutiveFailures) + 1 else 0)
              && node.lastSeen == (if refused then old(node.lastSeen) else now)
              && node.status
              == (if refused then Degraded else if answer == Reachable then Alive else old(node.status))
    {
      ghost var before := Snapshot(now);
      ConsistentAnyTime(before, 0.0);
      hide Outcome, Keys, Remove, NextPort, Consistent, AfterProbe;
      KnownSweep(before);
      StepConsistent(before, Answer(answer));
      var (nodeId, node) := sweep[0];
      assert sweep[0].1 in before.recs;
      var alive := Outcome(node.ipAddress, probePort, answer);
      OutcomeMeans(node.ipAddress, probePort, answer);
      CountAnswer(node, alive, now);
      var raised := false;
      if alive == Refused && node.consecutiveFailures >= HEALTH_FAIL_THRESHOLD {
        raised := DropEntry(nodeId, now);
      }
      MoveOn(raised, now);
      ConsistentAnyTime(Snapshot(now), 0.0);
    }

    method CountAnswer(node: NodeInfo, alive: ProbeResult, now: real)
      requires node in objects
      modifies node
      ensures Snapshot(now)
           == old(Snapshot(now)).(recs := old(Snapshot(now)).recs[node := AfterProbe(old(node.View()), alive, now)])
      ensures node.consecutiveFailures == (if alive == Refused then old(node.consecutiveFailures) + 1 else 0)
      ensures node.lastSeen == (if alive == Refused then old(node.lastSeen) else now)
      ensures node.status
           == (if alive == Refused then Degraded else if alive == Reachable then Alive else old(node.status))
    {
      node.TakeAnswer(alive, now);
    }

    // del self.nodes[node_id]; a missing key raises KeyError.
    method DropEntry(nodeId: string, ghost now: real) returns (raised: bool)
      modifies this`nodes
      ensures raised <==> nodeId !in Keys(old(nodes))
      ensures Snapshot(now)
           == old(Snapshot(now)).(nodes := if raised then old(nodes) else Remove(old(nodes), nodeId))
    {
      raised := nodeId !in Keys(nodes);
      if !raised {
        nodes := Remove(nodes, nodeId);
      }
    }

    // On to the next probe, or out of the loop by the exception.
    method MoveOn(raised: bool, ghost now: real)
      requires sweep != [] && forall i :: 0 <= i < |sweep| ==> sweep[i].1 in objects
      modifies this`sweep, this`probePort
      ensures Snapshot(now)
           == if raised then old(Snapshot(now)).(sweep := [], port := 0)
              else old(Snapshot(now)).(sweep := old(sweep)[1..],
                                       port := NextPort(old(Snapshot(now)).recs, old(sweep)[1..]))
      ensures ProbeIsSent()
    {
      sweep := if raised then [] else sweep[1..];
      probePort := if sweep == [] then 0 else ProbePort(sweep[0].1.View());
    }
  }

  // A registration and, within 15 seconds, a request for the endpoints: an accepted node is among
  // them, at the address it came from and the rpc port it gave, exactly when there are both.
  method RegisterThenAsk(service: DiscoveryService, nodeId: string, name: string, grpcPort: int, rpcPort: int,
                         clientIp: string, now: real, later: real)
    returns (accepted: bool, endpoints: seq<(string, int)>)
    requires service.Valid() && 0.0 < now <= later <= now + 15.0
    modifies service, service.objects
    ensures service.Valid()
    ensures accepted ==> ((clientIp, rpcPort) in endpoints <==> clientIp != "" && rpcPort != 0)
  {
    ghost var before := service.Snapshot(now);
    ghost var node: NodeInfo;
    accepted, node := service.RegisterNode(nodeId, name, grpcPort, rpcPort, clientIp, now);
    ghost var registered := service.Snapshot(now);
    assert service.Snapshot(later) == registered.(now := later);
    endpoints := service.GetRpcEndpoints(later);
    hide Acceptable, Step, Consistent, Endpoints;
    if accepted {
      RegisteredIsOffered(before, Register(nodeId, name, grpcPort, rpcPort, clientIp, node), later);
      PruneIs(registered.(now := later));
    }
  }

  lemma PruneIs<O>(s: State<O>)
    requires Consistent(s)
    ensures Step(s, Prune) == Pruned(s)
  {
  }
}
