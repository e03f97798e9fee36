// The node registry as a state machine: heartbeats, registrations, probes, pruning and time.
// Node objects have an identity of their own, because a health check holds on to the objects it
// started with while the registry changes under it. O is the type of those identities.
module Registry {
  import opened Wrappers
  import opened PyDict

  const HEARTBEAT_TIMEOUT: real := 15.0
  const HEALTH_FAIL_THRESHOLD: int := 3

  datatype Status = Alive | Degraded

  // The fields of a node object that the registry works with.
  datatype Rec = Rec(nodeId: string, nodeName: string, grpcPort: int, rpcPort: int, ipAddress: string,
                     lastSeen: real, status: Status, consecutiveFailures: int)

  datatype ProbeResult = Reachable | Refused | Inconclusive

  // sweep: what the running health check has still to finish; the probe of its first entry is in
  // flight, to the port that was read when it was sent.
  datatype State<O> = State(nodes: Dict<string, O>, recs: map<O, Rec>, now: real, sweep: seq<(string, O)>, port: int)

  datatype Event<O> =
    | Tick(elapsed: real)
    | Heartbeat(nodeId: string, nodeName: string, grpcPort: int, rpcPort: int, ipAddress: string, newNode: O)
    | Register(nodeId: string, nodeName: string, grpcPort: int, rpcPort: int, ipAddress: string, newNode: O)
    | Prune
    | StartCheck
    | Answer(result: ProbeResult)

  // What an event told the registry about a node object.
  datatype Observation<O> = Heard(node: O, at: real) | Probed(node: O, result: ProbeResult, at: real)

  // ---------------------------------------------------------------------------
  // Steps
  // ---------------------------------------------------------------------------

  // The registry and the health check refer to existing objects under their own ids.
  ghost predicate Consistent<O>(s: State<O>) {
    && Distinct(s.nodes)
    && (forall i :: 0 <= i < |s.nodes| ==> s.nodes[i].1 in s.recs && s.recs[s.nodes[i].1].nodeId == s.nodes[i].0)
    && (forall i :: 0 <= i < |s.sweep| ==> s.sweep[i].1 in s.recs && s.recs[s.sweep[i].1].nodeId == s.sweep[i].0)
  }

  // str.strip() removes these.
  predicate IsSpace(c: char) {
    || '\t' <= c <= '\r' || '\U{1C}' <= c <= ' ' || c == '\U{85}' || c == '\U{A0}' || c == '\U{1680}'
    || '\U{2000}' <= c <= '\U{200A}' || c == '\U{2028}' || c == '\U{2029}' || c == '\U{202F}' || c == '\U{205F}'
    || c == '\U{3000}'
  }

  predicate Blank(text: string) {
    forall i :: 0 <= i < |text| ==> IsSpace(text[i])
  }

  // What register_node does not answer with status 422.
  predicate Acceptable(nodeId: string, nodeName: string, grpcPort: int, rpcPort: int) {
    !Blank(nodeId) && !Blank(nodeName) && 0 < grpcPort < 65536 && 0 <= rpcPort < 65536
  }

  // A registration needs an id and a name with something in them besides spaces (the 29 characters
  // that Python takes for spaces), a grpc port and, if it has one, an rpc port, in their range.
  lemma AcceptableExactly(nodeId: string, nodeName: string, grpcPort: int, rpcPort: int)
    ensures Acceptable(nodeId, nodeName, grpcPort, rpcPort)
       <==> && (exists i :: 0 <= i < |nodeId| && !IsSpace(nodeId[i]))
            && (exists i :: 0 <= i < |nodeName| && !IsSpace(nodeName[i]))
            && 1 <= grpcPort <= 65535 && 0 <= rpcPort <= 65535
    ensures forall c: char :: IsSpace(c) <==> c in SPACES
  {
  }

  const SPACES: string :=
    "\t\n\U{B}\U{C}\r\U{1C}\U{1D}\U{1E}\U{1F} \U{85}\U{A0}\U{1680}\U{2000}\U{2001}\U{2002}\U{2003}\U{2004}"
    + "\U{2005}\U{2006}\U{2007}\U{2008}\U{2009}\U{200A}\U{2028}\U{2029}\U{202F}\U{205F}\U{3000}"

  // The rpc port if the node has one, else the grpc port.
  function ProbePort(r: Rec): int {
    if r.rpcPort != 0 then r.rpcPort else r.grpcPort
  }

  // Without an address or a port there is nothing to connect to, which counts as refused.
  function Outcome(ipAddress: string, port: int, answer: ProbeResult): ProbeResult {
    if ipAddress == "" || port == 0 then Refused else answer
  }

  lemma OutcomeMeans(ipAddress: string, port: int, answer: ProbeResult)
    ensures Outcome(ipAddress, port, answer)
         == if answer == Refused || ipAddress == "" || port == 0 then Refused else answer
  {
  }

  function NextPort<O>(recs: map<O, Rec>, sweep: seq<(string, O)>): int {
    if sweep != [] && sweep[0].1 in recs then ProbePort(recs[sweep[0].1]) else 0
  }

  predicate TimedOut(r: Rec, now: real) {
    r.lastSeen > 0.0 && now - r.lastSeen > HEARTBEAT_TIMEOUT
  }

  function DeadKeys<O>(nodes: Dict<string, O>, recs: map<O, Rec>, now: real): set<string> {
    set i | 0 <= i < |nodes| && nodes[i].1 in recs && TimedOut(recs[nodes[i].1], now) :: nodes[i].0
  }

  function Pruned<O>(s: State<O>): State<O> {
    s.(nodes := Without(s.nodes, DeadKeys(s.nodes, s.recs, s.now)))
  }

  // The host and port of every node with both, in the order of the dictionary.
  function Endpoints<O>(nodes: Dict<string, O>, recs: map<O, Rec>): seq<(string, int)>
    requires forall i :: 0 <= i < |nodes| ==> nodes[i].1 in recs
  {
    if nodes == [] then []
    else Endpoints(nodes[..|nodes| - 1], recs) + EndpointOf(recs[nodes[|nodes| - 1].1])
  }

  // The endpoint of one node.
  function EndpointOf(r: Rec): seq<(string, int)> {
    if r.rpcPort != 0 && r.ipAddress != "" then [(r.ipAddress, r.rpcPort)] else []
  }

  lemma EndpointsGrow<O>(nodes: Dict<string, O>, recs: map<O, Rec>)
    requires forall i :: 0 <= i < |nodes| ==> nodes[i].1 in recs
    ensures Endpoints(nodes[..0], recs) == []
    ensures forall k :: 0 <= k < |nodes| ==>
              Endpoints(nodes[..k + 1], recs) == Endpoints(nodes[..k], recs) + EndpointOf(recs[nodes[k].1])
  {
    forall k | 0 <= k < |nodes|
      ensures Endpoints(nodes[..k + 1], recs) == Endpoints(nodes[..k], recs) + EndpointOf(recs[nodes[k].1])
    {
      assert nodes[..k + 1][..k] == nodes[..k];
    }
  }

  // An endpoint is that of a stored node, and no stored node with both is left out.
  lemma {:induction false} EndpointsMeaning<O>(nodes: Dict<string, O>, recs: map<O, Rec>, e: (string, int))
    requires forall i :: 0 <= i < |nodes| ==> nodes[i].1 in recs
    ensures e in Endpoints(nodes, recs)
       <==> e.0 != "" && e.1 != 0
            && exists i :: 0 <= i < |nodes| && e == (recs[nodes[i].1].ipAddress, recs[nodes[i].1].rpcPort)
  {
    if nodes != [] {
      var init := nodes[..|nodes| - 1];
      EndpointsMeaning(init, recs, e);
      var last := recs[nodes[|nodes| - 1].1];
      if e == (last.ipAddress, last.rpcPort) {
        assert e == (recs[nodes[|nodes| - 1].1].ipAddress, recs[nodes[|nodes| - 1].1].rpcPort);
      } else if i :| 0 <= i < |nodes| && e == (recs[nodes[i].1].ipAddress, recs[nodes[i].1].rpcPort) {
        assert init[i] == nodes[i];
      }
    }
  }

  // A node object after its probe has answered.
  function AfterProbe(r: Rec, result: ProbeResult, now: real): Rec {
    match result
    case Reachable => r.(consecutiveFailures := 0, lastSeen := now, status := Alive)
    case Refused => r.(consecutiveFailures := r.consecutiveFailures + 1, status := Degraded)
    case Inconclusive => r.(consecutiveFailures := 0, lastSeen := now)
  }

  function ProbeOutcome<O>(s: State<O>, answer: ProbeResult): ProbeResult
    requires s.sweep != [] && s.sweep[0].1 in s.recs
  {
    Outcome(s.recs[s.sweep[0].1].ipAddress, s.port, answer)
  }

  // Resuming the health check: update the probed object, drop its entry at the third refusal in a
  // row, and send the next probe. A missing entry raises KeyError, which ends the check.
  function Answered<O>(s: State<O>, answer: ProbeResult): State<O>
    requires s.sweep != [] && s.sweep[0].1 in s.recs
  {
    var (k, o) := s.sweep[0];
    var recs := s.recs[o := AfterProbe(s.recs[o], ProbeOutcome(s, answer), s.now)];
    if ProbeOutcome(s, answer) == Refused && recs[o].consecutiveFailures >= HEALTH_FAIL_THRESHOLD then
      if k in Keys(s.nodes) then
        s.(nodes := Remove(s.nodes, k), recs := recs, sweep := s.sweep[1..], port := NextPort(recs, s.sweep[1..]))
      else
        s.(recs := recs, sweep := [], port := 0)
    else
      s.(recs := recs, sweep := s.sweep[1..], port := NextPort(recs, s.sweep[1..]))
  }

  function HeartbeatFrom<O>(s: State<O>, e: Event<O>): State<O>
    requires e.Heartbeat?
    requires Get(s.nodes, e.nodeId).Some? ==> Get(s.nodes, e.nodeId).value in s.recs
  {
    var known := Get(s.nodes, e.nodeId);
    if known.None? then
      s.(nodes := Put(s.nodes, e.nodeId, e.newNode),
         recs := s.recs[e.newNode := Rec(e.nodeId, e.nodeName, e.grpcPort, e.rpcPort, e.ipAddress, s.now, Alive, 0)])
    else
      s.(recs := s.recs[known.value := s.recs[known.value].(lastSeen := s.now, status := Alive, rpcPort := e.rpcPort)])
  }

  function Registered<O>(s: State<O>, e: Event<O>): State<O>
    requires e.Register?
  {
    if Acceptable(e.nodeId, e.nodeName, e.grpcPort, e.rpcPort) then
      s.(nodes := Put(s.nodes, e.nodeId, e.newNode),
         recs := s.recs[e.newNode := Rec(e.nodeId, e.nodeName, e.grpcPort, e.rpcPort, e.ipAddress, s.now, Alive, 0)])
    else s
  }

  // The value of a key, and where it is.
  lemma StoredAt<O>(s: State<O>, k: string)
    requires Consistent(s) && Get(s.nodes, k).Some?
    ensures Get(s.nodes, k).value in s.recs && s.recs[Get(s.nodes, k).value].nodeId == k
  {
    var i :| 0 <= i < |s.nodes| && s.nodes[i] == (k, Get(s.nodes, k).value);
  }

  // Events carry an object nobody has yet where they create one, and probes answer only a running check.
  ghost predicate Enabled<O>(s: State<O>, e: Event<O>) {
    match e
    case Tick(elapsed) => elapsed >= 0.0
    case Heartbeat(k, _, _, _, _, newNode) => k in Keys(s.nodes) || newNode !in s.recs
    case Register(_, _, _, _, _, newNode) => newNode !in s.recs
    case Prune => true
    case StartCheck => s.sweep == []
    case Answer(_) => s.sweep != []
  }

  function Step<O>(s: State<O>, e: Event<O>): State<O>
    requires Consistent(s) && Enabled(s, e)
  {
    match e
    case Tick(elapsed) => s.(now := s.now + elapsed)
    case Heartbeat(k, _, _, _, _, _) =>
      (if Get(s.nodes, k).Some? then StoredAt(s, k); HeartbeatFrom(s, e) else HeartbeatFrom(s, e))
    case Register(_, _, _, _, _, _) => Registered(s, e)
    case Prune => Pruned(s)
    case StartCheck => s.(sweep := s.nodes, port := NextPort(s.recs, s.nodes))
    case Answer(answer) => Answered(s, answer)
  }

  lemma ConsistentAnyTime<O>(s: State<O>, now: real)
    ensures Consistent(s.(now := now)) <==> Consistent(s)
  {
  }

  // Whatever the registry or the health check holds is a known object.
  lemma KnownSweep<O>(s: State<O>)
    requires Consistent(s)
    ensures forall i :: 0 <= i < |s.sweep| ==> s.sweep[i].1 in s.recs
  {
  }

  lemma KnownNodes<O>(s: State<O>, now: real)
    requires Consistent(s.(now := now))
    ensures forall i :: 0 <= i < |s.nodes| ==> s.nodes[i].1 in s.recs
  {
  }

  // An accepted registration stores a new object, a rejected one does nothing.
  lemma RegistrationStep<O>(s: State<O>, e: Event<O>)
    requires Consistent(s) && e.Register? && e.newNode !in s.recs
    ensures Enabled(s, e)
    ensures Step(s, e)
         == if Acceptable(e.nodeId, e.nodeName, e.grpcPort, e.rpcPort) then
              s.(nodes := Put(s.nodes, e.nodeId, e.newNode),
                 recs := s.recs[
                   e.newNode := Rec(e.nodeId, e.nodeName, e.grpcPort, e.rpcPort, e.ipAddress, s.now, Alive, 0)])
            else s
  {
    hide Acceptable;
  }

  // An accepted registration stores a new object with what was registered; it stands in the registry
  // for 15 seconds at least, and its endpoint is offered exactly when it has an address and an rpc port.
  lemma RegisteredIsOffered<O>(s: State<O>, e: Event<O>, later: real)
    requires Consistent(s) && Enabled(s, e) && e.Register? && s.now > 0.0 && s.now <= later <= s.now + 15.0
    requires Acceptable(e.nodeId, e.nodeName, e.grpcPort, e.rpcPort)
    ensures var s' := Pruned(Step(s, e).(now := later)); (
            && Get(s'.nodes, e.nodeId) == Some(e.newNode) && e.newNode in s'.recs
            && (forall i :: 0 <= i < |s'.nodes| ==> s'.nodes[i].1 in s'.recs)
            && ((e.ipAddress, e.rpcPort) in Endpoints(s'.nodes, s'.recs) <==> e.ipAddress != "" && e.rpcPort != 0))
  {
    StepConsistent(s, e);
    ConsistentAnyTime(Step(s, e), later);
    PruneConsistent(Step(s, e).(now := later));
    hide Acceptable;
    var before := Step(s, e).(now := later);
    var s' := Pruned(before);
    PutMeaning(s.nodes, e.nodeId, e.newNode);
    JustSeen(before, e.nodeId);
    hide Step, Endpoints, DeadKeys;
    EndpointsMeaning(s'.nodes, s'.recs, (e.ipAddress, e.rpcPort));
    StoredAt(s', e.nodeId);
  }

  // A node heard of within the last 15 seconds survives pruning.
  lemma JustSeen<O>(s: State<O>, k: string)
    requires Consistent(s) && Get(s.nodes, k).Some? && s.now - s.recs[Get(s.nodes, k).value].lastSeen <= 15.0
    ensures Get(Pruned(s).nodes, k) == Get(s.nodes, k)
  {
    StoredAt(s, k);
    WithoutMeaning(s.nodes, DeadKeys(s.nodes, s.recs, s.now));
    if k in DeadKeys(s.nodes, s.recs, s.now) {
      var i :| 0 <= i < |s.nodes| && s.nodes[i].0 == k && TimedOut(s.recs[s.nodes[i].1], s.now);
      GetAt(s.nodes, i);
      assert false;
    }
  }

  // A heartbeat of an unknown node stores a new object.
  lemma FirstHeartbeat<O>(s: State<O>, e: Event<O>)
    requires Consistent(s) && e.Heartbeat? && Get(s.nodes, e.nodeId).None? && e.newNode !in s.recs
    ensures Enabled(s, e)
    ensures Step(s, e)
         == s.(nodes := Put(s.nodes, e.nodeId, e.newNode),
               recs := s.recs[
                 e.newNode := Rec(e.nodeId, e.nodeName, e.grpcPort, e.rpcPort, e.ipAddress, s.now, Alive, 0)])
  {
  }

  // A heartbeat of a known node updates its object.
  lemma LaterHeartbeat<O>(s: State<O>, e: Event<O>)
    requires Consistent(s) && e.Heartbeat? && Get(s.nodes, e.nodeId).Some?
    ensures Enabled(s, e) && Get(s.nodes, e.nodeId).value in s.recs
    ensures var o := Get(s.nodes, e.nodeId).value;
            Step(s, e) == s.(recs := s.recs[o := s.recs[o].(lastSeen := s.now, status := Alive, rpcPort := e.rpcPort)])
  {
    StoredAt(s, e.nodeId);
  }

  // What the event tells.
  function Observed<O>(s: State<O>, e: Event<O>): seq<Observation<O>>
    requires Consistent(s) && Enabled(s, e)
  {
    match e
    case Heartbeat(k, _, _, _, _, newNode) =>
      [Heard(if Get(s.nodes, k).Some? then Get(s.nodes, k).value else newNode, s.now)]
    case Register(k, name, grpc, rpc, _, newNode) =>
      if Acceptable(k, name, grpc, rpc) then [Heard(newNode, s.now)] else []
    case Answer(answer) => [Probed(s.sweep[0].1, ProbeOutcome(s, answer), s.now)]
    case _ => []
  }

  lemma AnswerConsistent<O>(s: State<O>, answer: ProbeResult)
    requires Consistent(s) && s.sweep != []
    ensures Consistent(Answered(s, answer))
  {
    hide Outcome, NextPort, Keys, Remove;
    RemoveMeaning(s.nodes, s.sweep[0].0);
    SubRemove(s.nodes, s.sweep[0].0);
  }

  lemma HeartbeatConsistent<O>(s: State<O>, e: Event<O>)
    requires Consistent(s) && Enabled(s, e) && e.Heartbeat?
    ensures Consistent(Step(s, e))
  {
    if Get(s.nodes, e.nodeId).Some? {
      LaterHeartbeat(s, e);
      hide Step;
    } else {
      FirstHeartbeat(s, e);
      hide Step, Consistent;
      PutConsistent(s, e.nodeId, e.newNode, Step(s, e).recs);
    }
  }

  lemma PruneConsistent<O>(s: State<O>)
    requires Consistent(s)
    ensures Consistent(Pruned(s))
  {
    hide DeadKeys;
    SubDict(s.nodes, DeadKeys(s.nodes, s.recs, s.now));
    WithoutMeaning(s.nodes, DeadKeys(s.nodes, s.recs, s.now));
  }

  lemma StepConsistent<O>(s: State<O>, e: Event<O>)
    requires Consistent(s) && Enabled(s, e)
    ensures Consistent(Step(s, e))
  {
    match e
    case Heartbeat(_, _, _, _, _, _) =>
      HeartbeatConsistent(s, e);
    case Register(k, _, _, _, _, newNode) =>
      hide Consistent, Acceptable;
      var created := Rec(k, e.nodeName, e.grpcPort, e.rpcPort, e.ipAddress, s.now, Alive, 0);
      PutConsistent(s, k, newNode, s.recs[newNode := created]);
    case Prune =>
      hide Consistent;
      PruneConsistent(s);
    case Answer(answer) =>
      hide Consistent;
      AnswerConsistent(s, answer);
    case _ =>
  }

  lemma {:induction false} SubDict<O>(d: Dict<string, O>, ks: set<string>)
    ensures forall i :: 0 <= i < |Without(d, ks)| ==> Without(d, ks)[i] in d
  {
    if d != [] {
      SubDict(d[1..], ks);
    }
  }

  lemma {:induction false} SubRemove<O>(d: Dict<string, O>, k: string)
    ensures forall i :: 0 <= i < |Remove(d, k)| ==> Remove(d, k)[i] in d
  {
    if d != [] {
      SubRemove(d[1..], k);
    }
  }

  lemma {:induction false} SubPut<O>(d: Dict<string, O>, k: string, o: O)
    ensures forall i :: 0 <= i < |Put(d, k, o)| ==> Put(d, k, o)[i] in d || Put(d, k, o)[i] == (k, o)
  {
    if d != [] {
      SubPut(d[1..], k, o);
    }
  }

  lemma PutConsistent<O>(s: State<O>, k: string, o: O, recs: map<O, Rec>)
    requires Consistent(s) && o !in s.recs
    requires o in recs && recs[o].nodeId == k && forall x :: x in s.recs ==> x in recs && recs[x] == s.recs[x]
    ensures Consistent(s.(nodes := Put(s.nodes, k, o), recs := recs))
  {
    PutMeaning(s.nodes, k, o);
    SubPut(s.nodes, k, o);
  }
}
