// What every run of the registry keeps: counters and time stamps are the node's own history,
// and a node stays registered exactly as long as nothing in the run is a reason to drop it.
module RegistryHistory {
  import opened Wrappers
  import opened PyDict
  import opened Registry

  // ---------------------------------------------------------------------------
  // Histories
  // ---------------------------------------------------------------------------

  // Refused probes of the node since its last probe with another result.
  function TrailingRefusals<O(==)>(log: seq<Observation<O>>, o: O): nat {
    if log == [] then 0
    else
      var last := log[|log| - 1];
      var before := TrailingRefusals(log[..|log| - 1], o);
      if last.Probed? && last.node == o then (if last.result == Refused then before + 1 else 0) else before
  }

  // The observation refreshes the node object.
  predicate Refreshes<O(==)>(seen: Observation<O>, o: O) {
    seen.node == o && (seen.Heard? || seen.result != Refused)
  }

  // The last time the node was created, heard from, or probed without being refused.
  function LastRefresh<O(==)>(log: seq<Observation<O>>, o: O): Option<real> {
    if log == [] then None
    else
      var last := log[|log| - 1];
      if Refreshes(last, o) then Some(last.at)
      else LastRefresh(log[..|log| - 1], o)
  }

  datatype Run<O> = Run(state: State<O>, log: seq<Observation<O>>)

  function Begin<O>(start: real): Run<O> {
    Run(State([], map[], start, [], 0), [])
  }

  // The run extended by the events, None if one of them cannot happen.
  ghost function Extend<O>(r: Run<O>, events: seq<Event<O>>): Option<Run<O>>
    decreases |events|
  {
    if events == [] then Some(r)
    else if Consistent(r.state) && Enabled(r.state, events[0]) then
      Extend(Next(r, events[0]), events[1..])
    else None
  }

  ghost function Next<O>(r: Run<O>, e: Event<O>): Run<O>
    requires Consistent(r.state) && Enabled(r.state, e)
  {
    Run(Step(r.state, e), r.log + Observed(r.state, e))
  }

  // ---------------------------------------------------------------------------
  // The invariant
  // ---------------------------------------------------------------------------

  // Counters and time stamps are what the history says.
  ghost predicate Faithful<O>(r: Run<O>) {
    && (forall o :: o in r.state.recs ==>
          && r.state.recs[o].consecutiveFailures == TrailingRefusals(r.log, o)
          && LastRefresh(r.log, o) == Some(r.state.recs[o].lastSeen))
    && (forall i :: 0 <= i < |r.log| ==> r.log[i].node in r.state.recs)
  }

  // No registered node has been refused three times running.
  ghost predicate BelowThreshold<O>(s: State<O>) {
    forall i :: 0 <= i < |s.nodes| && s.nodes[i].1 in s.recs ==>
      s.recs[s.nodes[i].1].consecutiveFailures < HEALTH_FAIL_THRESHOLD
  }

  ghost predicate Inv<O>(r: Run<O>) {
    Consistent(r.state) && Faithful(r) && BelowThreshold(r.state)
  }

  lemma Appended<O>(log: seq<Observation<O>>, seen: Observation<O>, o: O)
    ensures TrailingRefusals(log + [seen], o)
         == if seen.Probed? && seen.node == o then (if seen.result == Refused then TrailingRefusals(log, o) + 1 else 0)
            else TrailingRefusals(log, o)
    ensures LastRefresh(log + [seen], o)
         == if Refreshes(seen, o) then Some(seen.at) else LastRefresh(log, o)
  {
    assert (log + [seen])[..|log|] == log;
  }

  lemma {:induction false} NeverSeen<O>(log: seq<Observation<O>>, o: O)
    requires forall i :: 0 <= i < |log| ==> log[i].node != o
    ensures TrailingRefusals(log, o) == 0 && LastRefresh(log, o) == None
  {
    if log != [] {
      NeverSeen(log[..|log| - 1], o);
    }
  }

  // What one observation does to the objects: everything an event does to them.
  ghost predicate Explains<O>(s: State<O>, seen: Observation<O>, recs: map<O, Rec>) {
    && recs.Keys == s.recs.Keys + {seen.node}
    && (forall x :: x in s.recs && x != seen.node ==> recs[x] == s.recs[x])
    && (seen.Heard? ==>
          && recs[seen.node].lastSeen == seen.at
          && recs[seen.node].consecutiveFailures
          == (if seen.node in s.recs then s.recs[seen.node].consecutiveFailures else 0))
    && (seen.Probed? ==> seen.node in s.recs && recs[seen.node] == AfterProbe(s.recs[seen.node], seen.result, seen.at))
  }

  lemma ExplainedFaithful<O>(r: Run<O>, seen: Observation<O>, s': State<O>)
    requires Faithful(r) && Explains(r.state, seen, s'.recs)
    ensures Faithful(Run(s', r.log + [seen]))
  {
    forall o | o in s'.recs
      ensures s'.recs[o].consecutiveFailures == TrailingRefusals(r.log + [seen], o)
      ensures LastRefresh(r.log + [seen], o) == Some(s'.recs[o].lastSeen)
    {
      Appended(r.log, seen, o);
      if o !in r.state.recs {
        NeverSeen(r.log, o);
      }
    }
  }

  lemma StepExplained<O>(s: State<O>, e: Event<O>)
    requires Consistent(s) && Enabled(s, e)
    ensures Observed(s, e) == [] ==> Step(s, e).recs == s.recs
    ensures Observed(s, e) != [] ==>
              Observed(s, e) == [Observed(s, e)[0]] && Explains(s, Observed(s, e)[0], Step(s, e).recs)
  {
    if e.Heartbeat? && Get(s.nodes, e.nodeId).Some? {
      StoredAt(s, e.nodeId);
    }
  }

  lemma StepFaithful<O>(r: Run<O>, e: Event<O>)
    requires Consistent(r.state) && Enabled(r.state, e) && Faithful(r)
    ensures Faithful(Next(r, e))
  {
    StepExplained(r.state, e);
    var seen := Observed(r.state, e);
    hide Step, Observed, Consistent, Enabled;
    if seen == [] {
      assert r.log + seen == r.log;
    } else {
      hide Faithful;
      ExplainedFaithful(r, seen[0], Step(r.state, e));
    }
  }

  lemma EntryAt<O>(s: State<O>, i: nat)
    requires Consistent(s) && i < |s.nodes|
    ensures Get(s.nodes, s.nodes[i].0) == Some(s.nodes[i].1) && s.nodes[i].0 in Keys(s.nodes)
  {
    GetAt(s.nodes, i);
  }

  lemma AnswerBelowThreshold<O>(s: State<O>, answer: ProbeResult)
    requires Consistent(s) && s.sweep != [] && BelowThreshold(s)
    ensures BelowThreshold(Answered(s, answer))
  {
    var s' := Answered(s, answer);
    var (k, o) := s.sweep[0];
    StepConsistent(s, Answer(answer));
    RemoveMeaning(s.nodes, k);
    SubRemove(s.nodes, k);
    hide Outcome, NextPort;
    forall i | 0 <= i < |s'.nodes|
      ensures s'.recs[s'.nodes[i].1].consecutiveFailures < HEALTH_FAIL_THRESHOLD
    {
      EntryAt(s', i);
      assert s'.nodes[i] in s.nodes;
      if s'.nodes[i].1 == o {
        assert s'.nodes[i].0 == k;
      }
    }
  }

  lemma StepBelowThreshold<O>(s: State<O>, e: Event<O>)
    requires Consistent(s) && Enabled(s, e) && BelowThreshold(s)
    ensures BelowThreshold(Step(s, e))
  {
    match e
    case Answer(answer) =>
      AnswerBelowThreshold(s, answer);
    case Prune =>
      SubDict(s.nodes, DeadKeys(s.nodes, s.recs, s.now));
    case Heartbeat(k, _, _, _, _, newNode) =>
      SubPut(s.nodes, k, newNode);
      if Get(s.nodes, k).Some? {
        StoredAt(s, k);
        hide HeartbeatFrom;
        HeardCounters(s, e);
      }
    case Register(k, _, _, _, _, newNode) =>
      hide Acceptable;
      SubPut(s.nodes, k, newNode);
    case _ =>
  }

  // A heartbeat of a known node leaves every failure counter alone.
  lemma HeardCounters<O>(s: State<O>, e: Event<O>)
    requires Consistent(s) && Enabled(s, e) && e.Heartbeat? && Get(s.nodes, e.nodeId).Some?
    ensures Step(s, e).nodes == s.nodes && Step(s, e).recs.Keys == s.recs.Keys
    ensures forall o :: o in s.recs ==> Step(s, e).recs[o].consecutiveFailures == s.recs[o].consecutiveFailures
  {
    StoredAt(s, e.nodeId);
  }

  lemma StepInv<O>(r: Run<O>, e: Event<O>)
    requires Inv(r) && Enabled(r.state, e)
    ensures Inv(Next(r, e))
  {
    hide Faithful, BelowThreshold, Consistent, Step, Observed, Enabled;
    StepConsistent(r.state, e);
    StepFaithful(r, e);
    StepBelowThreshold(r.state, e);
  }

  lemma {:induction false} ExtendInv<O>(r: Run<O>, events: seq<Event<O>>)
    requires Inv(r) && Extend(r, events).Some?
    ensures Inv(Extend(r, events).value)
    decreases |events|
  {
    if events != [] {
      hide Inv, Next;
      StepInv(r, events[0]);
      ExtendInv(Next(r, events[0]), events[1..]);
    }
  }

  // Over every run from an empty registry: each node object's failure counter is the length of its
  // trailing run of refused probes, its time stamp is its last refresh, and no registered node has
  // been refused three times running.
  lemma CountersAreHistory<O>(start: real, events: seq<Event<O>>)
    requires Extend(Begin<O>(start), events).Some?
    ensures var r := Extend(Begin<O>(start), events).value; (
            && (forall o :: o in r.state.recs ==>
                  && r.state.recs[o].consecutiveFailures == TrailingRefusals(r.log, o)
                  && LastRefresh(r.log, o) == Some(r.state.recs[o].lastSeen))
            && forall i :: 0 <= i < |r.state.nodes| ==> TrailingRefusals(r.log, r.state.nodes[i].1) < 3)
  {
    hide Extend;
    ExtendInv(Begin<O>(start), events);
  }

  // ---------------------------------------------------------------------------
  // Removal by the health check
  // ---------------------------------------------------------------------------

  // The probe in flight is about to be its node's third refusal in a row.
  ghost predicate ThirdRefusal<O>(r: Run<O>, answer: ProbeResult)
    requires r.state.sweep != [] && r.state.sweep[0].1 in r.state.recs
  {
    ProbeOutcome(r.state, answer) == Refused && TrailingRefusals(r.log, r.state.sweep[0].1) >= 2
  }

  // The health check removes exactly the key it probed, and exactly at the third refusal in a row:
  // a reachable or inconclusive probe removes nothing.
  lemma RemovalExact<O>(r: Run<O>, answer: ProbeResult)
    requires Inv(r) && r.state.sweep != []
    ensures forall x :: Get(Step(r.state, Answer(answer)).nodes, x)
                     == if ThirdRefusal(r, answer) && x == r.state.sweep[0].0 then None else Get(r.state.nodes, x)
  {
    RemoveMeaning(r.state.nodes, r.state.sweep[0].0);
    hide Outcome, NextPort;
  }

  // The node that loses its entry has itself been refused three times exactly when it is the node
  // that was probed; an entry replaced during the probe is dropped for its predecessor's failures.
  lemma RemovalJustified<O>(r: Run<O>, answer: ProbeResult, p: O)
    requires Inv(r) && r.state.sweep != [] && ThirdRefusal(r, answer)
    requires Get(r.state.nodes, r.state.sweep[0].0) == Some(p)
    ensures TrailingRefusals(Next(r, Answer(answer)).log, p) == 3 <==> p == r.state.sweep[0].1
    ensures p != r.state.sweep[0].1 ==> TrailingRefusals(Next(r, Answer(answer)).log, p) < 3
  {
    var k := r.state.sweep[0].0;
    Appended(r.log, Observed(r.state, Answer(answer))[0], p);
    StoredAt(r.state, k);
    var i :| 0 <= i < |r.state.nodes| && r.state.nodes[i] == (k, p);
    assert r.state.recs[r.state.nodes[i].1].consecutiveFailures < HEALTH_FAIL_THRESHOLD;
    hide Outcome, NextPort;
  }

  // A node refused twice, then registered again while its third probe is in flight: the new object,
  // which no probe has ever reached, is the one that is dropped.
  lemma StaleProbeDropsFreshNode<O>(r: Run<O>, k: string, name: string, port: int, ip: string, newNode: O)
    requires Inv(r) && r.state.sweep != [] && r.state.sweep[0].0 == k
    requires TrailingRefusals(r.log, r.state.sweep[0].1) == 2
    requires Acceptable(k, name, port, port) && newNode !in r.state.recs
    ensures var registered := Register(k, name, port, port, ip, newNode);
            var r' := Next(r, registered);
            Inv(r') && Get(r'.state.nodes, k) == Some(newNode) && Enabled(r'.state, Answer(Refused))
            && Get(Next(r', Answer(Refused)).state.nodes, k) == None
            && TrailingRefusals(Next(r', Answer(Refused)).log, newNode) == 0
  {
    InvConsistent(r);
    hide Inv, Acceptable, ThirdRefusal, Step, Observed, Consistent;
    var r' := Next(r, Register(k, name, port, port, ip, newNode));
    RegisteredMidProbe(r, k, name, port, ip, newNode);
    InvConsistent(r');
    RemovalExact(r', Refused);
    UnprobedStaysZero(r', Refused, newNode);
  }

  lemma RegisteredMidProbe<O>(r: Run<O>, k: string, name: string, port: int, ip: string, newNode: O)
    requires Inv(r) && r.state.sweep != [] && r.state.sweep[0].0 == k
    requires TrailingRefusals(r.log, r.state.sweep[0].1) == 2
    requires Acceptable(k, name, port, port) && newNode !in r.state.recs
    ensures var r' := Next(r, Register(k, name, port, port, ip, newNode));
            Inv(r') && r'.state.sweep == r.state.sweep && Get(r'.state.nodes, k) == Some(newNode)
            && ThirdRefusal(r', Refused)
            && TrailingRefusals(r'.log, newNode) == 0 && newNode != r.state.sweep[0].1
  {
    StepInv(r, Register(k, name, port, port, ip, newNode));
    PutMeaning(r.state.nodes, k, newNode);
    hide Acceptable, NextPort;
    NeverSeen(r.log, newNode);
    Appended(r.log, Heard(newNode, r.state.now), newNode);
    Appended(r.log, Heard(newNode, r.state.now), r.state.sweep[0].1);
  }

  lemma UnprobedStaysZero<O>(r: Run<O>, answer: ProbeResult, o: O)
    requires Inv(r) && r.state.sweep != [] && r.state.sweep[0].1 != o
    ensures TrailingRefusals(Next(r, Answer(answer)).log, o) == TrailingRefusals(r.log, o)
  {
    Appended(r.log, Probed(r.state.sweep[0].1, ProbeOutcome(r.state, answer), r.state.now), o);
  }

  // ---------------------------------------------------------------------------
  // Freshness
  // ---------------------------------------------------------------------------

  // Time stamps are positive and never in the future.
  ghost predicate Clocked<O>(s: State<O>) {
    s.now > 0.0 && forall o :: o in s.recs ==> 0.0 < s.recs[o].lastSeen <= s.now
  }

  lemma StepClocked<O>(s: State<O>, e: Event<O>)
    requires Consistent(s) && Enabled(s, e) && Clocked(s)
    ensures Clocked(Step(s, e))
  {
    hide Acceptable, NextPort, Outcome;
    if e.Heartbeat? && Get(s.nodes, e.nodeId).Some? {
      StoredAt(s, e.nodeId);
    }
  }

  lemma {:induction false} ExtendClocked<O>(r: Run<O>, events: seq<Event<O>>)
    requires Inv(r) && Clocked(r.state) && Extend(r, events).Some?
    ensures Clocked(Extend(r, events).value.state)
    decreases |events|
  {
    if events != [] {
      hide Inv, Step, Observed, Clocked, Consistent, Enabled;
      StepClocked(r.state, events[0]);
      StepInv(r, events[0]);
      ExtendClocked(Next(r, events[0]), events[1..]);
    }
  }

  // The node was last refreshed over 15 seconds ago.
  ghost predicate Stale<O>(r: Run<O>, o: O)
    requires o in r.state.recs
  {
    LastRefresh(r.log, o).Some? && r.state.now - LastRefresh(r.log, o).value > HEARTBEAT_TIMEOUT
  }

  lemma DeadKeysMeaning<O>(s: State<O>, k: string)
    requires Consistent(s) && Get(s.nodes, k).Some?
    ensures Get(s.nodes, k).value in s.recs
    ensures k in DeadKeys(s.nodes, s.recs, s.now) <==> TimedOut(s.recs[Get(s.nodes, k).value], s.now)
  {
    StoredAt(s, k);
    var o := Get(s.nodes, k).value;
    var i :| 0 <= i < |s.nodes| && s.nodes[i] == (k, o);
    if TimedOut(s.recs[o], s.now) {
      assert s.nodes[i].0 in DeadKeys(s.nodes, s.recs, s.now);
    }
  }

  // Pruning keeps exactly the nodes refreshed within the last 15 seconds.
  lemma PruneExact<O>(r: Run<O>, k: string)
    requires Inv(r) && Clocked(r.state)
    ensures Get(r.state.nodes, k).Some? ==> Get(r.state.nodes, k).value in r.state.recs
    ensures Get(Pruned(r.state).nodes, k)
         == if Get(r.state.nodes, k).Some? && Stale(r, Get(r.state.nodes, k).value) then None else Get(r.state.nodes, k)
    ensures forall o :: o in r.state.recs ==>
              LastRefresh(r.log, o).Some? && (Stale(r, o) <==> r.state.now > LastRefresh(r.log, o).value + 15.0)
  {
    WithoutMeaning(r.state.nodes, DeadKeys(r.state.nodes, r.state.recs, r.state.now));
    if Get(r.state.nodes, k).Some? {
      DeadKeysMeaning(r.state, k);
    }
  }

  // What is left after pruning: only nodes refreshed within the last 15 seconds.
  lemma PrunedAreFresh<O>(start: real, events: seq<Event<O>>, i: nat)
    requires start > 0.0 && Extend(Begin<O>(start), events).Some?
    requires i < |Pruned(Extend(Begin<O>(start), events).value.state).nodes|
    ensures var r := Extend(Begin<O>(start), events).value;
            var o := Pruned(r.state).nodes[i].1;
            o in r.state.recs && !Stale(r, o)
  {
    var r := Extend(Begin<O>(start), events).value;
    hide Extend;
    ExtendInv(Begin<O>(start), events);
    ExtendClocked(Begin<O>(start), events);
    StepConsistent(r.state, Prune);
    hide Inv, Clocked, Stale;
    EntryAt(Pruned(r.state), i);
    PruneExact(r, Pruned(r.state).nodes[i].0);
  }

  // The node at this endpoint was refreshed within the last 15 seconds.
  ghost predicate FreshAt<O>(r: Run<O>, e: (string, int), o: O) {
    o in r.state.recs && !Stale(r, o) && e == (r.state.recs[o].ipAddress, r.state.recs[o].rpcPort)
  }

  // Every endpoint that get_rpc_endpoints offers is that of such a node.
  lemma EndpointsAreFresh<O>(start: real, events: seq<Event<O>>, e: (string, int))
    requires start > 0.0 && Extend(Begin<O>(start), events).Some?
    ensures var s := Pruned(Extend(Begin<O>(start), events).value.state);
            forall i :: 0 <= i < |s.nodes| ==> s.nodes[i].1 in s.recs
    ensures var r := Extend(Begin<O>(start), events).value;
            e in Endpoints(Pruned(r.state).nodes, Pruned(r.state).recs) ==> exists o :: FreshAt(r, e, o)
  {
    var r := Extend(Begin<O>(start), events).value;
    var s := Pruned(r.state);
    hide Stale, DeadKeys, Extend, Endpoints;
    forall i | 0 <= i < |s.nodes|
      ensures s.nodes[i].1 in s.recs
    {
      PrunedAreFresh(start, events, i);
    }
    EndpointsMeaning(s.nodes, s.recs, e);
    if e in Endpoints(s.nodes, s.recs) {
      var i :| 0 <= i < |s.nodes| && e == (s.recs[s.nodes[i].1].ipAddress, s.recs[s.nodes[i].1].rpcPort);
      PrunedAreFresh(start, events, i);
      assert FreshAt(r, e, s.nodes[i].1);
    }
  }

  // ---------------------------------------------------------------------------
  // How long a node stays registered
  // ---------------------------------------------------------------------------

  // The event gives no reason to drop node o, registered under k: no pruning while it is stale, no
  // registration in its place, no third refusal of a probe of its key.
  ghost predicate Spares<O>(r: Run<O>, e: Event<O>, k: string, o: O)
    requires Consistent(r.state) && Enabled(r.state, e) && o in r.state.recs
  {
    match e
    case Prune => !Stale(r, o)
    case Register(id, name, grpc, rpc, _, _) => !(id == k && Acceptable(id, name, grpc, rpc))
    case Answer(answer) => !(r.state.sweep[0].0 == k && ThirdRefusal(r, answer))
    case _ => true
  }

  lemma PutElsewhere<O>(d: Dict<string, O>, id: string, newNode: O, k: string, o: O)
    requires Distinct(d) && newNode != o
    ensures Get(Put(d, id, newNode), k) == Some(o) <==> Get(d, k) == Some(o) && id != k
  {
    PutMeaning(d, id, newNode);
  }

  lemma HeartbeatKeeps<O>(s: State<O>, e: Event<O>, k: string, o: O)
    requires Consistent(s) && Enabled(s, e) && e.Heartbeat? && o in s.recs
    ensures Get(Step(s, e).nodes, k) == Some(o) <==> Get(s.nodes, k) == Some(o)
    ensures o in Step(s, e).recs
  {
    if Get(s.nodes, e.nodeId).Some? {
      LaterHeartbeat(s, e);
    } else {
      FirstHeartbeat(s, e);
      PutElsewhere(s.nodes, e.nodeId, e.newNode, k, o);
    }
  }

  lemma RegisterReplaces<O>(s: State<O>, e: Event<O>, k: string, o: O)
    requires Consistent(s) && Enabled(s, e) && e.Register? && o in s.recs
    ensures Get(Step(s, e).nodes, k) == Some(o)
       <==> Get(s.nodes, k) == Some(o) && !(e.nodeId == k && Acceptable(e.nodeId, e.nodeName, e.grpcPort, e.rpcPort))
    ensures o in Step(s, e).recs
  {
    hide Acceptable;
    PutElsewhere(s.nodes, e.nodeId, e.newNode, k, o);
  }

  // One event: an object is stored afterwards exactly when it was before and the event spares it.
  // In particular a dropped object never comes back.
  lemma StoredExactlyWhileSpared<O>(r: Run<O>, e: Event<O>, k: string, o: O)
    requires Inv(r) && Clocked(r.state) && Enabled(r.state, e) && o in r.state.recs
    ensures Get(Step(r.state, e).nodes, k) == Some(o) <==> Get(r.state.nodes, k) == Some(o) && Spares(r, e, k, o)
    ensures o in Step(r.state, e).recs
  {
    InvConsistent(r);
    match e
    case Prune =>
      PruneExact(r, k);
      hide Inv, Clocked, Stale, Consistent;
    case Answer(answer) =>
      RemovalExact(r, answer);
      hide Inv, Clocked, ThirdRefusal, NextPort, Outcome;
    case Register(_, _, _, _, _, _) =>
      hide Inv, Clocked, Acceptable, Step;
      RegisterReplaces(r.state, e, k, o);
    case Heartbeat(_, _, _, _, _, _) =>
      hide Inv, Clocked, Step;
      HeartbeatKeeps(r.state, e, k, o);
    case _ =>
      hide Inv, Clocked, Consistent;
  }

  ghost predicate SparedThroughout<O>(r: Run<O>, events: seq<Event<O>>, k: string, o: O)
    requires Extend(r, events).Some?
    decreases |events|
  {
    events == [] ||
    (&& o in r.state.recs
     && Spares(r, events[0], k, o)
     && SparedThroughout(Next(r, events[0]), events[1..], k, o))
  }

  lemma {:induction false} StaysOut<O>(r: Run<O>, events: seq<Event<O>>, k: string, o: O)
    requires Inv(r) && Clocked(r.state) && Extend(r, events).Some?
    requires o in r.state.recs && Get(r.state.nodes, k) != Some(o)
    ensures Get(Extend(r, events).value.state.nodes, k) != Some(o)
    decreases |events|
  {
    if events != [] {
      hide Inv, Clocked, Step, Observed;
      StepInv(r, events[0]);
      InvConsistent(r);
      StepClocked(r.state, events[0]);
      StoredExactlyWhileSpared(r, events[0], k, o);
      StaysOut(Next(r, events[0]), events[1..], k, o);
    }
  }

  lemma InvConsistent<O>(r: Run<O>)
    requires Inv(r)
    ensures Consistent(r.state)
  {
  }

  // A registered node is still registered after any further run exactly when every event on the way
  // spared it.
  lemma {:induction false} StaysExactlyWhileSpared<O>(r: Run<O>, events: seq<Event<O>>, k: string, o: O)
    requires Inv(r) && Clocked(r.state) && Extend(r, events).Some?
    requires o in r.state.recs && Get(r.state.nodes, k) == Some(o)
    ensures Get(Extend(r, events).value.state.nodes, k) == Some(o) <==> SparedThroughout(r, events, k, o)
    decreases |events|
  {
    if events != [] {
      hide Inv, Clocked, Step, Observed, Spares;
      StepInv(r, events[0]);
      InvConsistent(r);
      StepClocked(r.state, events[0]);
      StoredExactlyWhileSpared(r, events[0], k, o);
      if Spares(r, events[0], k, o) {
        StaysExactlyWhileSpared(Next(r, events[0]), events[1..], k, o);
      } else {
        StaysOut(Next(r, events[0]), events[1..], k, o);
      }
    }
  }
}
