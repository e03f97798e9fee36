// Whole runs of the registry: a node that keeps in touch is always offered, and how a node can be
// dropped that no probe has ever reached.
module RegistryRuns {
  import opened Wrappers
  import opened PyDict
  import opened Registry
  import opened RegistryHistory

  // ---------------------------------------------------------------------------
  // Logs over time
  // ---------------------------------------------------------------------------

  // Observations are in the order of their times, and none is in the future.
  ghost predicate TimeOrdered<O>(r: Run<O>) {
    && (forall i :: 0 <= i < |r.log| ==> r.log[i].at <= r.state.now)
    && (forall i, j :: 0 <= i < j < |r.log| ==> r.log[i].at <= r.log[j].at)
  }

  lemma StepTime<O>(s: State<O>, e: Event<O>)
    requires Consistent(s) && Enabled(s, e)
    ensures Step(s, e).now >= s.now && |Observed(s, e)| <= 1
    ensures forall i :: 0 <= i < |Observed(s, e)| ==> Observed(s, e)[i].at == s.now
  {
    hide Acceptable, NextPort, Outcome;
  }

  lemma NextTimeOrdered<O>(r: Run<O>, e: Event<O>)
    requires Consistent(r.state) && Enabled(r.state, e) && TimeOrdered(r)
    ensures TimeOrdered(Next(r, e))
  {
    hide Consistent, Enabled, Step, Observed;
    StepTime(r.state, e);
  }

  lemma {:induction false} ExtendTimeOrdered<O>(r: Run<O>, events: seq<Event<O>>)
    requires Extend(r, events).Some? && TimeOrdered(r)
    ensures TimeOrdered(Extend(r, events).value)
    decreases |events|
  {
    if events != [] {
      hide TimeOrdered, Consistent, Enabled, Next;
      NextTimeOrdered(r, events[0]);
      ExtendTimeOrdered(Next(r, events[0]), events[1..]);
    }
  }

  // The state knows all of these objects, under the same ids.
  ghost predicate Remembers<O>(s: State<O>, recs: map<O, Rec>) {
    forall o :: o in recs ==> o in s.recs && s.recs[o].nodeId == recs[o].nodeId
  }

  lemma StepRemembers<O>(s: State<O>, e: Event<O>)
    requires Consistent(s) && Enabled(s, e)
    ensures Remembers(Step(s, e), s.recs)
  {
    hide Acceptable, NextPort, Outcome;
    if e.Heartbeat? && Get(s.nodes, e.nodeId).Some? {
      LaterHeartbeat(s, e);
    }
  }

  // The later run continues the earlier one: its log goes on from there at later times, and no
  // object is forgotten.
  ghost predicate Continues<O>(later: Run<O>, r: Run<O>) {
    && r.log <= later.log
    && later.state.now >= r.state.now
    && (forall i :: |r.log| <= i < |later.log| ==> later.log[i].at >= r.state.now)
    && Remembers(later.state, r.state.recs)
  }

  lemma {:induction false} ExtendContinues<O>(r: Run<O>, events: seq<Event<O>>)
    requires Extend(r, events).Some?
    ensures Continues(Extend(r, events).value, r)
    decreases |events|
  {
    if events != [] {
      hide Consistent, Enabled, Step, Observed;
      StepTime(r.state, events[0]);
      StepRemembers(r.state, events[0]);
      ExtendContinues(Next(r, events[0]), events[1..]);
    }
  }

  // The last refresh is the latest.
  lemma {:induction false} LastIsLatest<O>(log: seq<Observation<O>>, o: O)
    requires forall i, j :: 0 <= i < j < |log| ==> log[i].at <= log[j].at
    requires LastRefresh(log, o).Some?
    ensures forall i :: 0 <= i < |log| && Refreshes(log[i], o) ==> log[i].at <= LastRefresh(log, o).value
  {
    if log != [] {
      if !Refreshes(log[|log| - 1], o) {
        LastIsLatest(log[..|log| - 1], o);
      }
    }
  }

  // ---------------------------------------------------------------------------
  // Nodes that keep in touch
  // ---------------------------------------------------------------------------

  ghost predicate RefreshedWithin<O>(log: seq<Observation<O>>, o: O, t: real) {
    exists i :: 0 <= i < |log| && Refreshes(log[i], o) && t - HEARTBEAT_TIMEOUT <= log[i].at <= t
  }

  // From this moment and this entry of the log on: the object is refreshed at least every 15
  // seconds, no other object is created under its id, and no probe of an object with that id is its
  // third refusal running. What happened to the id before does not matter.
  ghost predicate KeepsInTouch<O>(from: real, first: nat, end: Run<O>, k: string, o: O) {
    && (forall t :: from < t <= end.state.now ==> RefreshedWithin(end.log, o, t))
    && (forall i :: first <= i < |end.log| && end.log[i].Heard? && end.log[i].node != o ==>
          end.log[i].node in end.state.recs && end.state.recs[end.log[i].node].nodeId != k)
    && (forall i :: first <= i < |end.log| && end.log[i].node in end.state.recs
                    && end.state.recs[end.log[i].node].nodeId == k ==>
          TrailingRefusals(end.log[..i + 1], end.log[i].node) < HEALTH_FAIL_THRESHOLD)
  }

  // A moment of such a stretch.
  ghost predicate InTouch<O>(m: Run<O>, from: real, first: nat, end: Run<O>, k: string, o: O) {
    && Inv(m) && Clocked(m.state) && TimeOrdered(m)
    && o in m.state.recs && Get(m.state.nodes, k) == Some(o)
    && Continues(end, m) && KeepsInTouch(from, first, end, k, o)
    && first <= |m.log| && from <= m.state.now
    && (m.state.now == from ==> !Stale(m, o))
  }

  // A refresh shortly before some past moment is in the log already.
  lemma RefreshedBy<O>(m: Run<O>, end: Run<O>, o: O, t: real)
    requires TimeOrdered(m) && Continues(end, m) && LastRefresh(m.log, o).Some?
    requires t < m.state.now && RefreshedWithin(end.log, o, t)
    ensures LastRefresh(m.log, o).value >= t - HEARTBEAT_TIMEOUT
  {
    LastIsLatest(m.log, o);
    var i :| 0 <= i < |end.log| && Refreshes(end.log[i], o) && t - HEARTBEAT_TIMEOUT <= end.log[i].at <= t;
    assert i < |m.log| && m.log[i] == end.log[i];
  }

  lemma NeverStale<O>(m: Run<O>, from: real, first: nat, end: Run<O>, k: string, o: O)
    requires InTouch(m, from, first, end, k, o)
    ensures !Stale(m, o)
  {
    hide Inv, Clocked, TimeOrdered, RefreshedWithin;
    var now := m.state.now;
    if LastRefresh(m.log, o).Some? && now > from {
      var late := LastRefresh(m.log, o).value + HEARTBEAT_TIMEOUT;
      var t := (now + (if late > from then late else from)) / 2.0;
      if t < now {
        RefreshedBy(m, end, o, t);
      }
    }
  }

  // A registration in its place would be heard of.
  lemma NotReplaced<O>(m: Run<O>, e: Event<O>, from: real, first: nat, end: Run<O>, k: string, o: O)
    requires Inv(m) && Enabled(m.state, e) && e.Register?
    requires InTouch(m, from, first, end, k, o) && Continues(end, Next(m, e))
    ensures Spares(m, e, k, o)
  {
    InvConsistent(m);
    hide Inv, Clocked, Stale, Consistent, TimeOrdered, Acceptable, RefreshedWithin;
    if Acceptable(e.nodeId, e.nodeName, e.grpcPort, e.rpcPort) {
      assert Next(m, e).log[|m.log|] == Heard(e.newNode, m.state.now);
      assert end.log[|m.log|] == Heard(e.newNode, m.state.now);
      assert Next(m, e).state.recs[e.newNode].nodeId == e.nodeId;
    }
  }

  // A third refusal of its id would be in the log.
  lemma NotRefused<O>(m: Run<O>, e: Event<O>, from: real, first: nat, end: Run<O>, k: string, o: O)
    requires Inv(m) && Enabled(m.state, e) && e.Answer?
    requires InTouch(m, from, first, end, k, o) && Continues(end, Next(m, e))
    ensures Spares(m, e, k, o)
  {
    InvConsistent(m);
    var x := m.state.sweep[0].1;
    assert x in m.state.recs && m.state.recs[x].nodeId == m.state.sweep[0].0;
    hide Inv, Clocked, Stale, Consistent, TimeOrdered, RefreshedWithin, Outcome, Step;
    if ThirdRefusal(m, e.result) {
      var seen := Probed(x, Refused, m.state.now);
      Appended(m.log, seen, x);
      assert Next(m, e).log == m.log + [seen];
      assert end.log[..|m.log| + 1] == m.log + [seen];
    }
  }

  lemma StepSpares<O>(m: Run<O>, e: Event<O>, from: real, first: nat, end: Run<O>, k: string, o: O)
    requires Inv(m) && Enabled(m.state, e)
    requires InTouch(m, from, first, end, k, o) && Continues(end, Next(m, e))
    ensures Spares(m, e, k, o)
  {
    match e
    case Prune => NeverStale(m, from, first, end, k, o);
    case Register(_, _, _, _, _, _) => NotReplaced(m, e, from, first, end, k, o);
    case Answer(_) => NotRefused(m, e, from, first, end, k, o);
    case _ =>
  }

  // At the same moment an observation makes nothing stale.
  lemma SameMoment<O>(m: Run<O>, e: Event<O>, o: O)
    requires Inv(m) && Enabled(m.state, e) && o in m.state.recs && !Stale(m, o)
    requires Next(m, e).state.now == m.state.now && o in Next(m, e).state.recs
    ensures !Stale(Next(m, e), o)
  {
    InvConsistent(m);
    hide Inv, Consistent, Enabled, Step, Observed;
    StepTime(m.state, e);
    var seen := Observed(m.state, e);
    if seen == [] {
      assert m.log + seen == m.log;
    } else {
      assert seen == [seen[0]];
      Appended(m.log, seen[0], o);
    }
  }

  lemma StaysInTouch<O>(m: Run<O>, e: Event<O>, from: real, first: nat, end: Run<O>, k: string, o: O)
    requires Inv(m) && Enabled(m.state, e)
    requires InTouch(m, from, first, end, k, o) && Continues(end, Next(m, e))
    ensures InTouch(Next(m, e), from, first, end, k, o)
  {
    StepSpares(m, e, from, first, end, k, o);
    NeverStale(m, from, first, end, k, o);
    InvConsistent(m);
    hide Inv, Clocked, Consistent, TimeOrdered, Stale, KeepsInTouch, Spares, Step, Observed, Enabled, Continues;
    StepInv(m, e);
    StepClocked(m.state, e);
    NextTimeOrdered(m, e);
    StepTime(m.state, e);
    StoredExactlyWhileSpared(m, e, k, o);
    if Next(m, e).state.now == m.state.now {
      SameMoment(m, e, o);
    }
  }

  lemma {:induction false} OfferedAfter<O>(m: Run<O>, events: seq<Event<O>>, i: nat, from: real, first: nat,
                                           end: Run<O>, k: string, o: O)
    requires Extend(m, events) == Some(end) && i <= |events|
    requires InTouch(m, from, first, end, k, o)
    ensures Extend(m, events[..i]).Some?
    ensures Get(Pruned(Extend(m, events[..i]).value.state).nodes, k) == Some(o)
    decreases i
  {
    hide Inv, Clocked, Consistent, TimeOrdered, Stale, KeepsInTouch, Continues, Next, Enabled;
    if i == 0 {
      InvConsistent(m);
      NeverStale(m, from, first, end, k, o);
      PruneExact(m, k);
    } else {
      var e := events[0];
      assert events[..i][0] == e && events[..i][1..] == events[1..][..i - 1];
      ExtendContinues(Next(m, e), events[1..]);
      StaysInTouch(m, e, from, first, end, k, o);
      OfferedAfter(Next(m, e), events[1..], i - 1, from, first, end, k, o);
    }
  }

  // Over every run: once registered and fresh, a node that is refreshed at least every 15 seconds,
  // not replaced, and never refused three times running is returned by get_nodes at every later moment.
  lemma InTouchIsOffered<O>(start: real, before: seq<Event<O>>, after: seq<Event<O>>, i: nat, k: string, o: O)
    requires start > 0.0 && i <= |after|
    requires Extend(Begin<O>(start), before).Some?
    requires var r := Extend(Begin<O>(start), before).value; (
             && Extend(r, after).Some?
             && o in r.state.recs && Get(r.state.nodes, k) == Some(o) && !Stale(r, o)
             && KeepsInTouch(r.state.now, |r.log|, Extend(r, after).value, k, o))
    ensures var r := Extend(Begin<O>(start), before).value; (
            && Extend(r, after[..i]).Some?
            && Get(Pruned(Extend(r, after[..i]).value.state).nodes, k) == Some(o))
  {
    var r := Extend(Begin<O>(start), before).value;
    hide Extend, KeepsInTouch, Stale;
    ExtendInv(Begin<O>(start), before);
    ExtendClocked(Begin<O>(start), before);
    ExtendTimeOrdered(Begin<O>(start), before);
    ExtendContinues(r, after);
    OfferedAfter(r, after, i, r.state.now, |r.log|, Extend(r, after).value, k, o);
  }

  // ---------------------------------------------------------------------------
  // A run that drops a node no probe has reached
  // ---------------------------------------------------------------------------

  lemma {:induction false} ExtendSnoc<O>(r: Run<O>, events: seq<Event<O>>, e: Event<O>)
    requires Extend(r, events).Some?
    requires Consistent(Extend(r, events).value.state) && Enabled(Extend(r, events).value.state, e)
    ensures Extend(r, events + [e]) == Some(Next(Extend(r, events).value, e))
    decreases |events|
  {
    hide Consistent, Enabled, Next;
    var all := events + [e];
    if events == [] {
      assert all[1..] == [];
    } else {
      assert all[1..] == events[1..] + [e];
      ExtendSnoc(Next(r, events[0]), events[1..], e);
    }
  }

  // One node, object 0, after so many refusals, with or without a probe in flight.
  function Lonely(failures: int, status: Status, probing: bool): State<nat> {
    State([("n", 0)], map[0 := Rec("n", "m", 1, 1, "h", 1.0, status, failures)], 1.0,
          if probing then [("n", 0)] else [], if probing then 1 else 0)
  }

  const JOIN: Event<nat> := Register("n", "m", 1, 1, "h", 0)
  const REJOIN: Event<nat> := Register("n", "m", 1, 1, "h", 1)

  lemma LonelyConsistent(failures: int, status: Status, probing: bool)
    ensures Consistent(Lonely(failures, status, probing))
  {
  }

  lemma NamesAcceptable()
    ensures Acceptable("n", "m", 1, 1)
  {
    assert !IsSpace("n"[0]) && !IsSpace("m"[0]);
  }

  lemma LonelyRefused(failures: int, status: Status)
    requires failures < 2
    ensures Answered(Lonely(failures, status, true), Refused) == Lonely(failures + 1, Degraded, false)
  {
    assert [("n", 0)][1..] == [];
    assert Answered(Lonely(failures, status, true), Refused).recs == Lonely(failures + 1, Degraded, false).recs;
  }

  // A check of the node begins, and its probe is refused.
  lemma RefusedOnce(r: Run<nat>, events: seq<Event<nat>>, failures: int, status: Status, log: seq<Observation<nat>>)
    requires Extend(r, events) == Some(Run(Lonely(failures, status, false), log)) && failures < 2
    ensures Extend(r, events + [Event<nat>.StartCheck] + [Answer(Refused)])
         == Some(Run(Lonely(failures + 1, Degraded, false), log + [Probed(0, Refused, 1.0)]))
  {
    LonelyConsistent(failures, status, true);
    CheckStarts(r, events, failures, status, log);
    ExtendSnoc(r, events + [Event<nat>.StartCheck], Answer(Refused));
    hide Extend;
    LonelyRefused(failures, status);
  }

  lemma CheckStarts(r: Run<nat>, events: seq<Event<nat>>, failures: int, status: Status, log: seq<Observation<nat>>)
    requires Extend(r, events) == Some(Run(Lonely(failures, status, false), log))
    ensures Extend(r, events + [Event<nat>.StartCheck]) == Some(Run(Lonely(failures, status, true), log))
  {
    LonelyConsistent(failures, status, false);
    ExtendSnoc(r, events, Event<nat>.StartCheck);
    hide Extend;
    assert log + [] == log;
  }

  // Join; two refused checks; a third check; the node joins anew while its probe is in flight.
  function Comeback(): seq<Event<nat>> {
    [JOIN] + [Event<nat>.StartCheck] + [Answer(Refused)] + [Event<nat>.StartCheck] + [Answer(Refused)]
    + [Event<nat>.StartCheck]
  }

  const REFUSAL: Observation<nat> := Probed(0, Refused, 1.0)

  lemma ComebackRun()
    ensures Extend(Begin<nat>(1.0), Comeback())
         == Some(Run(Lonely(2, Degraded, true), [Heard(0, 1.0)] + [REFUSAL] + [REFUSAL]))
  {
    hide Extend, Lonely;
    var r := Begin<nat>(1.0);
    var once := [JOIN] + [Event<nat>.StartCheck] + [Answer(Refused)];
    Joined();
    RefusedOnce(r, [JOIN], 0, Alive, [Heard(0, 1.0)]);
    RefusedOnce(r, once, 1, Degraded, [Heard(0, 1.0)] + [REFUSAL]);
    CheckStarts(r, once + [Event<nat>.StartCheck] + [Answer(Refused)], 2, Degraded,
                [Heard(0, 1.0)] + [REFUSAL] + [REFUSAL]);
  }

  lemma RefusedTwice()
    ensures TrailingRefusals([Heard(0, 1.0)] + [REFUSAL] + [REFUSAL], 0) == 2
  {
    NeverSeen<nat>([], 0);
    assert [] + [Heard(0, 1.0)] == [Heard(0, 1.0)];
    Appended([], Heard(0, 1.0), 0);
    Appended([Heard(0, 1.0)], REFUSAL, 0);
    Appended([Heard(0, 1.0)] + [REFUSAL], REFUSAL, 0);
  }

  lemma Joined()
    ensures Extend(Begin<nat>(1.0), [JOIN]) == Some(Run(Lonely(0, Alive, false), [Heard(0, 1.0)]))
  {
    NamesAcceptable();
    hide Acceptable;
    var r := Begin<nat>(1.0);
    assert [JOIN][1..] == [];
    assert Registered(r.state, JOIN) == Lonely(0, Alive, false);
    assert r.log + [Heard(0, 1.0)] == [Heard(0, 1.0)];
  }

  // What the run has come to when the node joins anew.
  lemma ComebackReady()
    ensures Extend(Begin<nat>(1.0), Comeback()).Some?
    ensures var r := Extend(Begin<nat>(1.0), Comeback()).value;
            && Inv(r) && r.state.sweep == [("n", 0)] && 1 !in r.state.recs
            && TrailingRefusals(r.log, 0) == 2
  {
    ComebackRun();
    RefusedTwice();
    hide Comeback, Consistent, Faithful, BelowThreshold, TrailingRefusals;
    BeginInv<nat>(1.0);
    hide Extend;
    ExtendInv(Begin<nat>(1.0), Comeback());
  }

  lemma BeginInv<O>(start: real)
    ensures Inv(Begin<O>(start))
  {
  }

  lemma RejoinRemembered(s: State<nat>)
    requires Consistent(s) && 1 !in s.recs
    ensures Enabled(s, REJOIN) && 1 in Step(s, REJOIN).recs
  {
    NamesAcceptable();
  }

  // The refusal of that probe removes the new registration: the registry ends empty, although the
  // object that was registered has never been refused.
  lemma FreshNodeIsDropped()
    ensures Extend(Begin<nat>(1.0), Comeback() + [REJOIN]).Some?
    ensures Get(Extend(Begin<nat>(1.0), Comeback() + [REJOIN]).value.state.nodes, "n") == Some(1)
    ensures Extend(Begin<nat>(1.0), Comeback() + [REJOIN] + [Answer(Refused)]).Some?
    ensures var end := Extend(Begin<nat>(1.0), Comeback() + [REJOIN] + [Answer(Refused)]).value;
            && Get(end.state.nodes, "n") == None && 1 in end.state.recs
            && TrailingRefusals(end.log, 1) == 0
  {
    hide Extend, Comeback, Acceptable, Inv, Step, Observed, Consistent, TrailingRefusals;
    var begin, events := Begin<nat>(1.0), Comeback();
    ComebackReady();
    NamesAcceptable();
    var r := Extend(begin, events).value;
    InvConsistent(r);
    RejoinRemembered(r.state);
    StaleProbeDropsFreshNode(r, "n", "m", 1, "h", 1);
    ExtendSnoc(begin, events, REJOIN);
    var r' := Next(r, REJOIN);
    InvConsistent(r');
    ExtendSnoc(begin, events + [REJOIN], Answer(Refused));
    StepRemembers(r'.state, Answer(Refused));
  }

  // ---------------------------------------------------------------------------
  // A run in which a dropped node comes back and stays
  // ---------------------------------------------------------------------------

  // Object 0 was dropped at its third refusal.
  const GONE: State<nat> := State([], map[0 := Rec("n", "m", 1, 1, "h", 1.0, Degraded, 3)], 1.0, [], 0)

  // Object 1 is in its place.
  function Returned(now: real, seen: real): State<nat> {
    State([("n", 1)],
          map[0 := Rec("n", "m", 1, 1, "h", 1.0, Degraded, 3), 1 := Rec("n", "m", 1, 1, "h", seen, Alive, 0)],
          now, [], 0)
  }

  const DROPPED: seq<Observation<nat>> := [Heard(0, 1.0)] + [REFUSAL] + [REFUSAL] + [REFUSAL]

  const RETURNED: Run<nat> := Run(Returned(1.0, 1.0), DROPPED + [Heard(1, 1.0)])
  const END: Run<nat> := Run(Returned(21.0, 11.0), DROPPED + [Heard(1, 1.0)] + [Heard(1, 11.0)])

  function Return(): seq<Event<nat>> {
    Comeback() + [Answer(Refused)] + [REJOIN]
  }

  const BEAT: Event<nat> := Heartbeat("n", "m", 1, 1, "h", 2)

  // Ten seconds, a heartbeat, ten more seconds.
  const LATER: seq<Event<nat>> := [Tick(10.0)] + [BEAT] + [Tick(10.0)]

  lemma LastRefusal()
    ensures Consistent(Lonely(2, Degraded, true)) && Enabled(Lonely(2, Degraded, true), Answer(Refused))
    ensures Step(Lonely(2, Degraded, true), Answer(Refused)) == GONE
    ensures Observed(Lonely(2, Degraded, true), Answer(Refused)) == [REFUSAL]
  {
    LonelyConsistent(2, Degraded, true);
    assert [("n", 0)][1..] == [];
    assert Answered(Lonely(2, Degraded, true), Refused).recs == GONE.recs;
  }

  lemma GoneRun()
    ensures Extend(Begin<nat>(1.0), Comeback() + [Answer(Refused)]) == Some(Run(GONE, DROPPED))
  {
    hide Extend, Comeback, Lonely, Step, Observed, Consistent, Enabled;
    ComebackRun();
    LastRefusal();
    ExtendSnoc(Begin<nat>(1.0), Comeback(), Answer(Refused));
  }

  lemma RegisteredAgain()
    ensures Consistent(GONE) && Enabled(GONE, REJOIN)
    ensures Step(GONE, REJOIN) == Returned(1.0, 1.0) && Observed(GONE, REJOIN) == [Heard(1, 1.0)]
  {
    NamesAcceptable();
    hide Acceptable;
    assert Registered(GONE, REJOIN).recs == Returned(1.0, 1.0).recs;
  }

  lemma ReturnRun()
    ensures Extend(Begin<nat>(1.0), Return()) == Some(RETURNED)
  {
    hide Extend, Comeback, Step, Observed, Consistent, Enabled;
    GoneRun();
    RegisteredAgain();
    ExtendSnoc(Begin<nat>(1.0), Comeback() + [Answer(Refused)], REJOIN);
  }

  lemma ReturnedConsistent(now: real, seen: real)
    ensures Consistent(Returned(now, seen))
  {
  }

  lemma ReturnedHeard(now: real, seen: real)
    ensures Enabled(Returned(now, seen), BEAT) && Consistent(Returned(now, seen))
    ensures Step(Returned(now, seen), BEAT) == Returned(now, now)
    ensures Observed(Returned(now, seen), BEAT) == [Heard(1, now)]
  {
    ReturnedConsistent(now, seen);
    assert Step(Returned(now, seen), BEAT).recs == Returned(now, now).recs;
  }

  lemma ReturnedWaits(r: Run<nat>, events: seq<Event<nat>>, now: real, seen: real, log: seq<Observation<nat>>)
    requires Extend(r, events) == Some(Run(Returned(now, seen), log))
    ensures Extend(r, events + [Tick(10.0)]) == Some(Run(Returned(now + 10.0, seen), log))
  {
    ReturnedConsistent(now, seen);
    ExtendSnoc(r, events, Tick(10.0));
    hide Extend;
    assert log + [] == log;
  }

  lemma LaterRun(log: seq<Observation<nat>>)
    ensures Extend(Run(Returned(1.0, 1.0), log), LATER) == Some(Run(Returned(21.0, 11.0), log + [Heard(1, 11.0)]))
  {
    var r := Run(Returned(1.0, 1.0), log);
    var none: seq<Event<nat>> := [];
    assert none + [Tick(10.0)] == [Tick(10.0)];
    ReturnedWaits(r, none, 1.0, 1.0, log);
    hide Extend, Returned;
    ReturnedHeard(11.0, 1.0);
    ExtendSnoc(r, [Tick(10.0)], BEAT);
    ReturnedWaits(r, [Tick(10.0)] + [BEAT], 11.0, 11.0, log + [Heard(1, 11.0)]);
  }

  lemma ReturnedKeepsInTouch()
    ensures KeepsInTouch(1.0, 5, END, "n", 1)
  {
    var log := END.log;
    Appended(DROPPED + [Heard(1, 1.0)], Heard(1, 11.0), 1);
    Appended(DROPPED, Heard(1, 1.0), 1);
    NeverSeen(DROPPED, 1);
    assert log[..6] == log;
    forall t: real | 1.0 < t <= 21.0
      ensures RefreshedWithin(log, 1, t)
    {
      assert Refreshes(log[4], 1) && Refreshes(log[5], 1);
    }
  }

  // The node was refused three times and dropped; it registers again, keeps in touch, and is offered
  // at every later moment.
  lemma ReturnedNodeIsOffered(i: nat)
    requires i <= |LATER|
    ensures Extend(Begin<nat>(1.0), Return()) == Some(RETURNED)
    ensures TrailingRefusals(RETURNED.log, 0) == 3 && KeepsInTouch(1.0, 5, END, "n", 1)
    ensures Extend(RETURNED, LATER) == Some(END) && Extend(RETURNED, LATER[..i]).Some?
    ensures Get(Pruned(Extend(RETURNED, LATER[..i]).value.state).nodes, "n") == Some(1)
  {
    ReturnRun();
    LaterRun(RETURNED.log);
    ReturnedKeepsInTouch();
    BeginInv<nat>(1.0);
    hide Extend, Return, KeepsInTouch;
    ExtendInv(Begin<nat>(1.0), Return());
    InTouchIsOffered(1.0, Return(), LATER, i, "n", 1);
  }
}
