// What one health check probes. It goes through the entries it listed when it started, unless the
// entry it has to delete is already gone: then the exception leaves the rest unprobed.
module RegistryChecks {
  import opened Wrappers
  import opened PyDict
  import opened Registry
  import opened RegistryHistory
  import opened RegistryRuns
  import Sorting

  // ---------------------------------------------------------------------------
  // One step of a check
  // ---------------------------------------------------------------------------

  // The probe in flight turns out to be a third refusal of an entry that has been removed meanwhile.
  ghost predicate Raises<O>(r: Run<O>, e: Event<O>)
    requires Consistent(r.state) && Enabled(r.state, e)
  {
    e.Answer? && ThirdRefusal(r, e.result) && r.state.sweep[0].0 !in Keys(r.state.nodes)
  }

  // Every answer takes the check on to the next entry, except that one, which ends it.
  lemma CheckGoesOn<O>(r: Run<O>, e: Event<O>)
    requires Inv(r) && Enabled(r.state, e) && e.Answer?
    ensures Step(r.state, e).sweep == if Raises(r, e) then [] else r.state.sweep[1..]
  {
    var o := r.state.sweep[0].1;
    assert r.state.recs[o].consecutiveFailures == TrailingRefusals(r.log, o);
    hide Inv, Faithful, BelowThreshold, Outcome, NextPort, Keys, TrailingRefusals;
  }

  // Other events leave a running check alone.
  lemma CheckWaits<O>(s: State<O>, e: Event<O>)
    requires Consistent(s) && Enabled(s, e) && !e.Answer? && !e.StartCheck?
    ensures Step(s, e).sweep == s.sweep
  {
    hide Acceptable;
  }

  // ---------------------------------------------------------------------------
  // A whole check
  // ---------------------------------------------------------------------------

  function Objects<O>(list: seq<(string, O)>): (objects: seq<O>)
    ensures |objects| == |list| && forall i :: 0 <= i < |list| ==> objects[i] == list[i].1
  {
    seq(|list|, i requires 0 <= i < |list| => list[i].1)
  }

  // The objects whose probes a log reports.
  function ProbedIn<O>(log: seq<Observation<O>>): seq<O> {
    if log == [] then []
    else ProbedIn(log[..|log| - 1]) + (if log[|log| - 1].Probed? then [log[|log| - 1].node] else [])
  }

  // The objects whose probes are answered in the course of these events.
  ghost function ProbedDuring<O>(r: Run<O>, events: seq<Event<O>>): seq<O>
    requires Extend(r, events).Some?
    decreases |events|
  {
    if events == [] then []
    else (if events[0].Answer? then [r.state.sweep[0].1] else []) + ProbedDuring(Next(r, events[0]), events[1..])
  }

  lemma {:induction false} ProbesAreLogged<O>(r: Run<O>, events: seq<Event<O>>)
    requires Extend(r, events).Some?
    ensures ProbedIn(Extend(r, events).value.log) == ProbedIn(r.log) + ProbedDuring(r, events)
    decreases |events|
  {
    if events != [] {
      var e := events[0];
      var now := if e.Answer? then [r.state.sweep[0].1] else [];
      NextProbed(r, e);
      hide Consistent, Enabled, Next, ProbedIn;
      ProbesAreLogged(Next(r, e), events[1..]);
      Sorting.Associative(ProbedIn(r.log), now, ProbedDuring(Next(r, e), events[1..]));
    } else {
      assert ProbedIn(r.log) + [] == ProbedIn(r.log);
    }
  }

  lemma NextProbed<O>(r: Run<O>, e: Event<O>)
    requires Consistent(r.state) && Enabled(r.state, e)
    ensures ProbedIn(Next(r, e).log) == ProbedIn(r.log) + (if e.Answer? then [r.state.sweep[0].1] else [])
  {
    var seen := Observed(r.state, e);
    assert |seen| <= 1 && (e.Answer? <==> seen != [] && seen[0].Probed?);
    assert e.Answer? ==> seen[0].node == r.state.sweep[0].1;
    hide Consistent, Enabled, Step, Observed;
    if seen == [] {
      assert r.log + seen == r.log;
      assert ProbedIn(r.log) + [] == ProbedIn(r.log);
    } else {
      assert seen == [seen[0]];
      assert (r.log + seen)[..|r.log|] == r.log;
    }
  }

  // The exception strikes while there are entries left to probe.
  ghost predicate Abandons<O>(r: Run<O>, e: Event<O>)
    requires Consistent(r.state) && Enabled(r.state, e)
  {
    Raises(r, e) && |r.state.sweep| > 1
  }

  ghost predicate NeverAbandoned<O>(r: Run<O>, events: seq<Event<O>>)
    requires Extend(r, events).Some?
    decreases |events|
  {
    events == [] || (!Abandons(r, events[0]) && NeverAbandoned(Next(r, events[0]), events[1..]))
  }

  // What a check has probed and what it has still to probe are, in order, the front of what it had
  // to probe, and all of it exactly when the exception has not struck.
  lemma {:induction false} CheckProgress<O>(r: Run<O>, events: seq<Event<O>>)
    requires Inv(r) && Extend(r, events).Some? && forall e :: e in events ==> !e.StartCheck?
    ensures var done := ProbedDuring(r, events) + Objects(Extend(r, events).value.state.sweep);
            && done <= Objects(r.state.sweep)
            && (done == Objects(r.state.sweep) <==> NeverAbandoned(r, events))
    decreases |events|
  {
    if events == [] {
      assert [] + Objects(r.state.sweep) == Objects(r.state.sweep);
    } else {
      var e := events[0];
      assert e in events && forall x :: x in events[1..] ==> x in events;
      InvConsistent(r);
      hide Inv, Consistent, Step, Observed, Raises;
      StepInv(r, e);
      CheckProgress(Next(r, e), events[1..]);
      CheckStep(r, e, ProbedDuring(Next(r, e), events[1..]),
                Objects(Extend(r, events).value.state.sweep), NeverAbandoned(Next(r, e), events[1..]));
    }
  }

  lemma CheckStep<O>(r: Run<O>, e: Event<O>, probed: seq<O>, left: seq<O>, rest: bool)
    requires Inv(r) && Consistent(r.state) && Enabled(r.state, e) && !e.StartCheck?
    requires probed + left <= Objects(Next(r, e).state.sweep)
    requires probed + left == Objects(Next(r, e).state.sweep) <==> rest
    ensures var done := (if e.Answer? then [r.state.sweep[0].1] else []) + probed + left;
            && done <= Objects(r.state.sweep)
            && (done == Objects(r.state.sweep) <==> !Abandons(r, e) && rest)
  {
    if e.Answer? {
      CheckGoesOn(r, e);
      hide Inv, Consistent, Step, Observed, Raises;
      ObjectsCons(r.state.sweep);
      Sorting.Associative([r.state.sweep[0].1], probed, left);
      hide Objects;
      OneMoreInFront(r.state.sweep[0].1, probed + left, Objects(r.state.sweep[1..]));
    } else {
      CheckWaits(r.state, e);
      hide Inv, Consistent, Step, Observed, ThirdRefusal, Objects;
      assert [] + probed + left == probed + left;
    }
  }

  lemma ObjectsCons<O>(list: seq<(string, O)>)
    requires list != []
    ensures Objects(list) == [list[0].1] + Objects(list[1..])
    ensures Objects(list[1..]) == [] <==> |list| == 1
  {
  }

  lemma OneMoreInFront<O>(x: O, part: seq<O>, list: seq<O>)
    ensures [x] + part <= [x] + list <==> part <= list
    ensures [x] + part == [x] + list <==> part == list
  {
    assert ([x] + part)[1..] == part && ([x] + list)[1..] == list;
  }

  lemma ListedOnce<O>(s: State<O>)
    requires Consistent(s)
    ensures Sorting.Distinct(Objects(s.nodes))
  {
  }

  // Over every run: when a check has ended, what it has probed is in order the front of what it
  // listed, and each listed object was probed exactly once if and only if the exception never struck
  // with entries left.
  lemma EachProbedOnce<O>(start: real, before: seq<Event<O>>, events: seq<Event<O>>)
    requires Extend(Begin<O>(start), before + [Event<O>.StartCheck]).Some?
    requires Extend(Begin<O>(start), before).Some? && Extend(Begin<O>(start), before).value.state.sweep == []
    requires var check := Extend(Begin<O>(start), before + [Event<O>.StartCheck]).value;
             Extend(check, events).Some? && Extend(check, events).value.state.sweep == []
    requires forall e :: e in events ==> !e.StartCheck?
    ensures var listed := Objects(Extend(Begin<O>(start), before).value.state.nodes);
            var check := Extend(Begin<O>(start), before + [Event<O>.StartCheck]).value;
            && ProbedIn(Extend(check, events).value.log) == ProbedIn(check.log) + ProbedDuring(check, events)
            && ProbedDuring(check, events) <= listed
            && ((forall o :: o in listed ==> multiset(ProbedDuring(check, events))[o] == 1)
                <==> NeverAbandoned(check, events))
  {
    var r := Extend(Begin<O>(start), before).value;
    var check := Extend(Begin<O>(start), before + [Event<O>.StartCheck]).value;
    BeginInv<O>(start);
    hide Extend, NeverAbandoned, ProbedDuring, ProbedIn;
    ExtendInv(Begin<O>(start), before);
    InvConsistent(r);
    ListedOnce(r.state);
    ExtendSnoc(Begin<O>(start), before, Event<O>.StartCheck);
    StepInv(r, Event<O>.StartCheck);
    assert check.state.sweep == r.state.nodes;
    hide Inv, Consistent, Step, Observed;
    ProbesAreLogged(check, events);
    CheckProgress(check, events);
    assert ProbedDuring(check, events) + Objects([]) == ProbedDuring(check, events);
    AllOrFewer(ProbedDuring(check, events), Objects(r.state.nodes));
  }

  // A front part of a list without repetitions holds each of its elements once exactly when it is
  // the whole list.
  lemma AllOrFewer<O>(part: seq<O>, list: seq<O>)
    requires part <= list && Sorting.Distinct(list)
    ensures (forall o :: o in list ==> multiset(part)[o] == 1) <==> part == list
  {
    if part == list {
      Sorting.DistinctCount(list);
    } else {
      var missed := list[|part|];
      assert missed in list && missed !in part;
      assert missed !in multiset(part);
    }
  }

  // ---------------------------------------------------------------------------
  // A check that leaves a node out
  // ---------------------------------------------------------------------------

  const BOTH: Dict<string, nat> := [("n", 0), ("b", 1)]
  const ALONE: Dict<string, nat> := [("b", 1)]

  // Object 0 after so many refusals, and object 1, last heard from at this time.
  function Pair(nodes: Dict<string, nat>, failures: int, seen: real, now: real, probing: bool): State<nat> {
    State(nodes,
          map[0 := Rec("n", "m", 1, 1, "h", 1.0, Degraded, failures), 1 := Rec("b", "m", 1, 1, "h", seen, Alive, 0)],
          now, if probing then BOTH else [], if probing then 1 else 0)
  }

  const JOIN_B: Event<nat> := Register("b", "m", 1, 1, "h", 1)
  const BEAT_B: Event<nat> := Heartbeat("b", "m", 1, 1, "h", 2)

  lemma PairConsistent(nodes: Dict<string, nat>, failures: int, seen: real, now: real, probing: bool)
    requires nodes == BOTH || nodes == ALONE
    ensures Consistent(Pair(nodes, failures, seen, now, probing))
  {
    assert "n"[0] != "b"[0];
  }

  // The second node registers after the first has been refused twice.
  function TwoNodes(): seq<Event<nat>> {
    [JOIN] + [Event<nat>.StartCheck] + [Answer(Refused)] + [Event<nat>.StartCheck] + [Answer(Refused)] + [JOIN_B]
  }

  // While the probe of the first node is in flight it times out and is pruned; the second keeps in
  // touch.
  function Meanwhile(): seq<Event<nat>> {
    [Tick(20.0)] + [BEAT_B] + [Prune] + [Answer(Refused)]
  }

  const TWICE: seq<Observation<nat>> := [Heard(0, 1.0)] + [REFUSAL] + [REFUSAL] + [Heard(1, 1.0)]

  lemma TwoNodesJoin()
    ensures Consistent(Lonely(2, Degraded, false)) && Enabled(Lonely(2, Degraded, false), JOIN_B)
    ensures Step(Lonely(2, Degraded, false), JOIN_B) == Pair(BOTH, 2, 1.0, 1.0, false)
    ensures Observed(Lonely(2, Degraded, false), JOIN_B) == [Heard(1, 1.0)]
  {
    LonelyConsistent(2, Degraded, false);
    assert "n"[0] != "b"[0];
    assert !IsSpace("b"[0]) && !IsSpace("m"[0]);
    assert Acceptable("b", "m", 1, 1);
    hide Acceptable;
    assert Registered(Lonely(2, Degraded, false), JOIN_B).recs == Pair(BOTH, 2, 1.0, 1.0, false).recs;
    assert [("n", 0)][1..] == [];
  }

  lemma TwoNodesRun()
    ensures Extend(Begin<nat>(1.0), TwoNodes()) == Some(Run(Pair(BOTH, 2, 1.0, 1.0, false), TWICE))
  {
    var begin := Begin<nat>(1.0);
    var once := [JOIN] + [Event<nat>.StartCheck] + [Answer(Refused)];
    hide Extend, Lonely, Pair, Step, Observed, Consistent, Enabled;
    Joined();
    RefusedOnce(begin, [JOIN], 0, Alive, [Heard(0, 1.0)]);
    RefusedOnce(begin, once, 1, Degraded, [Heard(0, 1.0)] + [REFUSAL]);
    TwoNodesJoin();
    ExtendSnoc(begin, once + [Event<nat>.StartCheck] + [Answer(Refused)], JOIN_B);
  }

  lemma PairCheck()
    ensures Consistent(Pair(BOTH, 2, 1.0, 1.0, false))
    ensures Enabled(Pair(BOTH, 2, 1.0, 1.0, false), Event<nat>.StartCheck)
    ensures Step(Pair(BOTH, 2, 1.0, 1.0, false), Event<nat>.StartCheck) == Pair(BOTH, 2, 1.0, 1.0, true)
    ensures Observed(Pair(BOTH, 2, 1.0, 1.0, false), Event<nat>.StartCheck) == []
  {
    PairConsistent(BOTH, 2, 1.0, 1.0, false);
  }

  lemma PairWaits()
    ensures Consistent(Pair(BOTH, 2, 1.0, 1.0, true)) && Enabled(Pair(BOTH, 2, 1.0, 1.0, true), Tick(20.0))
    ensures Step(Pair(BOTH, 2, 1.0, 1.0, true), Tick(20.0)) == Pair(BOTH, 2, 1.0, 21.0, true)
    ensures Observed(Pair(BOTH, 2, 1.0, 1.0, true), Tick(20.0)) == []
  {
    PairConsistent(BOTH, 2, 1.0, 1.0, true);
  }

  lemma PairBeats()
    ensures Consistent(Pair(BOTH, 2, 1.0, 21.0, true)) && Enabled(Pair(BOTH, 2, 1.0, 21.0, true), BEAT_B)
    ensures Step(Pair(BOTH, 2, 1.0, 21.0, true), BEAT_B) == Pair(BOTH, 2, 21.0, 21.0, true)
    ensures Observed(Pair(BOTH, 2, 1.0, 21.0, true), BEAT_B) == [Heard(1, 21.0)]
  {
    PairConsistent(BOTH, 2, 1.0, 21.0, true);
    GetAt(BOTH, 1);
    LaterHeartbeat(Pair(BOTH, 2, 1.0, 21.0, true), BEAT_B);
    assert Step(Pair(BOTH, 2, 1.0, 21.0, true), BEAT_B).recs == Pair(BOTH, 2, 21.0, 21.0, true).recs;
  }

  lemma PairPruned()
    ensures Consistent(Pair(BOTH, 2, 21.0, 21.0, true))
    ensures Step(Pair(BOTH, 2, 21.0, 21.0, true), Prune) == Pair(ALONE, 2, 21.0, 21.0, true)
    ensures Observed(Pair(BOTH, 2, 21.0, 21.0, true), Prune) == []
  {
    var s := Pair(BOTH, 2, 21.0, 21.0, true);
    PairConsistent(BOTH, 2, 21.0, 21.0, true);
    GetAt(BOTH, 0);
    GetAt(BOTH, 1);
    DeadKeysMeaning(s, "n");
    DeadKeysMeaning(s, "b");
    hide DeadKeys;
    assert BOTH[1..] == ALONE && ALONE[1..] == [];
    assert Without(ALONE, DeadKeys(s.nodes, s.recs, s.now)) == ALONE;
  }

  lemma PairAnswered()
    ensures Consistent(Pair(ALONE, 2, 21.0, 21.0, true)) && Enabled(Pair(ALONE, 2, 21.0, 21.0, true), Answer(Refused))
    ensures Step(Pair(ALONE, 2, 21.0, 21.0, true), Answer(Refused)) == Pair(ALONE, 3, 21.0, 21.0, false)
    ensures Observed(Pair(ALONE, 2, 21.0, 21.0, true), Answer(Refused)) == [Probed(0, Refused, 21.0)]
  {
    var s := Pair(ALONE, 2, 21.0, 21.0, true);
    PairConsistent(ALONE, 2, 21.0, 21.0, true);
    assert "n"[0] != "b"[0];
    assert "n" !in Keys(s.nodes);
    assert Answered(s, Refused).recs == Pair(ALONE, 3, 21.0, 21.0, false).recs;
  }

  const LEFT_OUT: Run<nat> :=
    Run(Pair(ALONE, 3, 21.0, 21.0, false), TWICE + [Heard(1, 21.0)] + [Probed(0, Refused, 21.0)])

  lemma MeanwhileRun()
    ensures Extend(Run(Pair(BOTH, 2, 1.0, 1.0, true), TWICE), Meanwhile()) == Some(LEFT_OUT)
  {
    hide Extend, Pair, Step, Observed, Consistent;
    var check := Run(Pair(BOTH, 2, 1.0, 1.0, true), TWICE);
    NothingSeen(TWICE);
    NothingSeen(TWICE + [Heard(1, 21.0)]);
    PairWaits();
    ExtendFrom(check, Tick(20.0));
    PairBeats();
    ExtendSnoc(check, [Tick(20.0)], BEAT_B);
    PairPruned();
    ExtendSnoc(check, [Tick(20.0)] + [BEAT_B], Prune);
    PairAnswered();
    ExtendSnoc(check, [Tick(20.0)] + [BEAT_B] + [Prune], Answer(Refused));
  }

  lemma NothingSeen(log: seq<Observation<nat>>)
    ensures log + [] == log
  {
  }

  lemma CheckRun()
    ensures Extend(Begin<nat>(1.0), TwoNodes() + [Event<nat>.StartCheck])
         == Some(Run(Pair(BOTH, 2, 1.0, 1.0, true), TWICE))
  {
    hide Extend, Pair, Step, Observed, Consistent, TwoNodes;
    TwoNodesRun();
    PairCheck();
    NothingSeen(TWICE);
    ExtendSnoc(Begin<nat>(1.0), TwoNodes(), Event<nat>.StartCheck);
  }

  // Both nodes are listed when the check starts. It ends with the second still registered, heard of
  // this very moment, and never probed.
  lemma SecondNodeLeftOut()
    ensures Extend(Begin<nat>(1.0), TwoNodes()) == Some(Run(Pair(BOTH, 2, 1.0, 1.0, false), TWICE))
    ensures Extend(Begin<nat>(1.0), TwoNodes() + [Event<nat>.StartCheck])
         == Some(Run(Pair(BOTH, 2, 1.0, 1.0, true), TWICE))
    ensures Extend(Run(Pair(BOTH, 2, 1.0, 1.0, true), TWICE), Meanwhile()) == Some(LEFT_OUT)
    ensures LEFT_OUT.state.sweep == [] && LEFT_OUT.state.nodes == [("b", 1)]
    ensures forall i :: 0 <= i < |LEFT_OUT.log| && LEFT_OUT.log[i].Probed? ==> LEFT_OUT.log[i].node == 0
  {
    hide Extend, TwoNodes, Meanwhile;
    TwoNodesRun();
    CheckRun();
    MeanwhileRun();
  }

  lemma ExtendFrom<O>(r: Run<O>, e: Event<O>)
    requires Consistent(r.state) && Enabled(r.state, e)
    ensures Extend(r, [e]) == Some(Next(r, e))
  {
    assert [e][1..] == [];
  }
}
