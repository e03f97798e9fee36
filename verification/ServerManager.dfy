// The manager of the one persistent llama-server process. Its operations hold a lock throughout, so
// they run one after another; what happens in between, at every suspension, is that the child exits.
module ServerManager {
  import opened Wrappers
  import opened Sorting

  // ---------------------------------------------------------------------------
  // Canonical configurations
  // ---------------------------------------------------------------------------

  // (model_path, tuple(sorted(rpc_endpoints)))
  datatype Config = Config(modelPath: string, endpoints: seq<string>)

  // Strings compare by their first difference.
  predicate StringAtMost(a: string, b: string) {
    a == [] || (b != [] && (a[0] < b[0] || (a[0] == b[0] && StringAtMost(a[1..], b[1..]))))
  }

  function Want(modelPath: string, rpcEndpoints: seq<string>): Config {
    Config(modelPath, Sort(rpcEndpoints, StringAtMost))
  }

  lemma {:induction false} StringAtMostTotal(a: string, b: string)
    ensures StringAtMost(a, b) || StringAtMost(b, a)
    ensures StringAtMost(a, b) && StringAtMost(b, a) ==> a == b
    decreases |a|
  {
    if a != [] && b != [] {
      StringAtMostTotal(a[1..], b[1..]);
      assert a == [a[0]] + a[1..] && b == [b[0]] + b[1..];
    }
  }

  lemma {:induction false} StringAtMostTransitive(a: string, b: string, c: string)
    requires StringAtMost(a, b) && StringAtMost(b, c)
    ensures StringAtMost(a, c)
    decreases |a|
  {
    if a != [] && a[0] == b[0] == c[0] {
      StringAtMostTransitive(a[1..], b[1..], c[1..]);
    }
  }

  lemma StringsOrdered()
    ensures TotalPreorder(StringAtMost)
  {
    forall a: string, b: string
      ensures StringAtMost(a, b) || StringAtMost(b, a)
    {
      StringAtMostTotal(a, b);
    }
    forall a: string, b: string, c: string | StringAtMost(a, b) && StringAtMost(b, c)
      ensures StringAtMost(a, c)
    {
      StringAtMostTransitive(a, b, c);
    }
  }

  lemma StringsTellApart(s: seq<string>)
    ensures Antisymmetric(s, StringAtMost)
  {
    forall x, y | x in s && y in s && StringAtMost(x, y) && StringAtMost(y, x)
      ensures x == y
    {
      StringAtMostTotal(x, y);
    }
  }

  // Two requests want the same configuration exactly when they name the same model and the same
  // endpoints, each as often, in whatever order.
  lemma SameConfig(model1: string, endpoints1: seq<string>, model2: string, endpoints2: seq<string>)
    ensures Want(model1, endpoints1) == Want(model2, endpoints2)
       <==> model1 == model2 && multiset(endpoints1) == multiset(endpoints2)
  {
    hide Sort, TotalPreorder, Sorted, Antisymmetric;
    var a, b := Sort(endpoints1, StringAtMost), Sort(endpoints2, StringAtMost);
    StringsOrdered();
    SortPermutes(endpoints1, StringAtMost);
    SortPermutes(endpoints2, StringAtMost);
    SortSorts(endpoints1, StringAtMost);
    SortSorts(endpoints2, StringAtMost);
    if multiset(endpoints1) == multiset(endpoints2) {
      StringsTellApart(a);
      OneSortedOrder(a, b, StringAtMost);
    }
  }

  // ---------------------------------------------------------------------------
  // The child process
  // ---------------------------------------------------------------------------

  class Child {
    // What it was started with, in canonical form.
    ghost const startedWith: Config
    // Whether the process runs, and whether its exit has been noticed (returncode is not None).
    var running: bool
    var reaped: bool
    // Whether it was seen to exit of its own accord.
    ghost var diedAlone: bool
    // The health requests it has been sent, and those it has answered.
    ghost var asked: nat
    ghost var answered: nat

    constructor (ghost startedWith: Config)
      ensures this.startedWith == startedWith && running && !reaped && !diedAlone && asked == answered == 0
    {
      this.startedWith := startedWith;
      running, reaped, diedAlone := true, false, false;
      asked, answered := 0, 0;
    }

    ghost predicate SeenHealthy()
      reads this
    {
      answered > 0
    }

    // GET /health: only a process that runs can answer, and it need not.
    method AnswerHealth() returns (ok: bool)
      modifies this`asked, this`answered
      ensures asked == old(asked) + 1 && answered == old(answered) + (if ok then 1 else 0)
      ensures ok ==> running
    {
      ok := *;
      ok := ok && running;
      asked := asked + 1;
      if ok {
        answered := answered + 1;
      }
    }
  }

  // What a caller of ensure asks for.
  datatype Request = Request(modelPath: string, rpcEndpoints: seq<string>)

  // The same model and the same endpoints, each as often, in whatever order.
  predicate Alike(a: Request, b: Request) {
    a.modelPath == b.modelPath && multiset(a.rpcEndpoints) == multiset(b.rpcEndpoints)
  }

  datatype SpawnError = SpawnError

  const HEALTH_TIMEOUT: nat := 240

  class LlamaServerManager {
    var proc: Child?
    var config: Option<Config>
    // Every child there has been.
    ghost var children: set<Child>
    // The last request that was answered with True.
    ghost var lastServed: Option<Request>

    constructor ()
      ensures Settled() && proc == null && children == {}
    {
      proc, config, children, lastServed := null, None, {}, None;
    }

    // No two children run at once, and one that runs is the one the manager knows.
    ghost predicate AtMostOne()
      reads this, children
    {
      && (proc != null ==> proc in children)
      && forall c :: c in children && c.running ==> c == proc && !c.reaped
    }

    // What holds whenever the lock is free: process and configuration are both set or both empty,
    // and a process that is set was started with that configuration, which the last successful
    // request asked for, and has been seen healthy.
    ghost predicate Settled()
      reads this, children
    {
      && AtMostOne()
      && (proc == null <==> config == None)
      && (proc != null ==>
            && config == Some(proc.startedWith) && proc.SeenHealthy()
            && lastServed.Some?
            && proc.startedWith == Want(lastServed.value.modelPath, lastServed.value.rpcEndpoints))
    }

    // There is a child, its exit has not been noticed, and the last successful request was alike.
    ghost predicate AlreadyServed(request: Request)
      reads this, proc
    {
      proc != null && !proc.reaped && lastServed.Some? && Alike(lastServed.value, request)
    }

    // Any suspension: the child may exit, and its exit may be noticed.
    method Suspend()
      requires AtMostOne()
      modifies proc
      ensures AtMostOne()
      ensures proc != null ==> proc.asked == old(proc.asked) && proc.answered == old(proc.answered)
      ensures proc != null ==> (old(proc.reaped) ==> proc.reaped)
      ensures proc != null ==> proc.diedAlone == (old(proc.diedAlone) || (proc.reaped && !old(proc.reaped)))
    {
      var exits: bool := *;
      var noticed: bool := *;
      if proc != null && exits {
        proc.running := false;
      }
      if proc != null && !proc.running && noticed {
        proc.diedAlone := proc.diedAlone || !proc.reaped;
        proc.reaped := true;
      }
    }

    // _stop_locked: terminate, or kill after ten seconds; a process that is already gone is fine.
    method StopLocked()
      requires AtMostOne()
      modifies this`proc, this`config, proc
      ensures AtMostOne() && proc == null && config == None
      ensures old(proc) != null ==>
                && old(proc).answered == old(proc.answered) && old(proc).asked == old(proc.asked)
                && (old(proc.diedAlone) ==> old(proc).diedAlone)
      ensures old(proc) != null ==> !old(proc).running
    {
      if proc != null && !proc.reaped {
        if proc.running {
          Suspend();
          proc.running := false;
          proc.reaped := true;
        }
      }
      proc := null;
      config := None;
    }

    // _wait_healthy: one health request a second until it answers, the child exits, or time is up.
    // It succeeds exactly when the child has answered, and gives up before the time only on an exit.
    method WaitHealthy(timeout: nat) returns (ready: bool)
      requires AtMostOne() && (proc != null && proc.reaped ==> proc.diedAlone)
      modifies proc
      ensures AtMostOne()
      ensures ready <==> proc != null && proc.answered > old(proc.answered)
      ensures !ready && proc != null ==> proc.diedAlone || proc.asked == old(proc.asked) + timeout
    {
      var elapsed := 0;
      while elapsed < timeout
        invariant AtMostOne() && elapsed <= timeout
        invariant proc != null && proc.reaped ==> proc.diedAlone
        invariant proc != null ==> proc.asked == old(proc.asked) + elapsed && proc.answered == old(proc.answered)
      {
        if proc == null || proc.reaped {
          return false;
        }
        Suspend();
        var ok := proc.AnswerHealth();
        Suspend();
        if ok {
          return true;
        }
        elapsed := elapsed + 1;
      }
      return false;
    }

    // _start_locked. `binary` says whether a llama-server executable was found.
    method StartLocked(modelPath: string, rpcEndpoints: seq<string>, want: Config, binary: bool)
      returns (r: Result<bool, SpawnError>)
      requires AtMostOne() && proc == null && config == None && want == Want(modelPath, rpcEndpoints)
      modifies this
      ensures Settled()
      ensures !binary ==> r == Success(false)
      ensures fresh(children - old(children)) && old(children) <= children
      ensures |children - old(children)| == if binary && r.Success? then 1 else 0
      ensures r.Success? ==> (r.value <==> exists c :: c in children - old(children) && c.answered > 0)
      ensures binary && r == Success(false) ==>
                exists c :: c in children - old(children) && (c.diedAlone || c.asked == 240)
      ensures r == Success(true) ==> proc != null && proc in children - old(children) && proc.startedWith == want
      ensures r == Success(true) ==> lastServed == Some(Request(modelPath, rpcEndpoints))
      ensures r != Success(true) ==> proc == null && lastServed == old(lastServed)
    {
      if !binary {
        return Success(false);
      }
      var spawned: bool := *;
      if !spawned {
        assert children - old(children) == {};
        return Failure(SpawnError);
      }
      var child := new Child(want);
      proc := child;
      children := children + {child};
      assert children - old(children) == {child};
      config := Some(want);
      var ready := WaitHealthy(HEALTH_TIMEOUT);
      if !ready {
        StopLocked();
        assert child in children - old(children);
        return Success(false);
      }
      lastServed := Some(Request(modelPath, rpcEndpoints));
      return Success(true);
    }

    // ensure: a child is started exactly when an executable is there to start and the child is gone,
    // or the model or the multiset of endpoints is not that of the last successful request.
    method Ensure(modelPath: string, rpcEndpoints: seq<string>, binary: bool) returns (r: Result<bool, SpawnError>)
      requires Settled()
      modifies this, proc
      ensures Settled()
      ensures fresh(children - old(children)) && old(children) <= children
      ensures old(AlreadyServed(Request(modelPath, rpcEndpoints))) ==>
                r == Success(true) && proc == old(proc) && children == old(children)
      ensures !old(AlreadyServed(Request(modelPath, rpcEndpoints))) ==>
                |children - old(children)| == if binary && r.Success? then 1 else 0
      ensures !old(AlreadyServed(Request(modelPath, rpcEndpoints))) && !binary ==> r == Success(false)
      ensures r == Success(true) ==>
                proc != null && proc.SeenHealthy() && proc.startedWith == Want(modelPath, rpcEndpoints)
      ensures lastServed == if r == Success(true) then Some(Request(modelPath, rpcEndpoints)) else old(lastServed)
      ensures r != Success(true) ==> proc == null && forall c :: c in children ==> !c.running
    {
      var want := Want(modelPath, rpcEndpoints);
      hide Sort;
      if proc != null {
        SameConfig(lastServed.value.modelPath, lastServed.value.rpcEndpoints, modelPath, rpcEndpoints);
      }
      if proc != null && !proc.reaped && config == Some(want) {
        lastServed := Some(Request(modelPath, rpcEndpoints));
        return Success(true);
      }
      StopLocked();
      r := StartLocked(modelPath, rpcEndpoints, want, binary);
    }

    method Stop()
      requires Settled()
      modifies this`proc, this`config, proc
      ensures Settled() && proc == null
      ensures forall c :: c in children ==> !c.running
    {
      StopLocked();
    }
  }

  datatype Operation = EnsureServer(modelPath: string, rpcEndpoints: seq<string>, binary: bool) | StopServer | Wait

  // Any sequence of requests, stops and idle time, with the child exiting whenever it likes.
  method Serve(operations: seq<Operation>) returns (manager: LlamaServerManager)
    ensures manager.Settled()
  {
    manager := new LlamaServerManager();
    for i := 0 to |operations|
      invariant manager.Settled() && fresh(manager) && fresh(manager.children)
    {
      match operations[i] {
        case EnsureServer(modelPath, rpcEndpoints, binary) =>
          var r := manager.Ensure(modelPath, rpcEndpoints, binary);
        case StopServer =>
          manager.Stop();
        case Wait =>
          manager.Suspend();
      }
    }
  }
}
