/**
 The gRPC client's asynchronous data and its shutdown flag as an object.  Where the code lets other threads in,
 the caller passes what they do; the ghost result `done` names the run of the step system the call performed.
 */
module GrpcClient {
  import opened Common
  import opened GrpcRequests
  import GrpcFlush

  datatype Round = Round(during: seq<Action>, elapsed: nat)

  /** `Waiting` when the given rounds ran out before the loop ended. */
  datatype Flush = Waiting | Done(ok: bool)

  const MAX_DURATION: int := 0x7FFF_FFFF_FFFF_FFFF

  // ---- what the loops see

  function AfterRounds(c: Client, rounds: seq<Round>, k: nat): Client
    requires k <= |rounds|
  {
    if k == 0 then c else Run(AfterRounds(c, rounds, k - 1), rounds[k - 1].during)
  }

  function Elapsed(rounds: seq<Round>, k: nat): nat
    requires k <= |rounds|
  {
    if k == 0 then 0 else Elapsed(rounds, k - 1) + rounds[k - 1].elapsed
  }

  /** The first `n` rounds all began within the budget and with fewer than `request` requests finished. */
  ghost predicate ShortThrough(c: Client, rounds: seq<Round>, n: nat, request: nat, budget: int)
    requires n <= |rounds|
  {
    forall k | 0 <= k < n :: Elapsed(rounds, k) < budget && AfterRounds(c, rounds, k).finished < request
  }

  lemma ShortFurther(c: Client, rounds: seq<Round>, n: nat, request: nat, budget: int)
    requires n < |rounds| && ShortThrough(c, rounds, n, request, budget)
    requires Elapsed(rounds, n) < budget && AfterRounds(c, rounds, n).finished < request
    ensures ShortThrough(c, rounds, n + 1, request, budget)
  {
  }

  /** The state after the first `k` wake-ups of a wait. */
  function AfterWaits(c: Client, waits: seq<seq<Action>>, k: nat): Client
    requires k <= |waits|
  {
    if k == 0 then c else Run(AfterWaits(c, waits, k - 1), waits[k - 1])
  }

  /** Before each of the first `n` wake-ups more than `bound` requests count as running. */
  ghost predicate ManyThrough(c: Client, waits: seq<seq<Action>>, bound: int, n: nat)
    requires n <= |waits|
  {
    forall k | 0 <= k < n :: AfterWaits(c, waits, k).running > bound
  }

  lemma ManyFurther(c: Client, waits: seq<seq<Action>>, bound: int, n: nat)
    requires n < |waits| && ManyThrough(c, waits, bound, n) && AfterWaits(c, waits, n).running > bound
    ensures ManyThrough(c, waits, bound, n + 1)
  {
  }

  class AsyncData {
    var start: nat
    var running: int
    var finished: nat
    var runningCalls: set<Call>
    var isShutdown: bool
    // Where the threads and the calls are.
    var outside: Client

    function View(): Client
      reads this
    {
      outside.(start := start, running := running, finished := finished, runningCalls := runningCalls,
               isShutdown := isShutdown)
    }

    constructor (threads: set<Tid>, limit: nat)
      ensures View() == Fresh(threads, limit)
    {
      start, running, finished, runningCalls, isShutdown, outside := 0, 0, 0, {}, false, Fresh(threads, limit);
    }

    method Interfere(env: seq<Action>)
      modifies this
      ensures View() == Run(old(View()), env)
    {
      var c := Run(View(), env);
      start, running, finished, runningCalls, isShutdown, outside :=
        c.start, c.running, c.finished, c.runningCalls, c.isShutdown, c;
    }

    method BeginRequest(x: Call)
      requires x.thread in outside.checked && x !in Used(outside)
      modifies this
      ensures View() == Step(old(View()), IncStart(x.thread, x.serial))
    {
      start := start + 1;
      outside := outside.(checked := outside.checked - {x.thread}, begun := outside.begun + {x});
    }

    method CountRunning(x: Call)
      requires x in outside.begun
      modifies this
      ensures View() == Step(old(View()), IncRunning(x))
    {
      running := running + 1;
      outside := outside.(begun := outside.begun - {x}, carried := outside.carried + {x});
    }

    method PlaceCall(x: Call)
      requires x in outside.carried
      modifies this
      ensures View() == Step(old(View()), Place(x))
    {
      runningCalls := runningCalls + {x};
      outside := outside.(carried := outside.carried - {x}, placed := outside.placed + {x});
    }

    method LaunchCall(x: Call)
      requires x in outside.placed
      modifies this
      ensures View() == Step(old(View()), Launch(x))
    {
      outside := outside.(placed := outside.placed - {x}, flying := outside.flying + {x});
    }

    /**
     DelegateAsyncExport on thread `t`: a request is refused when the client is shut down at the call or when the
     limit is reached at the check behind it, and then the callback is told at once.  The limit is only read, so
     several threads can pass it together; an accepted call reaches the stub whatever the others do in the gaps
     and during the wait.
     */
    method DelegateAsyncExport(t: Tid, serial: nat, gaps: seq<seq<Action>>, waits: seq<seq<Action>>)
      returns (r: ExportResult, told: seq<ExportResult>, ghost launched: Client, ghost woken: nat,
               ghost done: seq<Action>)
      requires Inv(View()) && t in outside.threads && !Busy(View(), t) && Call(t, serial) !in Used(View())
      requires |gaps| == 5 && forall g | g in gaps :: Foreign(t, g)
      modifies this
      ensures View() == Run(old(View()), done) && Inv(View())
      ensures var atCheck := Run(Step(old(View()), Admit(t)), gaps[0]);
              r == if old(isShutdown) then Failure
                   else if atCheck.running >= atCheck.limit then FailureFull else Success
      ensures r == Failure ==> View() == old(View())
      ensures r != Success ==> told == [r] && Call(t, serial) !in Used(View())
      ensures r == Success ==> told == [] && Call(t, serial) in Launched(View()) && finished + running <= start
      ensures r == Success ==>
                && Call(t, serial) in Launched(launched) && woken <= |waits|
                && View() == AfterWaits(launched, waits, woken)
                && ManyThrough(launched, waits, old(outside.limit), woken)
                && (running > old(outside.limit) ==> woken == |waits|)
    {
      launched, woken := View(), 0;
      if isShutdown {
        return Failure, [Failure], launched, 0, [];
      }
      var x := Call(t, serial);
      ghost var c0 := View();
      assert forall k | 0 <= k < 5 :: gaps[k] in gaps;
      var passed: bool;
      passed, done := Checking(x, gaps[0]);
      if !passed {
        RunInv(c0, done);
        return FailureFull, [FailureFull], launched, 0, done;
      }
      ghost var counted := Counting(x, gaps[1], gaps[2]);
      RunConcat(c0, done, counted);
      done := Launching(c0, x, gaps[3], gaps[4], done + counted);
      launched := View();
      Constants(c0, done);
      woken := AwaitAtMost(outside.limit, waits);
      ghost var waited := WaitsReach(launched, waits, woken);
      LaunchedStays(launched, x, waited);
      RunConcat(c0, done, waited);
      done := done + waited;
      RunInv(c0, done);
      r, told := Success, [];
    }

    /** Waits, one wake-up after the other, until no more than `bound` requests count as running. */
    method AwaitAtMost(bound: int, waits: seq<seq<Action>>) returns (ghost used: nat)
      modifies this
      ensures used <= |waits| && View() == AfterWaits(old(View()), waits, used)
      ensures ManyThrough(old(View()), waits, bound, used)
      ensures running > bound ==> used == |waits|
    {
      ghost var c0 := View();
      var i := 0;
      while running > bound && i < |waits|
        invariant i <= |waits| && View() == AfterWaits(c0, waits, i)
        invariant ManyThrough(c0, waits, bound, i)
        decreases |waits| - i
      {
        ManyFurther(c0, waits, bound, i);
        Interfere(waits[i]);
        i := i + 1;
      }
      used := i;
    }

    /** Past the shutdown flag to the limit check. */
    method Checking(x: Call, gap0: seq<Action>) returns (passed: bool, ghost done: seq<Action>)
      requires x.thread in outside.threads && !Busy(View(), x.thread) && !isShutdown
      requires x !in Used(View()) && Foreign(x.thread, gap0)
      modifies this
      ensures View() == Run(old(View()), done) && x !in Used(View())
      ensures var atCheck := Run(Step(old(View()), Admit(x.thread)), gap0); passed <==> atCheck.running < atCheck.limit
      ensures passed ==> x.thread in outside.checked
    {
      ghost var c0 := View();
      var t := x.thread;
      outside := outside.(admitted := outside.admitted + {t});
      assert View() == Step(c0, Admit(t));
      RunOne(c0, Admit(t));
      ForeignKeeps(View(), t, x, gap0);
      Interfere(gap0);
      RunConcat(c0, [Admit(t)], gap0);
      passed := running < outside.limit;
      ghost var c1 := View();
      outside := outside.(admitted := outside.admitted - {t},
                          checked := if passed then outside.checked + {t} else outside.checked);
      assert View() == Step(c1, Check(t));
      Extend(c0, [Admit(t)] + gap0, Check(t));
      done := [Admit(t)] + gap0 + [Check(t)];
    }

    /** From the passed limit check to `++running_requests`. */
    method Counting(x: Call, gap1: seq<Action>, gap2: seq<Action>) returns (ghost done: seq<Action>)
      requires x.thread in outside.checked
      requires x !in Used(View()) && Foreign(x.thread, gap1) && Foreign(x.thread, gap2)
      modifies this
      ensures View() == Run(old(View()), done) && x in outside.carried
    {
      ghost var c0 := View();
      var t := x.thread;
      ForeignKeeps(View(), t, x, gap1);
      Interfere(gap1);
      BeginRequest(x);
      Extend(c0, gap1, IncStart(t, x.serial));
      done := gap1 + [IncStart(t, x.serial)];
      ForeignKeeps(View(), t, x, gap2);
      Interfere(gap2);
      RunConcat(c0, done, gap2);
      done := done + gap2;
      CountRunning(x);
      Extend(c0, done, IncRunning(x));
      done := done + [IncRunning(x)];
    }

    /** From `++running_requests` to the stub. */
    method Launching(ghost c0: Client, x: Call, gap3: seq<Action>, gap4: seq<Action>, ghost before: seq<Action>)
      returns (ghost done: seq<Action>)
      requires View() == Run(c0, before) && x in outside.carried
      requires Foreign(x.thread, gap3) && Foreign(x.thread, gap4)
      modifies this
      ensures View() == Run(c0, done) && x in Launched(View())
    {
      done := before;
      ForeignKeeps(View(), x.thread, x, gap3);
      Interfere(gap3);
      RunConcat(c0, done, gap3);
      done := done + gap3;
      PlaceCall(x);
      Extend(c0, done, Place(x));
      done := done + [Place(x)];
      ForeignKeeps(View(), x.thread, x, gap4);
      Interfere(gap4);
      RunConcat(c0, done, gap4);
      done := done + gap4;
      LaunchCall(x);
      Extend(c0, done, Launch(x));
      done := done + [Launch(x)];
    }

    /**
     ForceFlush: true exactly when as many requests have finished as had started at the call.  `used` rounds were
     waited through, each with time left and requests missing; the loop ends when one of these is over.
     */
    method ForceFlush(timeout: int, first: seq<Action>, rounds: seq<Round>, last: seq<Action>)
      returns (r: Flush, ghost used: nat, ghost done: seq<Action>)
      requires Inv(View())
      modifies this
      ensures View() == Run(old(View()), done) && Inv(View())
      ensures r.Done? && !r.ok ==> finished < old(start)
      ensures r.Done? && r.ok ==> finished >= old(start)
      ensures r.Done? && r.ok && start == old(start) ==>
                running == 0 && runningCalls == {} && outside.flying == {}
      ensures var c := Run(old(View()), first);
              var budget := if timeout <= 0 then 0x7FFF_FFFF_FFFF_FFFF else timeout;
              && used <= |rounds| && ShortThrough(c, rounds, used, old(start), budget)
              && (r.Done? ==> Elapsed(rounds, used) >= budget || AfterRounds(c, rounds, used).finished >= old(start))
              && (r.Done? && !r.ok ==> Elapsed(rounds, used) >= budget)
              && (r.Waiting? ==> used == |rounds| && Elapsed(rounds, used) < budget
                                 && View() == AfterRounds(c, rounds, used) && finished < old(start))
    {
      ghost var c0 := View();
      var request := start;
      Interfere(first);
      ghost var c := View();
      var left := if timeout <= 0 then MAX_DURATION else timeout;
      var waiting: bool;
      waiting, used := FlushLoop(left, request, rounds);
      ghost var waited := RoundsReach(c, rounds, used);
      done := first + waited;
      RunConcat(c0, first, waited);
      RunInv(c0, done);
      if waiting {
        return Waiting, used, done;
      }
      ghost var c1 := View();
      Interfere(last);
      RunLater(c1, last);
      RunConcat(c0, done, last);
      done := done + last;
      RunInv(c0, done);
      r := Done(request <= finished);
      if r.ok && start == request {
        FlushComplete(c0, done);
      }
    }

    /** The loop of a flush; `waiting` when the given rounds ran out before it ended. */
    method FlushLoop(budget: int, request: nat, rounds: seq<Round>) returns (waiting: bool, ghost used: nat)
      modifies this
      ensures used <= |rounds| && View() == AfterRounds(old(View()), rounds, used)
      ensures ShortThrough(old(View()), rounds, used, request, budget)
      ensures waiting <==> Elapsed(rounds, used) < budget && finished < request
      ensures waiting ==> used == |rounds|
    {
      ghost var c0 := View();
      var left, i := budget, 0;
      while request > finished && left > 0 && i < |rounds|
        invariant i <= |rounds| && View() == AfterRounds(c0, rounds, i) && left == budget - Elapsed(rounds, i)
        invariant ShortThrough(c0, rounds, i, request, budget)
        decreases |rounds| - i
      {
        ShortFurther(c0, rounds, i, request, budget);
        Interfere(rounds[i].during);
        left := left - rounds[i].elapsed;
        i := i + 1;
      }
      waiting, used := request > finished && left > 0, i;
    }

    /**
     Shutdown by the exporter that releases the last reference: the flag, the flush, and the calls to cancel.  If no
     request was on its way in at the call, a true answer means that nothing at all is left in flight.
     */
    method Shutdown(timeout: int, first: seq<Action>, rounds: seq<Round>, last: seq<Action>)
      returns (r: Flush, cancelled: set<Call>, ghost used: nat, ghost done: seq<Action>)
      requires Inv(View())
      modifies this
      ensures View() == Run(old(View()), done) && Inv(View()) && isShutdown
      ensures r.Done? ==> (r.ok <==> finished >= old(start))
      ensures var budget := if timeout <= 0 then 0x7FFF_FFFF_FFFF_FFFF else timeout;
              && used <= |rounds| && (r.Done? && !r.ok ==> Elapsed(rounds, used) >= budget)
              && (r.Waiting? ==> used == |rounds| && Elapsed(rounds, used) < budget && finished < old(start))
      ensures cancelled == outside.placed + outside.flying
      ensures r.Done? && r.ok && old(outside.admitted) == {} && old(outside.checked) == {} ==>
                GrpcFlush.InFlight(View()) == {} && cancelled == {} && start == old(start)
    {
      ghost var c0 := View();
      isShutdown := true;
      ghost var c1 := View();
      assert c1 == Step(c0, SetShutdown);
      StepInv(c0, SetShutdown);
      ghost var flushed: seq<Action>;
      r, used, flushed := ForceFlush(timeout, first, rounds, last);
      done := [SetShutdown] + flushed;
      RunFirst(c0, SetShutdown, flushed);
      ShutFlag(c1, flushed);
      cancelled := runningCalls;
      if r.Done? && r.ok && GrpcFlush.NobodyComes(c1) {
        GrpcFlush.NobodyRun(c1, flushed);
        GrpcFlush.InFlightSize(View());
        assert GrpcFlush.InFlight(View()) == {};
      }
    }

    /**
     The destructor's wait: it ends only when no request counts as running and the set of running calls is empty;
     a request may still be between two counters.
     */
    method AwaitIdle(waits: seq<seq<Action>>) returns (idle: bool, ghost used: nat, ghost done: seq<Action>)
      requires Inv(View())
      modifies this
      ensures View() == Run(old(View()), done) && Inv(View())
      ensures idle ==> running == 0 && runningCalls == {} && outside.flying == {} && outside.carried == {}
      ensures idle ==> start == finished + |outside.begun| + |outside.between|
      ensures used <= |waits| && View() == AfterWaits(old(View()), waits, used)
      ensures ManyThrough(old(View()), waits, 0, used)
      ensures !idle ==> running > 0 && used == |waits|
    {
      ghost var c0 := View();
      used := AwaitAtMost(0, waits);
      done := WaitsReach(c0, waits, used);
      RunInv(c0, done);
      idle := running <= 0;
    }
  }

  lemma {:induction false} WaitsReach(c: Client, waits: seq<seq<Action>>, k: nat) returns (done: seq<Action>)
    requires k <= |waits|
    ensures Run(c, done) == AfterWaits(c, waits, k)
  {
    if k == 0 {
      done := [];
    } else {
      var first := WaitsReach(c, waits, k - 1);
      RunConcat(c, first, waits[k - 1]);
      done := first + waits[k - 1];
    }
  }

  lemma {:induction false} RoundsReach(c: Client, rounds: seq<Round>, k: nat) returns (done: seq<Action>)
    requires k <= |rounds|
    ensures Run(c, done) == AfterRounds(c, rounds, k)
  {
    if k == 0 {
      done := [];
    } else {
      var first := RoundsReach(c, rounds, k - 1);
      RunConcat(c, first, rounds[k - 1].during);
      done := first + rounds[k - 1].during;
    }
  }

  /** Not something thread `t` does as an exporter. */
  predicate ForeignTo(t: Tid, a: Action) {
    match a
    case Admit(u) => u != t
    case Check(u) => u != t
    case IncStart(u, _) => u != t
    case IncRunning(x) => x.thread != t
    case Place(x) => x.thread != t
    case Launch(x) => x.thread != t
    case _ => true
  }

  predicate Foreign(t: Tid, actions: seq<Action>) {
    forall a | a in actions :: ForeignTo(t, a)
  }

  lemma Extend(c: Client, a: seq<Action>, b: Action)
    ensures Run(c, a + [b]) == Step(Run(c, a), b)
  {
    RunConcat(c, a, [b]);
    RunOne(Run(c, a), b);
  }

  /** The shutdown flag is never taken back. */
  lemma {:induction false} ShutFlag(c: Client, actions: seq<Action>)
    requires c.isShutdown
    ensures Run(c, actions).isShutdown
    decreases |actions|
  {
    if actions != [] { ShutFlag(Step(c, actions[0]), actions[1..]); }
  }

  /** Calls that have been handed to the stub. */
  function Launched(c: Client): set<Call> {
    c.flying + c.erased + c.between + c.unreported + c.reported
  }

  lemma LaunchedStep(c: Client, a: Action)
    ensures Launched(c) <= Launched(Step(c, a))
  {
  }

  lemma {:induction false} LaunchedStays(c: Client, x: Call, actions: seq<Action>)
    requires x in Launched(c)
    ensures x in Launched(Run(c, actions))
    decreases |actions|
  {
    if actions != [] {
      LaunchedStep(c, actions[0]);
      LaunchedStays(Step(c, actions[0]), x, actions[1..]);
    }
  }

  /** Where thread `t` and its unlaunched call `x` stand. */
  function Standing(c: Client, t: Tid, x: Call): (bool, bool, bool, bool, bool, bool) {
    (t in c.admitted, t in c.checked, x in c.begun, x in c.carried, x in c.placed, x in Used(c))
  }

  lemma ForeignStep(c: Client, t: Tid, x: Call, a: Action)
    requires ForeignTo(t, a) && x.thread == t
    ensures Standing(Step(c, a), t, x) == Standing(c, t, x)
  {
  }

  /** Others do not move a thread, nor a call it has not yet handed to the stub. */
  lemma {:induction false} ForeignKeeps(c: Client, t: Tid, x: Call, actions: seq<Action>)
    requires Foreign(t, actions) && x.thread == t
    ensures Standing(Run(c, actions), t, x) == Standing(c, t, x)
    decreases |actions|
  {
    if actions != [] {
      assert actions[0] in actions;
      ForeignStep(c, t, x, actions[0]);
      ForeignKeeps(Step(c, actions[0]), t, x, actions[1..]);
    }
  }
}
