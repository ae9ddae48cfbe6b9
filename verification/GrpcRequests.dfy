/**
 The asynchronous half of the gRPC client: three counters, the set of running calls and the limit on
 concurrent requests, each touched by separate atomic operations of exporting threads and of completion
 callbacks.  One `Action` is one atomic operation or lock region; disabled actions do nothing.
 */
module GrpcRequests {

  type Tid = nat

  /** One asynchronous export: the `serial`-th call made by `thread`. */
  datatype Call = Call(thread: Tid, serial: nat)

  /**
   `admitted` are the threads between the check of `is_shutdown_` and the limit check, `checked` those between
   the limit check and `++start_request_counter`.  From there on a call
   passes through `begun` (`++running_requests` not yet done), `carried`, `placed` (in the set of running
   calls), `flying` (handed to the stub), `erased`, `between` (`--running_requests` done,
   `++finished_request_counter` not yet), `unreported` and `reported`.
   */
  datatype Client = Client(
    threads: set<Tid>,
    limit: nat,
    isShutdown: bool,
    admitted: set<Tid>,
    checked: set<Tid>,
    begun: set<Call>,
    carried: set<Call>,
    placed: set<Call>,
    flying: set<Call>,
    erased: set<Call>,
    between: set<Call>,
    unreported: set<Call>,
    reported: set<Call>,
    runningCalls: set<Call>,
    start: nat,
    running: int,
    finished: nat)

  function Fresh(threads: set<Tid>, limit: nat): Client {
    Client(threads, limit, false, {}, {}, {}, {}, {}, {}, {}, {}, {}, {}, {}, 0, 0, 0)
  }

  datatype Action =
    | SetShutdown
    | Admit(t: Tid)
    | Check(t: Tid)
    | IncStart(t: Tid, serial: nat)
    | IncRunning(call: Call)
    | Place(call: Call)
    | Launch(call: Call)
    | Erase(call: Call)
    | DecRunning(call: Call)
    | IncFinished(call: Call)
    | Report(call: Call)

  /** A thread makes one export at a time: it is busy until the call is handed to the stub. */
  predicate Busy(c: Client, t: Tid) {
    t in c.admitted || t in c.checked || exists x | x in c.begun + c.carried + c.placed :: x.thread == t
  }

  /** Every call that has been counted as started. */
  function Used(c: Client): set<Call> {
    c.begun + c.carried + c.placed + c.flying + c.erased + c.between + c.unreported + c.reported
  }

  function Step(c: Client, a: Action): (c': Client)
  {
    match a
    case SetShutdown => c.(isShutdown := true)
    case Admit(t) =>
      if t in c.threads && !Busy(c, t) && !c.isShutdown then c.(admitted := c.admitted + {t}) else c
    case Check(t) =>
      if t !in c.admitted then c
      else if c.running < c.limit then c.(admitted := c.admitted - {t}, checked := c.checked + {t})
      else c.(admitted := c.admitted - {t})
    case IncStart(t, serial) =>
      if t in c.checked && Call(t, serial) !in Used(c)
      then c.(checked := c.checked - {t}, begun := c.begun + {Call(t, serial)}, start := c.start + 1) else c
    case IncRunning(x) =>
      if x in c.begun
      then c.(begun := c.begun - {x}, carried := c.carried + {x}, running := c.running + 1) else c
    case Place(x) =>
      if x in c.carried
      then c.(carried := c.carried - {x}, placed := c.placed + {x}, runningCalls := c.runningCalls + {x}) else c
    case Launch(x) =>
      if x in c.placed then c.(placed := c.placed - {x}, flying := c.flying + {x}) else c
    case Erase(x) =>
      if x in c.flying
      then c.(flying := c.flying - {x}, erased := c.erased + {x}, runningCalls := c.runningCalls - {x}) else c
    case DecRunning(x) =>
      if x in c.erased
      then c.(erased := c.erased - {x}, between := c.between + {x}, running := c.running - 1) else c
    case IncFinished(x) =>
      if x in c.between
      then c.(between := c.between - {x}, unreported := c.unreported + {x}, finished := c.finished + 1) else c
    case Report(x) =>
      if x in c.unreported then c.(unreported := c.unreported - {x}, reported := c.reported + {x}) else c
  }

  function Run(c: Client, actions: seq<Action>): (c': Client)
    decreases |actions|
  {
    if actions == [] then c else Run(Step(c, actions[0]), actions[1..])
  }

  lemma {:induction false} RunConcat(c: Client, a: seq<Action>, b: seq<Action>)
    ensures Run(c, a + b) == Run(Run(c, a), b)
    decreases |a|
  {
    if a == [] {
      assert a + b == b;
    } else {
      assert (a + b)[1..] == a[1..] + b;
      RunConcat(Step(c, a[0]), a[1..], b);
    }
  }

  lemma RunOne(c: Client, a: Action)
    ensures Run(c, [a]) == Step(c, a)
  {
    assert [a][1..] == [];
  }

  lemma RunFirst(c: Client, a: Action, rest: seq<Action>)
    ensures Run(c, [a] + rest) == Run(Step(c, a), rest)
  {
    assert ([a] + rest)[1..] == rest;
  }

  // ---- invariants

  /** The counters against the threads and calls between their updates. */
  ghost predicate Balanced(c: Client) {
    && c.running == |c.carried| + |c.placed| + |c.flying| + |c.erased|
    && c.start == |c.begun| + c.running + |c.between| + c.finished
    && c.finished == |c.unreported| + |c.reported|
  }

  /** No call is in two places, and the running set holds the calls placed and not yet erased. */
  ghost predicate Placed(c: Client) {
    && c.begun !! c.carried !! c.placed !! c.flying !! c.erased !! c.between !! c.unreported !! c.reported
    && c.runningCalls == c.placed + c.flying
  }

  /** Each thread is in one place: it is admitted, or it has passed the check, or it has one call begun. */
  ghost predicate Threaded(c: Client) {
    && c.admitted <= c.threads && c.checked <= c.threads && c.admitted !! c.checked
    && (forall x | x in c.begun :: x.thread in c.threads && x.thread !in c.checked && x.thread !in c.admitted)
    && (forall x, y | x in c.begun && y in c.begun && x.thread == y.thread :: x == y)
  }

  /** The limit, overshot by at most the threads that passed the check together; without room nobody passes. */
  ghost predicate Limited(c: Client) {
    && (c.threads != {} ==> c.running + |c.checked| + |c.begun| <= c.limit + |c.threads| - 1)
    && (c.limit == 0 ==> c.checked == {} && c.start == 0)
  }

  ghost predicate Inv(c: Client) {
    Balanced(c) && Placed(c) && Threaded(c) && Limited(c)
  }

  /** A call about to move is not yet where it moves to. */
  ghost predicate Apart(c: Client, x: Call) {
    && (x in c.begun ==> x !in c.carried)
    && (x in c.carried ==> x !in c.placed)
    && (x in c.placed ==> x !in c.flying)
    && (x in c.flying ==> x !in c.erased)
    && (x in c.erased ==> x !in c.between)
    && (x in c.between ==> x !in c.unreported)
    && (x in c.unreported ==> x !in c.reported)
  }

  predicate ByThread(a: Action) {
    a.SetShutdown? || a.Admit? || a.Check? || a.IncStart?
  }

  lemma BalancedThread(c: Client, a: Action)
    requires Balanced(c)
    requires ByThread(a)
    ensures Balanced(Step(c, a))
  {
    if a.IncStart? { BalancedStart(c, a.t, a.serial); } else { CallsStay(c, a); }
  }

  /** Shutting down and the two checks touch neither calls nor counters. */
  lemma CallsStay(c: Client, a: Action)
    requires a.SetShutdown? || a.Admit? || a.Check?
    ensures var c' := Step(c, a);
            c' == c.(isShutdown := c'.isShutdown, admitted := c'.admitted, checked := c'.checked)
  {
  }

  lemma BalancedStart(c: Client, t: Tid, serial: nat)
    requires Balanced(c)
    ensures Balanced(Step(c, IncStart(t, serial)))
  {
    var x := Call(t, serial);
    if t in c.checked && x !in Used(c) {
      assert x !in c.begun;
      Grown(c.begun, x);
    }
  }

  lemma Grown(calls: set<Call>, x: Call)
    requires x !in calls
    ensures |calls + {x}| == |calls| + 1
  {
  }

  lemma BalancedCall(c: Client, a: Action)
    requires Balanced(c) && !ByThread(a)
    requires Apart(c, a.call)
    ensures Balanced(Step(c, a))
  {
    match a
    case IncRunning(x) => if x in c.begun { Moved(c.begun, c.carried, x); }
    case Place(x) => if x in c.carried { Moved(c.carried, c.placed, x); }
    case Launch(x) => if x in c.placed { Moved(c.placed, c.flying, x); }
    case Erase(x) => if x in c.flying { Moved(c.flying, c.erased, x); }
    case DecRunning(x) => if x in c.erased { Moved(c.erased, c.between, x); }
    case IncFinished(x) => if x in c.between { Moved(c.between, c.unreported, x); }
    case Report(x) => if x in c.unreported { Moved(c.unreported, c.reported, x); }
  }

  lemma Moved(a: set<Call>, b: set<Call>, x: Call)
    requires x in a && x !in b
    ensures |a - {x}| == |a| - 1 && |b + {x}| == |b| + 1
  {
  }

  lemma PlacedStep(c: Client, a: Action)
    requires Placed(c)
    ensures Placed(Step(c, a))
  {
  }

  lemma SubsetSize<T>(a: set<T>, b: set<T>)
    requires a <= b
    ensures |a| <= |b|
    ensures |a| == |b| ==> a == b
  {
    assert b == a + (b - a);
  }

  lemma ThreadedStep(c: Client, a: Action)
    requires Threaded(c)
    ensures Threaded(Step(c, a))
  {
    if a.Admit? && Step(c, a) != c {
      forall x | x in c.begun ensures x.thread != a.t { assert x in c.begun + c.carried + c.placed; }
    }
  }

  function ThreadsOf(calls: set<Call>): set<Tid> {
    set x | x in calls :: x.thread
  }

  lemma {:induction false} OneEach(calls: set<Call>)
    requires forall x, y | x in calls && y in calls && x.thread == y.thread :: x == y
    ensures |ThreadsOf(calls)| == |calls|
  {
    if calls != {} {
      var x :| x in calls;
      OneEach(calls - {x});
      assert ThreadsOf(calls) == ThreadsOf(calls - {x}) + {x.thread};
      assert x.thread !in ThreadsOf(calls - {x});
    } else {
      assert ThreadsOf(calls) == {};
    }
  }

  /** An admitted thread has room for itself among the threads. */
  lemma LimitedCheck(c: Client, t: Tid)
    requires Threaded(c) && Limited(c) && t in c.admitted && 0 <= c.running < c.limit
    ensures Limited(Step(c, Check(t)))
  {
    var begun := ThreadsOf(c.begun);
    OneEach(c.begun);
    var all := c.checked + {t} + begun;
    assert |all| == |c.checked| + 1 + |begun|;
    SubsetSize(all, c.threads);
  }

  lemma LimitedStep(c: Client, a: Action)
    requires Threaded(c) && Limited(c) && Balanced(c)
    ensures Limited(Step(c, a))
  {
    if Step(c, a) != c {
      if a.Check? {
        if c.running < c.limit { LimitedCheck(c, a.t); }
      } else if a.IncStart? {
        assert |c.begun + {Call(a.t, a.serial)}| == |c.begun| + 1;
      }
    }
  }

  lemma {:induction false} RunInv(c: Client, actions: seq<Action>)
    requires Inv(c)
    ensures Inv(Run(c, actions))
    decreases |actions|
  {
    if actions != [] {
      var a := actions[0];
      StepInv(c, a);
      RunInv(Step(c, a), actions[1..]);
    }
  }

  lemma StepInv(c: Client, a: Action)
    requires Inv(c)
    ensures Inv(Step(c, a))
  {
    if ByThread(a) { BalancedThread(c, a); } else { BalancedCall(c, a); }
    PlacedStep(c, a);
    ThreadedStep(c, a);
    LimitedStep(c, a);
  }

  /** The most requests that can be running at once. */
  function Peak(threads: set<Tid>, limit: nat): nat
    requires threads != {}
  {
    if limit == 0 then 0 else limit + |threads| - 1
  }

  /** What every interleaving of every number of exports keeps. */
  lemma EveryInterleaving(threads: set<Tid>, limit: nat, actions: seq<Action>)
    requires threads != {}
    ensures var c := Run(Fresh(threads, limit), actions);
            && c.start == c.finished + c.running + |c.begun| + |c.between|
            && 0 <= c.running <= Peak(threads, limit)
            && c.runningCalls == c.placed + c.flying
            && c.running == |c.runningCalls| + |c.carried| + |c.erased|
  {
    var c0 := Fresh(threads, limit);
    SubsetSize({}, threads);
    assert |threads| != 0;
    assert Inv(c0);
    RunInv(c0, actions);
    Constants(c0, actions);
    var c := Run(c0, actions);
    assert |c.placed + c.flying| == |c.placed| + |c.flying|;
  }

  lemma {:induction false} Constants(c: Client, actions: seq<Action>)
    ensures Run(c, actions).threads == c.threads && Run(c, actions).limit == c.limit
    decreases |actions|
  {
    if actions != [] { Constants(Step(c, actions[0]), actions[1..]); }
  }

  // ---- the bound is reached

  function ExportOnce(t: Tid, serial: nat): seq<Action> {
    var x := Call(t, serial);
    [Admit(t)] + [Check(t), IncStart(t, serial), IncRunning(x), Place(x), Launch(x)]
  }

  /** `n` exports of thread `t`, one after the other, none of them answered. */
  lemma {:induction false} Fill(c: Client, t: Tid, n: nat) returns (actions: seq<Action>)
    requires t in c.threads && !Busy(c, t) && !c.isShutdown && c.running + n <= c.limit
    requires forall x | x in Used(c) && x.thread == t :: x.serial < |c.flying|
    requires Used(c) == c.flying && c.carried == {} && c.placed == {}
    ensures var c' := Run(c, actions);
            && c'.running == c.running + n && |c'.flying| == |c.flying| + n
            && c'.admitted == c.admitted && c'.isShutdown == c.isShutdown
            && c'.checked == c.checked && c'.begun == c.begun && c'.carried == {} && c'.placed == {}
            && Used(c') == c'.flying
            && c'.threads == c.threads && c'.limit == c.limit
    decreases n
  {
    if n == 0 {
      actions := [];
    } else {
      var x := Call(t, |c.flying|);
      assert x !in Used(c);
      var c' := c.(flying := c.flying + {x}, running := c.running + 1, start := c.start + 1,
                   runningCalls := c.runningCalls + {x});
      ExportOnceRun(c, t, |c.flying|);
      assert Used(c') == c'.flying;
      var rest := Fill(c', t, n - 1);
      actions := ExportOnce(t, |c.flying|) + rest;
      RunConcat(c, ExportOnce(t, |c.flying|), rest);
    }
  }

  lemma ExportOnceRun(c: Client, t: Tid, serial: nat)
    requires t in c.threads && !Busy(c, t) && !c.isShutdown && c.running < c.limit && Call(t, serial) !in Used(c)
    ensures var x := Call(t, serial);
            Run(c, ExportOnce(t, serial)) ==
            c.(flying := c.flying + {x}, running := c.running + 1, start := c.start + 1,
               runningCalls := c.runningCalls + {x})
  {
    var x := Call(t, serial);
    AdmitAndCheck(c, t);
    var c0 := Step(c, Admit(t));
    var c1 := Step(c0, Check(t));
    assert Used(c1) == Used(c);
    var c2 := Step(c1, IncStart(t, serial));
    assert c2 == c.(begun := c.begun + {x}, start := c.start + 1) by {
      assert c2.checked == c.checked;
    }
    var c3 := Step(c2, IncRunning(x));
    assert c3 == c.(carried := c.carried + {x}, running := c.running + 1, start := c.start + 1) by {
      assert c3.begun == c.begun;
    }
    var c4 := Step(c3, Place(x));
    assert c4.carried == c.carried;
    var c5 := Step(c4, Launch(x));
    assert c5.placed == c.placed;
    FiveSteps(c0, Check(t), IncStart(t, serial), IncRunning(x), Place(x), Launch(x));
    RunFirst(c, Admit(t), [Check(t), IncStart(t, serial), IncRunning(x), Place(x), Launch(x)]);
  }

  lemma AdmitAndCheck(c: Client, t: Tid)
    requires t in c.threads && !Busy(c, t) && !c.isShutdown && c.running < c.limit
    ensures Step(Step(c, Admit(t)), Check(t)) == c.(checked := c.checked + {t})
  {
    assert c.admitted + {t} - {t} == c.admitted;
  }

  lemma FiveSteps(c: Client, a0: Action, a1: Action, a2: Action, a3: Action, a4: Action)
    ensures Run(c, [a0, a1, a2, a3, a4]) == Step(Step(Step(Step(Step(c, a0), a1), a2), a3), a4)
  {
    var c1 := Step(c, a0);
    var c2 := Step(c1, a1);
    var c3 := Step(c2, a2);
    RunFirst(c, a0, [a1, a2, a3, a4]);
    RunFirst(c1, a1, [a2, a3, a4]);
    RunFirst(c2, a2, [a3, a4]);
    RunFirst(c3, a3, [a4]);
    RunOne(Step(c3, a3), a4);
    assert [a0, a1, a2, a3, a4] == [a0] + [a1, a2, a3, a4];
    assert [a1, a2, a3, a4] == [a1] + [a2, a3, a4];
    assert [a2, a3, a4] == [a2] + [a3, a4];
    assert [a3, a4] == [a3] + [a4];
  }

  /** All of `todo` pass the check before any of them counts itself. */
  lemma {:induction false} CheckAll(c: Client, todo: set<Tid>) returns (actions: seq<Action>)
    requires todo <= c.threads && todo !! c.checked && todo !! c.admitted && !c.isShutdown
    requires c.begun == {} && c.carried == {} && c.placed == {} && c.running < c.limit
    ensures Run(c, actions) == c.(checked := c.checked + todo)
    decreases todo
  {
    if todo == {} {
      actions := [];
      assert c.checked + todo == c.checked;
    } else {
      var t :| t in todo;
      assert !Busy(c, t);
      AdmitAndCheck(c, t);
      var c1 := Step(c, Admit(t));
      var rest := CheckAll(Step(c1, Check(t)), todo - {t});
      actions := [Admit(t)] + ([Check(t)] + rest);
      RunFirst(c, Admit(t), [Check(t)] + rest);
      RunFirst(c1, Check(t), rest);
      TakeOne(c.checked, todo, t);
    }
  }

  lemma TakeOne(a: set<Tid>, b: set<Tid>, t: Tid)
    requires t in b
    ensures a + {t} + (b - {t}) == a + b
  {
  }

  /** Then all of `todo` count themselves. */
  lemma {:induction false} CountAll(c: Client, todo: set<Tid>, serial: nat) returns (actions: seq<Action>)
    requires todo <= c.checked && c.begun == {}
    requires forall t | t in todo :: Call(t, serial) !in Used(c)
    ensures Run(c, actions).running == c.running + |todo|
    decreases todo
  {
    if todo == {} {
      actions := [];
    } else {
      var t :| t in todo;
      var x := Call(t, serial);
      var c1 := Step(c, IncStart(t, serial));
      var c2 := Step(c1, IncRunning(x));
      CountOne(c, t, serial);
      var rest := CountAll(c2, todo - {t}, serial);
      actions := [IncStart(t, serial)] + ([IncRunning(x)] + rest);
      RunFirst(c, IncStart(t, serial), [IncRunning(x)] + rest);
      RunFirst(c1, IncRunning(x), rest);
    }
  }

  lemma CountOne(c: Client, t: Tid, serial: nat)
    requires t in c.checked && c.begun == {} && Call(t, serial) !in Used(c)
    ensures var c' := Step(Step(c, IncStart(t, serial)), IncRunning(Call(t, serial)));
            && c'.begun == {} && c'.checked == c.checked - {t} && c'.running == c.running + 1
            && Used(c') == Used(c) + {Call(t, serial)}
  {
    var c1 := Step(c, IncStart(t, serial));
    assert c1.begun == {Call(t, serial)};
  }

  /** The bound of `EveryInterleaving` cannot be lowered, whatever the limit and the threads. */
  lemma LimitOvershot(threads: set<Tid>, limit: nat) returns (actions: seq<Action>)
    requires threads != {}
    ensures Run(Fresh(threads, limit), actions).running == Peak(threads, limit)
  {
    var c0 := Fresh(threads, limit);
    if limit == 0 {
      return [];
    }
    var t :| t in threads;
    var fill := Fill(c0, t, limit - 1);
    var c1 := Run(c0, fill);
    var check := CheckAll(c1, threads);
    var c2 := Run(c1, check);
    assert c2 == c1.(checked := threads);
    var serial := FreshSerial(Used(c2));
    var count := CountAll(c2, threads, serial);
    RunConcat(c0, fill, check);
    RunConcat(c0, fill + check, count);
    actions := fill + check + count;
  }

  lemma {:induction false} FreshSerial(used: set<Call>) returns (serial: nat)
    ensures forall x | x in used :: x.serial < serial
    decreases used
  {
    if used == {} {
      serial := 0;
    } else {
      var x :| x in used;
      var s := FreshSerial(used - {x});
      serial := if s > x.serial then s else x.serial + 1;
    }
  }

  // ---- flush

  lemma {:induction false} RunLater(c: Client, actions: seq<Action>)
    ensures c.start <= Run(c, actions).start && c.finished <= Run(c, actions).finished
    decreases |actions|
  {
    if actions != [] { RunLater(Step(c, actions[0]), actions[1..]); }
  }

  /** A flush that answers true and was not overtaken leaves no request anywhere in flight. */
  lemma FlushComplete(c: Client, actions: seq<Action>)
    requires Inv(c)
    requires var c' := Run(c, actions); c'.finished >= c.start && c'.start == c.start
    ensures var c' := Run(c, actions);
            && c'.running == 0 && c'.begun == {}
            && c'.runningCalls == {} && c'.flying == {} && c'.carried == {} && c'.erased == {} && c'.between == {}
  {
    RunInv(c, actions);
    var c' := Run(c, actions);
    assert |c'.begun| == |c'.carried| == |c'.placed| == |c'.flying| == |c'.erased| == |c'.between| == 0;
  }

  /** What that flush does not promise: a request counts as finished before its callback has run. */
  lemma FlushBeforeCallback()
    ensures var x := Call(0, 0);
            var c := Run(Fresh({0}, 1), ExportOnce(0, 0));
            var c' := Run(c, [Erase(x), DecRunning(x), IncFinished(x)]);
            c'.finished >= c.start && c'.start == c.start && x in c'.unreported
  {
    var x := Call(0, 0);
    ExportOnceRun(Fresh({0}, 1), 0, 0);
    var c := Run(Fresh({0}, 1), ExportOnce(0, 0));
    var c1 := Step(c, Erase(x));
    var c2 := Step(c1, DecRunning(x));
    RunOne(c2, IncFinished(x));
    RunOne(c1, DecRunning(x));
    RunOne(c, Erase(x));
    RunConcat(c, [Erase(x)], [DecRunning(x)]);
    RunConcat(c, [Erase(x)] + [DecRunning(x)], [IncFinished(x)]);
    assert [Erase(x), DecRunning(x), IncFinished(x)] == [Erase(x)] + [DecRunning(x)] + [IncFinished(x)];
  }

  /** A flush overtaken by a later request answers true while the earlier one is in flight. */
  lemma OvertakenFlush()
    ensures var x := Call(1, 0);
            var c := Run(Fresh({0, 1}, 2), ExportOnce(0, 0));
            var c' := Run(c, ExportOnce(1, 0) + [Erase(x)] + [DecRunning(x)] + [IncFinished(x)]);
            c'.finished >= c.start && Call(0, 0) in c'.flying
  {
    var x := Call(1, 0);
    ExportOnceRun(Fresh({0, 1}, 2), 0, 0);
    var c := Run(Fresh({0, 1}, 2), ExportOnce(0, 0));
    ExportOnceRun(c, 1, 0);
    var d := Run(c, ExportOnce(1, 0));
    var d1 := Step(d, Erase(x));
    var d2 := Step(d1, DecRunning(x));
    RunOne(d2, IncFinished(x));
    RunOne(d1, DecRunning(x));
    RunOne(d, Erase(x));
    RunConcat(c, ExportOnce(1, 0), [Erase(x)]);
    RunConcat(c, ExportOnce(1, 0) + [Erase(x)], [DecRunning(x)]);
    RunConcat(c, ExportOnce(1, 0) + [Erase(x)] + [DecRunning(x)], [IncFinished(x)]);
  }
}
