/**
 What a flush of the gRPC client promises of the requests that were counted when it was called, and of their
 callbacks: the exact states from which no run can break the promise.
 */
module GrpcFlush {
  import opened GrpcRequests

  /** Calls that are counted as started and not yet as finished. */
  function InFlight(c: Client): set<Call> {
    c.begun + c.carried + c.placed + c.flying + c.erased + c.between
  }

  /** Calls that are counted as finished. */
  function Done(c: Client): set<Call> {
    c.unreported + c.reported
  }

  /** Calls that keep their thread busy. */
  function Early(c: Client): set<Call> {
    c.begun + c.carried + c.placed
  }

  /** Whatever happens, a flush started at `c` answers true only when every request counted there has finished. */
  ghost predicate KeepsFlushPromise(c: Client) {
    forall actions :: Run(c, actions).finished >= c.start ==> Used(c) <= Done(Run(c, actions))
  }

  /** What a call on its own way does not change. */
  ghost predicate Beside(c: Client, c': Client) {
    && c'.threads == c.threads && c'.limit == c.limit && c'.isShutdown == c.isShutdown
    && c'.admitted == c.admitted && c'.checked == c.checked && c'.start == c.start
    && Used(c') == Used(c) && c'.reported == c.reported
  }

  predicate OnItsWay(a: Action) {
    a.IncRunning? || a.Place? || a.Launch? || a.Erase? || a.DecRunning?
  }

  lemma WayStep(c: Client, a: Action)
    requires OnItsWay(a)
    ensures Beside(c, Step(c, a)) && InFlight(Step(c, a)) == InFlight(c)
  {
  }

  function Drive(x: Call): seq<Action> {
    [IncRunning(x), Place(x), Launch(x), Erase(x), DecRunning(x)]
  }

  /** `c'` comes from `c` by steps of calls in flight that none of them completes. */
  ghost predicate Along(c: Client, c': Client) {
    Inv(c') && Beside(c, c') && InFlight(c') == InFlight(c)
  }

  lemma AlongTransitive(c: Client, d: Client, e: Client)
    requires Along(c, d) && Along(d, e)
    ensures Along(c, e)
  {
  }

  lemma Stepped(c: Client, a: Action)
    requires Inv(c) && OnItsWay(a)
    ensures Along(c, Step(c, a))
  {
    WayStep(c, a);
    StepInv(c, a);
  }

  lemma CountStep(c: Client, x: Call)
    requires Placed(c)
    ensures var c' := Step(c, IncRunning(x)); x !in c'.begun && Early(c') == Early(c)
  {
  }

  lemma PlaceStep(c: Client, x: Call)
    requires Placed(c) && x !in c.begun
    ensures var c' := Step(c, Place(x)); x !in c'.begun + c'.carried && Early(c') == Early(c)
  {
  }

  lemma LaunchStep(c: Client, x: Call)
    requires Placed(c) && x !in c.begun + c.carried
    ensures var c' := Step(c, Launch(x)); x !in Early(c') && Early(c') == Early(c) - {x}
  {
  }

  lemma EraseStep(c: Client, x: Call)
    requires Placed(c)
    ensures var c' := Step(c, Erase(x)); x !in c'.flying && Early(c') == Early(c)
  {
  }

  lemma DecrementStep(c: Client, x: Call)
    requires Placed(c) && x in InFlight(c) && x !in Early(c) && x !in c.flying
    ensures var c' := Step(c, DecRunning(x)); x in c'.between && Early(c') == Early(c)
  {
  }

  lemma DriveFirst(c: Client, x: Call)
    requires Inv(c)
    ensures var c' := Step(Step(c, IncRunning(x)), Place(x));
            Along(c, c') && x !in c'.begun + c'.carried && Early(c') == Early(c)
  {
    var c1 := Step(c, IncRunning(x));
    Stepped(c, IncRunning(x));
    CountStep(c, x);
    Stepped(c1, Place(x));
    PlaceStep(c1, x);
    AlongTransitive(c, c1, Step(c1, Place(x)));
  }

  lemma DriveNext(c: Client, x: Call)
    requires Inv(c) && x !in c.begun + c.carried
    ensures var c' := Step(c, Launch(x));
            Along(c, c') && x !in Early(c') && Early(c') == Early(c) - {x}
  {
    Stepped(c, Launch(x));
    LaunchStep(c, x);
  }

  lemma DriveLast(c: Client, x: Call)
    requires Inv(c) && x in InFlight(c) && x !in Early(c)
    ensures var c' := Step(Step(c, Erase(x)), DecRunning(x));
            Along(c, c') && x in c'.between && Early(c') == Early(c)
  {
    var c1 := Step(c, Erase(x));
    Stepped(c, Erase(x));
    EraseStep(c, x);
    Stepped(c1, DecRunning(x));
    DecrementStep(c1, x);
    AlongTransitive(c, c1, Step(c1, DecRunning(x)));
  }

  /** A call in flight is brought to the point between the two last counters. */
  lemma DriveRun(c: Client, x: Call)
    requires Inv(c) && x in InFlight(c)
    ensures var c' := Run(c, Drive(x));
            Along(c, c') && x in c'.between && Early(c') == Early(c) - {x}
  {
    var c2 := Step(Step(c, IncRunning(x)), Place(x));
    var c3 := Step(c2, Launch(x));
    var c5 := Step(Step(c3, Erase(x)), DecRunning(x));
    DriveFirst(c, x);
    DriveNext(c2, x);
    AlongTransitive(c, c2, c3);
    DriveLast(c3, x);
    AlongTransitive(c, c3, c5);
    FiveSteps(c, IncRunning(x), Place(x), Launch(x), Erase(x), DecRunning(x));
  }

  /** The calls of `done` are counted as finished, and nothing else happens. */
  ghost predicate Finishes(c: Client, c': Client, done: set<Call>) {
    Inv(c') && Beside(c, c') && InFlight(c') == InFlight(c) - done && Early(c') == Early(c) - done
  }

  lemma FinishRun(c: Client, x: Call)
    requires Inv(c) && x in InFlight(c)
    ensures Finishes(c, Run(c, Drive(x) + [IncFinished(x)]), {x})
  {
    DriveRun(c, x);
    var c1 := Run(c, Drive(x));
    RunConcat(c, Drive(x), [IncFinished(x)]);
    RunOne(c1, IncFinished(x));
    StepInv(c1, IncFinished(x));
    LastStep(c1, x);
  }

  lemma LastStep(c: Client, x: Call)
    requires Placed(c) && x in c.between
    ensures var c' := Step(c, IncFinished(x));
            Beside(c, c') && InFlight(c') == InFlight(c) - {x} && Early(c') == Early(c)
  {
  }

  lemma {:induction false} FinishAll(c: Client, todo: set<Call>) returns (actions: seq<Action>)
    requires Inv(c) && todo <= InFlight(c)
    ensures Finishes(c, Run(c, actions), todo)
    decreases todo
  {
    if todo == {} {
      actions := [];
      FinishesNone(c);
    } else {
      var x :| x in todo;
      var first := FinishOne(c, todo, x);
      var rest := FinishAll(Run(c, first), todo - {x});
      actions := first + rest;
      RunConcat(c, first, rest);
      FinishesBoth(c, Run(c, first), Run(c, actions), todo, x);
    }
  }

  lemma FinishOne(c: Client, todo: set<Call>, x: Call) returns (actions: seq<Action>)
    requires Inv(c) && todo <= InFlight(c) && x in todo
    ensures var c' := Run(c, actions); Inv(c') && Finishes(c, c', {x}) && todo - {x} <= InFlight(c')
  {
    FinishRun(c, x);
    actions := Drive(x) + [IncFinished(x)];
    Fewer(todo, InFlight(c), x);
  }

  lemma FinishesNone(c: Client)
    requires Inv(c)
    ensures Finishes(c, c, {})
  {
    LessNone(InFlight(c));
    LessNone(Early(c));
  }

  lemma LessNone(calls: set<Call>)
    ensures calls - {} == calls
  {
  }

  lemma Fewer(todo: set<Call>, calls: set<Call>, x: Call)
    requires todo <= calls
    ensures todo - {x} <= calls - {x}
  {
  }

  lemma FinishesBoth(c: Client, d: Client, e: Client, todo: set<Call>, x: Call)
    requires x in todo && Finishes(c, d, {x}) && Finishes(d, e, todo - {x})
    ensures Finishes(c, e, todo)
  {
    LessOne(InFlight(c), todo, x);
    LessOne(Early(c), todo, x);
  }

  lemma LessOne(calls: set<Call>, todo: set<Call>, x: Call)
    requires x in todo
    ensures calls - {x} - (todo - {x}) == calls - todo
  {
  }

  /** The calls in flight are what the two counters differ by. */
  lemma InFlightSize(c: Client)
    requires Inv(c)
    ensures |InFlight(c)| == c.start - c.finished
  {
    SixSets(c.begun, c.carried, c.placed, c.flying, c.erased, c.between);
  }

  lemma Union(a: set<Call>, b: set<Call>)
    requires a !! b
    ensures |a + b| == |a| + |b|
  {
  }

  lemma SixSets(a: set<Call>, b: set<Call>, c: set<Call>, d: set<Call>, e: set<Call>, f: set<Call>)
    requires a !! b !! c !! d !! e !! f
    ensures |a + b + c + d + e + f| == |a| + |b| + |c| + |d| + |e| + |f|
  {
    Union(a, b);
    Union(a + b, c);
    Union(a + b + c, d);
    Union(a + b + c + d, e);
    Union(a + b + c + d + e, f);
  }

  // ---- being overtaken

  /** Only `x` is in flight, and it is no longer counted as running. */
  ghost predicate Alone(c: Client, x: Call) {
    Inv(c) && InFlight(c) == {x} && x in c.between && Early(c) == {}
  }

  lemma AloneIdle(c: Client, x: Call)
    requires Alone(c, x)
    ensures c.running == 0 && c.begun == {} && c.carried == {} && c.placed == {}
  {
    assert c.flying == {} && c.erased == {} by {
      forall y: Call ensures y !in c.flying && y !in c.erased { assert y in InFlight(c) <==> y == x; }
    }
  }

  lemma BringAlone(c: Client, x: Call) returns (actions: seq<Action>)
    requires Inv(c) && x in InFlight(c)
    ensures var c' := Run(c, actions);
            Alone(c', x) && Beside(c, c')
  {
    var first := FinishAll(c, InFlight(c) - {x});
    var c1 := Run(c, first);
    AllButOne(InFlight(c), x);
    DriveAlone(c1, x);
    RunConcat(c, first, Drive(x));
    actions := first + Drive(x);
  }

  lemma DriveAlone(c: Client, x: Call)
    requires Inv(c) && InFlight(c) == {x}
    ensures var c' := Run(c, Drive(x));
            Alone(c', x) && Beside(c, c')
  {
    DriveRun(c, x);
    assert Early(c) <= InFlight(c);
    assert Early(c) - {x} == {};
  }

  lemma AllButOne(calls: set<Call>, x: Call)
    requires x in calls
    ensures calls - (calls - {x}) == {x}
  {
  }

  /** No request is past the check of the shutdown flag and not yet counted, and none can get past it. */
  predicate NobodyComes(c: Client) {
    c.isShutdown && c.admitted == {} && c.checked == {}
  }

  /** One more request is counted: somebody is on the way, or the thread of `x` comes. */
  lemma OneMore(c: Client, x: Call) returns (actions: seq<Action>, y: Call)
    requires Alone(c, x) && x.thread in c.threads && c.limit > 0 && !NobodyComes(c)
    ensures var c' := Run(c, actions);
            Inv(c') && c'.start == c.start + 1 && InFlight(c') == {x, y} && y != x
  {
    AloneIdle(c, x);
    var first, t := SomeoneChecked(c, x);
    var c1 := Run(c, first);
    y := StartedAlone(c1, x, t);
    actions := first + [IncStart(t, y.serial)];
    RunConcat(c, first, [IncStart(t, y.serial)]);
    RunOne(c1, IncStart(t, y.serial));
  }

  lemma SomeoneChecked(c: Client, x: Call) returns (actions: seq<Action>, t: Tid)
    requires Inv(c) && InFlight(c) == {x} && x.thread in c.threads && c.running == 0 && c.limit > 0
    requires c.begun == {} && c.carried == {} && c.placed == {} && !NobodyComes(c)
    ensures var c' := Run(c, actions);
            Inv(c') && t in c'.checked && InFlight(c') == {x} && c'.start == c.start
  {
    if c.checked != {} {
      t :| t in c.checked;
      actions := [];
    } else if c.admitted != {} {
      t :| t in c.admitted;
      CheckedAlone(c, t);
      actions := [Check(t)];
      RunOne(c, Check(t));
    } else {
      t := x.thread;
      AdmittedAlone(c, t);
      var c1 := Step(c, Admit(t));
      CheckedAlone(c1, t);
      actions := [Admit(t)] + [Check(t)];
      RunFirst(c, Admit(t), [Check(t)]);
      RunOne(c1, Check(t));
    }
  }

  lemma AdmittedAlone(c: Client, t: Tid)
    requires Inv(c) && t in c.threads && !c.isShutdown && c.admitted == {} && c.checked == {}
    requires c.begun == {} && c.carried == {} && c.placed == {}
    ensures var c' := Step(c, Admit(t));
            && Inv(c') && t in c'.admitted && InFlight(c') == InFlight(c) && c'.start == c.start
            && c'.running == c.running && c'.limit == c.limit
  {
    StepInv(c, Admit(t));
    assert !Busy(c, t);
  }

  lemma CheckedAlone(c: Client, t: Tid)
    requires Inv(c) && t in c.admitted && c.running < c.limit
    ensures var c' := Step(c, Check(t));
            Inv(c') && t in c'.checked && InFlight(c') == InFlight(c) && c'.start == c.start
  {
    StepInv(c, Check(t));
  }

  lemma StartedAlone(c: Client, x: Call, t: Tid) returns (y: Call)
    requires Inv(c) && t in c.checked && InFlight(c) == {x}
    ensures var c' := Step(c, IncStart(t, y.serial));
            Inv(c') && InFlight(c') == {x, y} && y != x && c'.start == c.start + 1
  {
    var serial := FreshSerial(Used(c));
    y := Call(t, serial);
    assert x.serial < serial by { InFlightUsed(c); }
    StartStep(c, y);
    Pair(x, y);
    StepInv(c, IncStart(t, serial));
  }

  lemma Pair(x: Call, y: Call)
    ensures {x} + {y} == {x, y}
  {
  }

  lemma StartStep(c: Client, y: Call)
    requires y.thread in c.checked && y !in Used(c)
    ensures var c' := Step(c, IncStart(y.thread, y.serial));
            InFlight(c') == InFlight(c) + {y} && c'.start == c.start + 1
  {
  }

  lemma InFlightUsed(c: Client)
    ensures InFlight(c) <= Used(c)
  {
  }

  lemma Overtaken(c: Client, x: Call) returns (actions: seq<Action>)
    requires Inv(c) && x in InFlight(c) && x.thread in c.threads && c.limit > 0 && !NobodyComes(c)
    ensures Inv(Run(c, actions)) && Run(c, actions).finished >= c.start && x in InFlight(Run(c, actions))
  {
    var first := BringAlone(c, x);
    var c1 := Run(c, first);
    var second, y := OneMore(c1, x);
    var third := MoreFinishes(Run(c1, second), x, y);
    RunConcat(c, first, second);
    RunConcat(c, first + second, third);
    actions := first + second + third;
  }

  lemma MoreFinishes(c: Client, x: Call, y: Call) returns (actions: seq<Action>)
    requires Inv(c) && InFlight(c) == {x, y} && x != y
    ensures var c' := Run(c, actions); Inv(c') && InFlight(c') == {x} && c'.finished == c.start - 1
  {
    FinishRun(c, y);
    actions := Drive(y) + [IncFinished(y)];
    TwoMinusOne(x, y);
    InFlightSize(Run(c, actions));
  }

  lemma TwoMinusOne(x: Call, y: Call)
    requires x != y
    ensures {x, y} - {y} == {x}
  {
  }

  /** Calls are made by the client's threads. */
  predicate Rooted(c: Client) {
    forall x | x in Used(c) :: x.thread in c.threads
  }

  lemma UsedStep(c: Client, a: Action)
    ensures Used(Step(c, a)) <= Used(c) + if a.IncStart? && a.t in c.checked then {Call(a.t, a.serial)} else {}
    ensures Used(c) <= Used(Step(c, a))
  {
  }

  lemma RootedStep(c: Client, a: Action)
    requires Rooted(c) && c.checked <= c.threads
    ensures Rooted(Step(c, a))
  {
    UsedStep(c, a);
    forall x | x in Used(Step(c, a)) ensures x.thread in c.threads {
      assert x in Used(c) || (a.IncStart? && a.t in c.checked && x.thread == a.t);
    }
  }

  lemma {:induction false} RootedRun(c: Client, actions: seq<Action>)
    requires Rooted(c) && Inv(c)
    ensures Rooted(Run(c, actions))
    decreases |actions|
  {
    if actions != [] {
      RootedStep(c, actions[0]);
      StepInv(c, actions[0]);
      RootedRun(Step(c, actions[0]), actions[1..]);
    }
  }

  /** What is finished stays finished, and what is reported stays reported. */
  lemma {:induction false} DoneStays(c: Client, actions: seq<Action>)
    ensures Done(c) <= Done(Run(c, actions)) && c.reported <= Run(c, actions).reported
    decreases |actions|
  {
    if actions != [] {
      DoneStep(c, actions[0]);
      DoneStays(Step(c, actions[0]), actions[1..]);
    }
  }

  lemma DoneStep(c: Client, a: Action)
    ensures Done(c) <= Done(Step(c, a)) && c.reported <= Step(c, a).reported
  {
  }

  lemma DoneApart(c: Client)
    requires Placed(c)
    ensures InFlight(c) !! Done(c) && Used(c) == InFlight(c) + Done(c)
  {
  }

  lemma NobodyStep(c: Client, a: Action)
    requires NobodyComes(c)
    ensures NobodyComes(Step(c, a)) && Step(c, a).start == c.start && Used(Step(c, a)) == Used(c)
  {
  }

  lemma {:induction false} NobodyRun(c: Client, actions: seq<Action>)
    requires NobodyComes(c)
    ensures Run(c, actions).start == c.start && Used(Run(c, actions)) == Used(c)
    decreases |actions|
  {
    if actions != [] {
      NobodyStep(c, actions[0]);
      NobodyRun(Step(c, actions[0]), actions[1..]);
    }
  }

  /** A flush that nobody can overtake answers true only when all is done. */
  lemma Unovertaken(c: Client, actions: seq<Action>)
    requires Inv(c) && NobodyComes(c) && Run(c, actions).finished >= c.start
    ensures Used(c) <= Done(Run(c, actions))
  {
    var c' := Run(c, actions);
    RunInv(c, actions);
    NobodyRun(c, actions);
    InFlightSize(c');
    assert InFlight(c') == {};
    DoneApart(c');
  }

  /**
   From a reachable state a flush keeps its promise in every run if and only if it has nothing to wait for, or the
   client is shut down and no request is between the check of that flag and being counted.
   */
  lemma FlushPromise(threads: set<Tid>, limit: nat, past: seq<Action>)
    ensures var c := Run(Fresh(threads, limit), past);
            KeepsFlushPromise(c) <==> c.start == c.finished || NobodyComes(c)
  {
    var c0 := Fresh(threads, limit);
    var c := Run(c0, past);
    if threads != {} { SubsetSize({}, threads); }
    assert Inv(c0) && Rooted(c0);
    RunInv(c0, past);
    RootedRun(c0, past);
    InFlightSize(c);
    DoneApart(c);
    if c.start == c.finished {
      assert InFlight(c) == {};
      forall actions ensures Used(c) <= Done(Run(c, actions)) { DoneStays(c, actions); }
    } else if NobodyComes(c) {
      forall actions | Run(c, actions).finished >= c.start ensures Used(c) <= Done(Run(c, actions)) {
        Unovertaken(c, actions);
      }
    } else {
      assert InFlight(c) != {};
      var x :| x in InFlight(c);
      var actions := Overtaken(c, x);
      DoneApart(Run(c, actions));
    }
  }

  // ---- callbacks

  /** Whatever happens, an unovertaken flush started at `c` answers true only when every callback has run. */
  ghost predicate KeepsCallbackPromise(c: Client) {
    forall actions :: Run(c, actions).finished >= c.start && Run(c, actions).start == c.start ==>
                        Run(c, actions).unreported == {}
  }

  /** That is so in every run if and only if all callbacks have run already. */
  lemma CallbackPromise(c: Client)
    requires Inv(c)
    ensures KeepsCallbackPromise(c) <==> |c.reported| == c.start
  {
    if |c.reported| == c.start {
      forall actions | Run(c, actions).start == c.start ensures Run(c, actions).unreported == {} {
        AllReported(c, actions);
      }
    } else {
      var actions := FinishAll(c, InFlight(c));
      SomeUnreported(c, Run(c, actions));
    }
  }

  lemma AllReported(c: Client, actions: seq<Action>)
    requires Inv(c) && |c.reported| == c.start && Run(c, actions).start == c.start
    ensures Run(c, actions).unreported == {}
  {
    RunInv(c, actions);
    DoneStays(c, actions);
    SubsetSize(c.reported, Run(c, actions).reported);
    assert |Run(c, actions).unreported| == 0;
  }

  lemma SomeUnreported(c: Client, c': Client)
    requires Inv(c) && |c.reported| != c.start && Finishes(c, c', InFlight(c))
    ensures c'.finished == c.start && c'.start == c.start && c'.unreported != {}
  {
    assert InFlight(c') == {};
    InFlightSize(c');
  }
}
