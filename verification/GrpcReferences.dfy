/**
 Reference guards: several exporters share one gRPC client; each takes a reference when it is built and
 gives it back when it is shut down or destroyed, and the last one to leave by Shutdown shuts the client
 down.  Each atomic operation on a guard flag, on the count and on the client's shutdown flag is one step.
 */
module GrpcReferences {

  type Eid = nat

  /**
   An exporter is `Adding` between raising its guard and incrementing the count, then `Live`; its client
   pointer is then swapped out (`Taken`), its guard lowered (`Cleared`) and the count decremented.  An
   exporter that leaves by Shutdown then acts on the answer (`Last` or `NotLast`) and is `Gone`.
   */
  datatype Phase = Adding | Live | Taken | Cleared | Last | NotLast | Gone

  /**
   `holding` are the exporters whose increment is not yet undone, `releases` counts each exporter's
   decrements, `zeroed` lists the decrements that took the count to zero, `shutting` are the exporters
   leaving by Shutdown, `flips` those that turned the client's shutdown flag on.
   */
  datatype Refs = Refs(
    phase: map<Eid, Phase>,
    guard: set<Eid>,
    holding: set<Eid>,
    releases: map<Eid, nat>,
    zeroed: seq<Eid>,
    shutting: set<Eid>,
    flips: seq<Eid>,
    count: int,
    isShutdown: bool)

  const FRESH := Refs(map[], {}, {}, map[], [], {}, [], 0, false)

  datatype Action =
    | RaiseGuard(e: Eid)
    | Increment(e: Eid)
    | Take(e: Eid, byShutdown: bool)
    | LowerGuard(e: Eid)
    | Decrement(e: Eid)
    | Decide(e: Eid)

  predicate At(c: Refs, e: Eid, p: Phase) {
    e in c.phase && c.phase[e] == p
  }

  function ReleasesOf(c: Refs, e: Eid): nat {
    if e in c.releases then c.releases[e] else 0
  }

  /** RemoveReference has answered `answer` to exporter `e`. */
  function Answered(c: Refs, e: Eid, answer: bool): Refs {
    c.(phase := c.phase[e := if e !in c.shutting then Gone else if answer then Last else NotLast])
  }

  function Step(c: Refs, a: Action): (c': Refs)
  {
    match a
    case RaiseGuard(e) =>
      if e in c.phase then c else c.(guard := c.guard + {e}, phase := c.phase[e := Adding])
    case Increment(e) =>
      if At(c, e, Adding)
      then c.(phase := c.phase[e := Live], holding := c.holding + {e}, count := c.count + 1) else c
    case Take(e, byShutdown) =>
      if At(c, e, Live)
      then c.(phase := c.phase[e := Taken], shutting := if byShutdown then c.shutting + {e} else c.shutting)
      else c
    case LowerGuard(e) =>
      if !At(c, e, Taken) then c
      else if e in c.guard then c.(guard := c.guard - {e}, phase := c.phase[e := Cleared])
      else Answered(c, e, c.count <= 0)
    case Decrement(e) =>
      if !At(c, e, Cleared) then c
      else
        Answered(c.(count := c.count - 1, holding := c.holding - {e},
                    releases := c.releases[e := ReleasesOf(c, e) + 1],
                    zeroed := if c.count == 1 then c.zeroed + [e] else c.zeroed),
                 e, c.count <= 1)
    case Decide(e) =>
      if At(c, e, NotLast) then c.(phase := c.phase[e := Gone])
      else if At(c, e, Last) then
        c.(phase := c.phase[e := Gone], isShutdown := true, flips := if c.isShutdown then c.flips else c.flips + [e])
      else c
  }

  function Run(c: Refs, actions: seq<Action>): (c': Refs)
    decreases |actions|
  {
    if actions == [] then c else Run(Step(c, actions[0]), actions[1..])
  }

  // ---- the invariant

  predicate Released(p: Phase) {
    p.Last? || p.NotLast? || p.Gone?
  }

  /** What the position of one exporter says about its guard, its reference and its release. */
  ghost predicate Fits(c: Refs, e: Eid) {
    && (e in c.guard <==> At(c, e, Adding) || At(c, e, Live) || At(c, e, Taken))
    && (e in c.holding <==> At(c, e, Live) || At(c, e, Taken) || At(c, e, Cleared))
    && (e in c.releases <==> e in c.phase && Released(c.phase[e]))
    && (e in c.releases ==> c.releases[e] == 1)
    && (At(c, e, Last) ==> e in c.zeroed && e in c.shutting)
    && (At(c, e, NotLast) ==> e !in c.zeroed && e in c.shutting)
    && (e in c.zeroed ==> At(c, e, Last) || At(c, e, Gone))
    && (e in c.flips ==> At(c, e, Gone) && e in c.zeroed && e in c.shutting)
    && (At(c, e, Gone) && e in c.zeroed && e in c.shutting ==> c.isShutdown)
  }

  ghost predicate Inv(c: Refs) {
    && (forall e: Eid :: Fits(c, e))
    && c.count == |c.holding|
    && |c.flips| == (if c.isShutdown then 1 else 0)
  }

  lemma HoldingSome(c: Refs, e: Eid)
    requires Inv(c) && e in c.holding
    ensures c.count >= 1
    ensures c.count == 1 ==> c.holding == {e}
  {
    assert c.holding == {e} + (c.holding - {e});
  }

  lemma FitsOther(c: Refs, a: Action, e: Eid)
    requires Fits(c, e) && e != a.e
    ensures Fits(Step(c, a), e)
  {
  }

  lemma FitsOwn(c: Refs, a: Action)
    requires Fits(c, a.e)
    requires a.Decrement? && At(c, a.e, Cleared) ==> c.count >= 1
    requires !c.isShutdown || |c.flips| == 1
    ensures Fits(Step(c, a), a.e)
  {
  }

  lemma StepInv(c: Refs, a: Action)
    requires Inv(c)
    ensures Inv(Step(c, a))
    ensures a.Decrement? && At(c, a.e, Cleared) ==> (Step(c, a).count == 0 <==> a.e in Step(c, a).zeroed)
  {
    var c' := Step(c, a);
    assert Fits(c, a.e);
    if a.Decrement? && c' != c { HoldingSome(c, a.e); }
    FitsOwn(c, a);
    forall e: Eid ensures Fits(c', e) {
      assert Fits(c, e);
      if e != a.e { FitsOther(c, a, e); }
    }
  }

  lemma {:induction false} RunInv(c: Refs, actions: seq<Action>)
    requires Inv(c)
    ensures Inv(Run(c, actions))
    decreases |actions|
  {
    if actions != [] {
      StepInv(c, actions[0]);
      RunInv(Step(c, actions[0]), actions[1..]);
    }
  }

  /**
   Every interleaving of building, shutting down and destroying any number of exporters: the count is the
   number of references held, an exporter has released once if it has left and not at all before, and at
   most one exporter turns the shutdown flag on, one that left by Shutdown and whose release hit zero.
   */
  lemma EveryInterleaving(actions: seq<Action>)
    ensures var c := Run(FRESH, actions);
            && c.count == |c.holding| >= 0
            && (forall e: Eid :: ReleasesOf(c, e) == if e in c.phase && Released(c.phase[e]) then 1 else 0)
            && |c.flips| <= 1
            && (c.isShutdown <==> |c.flips| == 1)
            && (forall e | e in c.flips :: e in c.zeroed && e in c.shutting)
  {
    assert Inv(FRESH);
    RunInv(FRESH, actions);
    var c := Run(FRESH, actions);
    forall e: Eid
      ensures ReleasesOf(c, e) == if e in c.phase && Released(c.phase[e]) then 1 else 0
      ensures e in c.flips ==> e in c.zeroed && e in c.shutting
    {
      assert Fits(c, e);
    }
  }

  // ---- a closed group of exporters

  predicate NoNewcomer(actions: seq<Action>) {
    forall a | a in actions :: !a.RaiseGuard?
  }

  /** What holds of a group once nobody is being added to it. */
  ghost predicate Closed(c: Refs) {
    && Inv(c)
    && (forall e | e in c.phase :: c.phase[e] != Adding)
    && (c.zeroed != [] ==> c.holding == {})
    && (c.holding == {} && c.releases != map[] ==> c.zeroed != [])
    && |c.zeroed| <= 1
  }

  lemma QuietStep(c: Refs, a: Action)
    requires !a.RaiseGuard? && !At(c, a.e, Adding)
    requires !(a.Decrement? && At(c, a.e, Cleared))
    ensures var c' := Step(c, a);
            c'.zeroed == c.zeroed && c'.holding == c.holding && c'.releases == c.releases
  {
  }

  lemma KeepsMembers(c: Refs, a: Action)
    requires !a.RaiseGuard?
    ensures Step(c, a).phase.Keys == c.phase.Keys
    ensures forall e | e in c.phase && Step(c, a).phase[e].Adding? :: c.phase[e].Adding?
  {
  }

  lemma ClosedStep(c: Refs, a: Action)
    requires Closed(c) && !a.RaiseGuard?
    ensures Closed(Step(c, a))
    ensures Step(c, a).phase.Keys == c.phase.Keys
  {
    StepInv(c, a);
    KeepsMembers(c, a);
    if a.Decrement? && At(c, a.e, Cleared) {
      ClosedRelease(c, a.e);
    } else {
      QuietStep(c, a);
    }
  }

  lemma ClosedRelease(c: Refs, e: Eid)
    requires Closed(c) && At(c, e, Cleared)
    ensures var c' := Step(c, Decrement(e));
            |c'.zeroed| <= 1 && (c'.zeroed != [] <==> c'.holding == {})
  {
    assert Fits(c, e);
    assert e in c.holding && c.zeroed == [];
    HoldingSome(c, e);
    assert |c.holding - {e}| == 0 ==> c.holding - {e} == {};
  }

  /**
   A group of exporters all built before the first leaves: the shutdown flag is on only when every
   reference has been given back; and once all have gone, it is on exactly when the exporter whose release
   was the last left by Shutdown rather than by its destructor.
   */
  lemma {:induction false} ClosedGroup(c: Refs, actions: seq<Action>)
    requires Closed(c) && NoNewcomer(actions) && c.phase != map[]
    ensures var c' := Run(c, actions);
            && Closed(c') && c'.phase.Keys == c.phase.Keys
            && (c'.isShutdown ==> c'.holding == {} && c'.count == 0)
            && ((forall e | e in c'.phase :: c'.phase[e] == Gone) ==>
                  |c'.zeroed| == 1 && (c'.isShutdown <==> c'.zeroed[0] in c'.shutting))
    decreases |actions|
  {
    if actions == [] {
      if c.isShutdown { assert Fits(c, c.flips[0]); }
      if forall e | e in c.phase :: c.phase[e] == Gone {
        AllGone(c);
      }
    } else {
      assert actions[0] in actions;
      ClosedStep(c, actions[0]);
      assert Step(c, actions[0]).phase != map[] by {
        assert Step(c, actions[0]).phase.Keys == c.phase.Keys;
        assert c.phase.Keys != {};
      }
      ClosedGroup(Step(c, actions[0]), actions[1..]);
    }
  }

  lemma AllGone(c: Refs)
    requires Closed(c) && c.phase != map[]
    requires forall e | e in c.phase :: c.phase[e] == Gone
    ensures |c.zeroed| == 1 && (c.isShutdown <==> c.zeroed[0] in c.shutting)
  {
    assert c.phase.Keys != {};
    var e :| e in c.phase;
    assert Fits(c, e) && e in c.releases;
    forall x: Eid ensures x !in c.holding { assert Fits(c, x); }
    assert c.holding == {};
    assert Fits(c, c.zeroed[0]);
    if c.isShutdown { assert Fits(c, c.flips[0]); }
  }

  lemma RunPrefix(c: Refs, a: Action, rest: seq<Action>)
    ensures Run(c, [a] + rest) == Run(Step(c, a), rest)
  {
    assert ([a] + rest)[1..] == rest;
  }

  lemma LastLeavesSteps()
    ensures Step(Step(Step(Step(Step(FRESH, RaiseGuard(0)), Increment(0)), Take(0, true)), LowerGuard(0)), Decrement(0))
            == Refs(map[0 := Last], {}, {}, map[0 := 1], [0], {0}, [], 0, false)
  {
    assert Step(FRESH, RaiseGuard(0)) == Refs(map[0 := Adding], {0}, {}, map[], [], {}, [], 0, false);
    assert Step(Step(FRESH, RaiseGuard(0)), Increment(0))
        == Refs(map[0 := Live], {0}, {0}, map[], [], {}, [], 1, false);
  }

  /** Exporter 0 is built and releases the only reference by Shutdown, but has not yet acted on the answer. */
  lemma LastLeaves()
    ensures Run(FRESH, [RaiseGuard(0), Increment(0), Take(0, true), LowerGuard(0), Decrement(0)])
            == Refs(map[0 := Last], {}, {}, map[0 := 1], [0], {0}, [], 0, false)
  {
    var a0, a1, a2, a3, a4 := RaiseGuard(0), Increment(0), Take(0, true), LowerGuard(0), Decrement(0);
    var c1 := Step(FRESH, a0);
    var c2 := Step(c1, a1);
    var c3 := Step(c2, a2);
    var c4 := Step(c3, a3);
    assert Step(c4, a4) == Refs(map[0 := Last], {}, {}, map[0 := 1], [0], {0}, [], 0, false) by {
      LastLeavesSteps();
    }
    RunPrefix(FRESH, a0, [a1, a2, a3, a4]);
    RunPrefix(c1, a1, [a2, a3, a4]);
    RunPrefix(c2, a2, [a3, a4]);
    RunPrefix(c3, a3, [a4]);
    RunPrefix(c4, a4, []);
    assert [a0, a1, a2, a3, a4] == [a0] + [a1, a2, a3, a4];
    assert [a1, a2, a3, a4] == [a1] + [a2, a3, a4];
    assert [a2, a3, a4] == [a2] + [a3, a4];
    assert [a3, a4] == [a3] + [a4];
    assert [a4] == [a4] + [];
  }

  /**
   With a newcomer the flag can come on while a reference is held: exporter 0 releases the last reference,
   exporter 1 takes a new one, exporter 0 then shuts the client down under it.
   */
  lemma NewcomerShutDown()
    ensures var c0 := Run(FRESH, [RaiseGuard(0), Increment(0), Take(0, true), LowerGuard(0), Decrement(0)]);
            var c := Run(c0, [RaiseGuard(1), Increment(1), Decide(0)]);
            c.isShutdown && At(c, 1, Live) && c.count == 1
  {
    LastLeaves();
    var c0 := Refs(map[0 := Last], {}, {}, map[0 := 1], [0], {0}, [], 0, false);
    NewcomerSteps(c0);
    var a5, a6, a7 := RaiseGuard(1), Increment(1), Decide(0);
    RunPrefix(c0, a5, [a6, a7]);
    RunPrefix(Step(c0, a5), a6, [a7]);
    RunPrefix(Step(Step(c0, a5), a6), a7, []);
    assert [a5, a6, a7] == [a5] + [a6, a7];
    assert [a6, a7] == [a6] + [a7];
    assert [a7] == [a7] + [];
  }

  lemma NewcomerSteps(c: Refs)
    requires At(c, 0, Last) && 1 !in c.phase && c.count == 0
    ensures var c' := Step(Step(Step(c, RaiseGuard(1)), Increment(1)), Decide(0));
            c'.isShutdown && At(c', 1, Live) && c'.count == 1
  {
    var c1 := Step(c, RaiseGuard(1));
    var c2 := Step(c1, Increment(1));
    assert At(c2, 0, Last) && At(c2, 1, Live);
  }

  // ---- newcomers, from every state

  lemma {:induction false} RunConcat(c: Refs, a: seq<Action>, b: seq<Action>)
    ensures Run(c, a + b) == Run(Run(c, a), b)
    decreases |a|
  {
    if a == [] {
      assert a + b == b;
    } else {
      assert (a + b)[1..] == a[1..] + b;
      RunConcat(Step(c, a[0]), a[1..], b);
    }
  }

  lemma ThreeSteps(c: Refs, a0: Action, a1: Action, a2: Action)
    ensures Run(c, [a0, a1, a2]) == Step(Step(Step(c, a0), a1), a2)
  {
    RunPrefix(c, a0, [a1, a2]);
    RunPrefix(Step(c, a0), a1, [a2]);
    RunPrefix(Step(Step(c, a0), a1), a2, []);
    assert [a0, a1, a2] == [a0] + [a1, a2] && [a1, a2] == [a1] + [a2] && [a2] == [a2] + [];
  }

  function Departure(e: Eid): seq<Action> {
    [Take(e, true), LowerGuard(e), Decrement(e)]
  }

  lemma TakeStep(c: Refs, e: Eid)
    requires Fits(c, e) && e in c.holding
    ensures var c' := Step(c, Take(e, true));
            && (At(c', e, Taken) || At(c', e, Cleared)) && c'.isShutdown == c.isShutdown
            && c'.holding == c.holding && c'.count == c.count && (At(c, e, Live) ==> e in c'.shutting)
  {
  }

  lemma LowerStep(c: Refs, e: Eid)
    requires Fits(c, e) && (At(c, e, Taken) || At(c, e, Cleared))
    ensures var c' := Step(c, LowerGuard(e));
            && At(c', e, Cleared) && c'.isShutdown == c.isShutdown && c'.holding == c.holding
            && c'.count == c.count && c'.shutting == c.shutting
  {
  }

  lemma DecrementStep(c: Refs, e: Eid)
    requires At(c, e, Cleared)
    ensures var c' := Step(c, Decrement(e));
            && c'.isShutdown == c.isShutdown && c'.holding == c.holding - {e}
            && (c.count <= 1 && e in c.shutting ==> At(c', e, Last))
  {
  }

  /** An exporter that holds a reference gives it back, and is the last if it shuts down alone. */
  lemma DepartureRun(c: Refs, e: Eid)
    requires Inv(c) && e in c.holding
    ensures var c' := Run(c, Departure(e));
            && Inv(c') && c'.holding == c.holding - {e} && c'.isShutdown == c.isShutdown
            && (c.holding == {e} && At(c, e, Live) ==> At(c', e, Last))
  {
    var c1 := Step(c, Take(e, true));
    assert Fits(c, e);
    TakeStep(c, e);
    StepInv(c, Take(e, true));
    var c2 := Step(c1, LowerGuard(e));
    assert Fits(c1, e);
    LowerStep(c1, e);
    StepInv(c1, LowerGuard(e));
    DecrementStep(c2, e);
    StepInv(c2, Decrement(e));
    ThreeSteps(c, Take(e, true), LowerGuard(e), Decrement(e));
    assert c.holding == {e} ==> c.count == 1;
  }

  lemma {:induction false} AllDepart(c: Refs) returns (actions: seq<Action>)
    requires Inv(c)
    ensures var c' := Run(c, actions); Inv(c') && c'.holding == {} && c'.isShutdown == c.isShutdown
    decreases c.holding
  {
    if c.holding == {} {
      actions := [];
    } else {
      var e :| e in c.holding;
      DepartureRun(c, e);
      var rest := AllDepart(Run(c, Departure(e)));
      actions := Departure(e) + rest;
      RunConcat(c, Departure(e), rest);
    }
  }

  lemma {:induction false} UnusedEid(used: set<Eid>) returns (e: Eid)
    ensures forall x | x in used :: x < e
    decreases used
  {
    if used == {} {
      e := 0;
    } else {
      var x :| x in used;
      var t := UnusedEid(used - {x});
      e := if t > x then t else x + 1;
      assert forall y | y in used :: y == x || y in used - {x};
    }
  }

  /** A new exporter is built. */
  lemma Arrival(c: Refs) returns (e: Eid, actions: seq<Action>)
    requires Inv(c)
    ensures var c' := Run(c, actions);
            && Inv(c') && e !in c.phase && At(c', e, Live) && c'.holding == c.holding + {e}
            && c'.isShutdown == c.isShutdown && forall x | x in c.phase :: At(c', x, c.phase[x])
  {
    e := UnusedEid(c.phase.Keys);
    var c1 := Step(c, RaiseGuard(e));
    StepInv(c, RaiseGuard(e));
    StepInv(c1, Increment(e));
    actions := [RaiseGuard(e)] + [Increment(e)];
    RunPrefix(c, RaiseGuard(e), [Increment(e)]);
    RunPrefix(c1, Increment(e), []);
    assert [Increment(e)] == [Increment(e)] + [];
  }

  /** Somebody is the last to leave and about to shut the client down. */
  lemma SomeoneLast(c: Refs) returns (e: Eid, actions: seq<Action>)
    requires Inv(c)
    ensures var c' := Run(c, actions); Inv(c') && At(c', e, Last)
  {
    var first := AllDepart(c);
    var c1 := Run(c, first);
    var second: seq<Action>;
    e, second := Arrival(c1);
    var c2 := Run(c1, second);
    assert c2.holding == {e};
    DepartureRun(c2, e);
    RunConcat(c, first, second);
    RunConcat(c, first + second, Departure(e));
    actions := first + second + Departure(e);
  }

  /** From every state newcomers can bring about a client that is shut down while a reference is held. */
  lemma NewcomersBreak(c: Refs) returns (actions: seq<Action>)
    requires Inv(c)
    ensures var c' := Run(c, actions); c'.isShutdown && c'.holding != {}
  {
    var last, first := SomeoneLast(c);
    var c1 := Run(c, first);
    var e, second := Arrival(c1);
    var c2 := Run(c1, second);
    assert At(c2, last, Last) && e in c2.holding;
    RunPrefix(c2, Decide(last), []);
    assert [Decide(last)] == [Decide(last)] + [];
    RunConcat(c, first, second);
    RunConcat(c, first + second, [Decide(last)]);
    actions := first + second + [Decide(last)];
  }

  /** The client is never shut down under a reference, whatever happens with or without newcomers. */
  ghost predicate Safe(c: Refs, newcomers: bool) {
    forall actions | newcomers || NoNewcomer(actions) :: Run(c, actions).isShutdown ==> Run(c, actions).holding == {}
  }

  /** For a group that is complete, having no newcomers is exactly what makes it safe. */
  lemma SafeExactly(c: Refs, newcomers: bool)
    requires Closed(c) && c.phase != map[]
    ensures Safe(c, newcomers) <==> !newcomers
  {
    if newcomers {
      var actions := NewcomersBreak(c);
    } else {
      forall actions | NoNewcomer(actions)
        ensures Run(c, actions).isShutdown ==> Run(c, actions).holding == {}
      {
        ClosedGroup(c, actions);
      }
    }
  }

  // ---- which newcomers are harmless

  /** Somebody has shut the client down or is about to. */
  ghost predicate Doomed(c: Refs) {
    c.isShutdown || exists e :: At(c, e, Last)
  }

  /** The step takes a reference to a client that is doomed. */
  ghost predicate TooLate(c: Refs, a: Action) {
    a.Increment? && At(c, a.e, Adding) && Doomed(c)
  }

  /** Whoever takes a reference takes it while nobody has decided to shut the client down. */
  ghost predicate Timely(c: Refs, actions: seq<Action>)
    decreases |actions|
  {
    actions == [] || (!TooLate(c, actions[0]) && Timely(Step(c, actions[0]), actions[1..]))
  }

  /** No reference is held to a client that is doomed. */
  ghost predicate Unharmed(c: Refs) {
    Doomed(c) ==> c.holding == {}
  }

  /** After the first `n` steps, and `e` acting on its answer, no reference is held to a client that is shut down. */
  ghost predicate SafeAt(c: Refs, actions: seq<Action>, n: nat, e: Eid)
    requires n <= |actions|
  {
    var d := Step(Run(c, actions[..n]), Decide(e));
    d.isShutdown ==> d.holding == {}
  }

  ghost predicate SafeRun(c: Refs, actions: seq<Action>) {
    forall n: nat, e: Eid | n <= |actions| :: SafeAt(c, actions, n, e)
  }

  lemma LastsOther(c: Refs, a: Action, e: Eid)
    requires At(Step(c, a), e, Last)
    ensures At(c, e, Last) || (a == Decrement(e) && At(c, e, Cleared) && c.count <= 1)
            || (a == LowerGuard(e) && At(c, e, Taken) && e !in c.guard)
  {
  }

  /** A step that makes the client doomed is the release of the only reference. */
  lemma DoomedBy(c: Refs, a: Action)
    requires Inv(c) && !Doomed(c) && Doomed(Step(c, a))
    ensures Step(c, a).holding == {}
  {
    var c' := Step(c, a);
    assert !c'.isShutdown;
    var e :| At(c', e, Last);
    LastsOther(c, a, e);
    assert Fits(c, e);
    HoldingSome(c, e);
    assert c.holding - {e} == {};
  }

  lemma UnharmedStep(c: Refs, a: Action)
    requires Inv(c) && Unharmed(c) && !TooLate(c, a)
    ensures Unharmed(Step(c, a))
  {
    if Doomed(Step(c, a)) {
      if Doomed(c) { NothingTaken(c, a); } else { DoomedBy(c, a); }
    }
  }

  lemma NothingTaken(c: Refs, a: Action)
    requires c.holding == {} && !(a.Increment? && At(c, a.e, Adding))
    ensures Step(c, a).holding == {}
  {
  }

  lemma UnharmedDecide(c: Refs, e: Eid)
    requires Unharmed(c)
    ensures var d := Step(c, Decide(e)); d.isShutdown ==> d.holding == {}
  {
  }

  lemma SafeLater(c: Refs, actions: seq<Action>, n: nat, e: Eid)
    requires 0 < n <= |actions|
    ensures SafeAt(c, actions, n, e) <==> SafeAt(Step(c, actions[0]), actions[1..], n - 1, e)
  {
    assert actions[..n] == [actions[0]] + actions[1..][..n - 1];
    RunPrefix(c, actions[0], actions[1..][..n - 1]);
  }

  /** A reference taken too late is held when the client is shut down. */
  lemma LateIsUnsafe(c: Refs, actions: seq<Action>) returns (e: Eid)
    requires actions != [] && TooLate(c, actions[0])
    ensures !SafeAt(c, actions, 1, e)
  {
    var a := actions[0];
    var d := Step(c, a);
    assert a.e in d.holding;
    assert actions[..1] == [a] + [];
    RunPrefix(c, a, []);
    if c.isShutdown {
      e := a.e;
    } else {
      e :| At(c, e, Last);
      assert At(d, e, Last);
    }
  }

  /**
   For every run, whatever newcomers it has: no reference is ever held to a client that is shut down, also when
   somebody acts on an answer at any moment, if and only if nobody takes a reference too late.
   */
  lemma {:induction false} SafeIfTimely(c: Refs, actions: seq<Action>)
    requires Inv(c) && Unharmed(c)
    ensures SafeRun(c, actions) <==> Timely(c, actions)
    decreases |actions|
  {
    forall e: Eid ensures SafeAt(c, actions, 0, e) {
      assert actions[..0] == [];
      UnharmedDecide(c, e);
    }
    if actions != [] {
      var d := Step(c, actions[0]);
      if TooLate(c, actions[0]) {
        var e := LateIsUnsafe(c, actions);
      } else {
        UnharmedStep(c, actions[0]);
        StepInv(c, actions[0]);
        SafeIfTimely(d, actions[1..]);
        SafeTail(c, actions);
      }
    }
  }

  lemma SafeTail(c: Refs, actions: seq<Action>)
    requires actions != [] && forall e: Eid :: SafeAt(c, actions, 0, e)
    ensures SafeRun(c, actions) <==> SafeRun(Step(c, actions[0]), actions[1..])
  {
    var d := Step(c, actions[0]);
    if SafeRun(c, actions) {
      forall n: nat, e: Eid | n <= |actions| - 1 ensures SafeAt(d, actions[1..], n, e) {
        SafeLater(c, actions, n + 1, e);
        assert SafeAt(c, actions, n + 1, e);
      }
    }
    if SafeRun(d, actions[1..]) {
      forall n: nat, e: Eid | n <= |actions| ensures SafeAt(c, actions, n, e) {
        if n > 0 {
          SafeLater(c, actions, n, e);
          assert SafeAt(d, actions[1..], n - 1, e);
        }
      }
    }
  }

  // ---- the operations as methods

  /** The steps of a whole AddReference, and of a whole RemoveReference. */
  function Built(c: Refs, e: Eid): Refs {
    Step(Step(c, RaiseGuard(e)), Increment(e))
  }

  function GivenBack(c: Refs, e: Eid): Refs {
    Step(Step(c, LowerGuard(e)), Decrement(e))
  }

  class ReferenceGuard {
    var hasValue: bool

    constructor ()
      ensures !hasValue
    {
      hasValue := false;
    }
  }

  class OtlpGrpcClient {
    var referenceCount: int
    var isShutdown: bool

    constructor ()
      ensures referenceCount == 0 && !isShutdown
    {
      referenceCount, isShutdown := 0, false;
    }

    /** Count and flag are those of the step system, and so is the guard of exporter `e`. */
    ghost predicate Agrees(c: Refs, e: Eid, guard: ReferenceGuard)
      reads this, guard
    {
      referenceCount == c.count && isShutdown == c.isShutdown && (guard.hasValue <==> e in c.guard) && Fits(c, e)
    }

    /** Counts each guard once, however often it is added. */
    method AddReference(guard: ReferenceGuard)
      modifies this`referenceCount, guard
      ensures guard.hasValue
      ensures referenceCount == old(referenceCount) + (if old(guard.hasValue) then 0 else 1)
      ensures forall c: Refs, e: Eid | old(Agrees(c, e, guard)) && e !in c.phase :: Agrees(Built(c, e), e, guard)
    {
      var had := guard.hasValue;
      guard.hasValue := true;
      if !had {
        referenceCount := referenceCount + 1;
      }
    }

    /** Uncounts each guard once; true exactly when no reference is left. */
    method RemoveReference(guard: ReferenceGuard) returns (noneLeft: bool)
      modifies this`referenceCount, guard
      ensures !guard.hasValue
      ensures referenceCount == old(referenceCount) - (if old(guard.hasValue) then 1 else 0)
      ensures noneLeft <==> referenceCount <= 0
      ensures forall c: Refs, e: Eid | old(Agrees(c, e, guard)) && At(c, e, Taken) && c.count > 0 ::
                Agrees(GivenBack(c, e), e, guard) && (e in c.shutting ==> (noneLeft <==> At(GivenBack(c, e), e, Last)))
    {
      var had := guard.hasValue;
      guard.hasValue := false;
      if had {
        var left := referenceCount;
        referenceCount := referenceCount - 1;
        return left <= 1;
      }
      return referenceCount <= 0;
    }

    /**
     Shutdown turns the flag on only when no reference is left; it cancels the running calls exactly when it did
     so itself.  In both cases it flushes, with the result `flushed`, and answers that.
     */
    method Shutdown(guard: ReferenceGuard, flushed: bool) returns (ok: bool, flipped: bool)
      modifies this, guard
      ensures !guard.hasValue
      ensures referenceCount == old(referenceCount) - (if old(guard.hasValue) then 1 else 0)
      ensures isShutdown <==> old(isShutdown) || referenceCount <= 0
      ensures flipped <==> isShutdown && !old(isShutdown)
      ensures ok <==> flushed
      ensures forall c: Refs, e: Eid
                | old(Agrees(c, e, guard)) && At(c, e, Taken) && c.count > 0 && e in c.shutting ::
                var c' := Step(GivenBack(c, e), Decide(e));
                c'.count == referenceCount && c'.isShutdown == isShutdown && (flipped <==> c'.flips == c.flips + [e])
    {
      var noneLeft := RemoveReference(guard);
      flipped := false;
      if noneLeft {
        flipped := !isShutdown;
        isShutdown := true;
      }
      ok := flushed;
    }
  }

  /** An exporter as a user of its guard: it gives its reference back once, by Shutdown or by its destructor. */
  class OtlpGrpcExporter {
    var client: OtlpGrpcClient?
    const guard: ReferenceGuard
    var isShutdown: bool

    ghost predicate Valid()
      reads this, guard
    {
      client != null <==> guard.hasValue
    }

    constructor (c: OtlpGrpcClient)
      modifies c`referenceCount
      ensures Valid() && client == c && fresh(guard) && !isShutdown
      ensures c.referenceCount == old(c.referenceCount) + 1
      ensures forall r: Refs, e: Eid | r.count == old(c.referenceCount) && r.isShutdown == old(c.isShutdown)
                                       && Fits(r, e) && e !in r.phase ::
                c.Agrees(Built(r, e), e, guard)
    {
      client, isShutdown := c, false;
      guard := new ReferenceGuard();
      new;
      c.AddReference(guard);
    }

    /** The first call hands on what the client answers; later ones find no client and answer true. */
    method Shutdown(flushed: bool) returns (ok: bool, flipped: bool)
      requires Valid()
      modifies this, guard, client
      ensures Valid() && client == null && isShutdown
      ensures old(client) != null ==>
                && old(client).referenceCount == old(client.referenceCount) - 1
                && (flipped <==> !old(client.isShutdown) && old(client).referenceCount <= 0)
      ensures old(client) == null ==> !flipped
      ensures ok <==> old(client) == null || flushed
      ensures old(client) != null ==>
                forall r: Refs, e: Eid | old(client.Agrees(r, e, guard)) && At(r, e, Live) && r.count > 0 ::
                  var r' := Step(GivenBack(Step(r, Take(e, true)), e), Decide(e));
                  && r'.count == old(client).referenceCount && r'.isShutdown == old(client).isShutdown
                  && (flipped <==> r'.flips == r.flips + [e])
    {
      isShutdown := true;
      var c := client;
      client := null;
      ok, flipped := true, false;
      if c != null {
        ok, flipped := c.Shutdown(guard, flushed);
      }
    }

    method Destroy()
      requires Valid()
      modifies this, guard, client
      ensures old(client) != null ==>
                && old(client).referenceCount == old(client.referenceCount) - 1
                && old(client).isShutdown == old(client.isShutdown)
      ensures !guard.hasValue
      ensures old(client) != null ==>
                forall r: Refs, e: Eid | old(client.Agrees(r, e, guard)) && At(r, e, Live) && r.count > 0 ::
                  var r' := GivenBack(Step(r, Take(e, false)), e);
                  r'.count == old(client).referenceCount && r'.isShutdown == old(client).isShutdown
    {
      if client != null {
        var noneLeft := client.RemoveReference(guard);
      }
    }
  }
}
