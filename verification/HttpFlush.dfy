/**
 When a flush of the HTTP client can be overtaken by later sessions: the exact states from which no run can make
 it answer true with a session outstanding that was counted before it.
 */
module HttpFlush {
  import opened Common
  import opened HttpSessions

  /** Whatever happens, a flush started at `c` answers true only when all it waits for has been released. */
  ghost predicate KeepsFlushPromise(c: Client) {
    forall actions :: Run(c, actions).finished >= c.started ==> c.counted <= Run(c, actions).released
  }

  /** No session is on its way to the running map, and none can be created any more. */
  predicate NobodyComes(c: Client) {
    c.isShutdown && c.created == c.counted
  }

  lemma NobodyStep(c: Client, a: Action)
    requires NobodyComes(c) && c.counted <= c.added <= c.created
    ensures NobodyComes(Step(c, a)) && Step(c, a).counted == c.counted
  {
  }

  lemma {:induction false} NobodyRun(c: Client, actions: seq<Action>)
    requires Inv(c) && NobodyComes(c)
    ensures Run(c, actions).counted == c.counted
    decreases |actions|
  {
    if actions != [] {
      NobodyStep(c, actions[0]);
      StepInv(c, actions[0]);
      NobodyRun(Step(c, actions[0]), actions[1..]);
    }
  }

  function Completion(s: Sid): seq<Action> {
    [Send(s)] + Answered(s)
  }

  /** Only `s` is released, and nobody is created or counted. */
  ghost predicate Completes(c: Client, c': Client, done: set<Sid>) {
    && c'.released == c.released + done && c'.counted == c.counted && c'.created == c.created
    && c'.isShutdown == c.isShutdown
  }

  lemma OneStep(c: Client, a: Action, s: Sid)
    requires a == Send(s) || a == Callback(s) || (a.Deliver? && a.s == s)
    ensures var c' := Step(c, a);
            && c'.released == c.released && c'.counted == c.counted && c'.created == c.created
            && c'.isShutdown == c.isShutdown
  {
  }

  lemma AnsweredCompletes(c: Client, s: Sid)
    requires s in c.sent
    ensures Completes(c, Run(c, Answered(s)), {s})
  {
    var d := Deliver(s, Response(200, false, true, false));
    var c1 := Step(c, d);
    OneStep(c, d, s);
    assert s in c1.claims by { assert Verdict(d.ev) == [Success]; }
    var c2 := Step(c1, Callback(s));
    OneStep(c1, Callback(s), s);
    assert s in c2.reported;
    var c3 := Step(c2, Release(s));
    ReleaseStep(c2, s);
    var rest := [Callback(s), Release(s)];
    assert Answered(s)[1..] == rest && rest[1..] == [Release(s)];
    assert Run(c2, [Release(s)]) == c3;
    assert Run(c1, rest) == Run(c2, rest[1..]);
  }

  lemma ReleaseStep(c: Client, s: Sid)
    requires s in c.reported
    ensures Completes(c, Step(c, Release(s)), {s})
  {
  }

  /** Wherever a counted session stands, it can be brought to its end without any other. */
  lemma CompletionRun(c: Client, s: Sid)
    requires Inv(c) && s in c.counted
    ensures Completes(c, Run(c, Completion(s)), {s})
  {
    var c1 := Step(c, Send(s));
    StepInv(c, Send(s));
    AnsweredCompletes(c1, s);
    assert Completion(s)[1..] == Answered(s);
  }

  lemma {:induction false} CompleteAll(c: Client, todo: set<Sid>) returns (actions: seq<Action>)
    requires Inv(c) && todo <= c.counted
    ensures Completes(c, Run(c, actions), todo)
    decreases todo
  {
    if todo == {} {
      actions := [];
      assert c.released + todo == c.released;
    } else {
      var s :| s in todo;
      var c1 := Run(c, Completion(s));
      CompletionRun(c, s);
      RunInv(c, Completion(s));
      var rest := CompleteAll(c1, todo - {s});
      actions := Completion(s) + rest;
      RunConcat(c, Completion(s), rest);
      TakeOne(c.released, todo, s);
    }
  }

  lemma TakeOne(released: set<Sid>, todo: set<Sid>, s: Sid)
    requires s in todo
    ensures released + {s} + (todo - {s}) == released + todo
  {
  }

  lemma {:induction false} FreshSid(used: set<Sid>) returns (s: Sid)
    ensures forall x | x in used :: x < s
    decreases used
  {
    if used == {} {
      s := 0;
    } else {
      var x :| x in used;
      var t := FreshSid(used - {x});
      s := if t > x then t else x + 1;
      assert forall y | y in used :: y == x || y in used - {x};
    }
  }

  lemma EntryRun(c: Client, s: Sid)
    requires s !in c.counted && (s in c.created || !c.isShutdown)
    ensures var c' := Run(c, [Create(s), Insert(s), Count(s)]);
            c'.counted == c.counted + {s} && c'.released == c.released
  {
    var rest := [Insert(s), Count(s)];
    assert [Create(s), Insert(s), Count(s)][1..] == rest && rest[1..] == [Count(s)];
    var c1 := Step(c, Create(s));
    var c2 := Step(c1, Insert(s));
    assert s in c1.created && s in c2.added && c2.counted == c.counted;
    assert Run(c2, [Count(s)]) == Step(c2, Count(s));
    assert Run(c1, rest) == Run(c2, rest[1..]);
  }

  /** If anybody can still come, one session can come and finish before all others. */
  lemma Newly(c: Client) returns (s: Sid, actions: seq<Action>)
    requires Inv(c) && !NobodyComes(c)
    ensures s !in c.counted && Run(c, actions).released == c.released + {s}
  {
    if exists x :: x in c.created && x !in c.counted {
      s :| s in c.created && s !in c.counted;
    } else {
      assert c.created <= c.counted <= c.created;
      s := FreshSid(c.created);
    }
    var entry := [Create(s), Insert(s), Count(s)];
    EntryRun(c, s);
    RunInv(c, entry);
    var c1 := Run(c, entry);
    CompletionRun(c1, s);
    actions := entry + Completion(s);
    RunConcat(c, entry, Completion(s));
  }

  lemma Overtaken(c: Client, s0: Sid) returns (actions: seq<Action>)
    requires Inv(c) && !NobodyComes(c) && s0 in c.counted && s0 !in c.released
    ensures Run(c, actions).finished >= c.started && s0 !in Run(c, actions).released
  {
    var others := c.counted - {s0};
    var first := CompleteAll(c, others);
    var c1 := Run(c, first);
    RunInv(c, first);
    AllOthers(c.counted, c.released, s0);
    var s, second := Newly(c1);
    actions := first + second;
    RunConcat(c, first, second);
    RunInv(c1, second);
    Replaced(c.counted, s0, s);
  }

  lemma AllOthers(counted: set<Sid>, released: set<Sid>, s0: Sid)
    requires released <= counted && s0 !in released
    ensures released + (counted - {s0}) == counted - {s0}
  {
  }

  lemma Replaced(counted: set<Sid>, s0: Sid, s: Sid)
    requires s0 in counted && s !in counted
    ensures |counted - {s0} + {s}| == |counted|
  {
  }

  /**
   From a given state a flush keeps its promise in every run if and only if there is nothing to wait for, or
   the client is shut down and no exporter is between creating a session and counting it.
   */
  lemma FlushPromise(c: Client)
    requires Inv(c)
    ensures KeepsFlushPromise(c) <==> c.counted <= c.released || NobodyComes(c)
  {
    if c.counted <= c.released {
      forall actions ensures c.counted <= Run(c, actions).released { RunLater(c, actions); }
    } else if NobodyComes(c) {
      forall actions | Run(c, actions).finished >= c.started ensures c.counted <= Run(c, actions).released {
        NobodyRun(c, actions);
        RunInv(c, actions);
        FlushComplete(c, actions);
      }
    } else {
      var s0 :| s0 in c.counted && s0 !in c.released;
      var actions := Overtaken(c, s0);
    }
  }
}
