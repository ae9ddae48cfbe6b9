/**
 The OTLP/HTTP client as an object.  Its methods are the code's own bodies; wherever the code lets go
 of its locks, the caller passes the actions that other threads and the transport perform meanwhile.
 Each method's ghost result `done` names the run of the step system that the call performed.
 */
module HttpClient {
  import opened Common
  import opened HttpSessions
  import opened HttpFlush

  /**
   One pass through a wait: what others do, whether the wait was woken or timed out, what happens during the
   cleanup behind a timeout, and how long it took.
   */
  datatype Round = Round(during: seq<Action>, woken: bool, cleanup: seq<seq<Action>>, after: seq<Action>, elapsed: nat)

  /** Why a flush loop was left; `Waiting` when the given rounds ran out first. */
  datatype Flush = Waiting | Drained(ok: bool) | Reached(ok: bool) | Expired(ok: bool)

  const MAX_DURATION: int := 0x7FFF_FFFF_FFFF_FFFF

  // ---- what the loops see

  function FinishOf(c: Client, gap: seq<Action>): Client {
    var d := Run(c, gap);
    if d.batch != [] then Step(d, FinishOne(0)) else d
  }

  function Finishing(c: Client, gaps: seq<seq<Action>>): Client
    decreases |gaps|, |c.batch|
  {
    if gaps != [] then Finishing(FinishOf(c, gaps[0]), gaps[1..])
    else if c.batch != [] then Finishing(Step(c, FinishOne(0)), [])
    else c
  }

  /** The state behind a cleanup, given what happens before each FinishSession. */
  function CleanupOf(c: Client, gaps: seq<seq<Action>>): Client {
    Finishing(Step(c, SwapGc), gaps)
  }

  lemma FinishingNext(c: Client, gaps: seq<seq<Action>>, i: nat)
    requires i <= |gaps| && (i < |gaps| || c.batch != [])
    ensures Finishing(c, gaps[i..]) ==
            if i < |gaps| then Finishing(FinishOf(c, gaps[i]), gaps[i + 1..]) else Finishing(FinishOf(c, []), gaps[i..])
  {
    if i < |gaps| {
      assert gaps[i..][0] == gaps[i] && gaps[i..][1..] == gaps[i + 1..];
    } else {
      assert gaps[i..] == [] && Run(c, []) == c;
    }
  }

  /** The state after a round of a wait. */
  function AfterRound(c: Client, w: Round): Client {
    var d := Run(c, w.during);
    Run(if w.woken then d else CleanupOf(d, w.cleanup), w.after)
  }

  function AfterRounds(c: Client, rounds: seq<Round>, k: nat): Client
    requires k <= |rounds|
  {
    if k == 0 then c else AfterRound(AfterRounds(c, rounds, k - 1), rounds[k - 1])
  }

  function Elapsed(rounds: seq<Round>, k: nat): nat
    requires k <= |rounds|
  {
    if k == 0 then 0 else Elapsed(rounds, k - 1) + rounds[k - 1].elapsed
  }

  /** The state after the first `k` wake-ups of a wait. */
  function AfterWaits(c: Client, waits: seq<seq<Action>>, k: nat): Client
    requires k <= |waits|
  {
    if k == 0 then c else Run(AfterWaits(c, waits, k - 1), waits[k - 1])
  }

  /** Before each of the first `n` wake-ups more than `maxRunning` sessions are running. */
  ghost predicate ManyThrough(c: Client, waits: seq<seq<Action>>, maxRunning: nat, n: nat)
    requires n <= |waits|
  {
    forall k | 0 <= k < n :: |AfterWaits(c, waits, k).running| > maxRunning
  }

  lemma ManyFurther(c: Client, waits: seq<seq<Action>>, maxRunning: nat, n: nat)
    requires n < |waits| && ManyThrough(c, waits, maxRunning, n) && |AfterWaits(c, waits, n).running| > maxRunning
    ensures ManyThrough(c, waits, maxRunning, n + 1)
  {
  }

  /** And also after the last of them. */
  ghost predicate TooMany(c: Client, waits: seq<seq<Action>>, maxRunning: nat) {
    ManyThrough(c, waits, maxRunning, |waits|) && |AfterWaits(c, waits, |waits|).running| > maxRunning
  }

  /** The state after `k` cleanups in a row. */
  function AfterCleanups(c: Client, passes: seq<seq<seq<Action>>>, k: nat): Client
    requires k <= |passes|
  {
    if k == 0 then c else CleanupOf(AfterCleanups(c, passes, k - 1), passes[k - 1])
  }

  /** Each of the first `n` cleanups finds that the list has refilled. */
  ghost predicate RefilledThrough(c: Client, passes: seq<seq<seq<Action>>>, n: int)
    requires n <= |passes|
  {
    forall j | 0 < j <= n :: AfterCleanups(c, passes, j).gc != []
  }

  lemma RefilledFurther(c: Client, passes: seq<seq<seq<Action>>>, n: nat)
    requires n < |passes| && RefilledThrough(c, passes, n) && AfterCleanups(c, passes, n + 1).gc != []
    ensures RefilledThrough(c, passes, n + 1)
  {
  }

  ghost predicate NeverClean(c: Client, passes: seq<seq<seq<Action>>>) {
    RefilledThrough(c, passes, |passes|)
  }

  /** Round `k` began with something running and did not show the snapshot. */
  predicate KeptWaiting(c: Client, rounds: seq<Round>, k: nat, snapshot: nat)
    requires k < |rounds|
  {
    var d := AfterRounds(c, rounds, k);
    d.running != {} && !(rounds[k].woken && Run(d, rounds[k].during).finished >= snapshot)
  }

  /** The first `i` rounds all began within the budget and kept the flush waiting. */
  ghost predicate WentThrough(c: Client, rounds: seq<Round>, i: nat, snapshot: nat, budget: int)
    requires i <= |rounds|
  {
    forall k | 0 <= k < i :: Elapsed(rounds, k) < budget && KeptWaiting(c, rounds, k, snapshot)
  }

  lemma WentFurther(c: Client, rounds: seq<Round>, i: nat, snapshot: nat, budget: int)
    requires i < |rounds| && WentThrough(c, rounds, i, snapshot, budget)
    requires Elapsed(rounds, i) < budget && KeptWaiting(c, rounds, i, snapshot)
    ensures WentThrough(c, rounds, i + 1, snapshot, budget)
  {
  }

  /** The first `i` rounds all began with something running. */
  ghost predicate BusyThrough(c: Client, rounds: seq<Round>, i: nat)
    requires i <= |rounds|
  {
    forall k | 0 <= k < i :: AfterRounds(c, rounds, k).running != {}
  }

  lemma BusyFurther(c: Client, rounds: seq<Round>, i: nat)
    requires i < |rounds| && BusyThrough(c, rounds, i) && AfterRounds(c, rounds, i).running != {}
    ensures BusyThrough(c, rounds, i + 1)
  {
  }

  /** The reason for leaving the loop after `used` rounds. */
  predicate LeftFor(r: Flush, c: Client, rounds: seq<Round>, used: nat, snapshot: nat, budget: int)
    requires used <= |rounds|
  {
    var d := AfterRounds(c, rounds, used);
    match r
    case Waiting => used == |rounds| && Elapsed(rounds, used) < budget && d.running != {}
    case Drained(_) => Elapsed(rounds, used) < budget && d.running == {}
    case Reached(_) => used < |rounds| && Elapsed(rounds, used) < budget && d.running != {}
                       && rounds[used].woken && Run(d, rounds[used].during).finished >= snapshot
    case Expired(_) => Elapsed(rounds, used) >= budget
  }

  /** The state in which the loop is left. */
  function LeftIn(r: Flush, c: Client, rounds: seq<Round>, used: nat): Client
    requires used <= |rounds| && (r.Reached? ==> used < |rounds|)
  {
    var d := AfterRounds(c, rounds, used);
    if r.Reached? then Run(d, rounds[used].during) else d
  }

  class OtlpHttpClient {
    var running: set<Sid>
    var gc: seq<Sid>
    var started: nat
    var finished: nat
    var isShutdown: bool
    // Everything that is not a field of the client: threads' positions, handlers, callbacks, cells.
    var outside: Client

    function View(): Client
      reads this
    {
      outside.(running := running, gc := gc, started := started, finished := finished, isShutdown := isShutdown)
    }

    constructor ()
      ensures View() == FRESH
    {
      running, gc, started, finished, isShutdown, outside := {}, [], 0, 0, false, FRESH;
    }

    /** Other threads and the transport perform `env`. */
    method Interfere(env: seq<Action>)
      modifies this
      ensures View() == Run(old(View()), env)
    {
      var c := Run(View(), env);
      running, gc, started, finished, isShutdown, outside := c.running, c.gc, c.started, c.finished, c.isShutdown, c;
    }

    /** The first region of addSession: bind the handler and enter the running map. */
    method InsertSession(s: Sid)
      requires s in outside.created && s !in outside.added
      modifies this
      ensures View() == Step(old(View()), Insert(s))
    {
      running, outside := running + {s}, outside.(added := outside.added + {s});
    }

    method CountStarted(s: Sid)
      requires s in outside.added && s !in outside.counted
      modifies this
      ensures View() == Step(old(View()), Count(s))
    {
      started, outside := started + 1, outside.(counted := outside.counted + {s});
    }

    method SendRequest(s: Sid)
      requires s in outside.counted
      modifies this
      ensures View() == Step(old(View()), Send(s))
    {
      outside := outside.(sent := outside.sent + {s});
    }

    /** The running map gains the session before it is counted, and it is counted before it is sent. */
    method AddSession(s: Sid, gap1: seq<Action>, gap2: seq<Action>) returns (ghost done: seq<Action>)
      requires Inv(View()) && s in outside.created && s !in outside.added
      requires Insert(s) !in gap1 && Count(s) !in gap1
      modifies this
      ensures View() == Run(old(View()), done) && Inv(View())
      ensures done == [Insert(s)] + gap1 + [Count(s)] + gap2 + [Send(s)]
      ensures s in outside.sent
    {
      AddRun(View(), s, gap1, gap2);
      InsertSession(s);
      Interfere(gap1);
      CountStarted(s);
      Interfere(gap2);
      SendRequest(s);
      done := [Insert(s)] + gap1 + [Count(s)] + gap2 + [Send(s)];
      RunInv(old(View()), done);
    }

    /** Moves a running session to the cleanup list and counts it as finished; ignores any other session. */
    method ReleaseSession(s: Sid)
      modifies this`running, this`gc, this`finished
      ensures View() == ReleaseRegion(old(View()), s)
    {
      if s in running {
        gc := gc + [s];
        running := running - {s};
        finished := finished + 1;
      }
    }

    /** The handler that won the exchange: callback first, release last, others in between. */
    method Unbind(s: Sid, gap: seq<Action>) returns (ghost done: seq<Action>)
      requires Inv(View()) && s in outside.claims && s !in outside.reported && Release(s) !in gap
      modifies this
      ensures View() == Run(old(View()), done) && Inv(View())
      ensures done == [Callback(s)] + gap + [Release(s)]
      ensures s in outside.released && CallsOf(View(), s) == [old(outside.claims)[s]]
    {
      UnbindRun(View(), s, gap);
      var verdict := outside.claims[s];
      var prior := CallsOf(View(), s);
      outside := outside.(reported := outside.reported + {s}, cells := outside.cells[s := verdict],
                          calls := outside.calls[s := prior + [verdict]]);
      assert View() == Step(old(View()), Callback(s));
      Interfere(gap);
      ghost var c1 := View();
      outside := outside.(released := outside.released + {s});
      ReleaseSession(s);
      assert View() == Step(c1, Release(s));
      done := [Callback(s)] + gap + [Release(s)];
      RunInv(old(View()), done);
      assert OnceAt(View(), s);
    }

    /** One FinishSession call of a cleanup. */
    method FinishSession()
      requires outside.batch != []
      modifies this`outside
      ensures View() == Step(old(View()), FinishOne(0))
      ensures |outside.batch| < |old(outside.batch)|
    {
      var b := outside.batch;
      assert b[..0] + b[1..] == b[1..];
      outside := outside.(closed := outside.closed + [b[0]], batch := b[1..]);
    }

    /** Others act, then the next session of the batch, if there is one, is finished. */
    method FinishNext(gap: seq<Action>)
      modifies this
      ensures View() == FinishOf(old(View()), gap)
      ensures gap == [] && old(outside.batch) != [] ==> |outside.batch| < |old(outside.batch)|
    {
      Interfere(gap);
      if outside.batch != [] {
        FinishSession();
      }
    }

    /** Swaps the cleanup list out and finishes every session in it. */
    method CleanupLoop(gaps: seq<seq<Action>>) returns (more: bool)
      modifies this
      ensures View() == CleanupOf(old(View()), gaps)
      ensures more <==> gc != []
    {
      ghost var c0 := View();
      outside, gc := outside.(batch := outside.batch + gc), [];
      assert View() == Step(c0, SwapGc);
      var i := 0;
      assert gaps[0..] == gaps;
      while i < |gaps| || outside.batch != []
        invariant i <= |gaps|
        invariant CleanupOf(c0, gaps) == Finishing(View(), gaps[i..])
        decreases |gaps| - i, |outside.batch|
      {
        FinishingNext(View(), gaps, i);
        var gap := if i < |gaps| then gaps[i] else [];
        i := if i < |gaps| then i + 1 else i;
        FinishNext(gap);
      }
      assert gaps[i..] == [];
      more := gc != [];
    }

    /**
     A whole cleanup, and whether the list has refilled.  `gaps[i]` is what happens before the `i`-th FinishSession;
     a nested cleanup may be among it.
     */
    method CleanupGCSessions(gaps: seq<seq<Action>>) returns (more: bool, ghost done: seq<Action>)
      requires Inv(View())
      modifies this
      ensures View() == Run(old(View()), done) && Inv(View())
      ensures View() == CleanupOf(old(View()), gaps)
      ensures NoInserts(gaps) ==> NoInsert(done)
      ensures outside.batch == []
      ensures more <==> gc != []
      ensures NoInserts(gaps) && old(running) == {} ==> !more && running == {}
    {
      done := CleanupReach(View(), gaps);
      more := CleanupLoop(gaps);
    }

    /** Waits, one wake-up after the other, until no more than `maxRunning` sessions are running. */
    method AwaitRunning(maxRunning: nat, waits: seq<seq<Action>>)
      returns (drained: bool, ghost used: nat, ghost done: seq<Action>)
      requires Inv(View())
      modifies this
      ensures View() == Run(old(View()), done) && Inv(View())
      ensures used <= |waits| && View() == AfterWaits(old(View()), waits, used)
      ensures ManyThrough(old(View()), waits, maxRunning, used)
      ensures drained <==> |running| <= maxRunning
      ensures drained <==> !TooMany(old(View()), waits, maxRunning)
    {
      ghost var c0 := View();
      drained := |running| <= maxRunning;
      var i := 0;
      while !drained && i < |waits|
        invariant drained <==> |running| <= maxRunning
        invariant i <= |waits| && View() == AfterWaits(c0, waits, i)
        invariant ManyThrough(c0, waits, maxRunning, i)
      {
        ManyFurther(c0, waits, maxRunning, i);
        Interfere(waits[i]);
        drained := |running| <= maxRunning;
        i := i + 1;
      }
      used := i;
      done := WaitsReach(c0, waits, used);
    }

    /**
     Creates a session, whose shared result starts as a success; or refuses it, for a malformed URL or body or
     because the client is shut down, and calls the callback itself.  `told` is what it calls it with.
     */
    method CreateSession(s: Sid, wellFormed: bool, gap0: seq<Action>)
      returns (accepted: bool, told: seq<ExportResult>, ghost done: seq<Action>)
      requires Inv(View()) && s !in outside.created && Insert(s) !in gap0
      modifies this
      ensures View() == Run(old(View()), done) && Inv(View())
      ensures accepted <==> wellFormed && !old(isShutdown)
      ensures accepted ==> told == [] && done == [Create(s)] + gap0 && s in outside.created && s !in outside.added
      ensures accepted && gap0 == [] ==> outside.cells[s] == Success && CallsOf(View(), s) == []
      ensures !accepted ==> told == [Failure] && View() == old(View())
    {
      if !wellFormed || isShutdown {
        return false, [Failure], [];
      }
      ghost var c0 := View();
      outside := outside.(created := outside.created + {s}, cells := outside.cells[s := Success],
                          calls := outside.calls[s := []]);
      assert View() == Step(c0, Create(s));
      RunOne(c0, Create(s));
      RunInv(c0, [Create(s)]);
      NeverInserted(View(), s, gap0);
      Interfere(gap0);
      Append(c0, [Create(s)], gap0);
      accepted, told, done := true, [], [Create(s)] + gap0;
    }

    /** The wait, the cleanup behind it, and what else happens before the result is read. */
    method Settle(maxRunning: nat, waits: seq<seq<Action>>, gaps: seq<seq<Action>>, last: seq<Action>)
      returns (drained: bool, ghost seen: seq<Action>, ghost rest: seq<Action>)
      requires Inv(View())
      modifies this
      ensures View() == Run(old(View()), seen + rest) && Inv(View())
      ensures drained ==> |Run(old(View()), seen).running| <= maxRunning
      ensures drained <==> !TooMany(old(View()), waits, maxRunning)
    {
      ghost var used: nat;
      drained, used, seen := AwaitRunning(maxRunning, waits);
      ghost var c := View();
      var again: bool;
      ghost var cleaned: seq<Action>;
      again, cleaned := CleanupGCSessions(gaps);
      Interfere(last);
      rest := cleaned + last;
      RunConcat(c, cleaned, last);
      RunConcat(old(View()), seen, rest);
      RunInv(c, rest);
    }

    /**
     Exports session `s`; `maxRunning == 0` is the synchronous mode.  `drained` is the outcome of the wait
     for at most `maxRunning` running sessions; `told` is what the callback is told by the refusal of a request.
     */
    method Export(s: Sid, wellFormed: bool, maxRunning: nat, gap0: seq<Action>, gap1: seq<Action>, gap2: seq<Action>,
                  waits: seq<seq<Action>>, gaps: seq<seq<Action>>, last: seq<Action>)
      returns (r: ExportResult, accepted: bool, told: seq<ExportResult>, drained: bool, ghost done: seq<Action>)
      requires Inv(View()) && s !in outside.created
      requires Insert(s) !in gap0 && Insert(s) !in gap1 && Count(s) !in gap1
      modifies this
      ensures View() == Run(old(View()), done) && Inv(View())
      ensures accepted <==> wellFormed && !old(isShutdown)
      ensures !accepted ==> r == Failure && told == [r]
      ensures accepted ==> told == []
      ensures accepted ==> (drained <==> !TooMany(Run(old(View()), Adding(s, gap0, gap1, gap2)), waits, maxRunning))
      ensures accepted && !drained ==> r == Failure
      ensures accepted && drained && maxRunning > 0 ==> r == Success
      ensures accepted && drained && maxRunning == 0 ==>
                s in outside.released && s in outside.claims && r == outside.claims[s] && CallsOf(View(), s) == [r]
    {
      drained := false;
      ghost var c0 := View();
      accepted, told, done := CreateSession(s, wellFormed, gap0);
      if !accepted {
        r := Failure;
        return;
      }
      ghost var more := AddSession(s, gap1, gap2);
      RunConcat(c0, done, more);
      done := done + more;
      ghost var cAdded := View();
      AddedState(c0, s, gap0, gap1, gap2);
      ghost var seen: seq<Action>;
      ghost var rest: seq<Action>;
      drained, seen, rest := Settle(maxRunning, waits, gaps, last);
      RunConcat(c0, done, seen + rest);
      done := done + (seen + rest);
      if !drained {
        r := Failure;
      } else if maxRunning == 0 {
        SettledResult(cAdded, s, seen, rest);
        r := outside.cells[s];
      } else {
        r := Success;
      }
    }

    /**
     Waits for the sessions counted so far; see `Flush` for the ways out.  `used` rounds were waited through: each
     with time left, something running and the snapshot not seen; and the loop is left only for a reason.
     */
    method ForceFlush(timeout: int, first: seq<Action>, rounds: seq<Round>, last: seq<Action>)
      returns (r: Flush, ghost used: nat, ghost done: seq<Action>)
      requires Inv(View())
      modifies this
      ensures View() == Run(old(View()), done) && Inv(View())
      ensures !r.Waiting? ==> (r.ok <==> finished >= old(started))
      ensures r.Drained? || r.Reached? ==> r.ok
      ensures !r.Waiting? && r.ok && started == old(started) ==>
                && outside.counted == old(outside.counted) == outside.released
                && forall s | s in outside.counted :: |CallsOf(View(), s)| == 1
      ensures used <= |rounds|
      ensures var budget := if timeout <= 0 then 0x7FFF_FFFF_FFFF_FFFF else timeout;
              && WentThrough(Run(old(View()), first), rounds, used, old(started), budget)
              && LeftFor(r, Run(old(View()), first), rounds, used, old(started), budget)
      ensures r.Waiting? ==> View() == AfterRounds(Run(old(View()), first), rounds, used)
    {
      ghost var c0 := View();
      var snapshot := started;
      Interfere(first);
      ghost var c1 := View();
      var left := if timeout <= 0 then MAX_DURATION else timeout;
      RunInv(c0, first);
      r, used := WaitLoop(left, snapshot, rounds);
      ghost var waited := LoopReach(r, c1, rounds, used);
      done := first + waited;
      RunConcat(c0, first, waited);
      if r.Waiting? {
        return;
      }
      ghost var c2 := View();
      if r.Drained? { EmptyMeansFlushed(c0, done); }
      Interfere(last);
      RunLater(c2, last);
      RunConcat(c0, done, last);
      done := done + last;
      var ok := finished >= snapshot;
      r := match r case Drained(_) => Drained(ok) case Reached(_) => Reached(ok) case _ => Expired(ok);
      if ok && started == snapshot {
        FlushComplete(c0, done);
      }
    }

    /** The loop of a flush with `budget` to spend. */
    method WaitLoop(budget: int, snapshot: nat, rounds: seq<Round>)
      returns (r: Flush, ghost used: nat)
      modifies this
      ensures used <= |rounds|
      ensures WentThrough(old(View()), rounds, used, snapshot, budget)
      ensures LeftFor(r, old(View()), rounds, used, snapshot, budget)
      ensures View() == LeftIn(r, old(View()), rounds, used)
    {
      ghost var c0 := View();
      var left, i := budget, 0;
      while left > 0
        invariant i <= |rounds| && View() == AfterRounds(c0, rounds, i) && left == budget - Elapsed(rounds, i)
        invariant WentThrough(c0, rounds, i, snapshot, budget)
        decreases |rounds| - i
      {
        if running == {} {
          return Drained(true), i;
        }
        if i == |rounds| {
          return Waiting, i;
        }
        var reached := FlushRound(rounds[i], snapshot);
        if reached {
          return Reached(true), i;
        }
        WentFurther(c0, rounds, i, snapshot, budget);
        left := left - rounds[i].elapsed;
        i := i + 1;
      }
      return Expired(false), i;
    }

    /** One round of a flush; it stops in the middle when it is woken and sees the snapshot reached. */
    method FlushRound(w: Round, snapshot: nat) returns (reached: bool)
      modifies this
      ensures reached <==> w.woken && Run(old(View()), w.during).finished >= snapshot
      ensures View() == if reached then Run(old(View()), w.during) else AfterRound(old(View()), w)
    {
      Interfere(w.during);
      if !w.woken {
        var more := CleanupLoop(w.cleanup);
      } else if finished >= snapshot {
        return true;
      }
      Interfere(w.after);
      reached := false;
    }

    /**
     Shutdown: refuse new sessions, flush, cancel what is left (an arbitrary burst of events), clean up until a
     cleanup finds nothing new; `cleaned` says whether it got there within the given passes.  `cleanups` are the
     states behind the cleanups.
     */
    method Shutdown(timeout: int, first: seq<Action>, rounds: seq<Round>, last: seq<Action>, cancelled: seq<Action>,
                    passes: seq<(seq<seq<Action>>, seq<Round>)>)
      returns (r: Flush, cleaned: bool, ghost used: nat, ghost cleanups: seq<Client>, ghost done: seq<Action>)
      requires Inv(View())
      modifies this
      ensures View() == Run(old(View()), done) && Inv(View())
      ensures isShutdown
      ensures var c := Run(Step(old(View()), SetShutdown), first);
              var budget := if timeout <= 0 then 0x7FFF_FFFF_FFFF_FFFF else timeout;
              && used <= |rounds| && WentThrough(c, rounds, used, old(started), budget)
              && LeftFor(r, c, rounds, used, old(started), budget)
      ensures |cleanups| <= |passes| && forall k | 0 <= k < |cleanups| - 1 :: cleanups[k].gc != []
      ensures if cleaned then cleanups != [] && View() == cleanups[|cleanups| - 1]
              else |cleanups| == |passes| && forall k | 0 <= k < |cleanups| :: cleanups[k].gc != []
      ensures !r.Waiting? && r.ok ==> finished >= old(started)
      ensures cleaned ==> gc == [] && outside.batch == [] && multiset(outside.closed) == multiset(outside.released)
    {
      ghost var c0 := View();
      isShutdown := true;
      assert View() == Step(c0, SetShutdown);
      RunOne(c0, SetShutdown);
      RunInv(c0, [SetShutdown]);
      ghost var c1 := View();
      ghost var flushed: seq<Action>;
      r, used, flushed := ForceFlush(timeout, first, rounds, last);
      ghost var c2 := View();
      Interfere(cancelled);
      RunInv(c2, cancelled);
      ghost var cleaning: seq<Action>;
      cleaned, cleanups, cleaning := FinishCancelled(passes);
      RunConcat(c2, cancelled, cleaning);
      ghost var tail := cancelled + cleaning;
      RunLater(c2, tail);
      RunLater(c1, flushed);
      RunConcat(c1, flushed, tail);
      RunConcat(c0, [SetShutdown], flushed + tail);
      done := [SetShutdown] + (flushed + tail);
    }

    /** Cleans up, with a short flush behind each cleanup that has found something, until one has not. */
    method FinishCancelled(passes: seq<(seq<seq<Action>>, seq<Round>)>)
      returns (cleaned: bool, ghost cleanups: seq<Client>, ghost done: seq<Action>)
      requires Inv(View())
      modifies this
      ensures View() == Run(old(View()), done) && Inv(View())
      ensures |cleanups| <= |passes| && forall k | 0 <= k < |cleanups| - 1 :: cleanups[k].gc != []
      ensures if cleaned then gc == [] && outside.batch == [] && cleanups != [] && View() == cleanups[|cleanups| - 1]
              else |cleanups| == |passes| && forall k | 0 <= k < |cleanups| :: cleanups[k].gc != []
    {
      ghost var c0 := View();
      var more := true;
      var i := 0;
      cleanups, done := [], [];
      while more && i < |passes|
        invariant View() == Run(c0, done) && Inv(View())
        invariant !more ==> gc == [] && outside.batch == [] && cleanups != [] && View() == cleanups[|cleanups| - 1]
        invariant |cleanups| == i <= |passes|
        invariant forall k | 0 <= k < |cleanups| && (more || k < |cleanups| - 1) :: cleanups[k].gc != []
      {
        ghost var behind: Client;
        ghost var pass: seq<Action>;
        more, behind, pass := ShutdownPass(passes[i].0, passes[i].1);
        RunConcat(c0, done, pass);
        done := done + pass;
        cleanups := cleanups + [behind];
        i := i + 1;
      }
      cleaned := !more;
    }

    /** One cleanup, with a short flush behind it if the list has refilled; `behind` is the state in between. */
    method ShutdownPass(gaps: seq<seq<Action>>, rounds: seq<Round>)
      returns (more: bool, ghost behind: Client, ghost done: seq<Action>)
      requires Inv(View())
      modifies this
      ensures View() == Run(old(View()), done) && Inv(View())
      ensures behind == CleanupOf(old(View()), gaps) && (more <==> behind.gc != [])
      ensures !more ==> View() == behind && outside.batch == []
    {
      ghost var c0 := View();
      more, done := CleanupGCSessions(gaps);
      behind := View();
      if more {
        var again, rounded, waited := ForceFlush(1000, [], rounds, []);
        RunConcat(c0, done, waited);
        done := done + waited;
      }
    }

    /**
     The destructor's own part, after Shutdown.  `seen` is the state after the `waited` rounds it waited through,
     and `finishedAll` says whether it found nothing running there and a cleanup then found nothing new; if not,
     the given rounds or passes have run out.  What is promised rests on nobody inserting a session from that state
     on, which is certain exactly if `NobodyInserts`.
     */
    method Destroy(rounds: seq<Round>, passes: seq<seq<seq<Action>>>)
      returns (finishedAll: bool, ghost waited: nat, ghost seen: Client, ghost done: seq<Action>)
      requires Inv(View())
      modifies this
      ensures View() == Run(old(View()), done) && Inv(View())
      ensures finishedAll ==> seen.running == {} && gc == [] && outside.batch == []
      ensures waited <= |rounds| && seen == AfterRounds(old(View()), rounds, waited)
      ensures BusyThrough(old(View()), rounds, waited)
      ensures !finishedAll ==>
                if seen.running != {} then waited == |rounds| else NeverClean(seen, passes)
      ensures (forall w | w in rounds :: Quiet(w)) && QuietPasses(passes) ==> outside.added == old(outside.added)
      ensures finishedAll && (NobodyInserts(seen) || QuietPasses(passes)) ==>
                && running == {} && outside.added == seen.added
                && multiset(outside.closed) == multiset(outside.added)
                && (forall s | s in outside.added :: |CallsOf(View(), s)| == 1)
                && finished == started == |outside.added|
    {
      ghost var c0 := View();
      waited := WaitIdle(rounds);
      seen := View();
      done := RoundsReach(c0, rounds, waited);
      finishedAll := false;
      if running == {} {
        ghost var cleaning: seq<Action>;
        finishedAll, cleaning := CleanAll(passes);
        RunConcat(c0, done, cleaning);
        done := done + cleaning;
        if finishedAll && (NobodyInserts(seen) || QuietPasses(passes)) {
          StaysEmpty(seen, cleaning);
          Quiescent(View());
        }
      }
      if (forall w | w in rounds :: Quiet(w)) && QuietPasses(passes) { NoInsertAdded(c0, done); }
    }

    /** The destructor's wait for the running sessions. */
    method WaitIdle(rounds: seq<Round>) returns (ghost waited: nat)
      modifies this
      ensures waited <= |rounds| && View() == AfterRounds(old(View()), rounds, waited)
      ensures BusyThrough(old(View()), rounds, waited)
      ensures running != {} ==> waited == |rounds|
    {
      ghost var c0 := View();
      var i := 0;
      while running != {} && i < |rounds|
        invariant i <= |rounds| && View() == AfterRounds(c0, rounds, i)
        invariant BusyThrough(c0, rounds, i)
        decreases |rounds| - i
      {
        BusyFurther(c0, rounds, i);
        WaitRound(rounds[i]);
        i := i + 1;
      }
      waited := i;
    }

    /** Cleans up until a cleanup finds nothing new. */
    method CleanAll(passes: seq<seq<seq<Action>>>) returns (cleaned: bool, ghost done: seq<Action>)
      requires Inv(View())
      modifies this
      ensures View() == Run(old(View()), done) && Inv(View())
      ensures cleaned ==> gc == [] && outside.batch == []
      ensures cleaned <==> !NeverClean(old(View()), passes)
      ensures QuietPasses(passes) ==> NoInsert(done)
    {
      ghost var c0 := View();
      var more, i := true, 0;
      while more && i < |passes|
        invariant i <= |passes| && View() == AfterCleanups(c0, passes, i)
        invariant !more ==> gc == [] && i > 0
        invariant RefilledThrough(c0, passes, if more then i else i - 1)
      {
        more := CleanupLoop(passes[i]);
        if more { RefilledFurther(c0, passes, i); }
        i := i + 1;
      }
      cleaned := !more;
      done := CleanupsReach(c0, passes, i);
    }

    /** One wait of the destructor: a timeout is followed by a cleanup. */
    method WaitRound(w: Round)
      modifies this
      ensures View() == AfterRound(old(View()), w)
    {
      Interfere(w.during);
      if !w.woken {
        var more := CleanupLoop(w.cleanup);
      }
      Interfere(w.after);
    }
  }

  // ---- the runs behind them

  lemma Chained(c: Client, a: seq<Action>, b: seq<Action>)
    ensures Run(c, a + b) == Run(Run(c, a), b)
    ensures NoInsert(a) && NoInsert(b) ==> NoInsert(a + b)
  {
    RunConcat(c, a, b);
  }

  lemma FinishReach(c: Client, gap: seq<Action>) returns (done: seq<Action>)
    requires Inv(c)
    ensures Run(c, done) == FinishOf(c, gap) && Inv(FinishOf(c, gap))
    ensures NoInsert(gap) ==> NoInsert(done)
    ensures NoInsert(gap) && c.running == {} && c.gc == [] ==>
              FinishOf(c, gap).running == {} && FinishOf(c, gap).gc == []
  {
    var d := Run(c, gap);
    RunInv(c, gap);
    if NoInsert(gap) && c.running == {} && c.gc == [] { IdleGc(c, gap); }
    done := gap;
    if d.batch != [] {
      done := gap + [FinishOne(0)];
      Append(c, gap, [FinishOne(0)]);
      RunOne(d, FinishOne(0));
      FinishKeeps(d);
    }
  }

  lemma FinishKeeps(c: Client)
    ensures Step(c, FinishOne(0)).running == c.running && Step(c, FinishOne(0)).gc == c.gc
  {
  }

  lemma {:induction false} FinishingReach(c: Client, gaps: seq<seq<Action>>) returns (done: seq<Action>)
    requires Inv(c)
    ensures var c' := Finishing(c, gaps);
            && Run(c, done) == c' && Inv(c') && c'.batch == []
            && (NoInserts(gaps) ==> NoInsert(done))
            && (NoInserts(gaps) && c.running == {} && c.gc == [] ==> c'.running == {} && c'.gc == [])
    decreases |gaps|, |c.batch|
  {
    if gaps != [] {
      var first := FinishReach(c, gaps[0]);
      assert gaps[0] in gaps && forall g | g in gaps[1..] :: g in gaps;
      var rest := FinishingReach(FinishOf(c, gaps[0]), gaps[1..]);
      Chained(c, first, rest);
      done := first + rest;
    } else if c.batch != [] {
      StepInv(c, FinishOne(0));
      var rest := FinishingReach(Step(c, FinishOne(0)), []);
      RunOne(c, FinishOne(0));
      Chained(c, [FinishOne(0)], rest);
      done := [FinishOne(0)] + rest;
    } else {
      done := [];
    }
  }

  lemma CleanupReach(c: Client, gaps: seq<seq<Action>>) returns (done: seq<Action>)
    requires Inv(c)
    ensures var c' := CleanupOf(c, gaps);
            && Run(c, done) == c' && Inv(c') && c'.batch == []
            && (NoInserts(gaps) ==> NoInsert(done))
            && (NoInserts(gaps) && c.running == {} ==> c'.running == {} && c'.gc == [])
  {
    StepInv(c, SwapGc);
    var rest := FinishingReach(Step(c, SwapGc), gaps);
    RunOne(c, SwapGc);
    Chained(c, [SwapGc], rest);
    done := [SwapGc] + rest;
  }

  lemma RoundReach(c: Client, w: Round) returns (done: seq<Action>)
    requires Inv(c)
    ensures Run(c, done) == AfterRound(c, w) && Inv(AfterRound(c, w)) && (Quiet(w) ==> NoInsert(done))
  {
    done := w.during;
    RunInv(c, done);
    if !w.woken {
      var cleaned := CleanupReach(Run(c, w.during), w.cleanup);
      Chained(c, done, cleaned);
      done := done + cleaned;
    }
    Append(c, done, w.after);
    done := done + w.after;
  }

  lemma {:induction false} RoundsReach(c: Client, rounds: seq<Round>, k: nat) returns (done: seq<Action>)
    requires Inv(c) && k <= |rounds|
    ensures Run(c, done) == AfterRounds(c, rounds, k) && Inv(AfterRounds(c, rounds, k))
    ensures (forall w | w in rounds :: Quiet(w)) ==> NoInsert(done)
  {
    if k == 0 {
      done := [];
    } else {
      var first := RoundsReach(c, rounds, k - 1);
      assert rounds[k - 1] in rounds;
      var next := RoundReach(AfterRounds(c, rounds, k - 1), rounds[k - 1]);
      Chained(c, first, next);
      done := first + next;
    }
  }

  lemma LoopReach(r: Flush, c: Client, rounds: seq<Round>, used: nat) returns (done: seq<Action>)
    requires Inv(c) && used <= |rounds| && (r.Reached? ==> used < |rounds|)
    ensures Run(c, done) == LeftIn(r, c, rounds, used) && Inv(LeftIn(r, c, rounds, used))
  {
    done := RoundsReach(c, rounds, used);
    if r.Reached? {
      Append(c, done, rounds[used].during);
      done := done + rounds[used].during;
    }
  }

  lemma {:induction false} WaitsReach(c: Client, waits: seq<seq<Action>>, k: nat) returns (done: seq<Action>)
    requires Inv(c) && k <= |waits|
    ensures Run(c, done) == AfterWaits(c, waits, k) && Inv(AfterWaits(c, waits, k))
  {
    if k == 0 {
      done := [];
    } else {
      var first := WaitsReach(c, waits, k - 1);
      Append(c, first, waits[k - 1]);
      done := first + waits[k - 1];
    }
  }

  lemma {:induction false} CleanupsReach(c: Client, passes: seq<seq<seq<Action>>>, k: nat) returns (done: seq<Action>)
    requires Inv(c) && k <= |passes|
    ensures Run(c, done) == AfterCleanups(c, passes, k) && Inv(AfterCleanups(c, passes, k))
    ensures k > 0 ==> AfterCleanups(c, passes, k).batch == []
    ensures QuietPasses(passes) ==> NoInsert(done)
  {
    if k == 0 {
      done := [];
    } else {
      var first := CleanupsReach(c, passes, k - 1);
      assert passes[k - 1] in passes;
      var next := CleanupReach(AfterCleanups(c, passes, k - 1), passes[k - 1]);
      Chained(c, first, next);
      done := first + next;
    }
  }

  /** What an exporter does before it waits, with what others do in the gaps. */
  function Adding(s: Sid, gap0: seq<Action>, gap1: seq<Action>, gap2: seq<Action>): seq<Action> {
    [Create(s)] + gap0 + ([Insert(s)] + gap1 + [Count(s)] + gap2 + [Send(s)])
  }

  lemma AddedState(c: Client, s: Sid, gap0: seq<Action>, gap1: seq<Action>, gap2: seq<Action>)
    ensures Run(c, Adding(s, gap0, gap1, gap2))
         == Run(Run(c, [Create(s)] + gap0), [Insert(s)] + gap1 + [Count(s)] + gap2 + [Send(s)])
  {
    RunConcat(c, [Create(s)] + gap0, [Insert(s)] + gap1 + [Count(s)] + gap2 + [Send(s)]);
  }

  predicate NoInserts(gaps: seq<seq<Action>>) {
    forall g | g in gaps :: NoInsert(g)
  }

  /** Nobody inserts a session during the round. */
  predicate Quiet(w: Round) {
    NoInsert(w.during) && NoInserts(w.cleanup) && NoInsert(w.after)
  }

  predicate QuietPasses(passes: seq<seq<seq<Action>>>) {
    forall p | p in passes :: NoInserts(p)
  }

  /** The client is shut down and every session created has been inserted. */
  predicate NobodyInserts(c: Client) {
    c.isShutdown && c.created == c.added
  }

  lemma NobodyInsertsStep(c: Client, a: Action)
    requires NobodyInserts(c)
    ensures NobodyInserts(Step(c, a)) && Step(c, a).added == c.added
  {
  }

  lemma {:induction false} NobodyInsertsRun(c: Client, actions: seq<Action>)
    requires NobodyInserts(c)
    ensures Run(c, actions).added == c.added
    decreases |actions|
  {
    if actions != [] {
      NobodyInsertsStep(c, actions[0]);
      NobodyInsertsRun(Step(c, actions[0]), actions[1..]);
    }
  }

  /** That is exactly when no run can insert a session. */
  lemma InsertionOver(c: Client)
    requires Inv(c)
    ensures (forall actions :: Run(c, actions).added == c.added) <==> NobodyInserts(c)
  {
    if NobodyInserts(c) {
      forall actions ensures Run(c, actions).added == c.added { NobodyInsertsRun(c, actions); }
    } else {
      var s: Sid;
      if exists x :: x in c.created && x !in c.added {
        s :| s in c.created && s !in c.added;
      } else {
        assert c.created <= c.added <= c.created;
        s := FreshSid(c.created);
      }
      InsertRun(c, s);
      assert s in Run(c, [Create(s), Insert(s)]).added;
    }
  }

  lemma InsertRun(c: Client, s: Sid)
    requires s !in c.added && (s in c.created || !c.isShutdown)
    ensures s in Run(c, [Create(s), Insert(s)]).added
  {
    assert [Create(s), Insert(s)][1..] == [Insert(s)];
    RunOne(Step(c, Create(s)), Insert(s));
  }

  lemma StaysEmpty(c: Client, actions: seq<Action>)
    requires Inv(c) && (NobodyInserts(c) || NoInsert(actions)) && c.running == {}
    ensures Run(c, actions).added == c.added && Run(c, actions).running == {}
  {
    if NobodyInserts(c) { NobodyInsertsRun(c, actions); } else { NoInsertAdded(c, actions); }
    RunLater(c, actions);
  }

  lemma Append(c: Client, a: seq<Action>, b: seq<Action>)
    requires Inv(Run(c, a))
    ensures Run(c, a + b) == Run(Run(c, a), b) && Inv(Run(c, a + b))
  {
    RunConcat(c, a, b);
    RunInv(Run(c, a), b);
  }

  lemma RunOne(c: Client, a: Action)
    ensures Run(c, [a]) == Step(c, a)
  {
    assert [a][1..] == [];
  }

  /** With nothing running and nobody inserting, the cleanup list cannot refill. */
  lemma {:induction false} IdleGc(c: Client, actions: seq<Action>)
    requires Inv(c) && NoInsert(actions) && c.running == {} && c.gc == []
    ensures Run(c, actions).gc == [] && Run(c, actions).running == {}
    decreases |actions|
  {
    if actions != [] {
      var a := actions[0];
      assert a in actions;
      NoInsertStep(c, a);
      StepInv(c, a);
      if a.Release? { ReleaseInv(c, a.s); }
      IdleGc(Step(c, a), actions[1..]);
    }
  }

  /** Once nothing runs, the result of a session that was added is settled, whatever happens later. */
  lemma SettledResult(c: Client, s: Sid, seen: seq<Action>, rest: seq<Action>)
    requires Inv(c) && s in c.added && |Run(c, seen).running| == 0
    ensures var c' := Run(c, seen + rest);
            && s in c'.released && s in c'.claims && s in c'.cells
            && c'.cells[s] == c'.claims[s] && CallsOf(c', s) == [c'.cells[s]]
  {
    RunInv(c, seen);
    EmptyMeansReported(c, s, seen);
    RunConcat(c, seen, rest);
    RunLater(Run(c, seen), rest);
    RunInv(Run(c, seen), rest);
    assert OnceAt(Run(c, seen + rest), s);
  }

  /** A session's own exporter is the only one that inserts it. */
  lemma {:induction false} NeverInserted(c: Client, s: Sid, actions: seq<Action>)
    requires s in c.created && s !in c.added && Insert(s) !in actions
    ensures s in Run(c, actions).created && s !in Run(c, actions).added
    decreases |actions|
  {
    if actions != [] {
      assert actions[0] in actions;
      NeverInserted(Step(c, actions[0]), s, actions[1..]);
    }
  }

  lemma {:induction false} NeverCounted(c: Client, s: Sid, actions: seq<Action>)
    requires s in c.added && s !in c.counted && Count(s) !in actions
    ensures s in Run(c, actions).added && s !in Run(c, actions).counted
    decreases |actions|
  {
    if actions != [] {
      assert actions[0] in actions;
      NeverCounted(Step(c, actions[0]), s, actions[1..]);
    }
  }

  lemma {:induction false} NeverReleased(c: Client, s: Sid, actions: seq<Action>)
    requires s in c.claims && s in c.reported && s !in c.released && Release(s) !in actions
    ensures var c' := Run(c, actions);
            s in c'.reported && s !in c'.released && s in c'.claims && c'.claims[s] == c.claims[s]
    decreases |actions|
  {
    if actions != [] {
      assert actions[0] in actions;
      NeverReleased(Step(c, actions[0]), s, actions[1..]);
    }
  }

  lemma {:induction false} StaysCounted(c: Client, s: Sid, actions: seq<Action>)
    requires s in c.counted
    ensures s in Run(c, actions).counted
    decreases |actions|
  {
    if actions != [] {
      StaysCounted(Step(c, actions[0]), s, actions[1..]);
    }
  }

  lemma Extend(c: Client, a: seq<Action>, b: Action)
    ensures Run(c, a + [b]) == Step(Run(c, a), b)
  {
    RunConcat(c, a, [b]);
    RunOne(Run(c, a), b);
  }

  /** The run of addSession, with others acting between its three steps. */
  lemma AddRun(c: Client, s: Sid, gap1: seq<Action>, gap2: seq<Action>)
    requires s in c.created && s !in c.added && s !in c.counted && Insert(s) !in gap1 && Count(s) !in gap1
    ensures var c1 := Run(Step(c, Insert(s)), gap1);
            var c2 := Run(Step(c1, Count(s)), gap2);
            && s in c1.added && s !in c1.counted && s in c2.counted && s in Step(c2, Send(s)).sent
            && Run(c, [Insert(s)] + gap1 + [Count(s)] + gap2 + [Send(s)]) == Step(c2, Send(s))
  {
    var c0 := Step(c, Insert(s));
    var c1 := Run(c0, gap1);
    RunOne(c, Insert(s));
    NeverCounted(c0, s, gap1);
    RunConcat(c, [Insert(s)], gap1);
    Extend(c, [Insert(s)] + gap1, Count(s));
    RunConcat(c, [Insert(s)] + gap1 + [Count(s)], gap2);
    Extend(c, [Insert(s)] + gap1 + [Count(s)] + gap2, Send(s));
    StaysCounted(Step(c1, Count(s)), s, gap2);
  }

  /** The run of Unbind, with others acting between the callback and the release. */
  lemma UnbindRun(c: Client, s: Sid, gap: seq<Action>)
    requires s in c.claims && s !in c.reported && s !in c.released && Release(s) !in gap
    ensures var c1 := Run(Step(c, Callback(s)), gap);
            var c2 := Step(c1, Release(s));
            && s in c1.reported && s !in c1.released && s in c2.released
            && s in c2.claims && c2.claims[s] == c.claims[s]
            && Run(c, [Callback(s)] + gap + [Release(s)]) == c2
  {
    var c0 := Step(c, Callback(s));
    RunOne(c, Callback(s));
    NeverReleased(c0, s, gap);
    RunConcat(c, [Callback(s)], gap);
    Extend(c, [Callback(s)] + gap, Release(s));
  }
}
