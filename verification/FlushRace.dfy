/**
 One exporting thread, the background flusher and callers of ForceFlush on the counters of the file
 backend.  `written` and `durable` count the records handed to the stream and the records flushed or
 closed; they are what the code's own counters are measured against.
 */
module FlushRace {

  /** Where the exporting thread stands; `n` is the number of records of the message in hand. */
  datatype Exporter = Idle | Rotated(n: nat) | Opened(n: nat) | Wrote(n: nat) | Counted

  /** Where the flusher stands; `Off` when no background thread runs. */
  datatype Flusher = Off | Top | Waited | Snapped(c: nat) | Exiting

  datatype Backend = Backend(
    flushCount: nat,
    background: bool,
    exporter: Exporter,
    flusher: Flusher,
    thread: bool,
    isOpen: bool,
    isShutdown: bool,
    recordCount: nat,
    flushedCount: nat,
    left: nat,
    written: nat,
    durable: nat,
    passes: nat)

  function Fresh(flushCount: nat, background: bool): Backend {
    Backend(flushCount, background, Idle, Off, false, false, false, 0, 0, 0, 0, 0, 0)
  }

  datatype Action =
    | BeginExport(n: nat, rotate: bool)
    | Open
    | Write
    | Count
    | Spawn
    | IdleExit
    | CheckShutdown
    | Snapshot
    | FlushRegion
    | Leave
    | SetShutdown

  /** The lock region behind fwrite: count, and flush when the budget of unflushed records is used up. */
  function CountRegion(b: Backend, n: nat): Backend {
    var c := b.(exporter := Counted, recordCount := b.recordCount + n);
    if b.flushCount == 0 then c
    else if b.left <= n then c.(left := b.flushCount, durable := b.written, flushedCount := c.recordCount)
    else c.(left := b.left - n)
  }

  function Step(b: Backend, a: Action): (b': Backend)
  {
    match a
    case BeginExport(n, rotate) =>
      if !b.exporter.Idle? then b
      else if rotate then b.(exporter := Rotated(n), isOpen := false, durable := b.written)
      else b.(exporter := Rotated(n))
    case Open =>
      if b.exporter.Rotated? then b.(exporter := Opened(b.exporter.n), isOpen := true) else b
    case Write =>
      if b.exporter.Opened? then b.(exporter := Wrote(b.exporter.n), written := b.written + b.exporter.n) else b
    case Count =>
      if b.exporter.Wrote? then CountRegion(b, b.exporter.n) else b
    case Spawn =>
      if !b.exporter.Counted? then b
      else if b.background && !b.thread && b.flusher.Off? then b.(exporter := Idle, thread := true, flusher := Top)
      else b.(exporter := Idle)
    case IdleExit =>
      if b.flusher.Top? then b.(flusher := Exiting) else b
    case CheckShutdown =>
      if b.flusher.Top? then b.(flusher := if b.isShutdown then Exiting else Waited) else b
    case Snapshot =>
      if b.flusher.Waited? then b.(flusher := Snapped(b.recordCount)) else b
    case FlushRegion =>
      if !b.flusher.Snapped? then b
      else b.(flusher := Top, flushedCount := b.flusher.c,
              durable := if b.isOpen then b.written else b.durable,
              passes := if b.isShutdown then b.passes + 1 else b.passes)
    case Leave =>
      if b.flusher.Exiting? then b.(flusher := Off, thread := false) else b
    case SetShutdown => b.(isShutdown := true)
  }

  function Run(b: Backend, actions: seq<Action>): (b': Backend)
    decreases |actions|
  {
    if actions == [] then b else Run(Step(b, actions[0]), actions[1..])
  }

  /** Records written and not yet counted. */
  function InHand(b: Backend): nat {
    if b.exporter.Wrote? then b.exporter.n else 0
  }

  /** The code's counters against what is written and what is durable. */
  ghost predicate Counters(b: Backend) {
    && b.written == b.recordCount + InHand(b)
    && b.durable <= b.written
    && b.flushedCount <= b.durable
    && (b.flusher.Snapped? ==> b.flusher.c <= b.recordCount)
    && (!b.isOpen ==> b.durable == b.written)
    && (b.exporter.Opened? || b.exporter.Wrote? ==> b.isOpen)
  }

  /** How many records may be written and not durable. */
  function Budget(b: Backend): int {
    InHand(b) + if b.left == 0 then 0 else b.flushCount - b.left
  }

  ghost predicate Budgeted(b: Backend) {
    b.flushCount > 0 ==> b.left <= b.flushCount && b.written - b.durable <= Budget(b)
  }

  ghost predicate Passes(b: Backend) {
    && (b.thread <==> !b.flusher.Off?)
    && b.passes <= 1
    && (!b.isShutdown ==> b.passes == 0)
    && (b.flusher.Waited? || b.flusher.Snapped? ==> b.passes == 0)
  }

  ghost predicate Inv(b: Backend) {
    Counters(b) && Budgeted(b) && Passes(b)
  }

  predicate ByExporter(a: Action) {
    a.BeginExport? || a.Open? || a.Write? || a.Count? || a.Spawn?
  }

  lemma CountersExporter(b: Backend, a: Action)
    requires Counters(b) && ByExporter(a)
    ensures Counters(Step(b, a))
    ensures b.durable <= Step(b, a).durable && b.recordCount <= Step(b, a).recordCount
  {
  }

  lemma CountersFlusher(b: Backend, a: Action)
    requires Counters(b) && !ByExporter(a)
    ensures Counters(Step(b, a))
    ensures b.durable <= Step(b, a).durable && b.recordCount <= Step(b, a).recordCount
  {
  }

  lemma BudgetedStep(b: Backend, a: Action)
    requires Counters(b) && Budgeted(b)
    ensures Budgeted(Step(b, a))
  {
    if a.Count? && b.exporter.Wrote? {
      BudgetedCount(b);
    } else {
      assert Step(b, a).left == b.left && Step(b, a).flushCount == b.flushCount;
    }
  }

  lemma BudgetedCount(b: Backend)
    requires Budgeted(b) && b.exporter.Wrote?
    ensures Budgeted(CountRegion(b, b.exporter.n))
  {
  }

  lemma PassesStep(b: Backend, a: Action)
    requires Passes(b)
    ensures Passes(Step(b, a))
    ensures Step(b, a).flushCount == b.flushCount
  {
  }

  lemma StepInv(b: Backend, a: Action)
    requires Inv(b)
    ensures Inv(Step(b, a))
    ensures b.durable <= Step(b, a).durable && b.recordCount <= Step(b, a).recordCount
    ensures Step(b, a).flushCount == b.flushCount
  {
    if ByExporter(a) { CountersExporter(b, a); } else { CountersFlusher(b, a); }
    BudgetedStep(b, a);
    PassesStep(b, a);
  }

  lemma {:induction false} RunInv(b: Backend, actions: seq<Action>)
    requires Inv(b)
    ensures var b' := Run(b, actions);
            Inv(b') && b.durable <= b'.durable && b.recordCount <= b'.recordCount && b'.flushCount == b.flushCount
    decreases |actions|
  {
    if actions != [] {
      StepInv(b, actions[0]);
      RunInv(Step(b, actions[0]), actions[1..]);
    }
  }

  /**
   Every interleaving of exports, flusher passes, thread exits and shutdown: the flushed counter never
   overstates what is durable, fewer than `flushCount` records are at risk between exports, and after
   shutdown the flusher makes at most one more pass.
   */
  lemma EveryInterleaving(flushCount: nat, background: bool, actions: seq<Action>)
    ensures var b := Run(Fresh(flushCount, background), actions);
            && b.flushedCount <= b.durable <= b.written
            && (flushCount > 0 && (b.exporter.Idle? || b.exporter.Counted?) ==> b.written - b.durable < flushCount)
            && b.passes <= 1
  {
    RunInv(Fresh(flushCount, background), actions);
  }

  lemma RunPrefix(b: Backend, a: Action, rest: seq<Action>)
    ensures Run(b, [a] + rest) == Run(Step(b, a), rest)
  {
    assert ([a] + rest)[1..] == rest;
  }

  const EXPORT_ONE: seq<Action> := [BeginExport(1, false), Open, Write, Count, Spawn]

  lemma ExportOneRun(b: Backend)
    requires b.exporter.Idle? && b.flushCount == 0
    ensures Run(b, EXPORT_ONE) ==
            var c := b.(isOpen := true, written := b.written + 1, recordCount := b.recordCount + 1);
            if b.background && !b.thread && b.flusher.Off? then c.(thread := true, flusher := Top) else c
  {
    var b1 := Step(b, BeginExport(1, false));
    var b2 := Step(b1, Open);
    var b3 := Step(b2, Write);
    var b4 := Step(b3, Count);
    FiveSteps(b, BeginExport(1, false), Open, Write, Count, Spawn);
  }

  lemma {:induction false} RunConcat(b: Backend, x: seq<Action>, y: seq<Action>)
    ensures Run(b, x + y) == Run(Run(b, x), y)
    decreases |x|
  {
    if x == [] {
      assert x + y == y;
    } else {
      assert (x + y)[1..] == x[1..] + y;
      RunConcat(Step(b, x[0]), x[1..], y);
    }
  }

  /** One record at a time, with a flush count and no background thread. */
  lemma ExportCounted(b: Backend)
    requires b.exporter.Idle? && b.flushCount > 0 && !b.background
    ensures var c := b.(isOpen := true, written := b.written + 1, recordCount := b.recordCount + 1);
            Run(b, EXPORT_ONE) ==
            if b.left <= 1
            then c.(left := b.flushCount, durable := b.written + 1, flushedCount := b.recordCount + 1)
            else c.(left := b.left - 1)
  {
    var b1 := Step(b, BeginExport(1, false));
    var b2 := Step(b1, Open);
    var b3 := Step(b2, Write);
    var b4 := Step(b3, Count);
    FiveSteps(b, BeginExport(1, false), Open, Write, Count, Spawn);
  }

  function Exports(k: nat): seq<Action> {
    if k == 0 then [] else Exports(k - 1) + EXPORT_ONE
  }

  /** `k` records exported, `flushed` of them flushed, and `r` since. */
  function Exported(flushCount: nat, k: nat, flushed: nat, r: nat): Backend
    requires r < flushCount
  {
    Backend(flushCount, false, Idle, Off, false, true, false, k, flushed, flushCount - r, k, flushed, 0)
  }

  lemma CadenceNext(flushCount: nat, k: nat, flushed: nat, r: nat)
    requires r < flushCount
    ensures Run(Exported(flushCount, k, flushed, r), EXPORT_ONE) ==
            if r + 1 < flushCount then Exported(flushCount, k + 1, flushed, r + 1)
            else Exported(flushCount, k + 1, k + 1, 0)
  {
    ExportCounted(Exported(flushCount, k, flushed, r));
  }

  lemma CadenceFirst(flushCount: nat)
    requires flushCount > 0
    ensures Run(Fresh(flushCount, false), Exports(1)) == Exported(flushCount, 1, 1, 0)
  {
    ExportCounted(Fresh(flushCount, false));
    assert Exports(0) + EXPORT_ONE == EXPORT_ONE;
  }

  /**
   When the exporter flushes on its own: at the first record and at every `flushCount`-th behind it, no more and no
   less.  `q` whole rounds and `r` further records behind the first make `q * flushCount + r + 1` records.
   */
  lemma {:induction false} Cadence(flushCount: nat, q: nat, r: nat)
    requires r < flushCount
    ensures Run(Fresh(flushCount, false), Exports(q * flushCount + r + 1))
         == Exported(flushCount, q * flushCount + r + 1, q * flushCount + 1, r)
    decreases q, r
  {
    var m := q * flushCount;
    var b0 := Fresh(flushCount, false);
    if r > 0 {
      Cadence(flushCount, q, r - 1);
      RunConcat(b0, Exports(m + r), EXPORT_ONE);
      CadenceNext(flushCount, m + r, m + 1, r - 1);
    } else if q > 0 {
      var before := (q - 1) * flushCount;
      assert m == before + flushCount;
      Cadence(flushCount, q - 1, flushCount - 1);
      RunConcat(b0, Exports(m), EXPORT_ONE);
      CadenceNext(flushCount, m, before + 1, flushCount - 1);
    } else {
      CadenceFirst(flushCount);
    }
  }

  /** A record written while the flusher takes its snapshot, after a first one was exported. */
  const STALE: seq<Action> := [CheckShutdown, BeginExport(1, false), Open, Write, Snapshot]

  lemma FirstExport()
    ensures Run(Fresh(1, true), EXPORT_ONE) == Backend(1, true, Idle, Top, true, true, false, 1, 1, 1, 1, 1, 0)
  {
    var b := Fresh(1, true);
    var b1 := Step(b, BeginExport(1, false));
    var b2 := Step(b1, Open);
    var b3 := Step(b2, Write);
    var b4 := Step(b3, Count);
    FiveSteps(b, BeginExport(1, false), Open, Write, Count, Spawn);
    assert b4 == Backend(1, true, Counted, Off, false, true, false, 1, 1, 1, 1, 1, 0);
  }

  lemma FiveSteps(b: Backend, a0: Action, a1: Action, a2: Action, a3: Action, a4: Action)
    ensures Run(b, [a0, a1, a2, a3, a4]) == Step(Step(Step(Step(Step(b, a0), a1), a2), a3), a4)
  {
    var b1 := Step(b, a0);
    var b2 := Step(b1, a1);
    var b3 := Step(b2, a2);
    RunPrefix(b, a0, [a1, a2, a3, a4]);
    RunPrefix(b1, a1, [a2, a3, a4]);
    RunPrefix(b2, a2, [a3, a4]);
    RunPrefix(b3, a3, [a4]);
    RunPrefix(Step(b3, a3), a4, []);
    assert [a0, a1, a2, a3, a4] == [a0] + [a1, a2, a3, a4];
    assert [a1, a2, a3, a4] == [a1] + [a2, a3, a4];
    assert [a2, a3, a4] == [a2] + [a3, a4];
    assert [a3, a4] == [a3] + [a4];
    assert [a4] == [a4] + [];
  }

  /** A stale store lowers the flushed counter: the snapshot of the flusher is older than the exporter's. */
  lemma StaleStore()
    ensures var b := Run(Fresh(1, true), EXPORT_ONE + STALE);
            && Step(b, Count).flushedCount == 2
            && Step(Step(b, Count), FlushRegion).flushedCount == 1
  {
    FirstExport();
    RunConcat(Fresh(1, true), EXPORT_ONE, STALE);
    var b := Run(Fresh(1, true), EXPORT_ONE);
    FiveSteps(b, CheckShutdown, BeginExport(1, false), Open, Write, Snapshot);
    assert Run(b, STALE) == Backend(1, true, Wrote(1), Snapped(1), true, true, false, 1, 1, 1, 2, 1, 0);
  }

  // ---- ForceFlush

  /** What happens during one pass of the wait loop, and how far the clock moves, in nanoseconds. */
  datatype Pass = Pass(beforeNotify: seq<Action>, during: seq<Action>, elapsed: int)

  datatype Exit = Reached | NoThread | Expired

  /** How a flush ends: why it left the loop, after how many passes, and in which state. */
  datatype Outcome = Outcome(why: Exit, passes: nat, end: Backend)

  /** What one pass takes off the timeout: the whole microseconds that went by, and never less than one. */
  function Cost(elapsed: int): (c: int)
    ensures c >= 1
    ensures elapsed >= 1000 ==> 1000 * c <= elapsed < 1000 * c + 1000
    ensures elapsed < 1000 ==> c == 1
  {
    if elapsed > 1000 then elapsed / 1000 else 1
  }

  /** The loop from pass `k` on, with `left` microseconds to go. */
  function Waits(b: Backend, left: int, target: nat, k: nat, env: nat -> Pass): Outcome
    decreases left + 1
  {
    if left < 0 then Outcome(Expired, k, b)
    else if b.flushedCount >= target then Outcome(Reached, k, b)
    else
      var b1 := Run(b, env(k).beforeNotify);
      if !b1.thread then Outcome(NoThread, k, b1)
      else Waits(Run(b1, env(k).during), left - Cost(env(k).elapsed), target, k + 1, env)
  }

  /** A flush called in state `b`; `first` happens between reading the record count and the loop. */
  function FlushOf(b: Backend, timeout: int, first: seq<Action>, env: nat -> Pass): Outcome {
    Waits(Run(b, first), timeout, b.recordCount, 0, env)
  }

  /** The state at the beginning of pass `k`, as long as the loop goes on. */
  function AtPass(b: Backend, k: nat, env: nat -> Pass): Backend {
    if k == 0 then b
    else Run(Run(AtPass(b, k - 1, env), env(k - 1).beforeNotify), env(k - 1).during)
  }

  function Spent(k: nat, env: nat -> Pass): (t: int)
    ensures t >= k
  {
    if k == 0 then 0 else Spent(k - 1, env) + Cost(env(k - 1).elapsed)
  }

  /** Pass `k` saw the counter below the target and the thread alive. */
  predicate Stuck(b: Backend, target: nat, k: nat, env: nat -> Pass) {
    var c := AtPass(b, k, env);
    c.flushedCount < target && Run(c, env(k).beforeNotify).thread
  }

  /**
   ForceFlush against any environment and any clock: the loop ends after at most `timeout + 1` passes.  True
   means that the counter reached the snapshot, and then the records counted at the call are durable, or that
   there was no background thread; false means that the time is used up and every pass saw neither.
   */
  method ForceFlush(start: Backend, timeout: int, first: seq<Action>, env: nat -> Pass)
    returns (ok: bool, why: Exit, passes: nat, end: Backend)
    requires Inv(start)
    ensures Outcome(why, passes, end) == FlushOf(start, timeout, first, env)
    ensures Inv(end)
    ensures ok <==> why != Expired
    ensures why == Reached ==> start.recordCount <= end.flushedCount && start.recordCount <= end.durable
    ensures why == NoThread ==> !end.thread && end.flusher.Off?
    ensures timeout >= 0 && !Stuck(Run(start, first), start.recordCount, 0, env) ==> ok
    ensures forall k | 0 <= k < passes :: Stuck(Run(start, first), start.recordCount, k, env)
    ensures if ok then Spent(passes, env) <= timeout else timeout < Spent(passes, env)
    ensures why == Reached ==> end == AtPass(Run(start, first), passes, env)
    ensures why == NoThread ==> end == Run(AtPass(Run(start, first), passes, env), env(passes).beforeNotify)
    ensures passes <= if timeout < 0 then 0 else timeout + 1
  {
    WaitsEnd(start, timeout, first, env);
    var target := start.recordCount;
    var left := timeout;
    var b := Run(start, first);
    ghost var b0 := b;
    passes := 0;
    while left >= 0
      invariant Going(b0, timeout, target, passes, env, b, left)
      invariant passes <= if timeout < 0 then 0 else timeout + 1
      decreases left
    {
      GoesOn(b0, timeout, target, passes, env, b, left);
      if b.flushedCount >= target {
        return true, Reached, passes, b;
      }
      var b1 := Run(b, env(passes).beforeNotify);
      if !b1.thread {
        return true, NoThread, passes, b1;
      }
      b := Run(b1, env(passes).during);
      left := left - Cost(env(passes).elapsed);
      passes := passes + 1;
    }
    return false, Expired, passes, b;
  }

  /** The loop stands before pass `k`, in state `b` with `left` microseconds to go, and every pass was stuck. */
  ghost predicate Going(b0: Backend, timeout: int, target: nat, k: nat, env: nat -> Pass, b: Backend, left: int) {
    && b == AtPass(b0, k, env) && left == timeout - Spent(k, env)
    && Waits(b0, timeout, target, 0, env) == Waits(b, left, target, k, env)
    && forall i | 0 <= i < k :: Stuck(b0, target, i, env)
  }

  /** What the next pass makes of it. */
  lemma GoesOn(b0: Backend, timeout: int, target: nat, k: nat, env: nat -> Pass, b: Backend, left: int)
    requires Going(b0, timeout, target, k, env, b, left) && left >= 0
    ensures k <= timeout
    ensures var b1 := Run(b, env(k).beforeNotify);
            if b.flushedCount >= target then Waits(b0, timeout, target, 0, env) == Outcome(Reached, k, b)
            else if !b1.thread then Waits(b0, timeout, target, 0, env) == Outcome(NoThread, k, b1)
            else Going(b0, timeout, target, k + 1, env, Run(b1, env(k).during), left - Cost(env(k).elapsed))
  {
  }

  lemma {:induction false} WaitsLaws(b: Backend, left: int, target: nat, k: nat, env: nat -> Pass)
    requires Inv(b)
    ensures var o := Waits(b, left, target, k, env);
            && Inv(o.end)
            && (o.why == Reached ==> target <= o.end.flushedCount && target <= o.end.durable)
            && (o.why == NoThread ==> !o.end.thread && o.end.flusher.Off?)
    decreases left + 1
  {
    if left >= 0 && b.flushedCount < target {
      RunInv(b, env(k).beforeNotify);
      var b1 := Run(b, env(k).beforeNotify);
      if b1.thread {
        RunInv(b1, env(k).during);
        WaitsLaws(Run(b1, env(k).during), left - Cost(env(k).elapsed), target, k + 1, env);
      }
    }
  }

  lemma WaitsEnd(start: Backend, timeout: int, first: seq<Action>, env: nat -> Pass)
    requires Inv(start)
    ensures var o := FlushOf(start, timeout, first, env);
            && Inv(o.end)
            && (o.why == Reached ==> start.recordCount <= o.end.flushedCount && start.recordCount <= o.end.durable)
            && (o.why == NoThread ==> !o.end.thread && o.end.flusher.Off?)
  {
    RunInv(start, first);
    WaitsLaws(Run(start, first), timeout, start.recordCount, 0, env);
  }

  // ---- when true means durable

  /** However the flush goes, true means that the records counted at the call are durable. */
  ghost predicate KeepsFlushPromise(b: Backend) {
    forall timeout: int, first: seq<Action>, env: nat -> Pass ::
      FlushOf(b, timeout, first, env).why != Expired ==> b.recordCount <= FlushOf(b, timeout, first, env).end.durable
  }

  /** The records are durable already, or the flusher is on its way to a flush that it cannot skip. */
  predicate Covered(b: Backend, target: nat) {
    target <= b.recordCount && (target <= b.durable || b.flusher.Waited? || b.flusher.Snapped?)
  }

  lemma CoveredStep(b: Backend, a: Action, target: nat)
    requires Inv(b) && Covered(b, target)
    ensures Covered(Step(b, a), target)
  {
    StepInv(b, a);
  }

  lemma {:induction false} CoveredRun(b: Backend, actions: seq<Action>, target: nat)
    requires Inv(b) && Covered(b, target)
    ensures Inv(Run(b, actions)) && Covered(Run(b, actions), target)
    decreases |actions|
  {
    if actions != [] {
      CoveredStep(b, actions[0], target);
      StepInv(b, actions[0]);
      CoveredRun(Step(b, actions[0]), actions[1..], target);
    }
  }

  lemma {:induction false} CoveredWaits(b: Backend, left: int, target: nat, k: nat, env: nat -> Pass)
    requires Inv(b) && Covered(b, target)
    ensures var o := Waits(b, left, target, k, env); o.why != Expired ==> target <= o.end.durable
    decreases left + 1
  {
    if left >= 0 && b.flushedCount < target {
      CoveredRun(b, env(k).beforeNotify, target);
      var b1 := Run(b, env(k).beforeNotify);
      if b1.thread {
        CoveredRun(b1, env(k).during, target);
        CoveredWaits(Run(b1, env(k).during), left - Cost(env(k).elapsed), target, k + 1, env);
      }
    }
  }

  /** The ways in which a flusher that is not about to flush can leave. */
  function Departure(b: Backend): seq<Action> {
    if b.flusher.Top? then [IdleExit] + [Leave] else [Leave]
  }

  lemma Departed(b: Backend)
    requires Passes(b) && !b.flusher.Waited? && !b.flusher.Snapped?
    ensures var b' := Run(b, Departure(b));
            !b'.thread && b'.durable == b.durable && b'.flushedCount == b.flushedCount
  {
    RunPrefix(b, IdleExit, [Leave]);
    RunPrefix(Step(b, IdleExit), Leave, []);
    RunPrefix(b, Leave, []);
    assert [Leave] == [Leave] + [];
  }

  /** Where there is no thread the flush answers true at once. */
  lemma ThreadlessFlush(b: Backend, timeout: int, first: seq<Action>, env: nat -> Pass)
    requires timeout >= 0 && env(0).beforeNotify == [] && !Run(b, first).thread
    ensures var o := FlushOf(b, timeout, first, env); o.why != Expired && o.end == Run(b, first)
  {
  }

  /**
   True means durable, in every run, if and only if the records are durable at the call or the flusher is past
   its checks for shutdown and idleness and has not flushed yet.
   */
  lemma FlushPromise(b: Backend)
    requires Inv(b)
    ensures KeepsFlushPromise(b) <==> b.recordCount <= b.durable || b.flusher.Waited? || b.flusher.Snapped?
  {
    if Covered(b, b.recordCount) {
      forall timeout: int, first: seq<Action>, env: nat -> Pass
        | FlushOf(b, timeout, first, env).why != Expired
        ensures b.recordCount <= FlushOf(b, timeout, first, env).end.durable
      {
        CoveredRun(b, first, b.recordCount);
        CoveredWaits(Run(b, first), timeout, b.recordCount, 0, env);
      }
    } else {
      Departed(b);
      var env := (k: nat) => Pass([], [], 0);
      ThreadlessFlush(b, 0, Departure(b), env);
      assert FlushOf(b, 0, Departure(b), env).end.durable == b.durable;
    }
  }

  /** Without a flush interval there never is a thread: the answer is true and nothing is durable. */
  lemma TrueWithoutThread(timeout: int, env: nat -> Pass)
    requires timeout >= 0 && env(0).beforeNotify == []
    ensures var b := Run(Fresh(0, false), EXPORT_ONE);
            var o := FlushOf(b, timeout, [], env);
            o.why != Expired && b.recordCount == 1 && o.end.durable == 0
  {
    ExportOneRun(Fresh(0, false));
    ThreadlessFlush(Run(Fresh(0, false), EXPORT_ONE), timeout, [], env);
  }

  lemma IdleFlushRun(b: Backend)
    requires b.flusher.Top? && !b.isShutdown && b.isOpen
    ensures Run(b, [CheckShutdown, Snapshot, FlushRegion, IdleExit]) ==
            b.(flusher := Exiting, flushedCount := b.recordCount, durable := b.written)
  {
    var b2 := Step(b, CheckShutdown);
    var b3 := Step(b2, Snapshot);
    var b4 := Step(b3, FlushRegion);
    RunPrefix(b, CheckShutdown, [Snapshot, FlushRegion, IdleExit]);
    RunPrefix(b2, Snapshot, [FlushRegion, IdleExit]);
    RunPrefix(b3, FlushRegion, [IdleExit]);
    RunPrefix(b4, IdleExit, []);
    assert [CheckShutdown, Snapshot, FlushRegion, IdleExit] == [CheckShutdown] + [Snapshot, FlushRegion, IdleExit];
    assert [Snapshot, FlushRegion, IdleExit] == [Snapshot] + [FlushRegion, IdleExit];
    assert [FlushRegion, IdleExit] == [FlushRegion] + [IdleExit];
    assert [IdleExit] == [IdleExit] + [];
  }

  /** A flush pass, after which the flusher finds that it has been idle and decides to leave. */
  const IDLE: seq<Action> := [CheckShutdown, Snapshot, FlushRegion, IdleExit]

  lemma IdleExited()
    ensures Run(Run(Fresh(0, true), EXPORT_ONE), IDLE)
         == Backend(0, true, Idle, Exiting, true, true, false, 1, 1, 0, 1, 1, 0)
  {
    ExportOneRun(Fresh(0, true));
    var b1 := Run(Fresh(0, true), EXPORT_ONE);
    assert b1 == Backend(0, true, Idle, Top, true, true, false, 1, 0, 0, 1, 0, 0);
    IdleFlushRun(b1);
  }

  /** A record exported while the flusher is leaving: the old thread is still registered, so none is spawned. */
  lemma ExportedLate()
    ensures Run(Backend(0, true, Idle, Exiting, true, true, false, 1, 1, 0, 1, 1, 0), EXPORT_ONE)
         == Backend(0, true, Idle, Exiting, true, true, false, 2, 1, 0, 2, 1, 0)
  {
    ExportOneRun(Backend(0, true, Idle, Exiting, true, true, false, 1, 1, 0, 1, 1, 0));
  }

  lemma LeftBehind(b: Backend)
    requires b.flusher.Exiting?
    ensures Run(b, [Leave]) == b.(flusher := Off, thread := false)
  {
    RunPrefix(b, Leave, []);
    assert [Leave] == [Leave] + [];
  }

  /** With a flush interval the same can happen: the idle flusher leaves over a record exported meanwhile. */
  lemma TrueAfterIdleExit(timeout: int, env: nat -> Pass)
    requires timeout >= 0 && env(0).beforeNotify == []
    ensures var b := Run(Run(Run(Fresh(0, true), EXPORT_ONE), IDLE), EXPORT_ONE);
            var o := FlushOf(b, timeout, [Leave], env);
            o.why != Expired && b.recordCount == 2 && o.end.durable == 1
  {
    IdleExited();
    ExportedLate();
    var b := Backend(0, true, Idle, Exiting, true, true, false, 2, 1, 0, 2, 1, 0);
    LeftBehind(b);
    ThreadlessFlush(b, timeout, [Leave], env);
  }
}
