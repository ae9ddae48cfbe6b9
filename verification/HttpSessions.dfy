/**
 The session manager of the OTLP/HTTP client as a step system.

 Every lock region and every atomic operation of the client and of its response handlers is one
 `Action`.  `Step` is total: an action that is not enabled leaves the state alone, so a `Run` over an
 arbitrary sequence of actions is an arbitrary interleaving of exporters, response events, flushes,
 cleanups and shutdown.
 */
module HttpSessions {
  import opened Common

  type Sid = nat

  datatype SessionState =
    | CreateFailed | SessionCreated | Destroyed | Connecting | ConnectFailed | Connected | Sending
    | SendFailed | ResponseSeen | SSLHandshakeFailed | TimedOut | NetworkError | ReadError | WriteError
    | Cancelled

  datatype Event =
    | Response(status: int, typed: bool, emptyBody: bool, parses: bool)
    | State(state: SessionState)

  /** A response with a success status whose body, if the caller wants it, can be parsed. */
  predicate Accepted(ev: Event) {
    ev.Response? && 200 <= ev.status < 300 && (ev.typed && !ev.emptyBody ==> ev.parses)
  }

  /** States that a request passes through on its way to a response. */
  predicate OnTheWay(x: SessionState) {
    x == SessionCreated || x == Connecting || x == Connected || x == Sending || x == ResponseSeen
  }

  /** The result an event tries to report, if it ends the request at all. */
  function Verdict(ev: Event): (r: seq<ExportResult>)
    ensures r == [Success] <==> Accepted(ev)
    ensures r == [] <==> ev.State? && OnTheWay(ev.state)
    ensures r == [] || r == [Success] || r == [Failure]
  {
    match ev
    case Response(status, typed, emptyBody, parses) =>
      if !(200 <= status <= 299) then [Failure]
      else if typed && !emptyBody && !parses then [Failure]
      else [Success]
    case State(s) =>
      if s in {CreateFailed, ConnectFailed, SendFailed, SSLHandshakeFailed, TimedOut, NetworkError, Destroyed,
               ReadError, WriteError, Cancelled}
      then [Failure] else []
  }

  /**
   `created`, `added`, `counted` and `sent` record how far the exporting threads have taken each
   session; `claims` holds the verdict that won the exchange on `stopping_`, `reported` the sessions
   whose callback has run, `released` those whose handler has been through ReleaseSession.  `cells`
   are the results synchronous exports share with their callbacks; each starts as `Success`.
   `running`, `gc`, `started`, `finished` and `isShutdown` are the client's own fields; `batch` is what
   cleanups have swapped out of `gc` and not yet finished, `closed` the sessions on which a cleanup
   has called FinishSession, `calls` what each result callback has been called with.
   */
  datatype Client = Client(
    created: set<Sid>,
    added: set<Sid>,
    counted: set<Sid>,
    sent: set<Sid>,
    claims: map<Sid, ExportResult>,
    reported: set<Sid>,
    released: set<Sid>,
    cells: map<Sid, ExportResult>,
    running: set<Sid>,
    gc: seq<Sid>,
    batch: seq<Sid>,
    closed: seq<Sid>,
    calls: map<Sid, seq<ExportResult>>,
    started: nat,
    finished: nat,
    isShutdown: bool)

  const FRESH := Client({}, {}, {}, {}, map[], {}, {}, map[], {}, [], [], [], map[], 0, 0, false)

  datatype Action =
    | Create(s: Sid)
    | Insert(s: Sid)
    | Count(s: Sid)
    | Send(s: Sid)
    | Deliver(s: Sid, ev: Event)
    | Callback(s: Sid)
    | Release(s: Sid)
    | SwapGc
    | FinishOne(i: nat)
    | SetShutdown

  /** The results the callback of session `s` was called with. */
  function CallsOf(c: Client, s: Sid): seq<ExportResult> {
    if s in c.calls then c.calls[s] else []
  }

  /** ReleaseSession: one region under the manager lock. */
  function ReleaseRegion(c: Client, s: Sid): Client {
    if s in c.running
    then c.(running := c.running - {s}, gc := c.gc + [s], finished := c.finished + 1)
    else c
  }

  function Step(c: Client, a: Action): (c': Client)
  {
    match a
    case Create(s) =>
      if c.isShutdown || s in c.created then c
      else c.(created := c.created + {s}, cells := c.cells[s := Success], calls := c.calls[s := []])
    case Insert(s) =>
      if s in c.created && s !in c.added
      then c.(added := c.added + {s}, running := c.running + {s}) else c
    case Count(s) =>
      if s in c.added && s !in c.counted
      then c.(counted := c.counted + {s}, started := c.started + 1) else c
    case Send(s) =>
      if s in c.counted then c.(sent := c.sent + {s}) else c
    case Deliver(s, ev) =>
      if s in c.sent && Verdict(ev) != [] && s !in c.claims
      then c.(claims := c.claims[s := Verdict(ev)[0]]) else c
    case Callback(s) =>
      if s in c.claims && s !in c.reported
      then c.(reported := c.reported + {s}, cells := c.cells[s := c.claims[s]], 
              calls := c.calls[s := CallsOf(c, s) + [c.claims[s]]])
      else c
    case Release(s) =>
      if s in c.reported && s !in c.released
      then ReleaseRegion(c.(released := c.released + {s}), s) else c
    case SwapGc => c.(gc := [], batch := c.batch + c.gc)
    case FinishOne(i) =>
      if i < |c.batch|
      then c.(batch := c.batch[..i] + c.batch[i + 1..], closed := c.closed + [c.batch[i]]) else c
    case SetShutdown => c.(isShutdown := true)
  }

  function Run(c: Client, actions: seq<Action>): (c': Client)
    decreases |actions|
  {
    if actions == [] then c else Run(Step(c, actions[0]), actions[1..])
  }

  lemma {:induction false} RunConcat(c: Client, a: seq<Action>, b: seq<Action>)
    ensures Run(c, a + b) == Run(Run(c, a), b)
    decreases |a|
  {
    if a == [] {
      assert a + b == b;
    } else {
      assert (a + b)[1..] == a[1..] + b;
      RunConcat(Step(c, a[0]), a[1..], b);
    }
  }

  // ---- the invariant

  /** Where the released sessions are: waiting, being finished, or finished. */
  function Discarded(c: Client): multiset<Sid> {
    multiset(c.gc) + multiset(c.batch) + multiset(c.closed)
  }

  /** The order of the steps each session goes through. */
  ghost predicate Ordered(c: Client) {
    c.released <= c.reported <= c.claims.Keys <= c.sent <= c.counted <= c.added <= c.created <= c.cells.Keys
  }

  /** Callback and cell of one session: one call if it is reported, carrying the verdict that won. */
  ghost predicate OnceAt(c: Client, s: Sid) {
    && CallsOf(c, s) == (if s in c.reported && s in c.claims then [c.claims[s]] else [])
    && (s in c.reported && s in c.claims ==> s in c.cells && c.cells[s] == c.claims[s])
  }

  ghost predicate Inv(c: Client) {
    && Ordered(c)
    && (forall s: Sid :: OnceAt(c, s))
    && c.running == c.added - c.released
    && c.started == |c.counted|
    && c.finished == |c.released|
    && Discarded(c) == multiset(c.released)
  }

  lemma StageInv(c: Client, a: Action)
    requires Inv(c)
    requires a.Create? || a.Insert? || a.Count? || a.Send? || a.Deliver? || a.SetShutdown?
    ensures Inv(Step(c, a))
  {
    var c' := Step(c, a);
    StageOrdered(c, a);
    forall t: Sid ensures OnceAt(c', t) {
      assert OnceAt(c, t);
      StageOnce(c, a, t);
    }
    StageSets(c, a);
  }

  /** What the set of running sessions and the counters have to do with the stages. */
  ghost predicate Counted(c: Client) {
    c.released <= c.added && c.running == c.added - c.released && c.started == |c.counted|
  }

  lemma StageSets(c: Client, a: Action)
    requires a.Create? || a.Insert? || a.Count? || a.Send? || a.Deliver? || a.SetShutdown?
    requires Counted(c)
    ensures var c' := Step(c, a);
            && Counted(c') && c'.released == c.released && c'.finished == c.finished
            && c'.gc == c.gc && c'.batch == c.batch && c'.closed == c.closed
  {
    StageFields(c, a);
    if a.Insert? { InsertCounted(c, a.s); } else if a.Count? { CountCounted(c, a.s); }
  }

  /** Which fields these steps touch. */
  lemma StageFields(c: Client, a: Action)
    requires a.Create? || a.Insert? || a.Count? || a.Send? || a.Deliver? || a.SetShutdown?
    ensures var c' := Step(c, a);
            && c'.released == c.released && c'.finished == c.finished && c'.gc == c.gc && c'.batch == c.batch
            && c'.closed == c.closed
            && (!a.Insert? ==> c'.added == c.added && c'.running == c.running)
            && (!a.Count? ==> c'.counted == c.counted && c'.started == c.started)
  {
  }

  lemma InsertCounted(c: Client, s: Sid)
    requires Counted(c)
    ensures Counted(Step(c, Insert(s)))
  {
    if s !in c.added { Newcomer(c.added, c.released, s); }
  }

  lemma CountCounted(c: Client, s: Sid)
    requires Counted(c)
    ensures Counted(Step(c, Count(s)))
  {
    if s !in c.counted { OneMoreCounted(c.counted, s); }
  }

  lemma OneMoreCounted(counted: set<Sid>, s: Sid)
    requires s !in counted
    ensures |counted + {s}| == |counted| + 1
  {
  }

  lemma Newcomer(added: set<Sid>, released: set<Sid>, s: Sid)
    requires released <= added && s !in added
    ensures added + {s} - released == added - released + {s}
  {
  }

  lemma StageOrdered(c: Client, a: Action)
    requires Ordered(c)
    requires a.Create? || a.Insert? || a.Count? || a.Send? || a.Deliver? || a.SetShutdown?
    ensures Ordered(Step(c, a))
  {
  }

  lemma StageOnce(c: Client, a: Action, t: Sid)
    requires Ordered(c) && OnceAt(c, t)
    requires a.Create? || a.Insert? || a.Count? || a.Send? || a.Deliver? || a.SetShutdown?
    ensures OnceAt(Step(c, a), t)
  {
  }

  lemma CallbackInv(c: Client, s: Sid)
    requires Inv(c)
    ensures Inv(Step(c, Callback(s)))
  {
    var c' := Step(c, Callback(s));
    if c' != c {
      assert Discarded(c') == Discarded(c);
      forall t: Sid ensures OnceAt(c', t) { assert OnceAt(c, t); }
    }
  }

  /** A handler that releases always finds its session in the running map. */
  lemma ReleaseInv(c: Client, s: Sid)
    requires Inv(c)
    ensures Inv(Step(c, Release(s)))
    ensures s in c.reported && s !in c.released ==> s in c.running
  {
    var c' := Step(c, Release(s));
    if c' != c {
      assert multiset(c'.gc) == multiset(c.gc) + multiset{s};
      assert multiset(c'.released) == multiset(c.released) + multiset{s};
      forall t: Sid ensures OnceAt(c', t) { assert OnceAt(c, t); }
    }
  }

  lemma RemoveAt(q: seq<Sid>, i: nat)
    requires i < |q|
    ensures multiset(q[..i] + q[i + 1..]) + multiset{q[i]} == multiset(q)
  {
    assert q == q[..i] + [q[i]] + q[i + 1..];
  }

  lemma Moved(gc: seq<Sid>, batch: seq<Sid>, closed: seq<Sid>, i: nat)
    requires i < |batch|
    ensures multiset(gc) + multiset(batch[..i] + batch[i + 1..]) + multiset(closed + [batch[i]])
         == multiset(gc) + multiset(batch) + multiset(closed)
  {
    RemoveAt(batch, i);
    var rest, one := multiset(batch[..i] + batch[i + 1..]), multiset{batch[i]};
    assert multiset(closed + [batch[i]]) == multiset(closed) + one;
    assert multiset(gc) + rest + (multiset(closed) + one) == multiset(gc) + (rest + one) + multiset(closed);
  }

  lemma Swapped(gc: seq<Sid>, batch: seq<Sid>, closed: seq<Sid>)
    ensures var none: seq<Sid> := [];
            (multiset(none) + multiset(batch + gc) + multiset(closed)
             == multiset(gc) + multiset(batch) + multiset(closed))
  {
    assert multiset(batch + gc) == multiset(batch) + multiset(gc);
  }

  lemma CleanupDiscards(c: Client, a: Action)
    requires a.SwapGc? || (a.FinishOne? && a.i < |c.batch|)
    ensures Discarded(Step(c, a)) == Discarded(c)
  {
    var c' := Step(c, a);
    if a.SwapGc? {
      assert c'.gc == [] && c'.batch == c.batch + c.gc && c'.closed == c.closed;
      Swapped(c.gc, c.batch, c.closed);
    } else {
      assert c'.gc == c.gc && c'.batch == c.batch[..a.i] + c.batch[a.i + 1..];
      assert c'.closed == c.closed + [c.batch[a.i]];
      Moved(c.gc, c.batch, c.closed, a.i);
    }
  }

  lemma CleanupInv(c: Client, a: Action)
    requires Inv(c)
    requires a.SwapGc? || a.FinishOne?
    ensures Inv(Step(c, a))
  {
    var c' := Step(c, a);
    if a.SwapGc? || a.i < |c.batch| { CleanupDiscards(c, a); }
    forall t: Sid ensures OnceAt(c', t) { assert OnceAt(c, t); }
  }

  lemma StepInv(c: Client, a: Action)
    requires Inv(c)
    ensures Inv(Step(c, a))
  {
    match a
    case Callback(s) => CallbackInv(c, s);
    case Release(s) => ReleaseInv(c, s);
    case SwapGc => CleanupInv(c, a);
    case FinishOne(_) => CleanupInv(c, a);
    case _ => StageInv(c, a);
  }

  lemma {:induction false} RunInv(c: Client, actions: seq<Action>)
    requires Inv(c)
    ensures Inv(Run(c, actions))
    decreases |actions|
  {
    if actions != [] {
      StepInv(c, actions[0]);
      RunInv(Step(c, actions[0]), actions[1..]);
    }
  }

  lemma Subset(a: set<Sid>, b: set<Sid>)
    requires a <= b
    ensures |b| == |a| + |b - a|
    ensures |a| == |b| ==> a == b
  {
    assert b == a + (b - a);
  }

  /** `added - counted` are the sessions inserted but not yet counted. */
  lemma Conservation(c: Client)
    requires Inv(c)
    ensures c.finished + |c.running| == c.started + |c.added - c.counted|
    ensures c.finished <= c.started
  {
    Subset(c.released, c.added);
    Subset(c.counted, c.added);
    Subset(c.released, c.counted);
  }

  /** What every interleaving of every number of sessions keeps. */
  lemma EveryInterleaving(actions: seq<Action>)
    ensures var c := Run(FRESH, actions);
            && c.finished + |c.running| == c.started + |c.added - c.counted|
            && c.finished <= c.started
            && c.finished == |c.released|
            && (forall s | s in c.gc + c.batch + c.closed :: s !in c.running)
            && (forall s | s in c.released :: s in c.claims && CallsOf(c, s) == [c.claims[s]])
            && (forall s: Sid :: |CallsOf(c, s)| <= 1)
  {
    var c := Run(FRESH, actions);
    assert Inv(FRESH);
    RunInv(FRESH, actions);
    Conservation(c);
    forall s | s in c.gc + c.batch + c.closed ensures s !in c.running {
      assert s in Discarded(c);
    }
    forall s: Sid
      ensures |CallsOf(c, s)| <= 1 && (s in c.released ==> s in c.claims && CallsOf(c, s) == [c.claims[s]])
    {
      assert OnceAt(c, s);
    }
  }

  /** Every verdict that was won was brought by an event of that session. */
  lemma {:induction false} ClaimOrigin(c: Client, actions: seq<Action>, s: Sid)
    requires s !in c.claims && s in Run(c, actions).claims
    ensures exists ev :: Deliver(s, ev) in actions && Verdict(ev) == [Run(c, actions).claims[s]]
    decreases |actions|
  {
    var a := actions[0];
    if s in Step(c, a).claims {
      assert a.Deliver? && a.s == s && a in actions;
      ClaimStays(Step(c, a), actions[1..], s);
    } else {
      ClaimOrigin(Step(c, a), actions[1..], s);
      var ev :| Deliver(s, ev) in actions[1..] && Verdict(ev) == [Run(c, actions).claims[s]];
      assert Deliver(s, ev) in actions;
    }
  }

  lemma {:induction false} ClaimStays(c: Client, actions: seq<Action>, s: Sid)
    requires s in c.claims
    ensures s in Run(c, actions).claims && Run(c, actions).claims[s] == c.claims[s]
    decreases |actions|
  {
    if actions != [] { ClaimStays(Step(c, actions[0]), actions[1..], s); }
  }

  /** No callback is told of a success unless a response was accepted for its own session. */
  lemma SuccessIsAccepted(actions: seq<Action>, s: Sid)
    requires CallsOf(Run(FRESH, actions), s) == [Success]
    ensures exists ev :: Deliver(s, ev) in actions && Accepted(ev)
  {
    assert Inv(FRESH);
    RunInv(FRESH, actions);
    assert OnceAt(Run(FRESH, actions), s);
    ClaimOrigin(FRESH, actions, s);
  }

  function States(s: Sid, xs: seq<SessionState>): seq<Action> {
    if xs == [] then [] else [Deliver(s, State(xs[0]))] + States(s, xs[1..])
  }

  /** Any number of such states leaves everything as it is, so the response behind them decides. */
  lemma {:induction false} ProgressIgnored(c: Client, s: Sid, xs: seq<SessionState>)
    requires forall i | 0 <= i < |xs| :: OnTheWay(xs[i])
    ensures Run(c, States(s, xs)) == c
    decreases |xs|
  {
    if xs != [] {
      assert States(s, xs)[1..] == States(s, xs[1..]);
      assert Step(c, Deliver(s, State(xs[0]))) == c;
      ProgressIgnored(c, s, xs[1..]);
    }
  }

  /** What a session that was sent and is still open claims, whatever progress was reported before. */
  lemma FirstVerdict(c: Client, s: Sid, xs: seq<SessionState>, ev: Event)
    requires s in c.sent && s !in c.claims && forall i | 0 <= i < |xs| :: OnTheWay(xs[i])
    ensures var c' := Run(c, States(s, xs) + [Deliver(s, ev)]);
            match ev
            case State(x) => if OnTheWay(x) then c' == c else s in c'.claims && c'.claims[s] == Failure
            case Response(status, typed, emptyBody, parses) =>
              s in c'.claims
              && (c'.claims[s] == if 200 <= status < 300 && (!typed || emptyBody || parses) then Success else Failure)
  {
    ProgressIgnored(c, s, xs);
    RunConcat(c, States(s, xs), [Deliver(s, ev)]);
    assert [Deliver(s, ev)][1..] == [];
    assert Run(c, [Deliver(s, ev)]) == Step(c, Deliver(s, ev));
  }

  // ---- what only grows

  ghost predicate Later(c: Client, c': Client) {
    && c.started <= c'.started
    && c.finished <= c'.finished
    && c.added <= c'.added
    && c.counted <= c'.counted
    && c.released <= c'.released
    && c.closed <= c'.closed
    && (c.isShutdown ==> c'.isShutdown)
  }

  lemma StepLater(c: Client, a: Action)
    ensures Later(c, Step(c, a))
  {
  }

  lemma LaterTransitive(c0: Client, c1: Client, c2: Client)
    requires Later(c0, c1) && Later(c1, c2)
    ensures Later(c0, c2)
  {
  }

  lemma {:induction false} RunLater(c: Client, actions: seq<Action>)
    requires Inv(c)
    ensures Inv(Run(c, actions)) && Later(c, Run(c, actions))
    decreases |actions|
  {
    if actions != [] {
      var c' := Step(c, actions[0]);
      StepLater(c, actions[0]);
      StepInv(c, actions[0]);
      RunLater(c', actions[1..]);
      LaterTransitive(c, c', Run(c', actions[1..]));
    }
  }

  /**
   When the running map is seen empty, every session added before has been through its own handler:
   the shared cell no longer holds its initial value but the verdict of that handler, reported once.
   */
  lemma EmptyMeansReported(c: Client, s: Sid, actions: seq<Action>)
    requires Inv(c) && s in c.added
    requires Run(c, actions).running == {}
    ensures var c' := Run(c, actions);
            s in c'.released && s in c'.claims && s in c'.cells &&
            c'.cells[s] == c'.claims[s] && CallsOf(c', s) == [c'.cells[s]]
  {
    RunLater(c, actions);
    var c' := Run(c, actions);
    assert s !in c'.running;
    assert OnceAt(c', s);
  }

  lemma EmptyMeansFlushed(c: Client, actions: seq<Action>)
    requires Inv(c)
    requires Run(c, actions).running == {}
    ensures Run(c, actions).finished >= c.started
  {
    RunLater(c, actions);
    Conservation(Run(c, actions));
  }

  /**
   How far a flush that sees `finished >= snapshot` can fall short: sessions counted at the snapshot
   and still unreleased are no more than the sessions counted after it that have finished.
   */
  lemma FlushDeficit(c: Client, actions: seq<Action>)
    requires Inv(c)
    requires Run(c, actions).finished >= c.started
    ensures var c' := Run(c, actions);
            |c.counted - c'.released| <= |c'.released - c.counted|
  {
    RunLater(c, actions);
    var c' := Run(c, actions);
    Differences(c.counted, c'.released);
  }

  lemma Differences(a: set<Sid>, b: set<Sid>)
    ensures |a| - |a - b| == |b| - |b - a|
  {
    Shared(a, b);
    Shared(b, a);
    assert a * b == b * a;
  }

  lemma Shared(a: set<Sid>, b: set<Sid>)
    ensures |a| == |a * b| + |a - b|
  {
    assert a == a * b + (a - b);
  }

  /** A flush that is not overtaken: with no later start, `true` means every callback has run. */
  lemma FlushComplete(c: Client, actions: seq<Action>)
    requires Inv(c)
    requires Run(c, actions).finished >= c.started && Run(c, actions).started == c.started
    ensures var c' := Run(c, actions);
            c'.counted == c.counted == c'.released &&
            forall s | s in c'.counted :: |CallsOf(c', s)| == 1
  {
    RunLater(c, actions);
    var c' := Run(c, actions);
    Subset(c.counted, c'.counted);
    Subset(c'.released, c'.counted);
    forall s | s in c'.counted ensures |CallsOf(c', s)| == 1 { assert OnceAt(c', s); }
  }

  function Exported(s: Sid): seq<Action> {
    [Create(s), Insert(s), Count(s), Send(s)]
  }

  function Answered(s: Sid): seq<Action> {
    [Deliver(s, Response(200, false, true, false)), Callback(s), Release(s)]
  }

  /** An exporter takes an unused session all the way to SendRequest. */
  lemma ExportedRun(c: Client, s: Sid)
    requires !c.isShutdown && s !in c.created && s !in c.added && s !in c.counted
    ensures Run(c, Exported(s)) == c.(
                created := c.created + {s}, cells := c.cells[s := Success], calls := c.calls[s := []],
                added := c.added + {s}, running := c.running + {s}, counted := c.counted + {s},
                started := c.started + 1, sent := c.sent + {s})
  {
    var rest := [Count(s), Send(s)];
    assert Exported(s)[1..] == [Insert(s)] + rest && ([Insert(s)] + rest)[1..] == rest && rest[1..] == [Send(s)];
    var c1 := Step(c, Create(s));
    var c2 := Step(c1, Insert(s));
    var c3 := Step(c2, Count(s));
    assert Run(c3, [Send(s)]) == Step(c3, Send(s));
    assert Run(c2, rest) == Run(c3, rest[1..]);
    assert Run(c1, [Insert(s)] + rest) == Run(c2, rest);
  }

  /** A 200 response with an empty body runs through the handler of a session that was sent. */
  lemma AnsweredRun(c: Client, s: Sid)
    requires s in c.sent && s in c.running && s !in c.claims && s !in c.reported && s !in c.released
    ensures Run(c, Answered(s)) == c.(
                claims := c.claims[s := Success], reported := c.reported + {s}, cells := c.cells[s := Success],
                calls := c.calls[s := CallsOf(c, s) + [Success]], released := c.released + {s},
                running := c.running - {s}, gc := c.gc + [s], finished := c.finished + 1)
  {
    var d := Deliver(s, Response(200, false, true, false));
    assert Verdict(d.ev) == [Success];
    var rest := [Callback(s), Release(s)];
    assert Answered(s)[1..] == rest && rest[1..] == [Release(s)];
    var c1 := Step(c, d);
    var c2 := Step(c1, Callback(s));
    assert Run(c2, [Release(s)]) == Step(c2, Release(s));
    assert Run(c1, rest) == Run(c2, rest[1..]);
  }

  /**
   Without that side condition the promise fails: session 0 is counted, a flush takes its snapshot,
   session 1 starts and finishes, and the flush answers true with session 0 still running.
   */
  lemma OvertakenFlush()
    ensures var c := Run(FRESH, Exported(0));
            var c' := Run(c, Exported(1) + Answered(1));
            c'.finished >= c.started && 0 in c.counted && 0 in c'.running && CallsOf(c', 0) == []
  {
    ExportedRun(FRESH, 0);
    var c := Run(FRESH, Exported(0));
    RunConcat(c, Exported(1), Answered(1));
    ExportedRun(c, 1);
    AnsweredRun(Run(c, Exported(1)), 1);
  }

  // ---- teardown

  predicate NoInsert(actions: seq<Action>) {
    forall a | a in actions :: !a.Insert?
  }

  lemma NoInsertStep(c: Client, a: Action)
    requires !a.Insert?
    ensures Step(c, a).added == c.added && Step(c, a).running <= c.running
  {
  }

  lemma {:induction false} NoInsertAdded(c: Client, actions: seq<Action>)
    requires NoInsert(actions)
    ensures Run(c, actions).added == c.added
    ensures Run(c, actions).running <= c.running
    decreases |actions|
  {
    if actions != [] {
      assert actions[0] in actions;
      NoInsertStep(c, actions[0]);
      NoInsertAdded(Step(c, actions[0]), actions[1..]);
    }
  }

  /**
   The state in which the destructor returns: nothing is running and nothing waits for cleanup, so
   every session ever added was released, reported and finished by a cleanup exactly once.
   */
  lemma Quiescent(c: Client)
    requires Inv(c)
    requires c.running == {} && c.gc == [] && c.batch == []
    ensures multiset(c.closed) == multiset(c.added)
    ensures forall s | s in c.added :: |CallsOf(c, s)| == 1
    ensures c.finished == c.started == |c.added|
  {
    assert c.released == c.added by {
      forall s | s in c.added ensures s in c.released { assert s !in c.running; }
    }
    forall s | s in c.added ensures |CallsOf(c, s)| == 1 { assert OnceAt(c, s); }
    assert c.counted == c.added;
    assert Discarded(c) == multiset(c.closed);
  }
}
