/**
 The gRPC forward proxy and its loop detection.  A proxy refuses a request that carries its own id and
 otherwise forwards it with the ids it received plus its own; a network of such proxies, whatever its
 routing, cannot keep a request going round.
 */
module ForwardProxy {
  import opened Common

  type Text = seq<Byte>

  // ---- comparing ids

  /** `c | 0x20` on one byte. */
  function WithBit5(c: Byte): Byte {
    if (c / 32) % 2 == 0 then c + 32 else c
  }

  /** Lower-cases the ASCII capitals and nothing else; `c - 'A'` wraps around as an unsigned char does. */
  function AsciiToLower(c: Byte): (r: Byte)
    ensures r == if 65 <= c <= 90 then c + 32 else c
  {
    var letter := (c - 65) % 256;
    if letter < 26 then WithBit5(c) else c
  }

  /** What a case-insensitive C string comparison sees: the bytes before the first NUL, in lower case. */
  function Canon(s: Text): Text {
    if s == [] || s[0] == 0 then [] else [AsciiToLower(s[0])] + Canon(s[1..])
  }

  predicate SameId(a: Text, b: Text) {
    Canon(a) == Canon(b)
  }

  function ByteAt(s: Text, i: nat): Byte {
    if i < |s| then s[i] else 0
  }

  /** One byte further: both texts end, or both go on with the same letter, or they differ. */
  lemma OneByte(s: Text, t: Text)
    ensures var c, d := AsciiToLower(ByteAt(s, 0)), AsciiToLower(ByteAt(t, 0));
            && (c != d ==> !SameId(s, t))
            && (c == d == 0 ==> SameId(s, t))
            && (c == d != 0 ==> s != [] && t != [] && (SameId(s, t) <==> SameId(s[1..], t[1..])))
  {
    if s != [] && t != [] && s[0] != 0 && t[0] != 0 {
      assert Canon(s)[0] == AsciiToLower(s[0]) && Canon(t)[0] == AsciiToLower(t[0]);
      assert Canon(s)[1..] == Canon(s[1..]) && Canon(t)[1..] == Canon(t[1..]);
    }
  }

  /** Walks both NUL-terminated texts in step. */
  method AsciiStrIEq(s0: Text, s1: Text) returns (eq: bool)
    ensures eq <==> SameId(s0, s1)
  {
    var i := 0;
    assert s0[0..] == s0 && s1[0..] == s1;
    while true
      invariant i <= |s0| && i <= |s1|
      invariant SameId(s0, s1) <==> SameId(s0[i..], s1[i..])
      decreases |s0| - i
    {
      OneByte(s0[i..], s1[i..]);
      var c0 := AsciiToLower(ByteAt(s0, i));
      var c1 := AsciiToLower(ByteAt(s1, i));
      if c0 != c1 {
        return false;
      }
      if c0 == 0 {
        return true;
      }
      assert s0[i..][1..] == s0[i + 1..] && s1[i..][1..] == s1[i + 1..];
      i := i + 1;
    }
  }

  // ---- one proxy

  /** `ProxyUid` is the header "otel-grpc-fw-proxy-uid". */
  datatype Header = ProxyUid | Other(name: string)

  type Metadata = seq<(Header, Text)>

  /** The values of the id header, in the order they were sent. */
  function Ids(md: Metadata): seq<Text> {
    if md == [] then []
    else (if md[0].0 == ProxyUid then [md[0].1] else []) + Ids(md[1..])
  }

  function Tagged(ids: seq<Text>): (md: Metadata)
    ensures |md| == |ids| && forall i | 0 <= i < |ids| :: md[i] == (ProxyUid, ids[i])
  {
    seq(|ids|, i requires 0 <= i < |ids| => (ProxyUid, ids[i]))
  }

  lemma {:induction false} IdsOfTagged(ids: seq<Text>)
    ensures Ids(Tagged(ids)) == ids
  {
    if ids != [] {
      assert Tagged(ids)[1..] == Tagged(ids[1..]);
      IdsOfTagged(ids[1..]);
    }
  }

  lemma TagOne(ids: seq<Text>, id: Text)
    ensures Tagged(ids + [id]) == Tagged(ids) + [(ProxyUid, id)]
  {
  }

  predicate Loops(id: Text, ids: seq<Text>) {
    exists i | 0 <= i < |ids| :: SameId(ids[i], id)
  }

  /** Entry `i` is an id header with the id `id`, up to case. */
  predicate Carries(md: Metadata, i: nat, id: Text)
    requires i < |md|
  {
    md[i].0.ProxyUid? && SameId(md[i].1, id)
  }

  lemma IdsLaws(v: Text, name: string)
    ensures Ids([(ProxyUid, v)]) == [v] && Ids([(Other(name), v)]) == []
  {
    assert [(ProxyUid, v)][1..] == [] && [(Other(name), v)][1..] == [];
  }

  lemma {:induction false} IdsConcat(a: Metadata, b: Metadata)
    ensures Ids(a + b) == Ids(a) + Ids(b)
    decreases |a|
  {
    if a == [] {
      assert a + b == b;
    } else {
      assert (a + b)[1..] == a[1..] + b;
      IdsConcat(a[1..], b);
    }
  }

  /** An entry of another header, wherever it stands, makes no difference. */
  lemma OthersIgnored(a: Metadata, name: string, v: Text, b: Metadata)
    ensures Ids(a + [(Other(name), v)] + b) == Ids(a + b)
  {
    IdsLaws(v, name);
    IdsConcat(a + [(Other(name), v)], b);
    IdsConcat(a, [(Other(name), v)]);
    IdsConcat(a, b);
  }

  /** The id occurs among the ids exactly if some entry carries it. */
  lemma {:induction false} LoopsByEntry(id: Text, md: Metadata)
    ensures Loops(id, Ids(md)) <==> exists i :: 0 <= i < |md| && Carries(md, i, id)
    decreases |md|
  {
    if md != [] {
      var front, last := md[..|md| - 1], md[|md| - 1];
      LoopsByEntry(id, front);
      assert md == front + [last];
      IdsConcat(front, [last]);
      if last.0 == ProxyUid {
        LoopsOneMore(id, Ids(front), last.1);
        IdsLaws(last.1, "");
      } else {
        IdsLaws(last.1, last.0.name);
        assert Ids(front) + [] == Ids(front);
      }
      EntriesOneMore(id, front, last);
    }
  }

  lemma EntriesOneMore(id: Text, front: Metadata, last: (Header, Text))
    ensures (exists i :: 0 <= i < |front| + 1 && Carries(front + [last], i, id))
       <==> (exists i :: 0 <= i < |front| && Carries(front, i, id)) || (last.0.ProxyUid? && SameId(last.1, id))
  {
    var md := front + [last];
    if i :| 0 <= i < |front| && Carries(front, i, id) { assert Carries(md, i, id); }
    if last.0.ProxyUid? && SameId(last.1, id) { assert Carries(md, |front|, id); }
    if i :| 0 <= i < |front| + 1 && Carries(md, i, id) {
      if i < |front| { assert Carries(front, i, id); }
    }
  }

  lemma LoopsOneMore(id: Text, ids: seq<Text>, last: Text)
    ensures Loops(id, ids + [last]) <==> Loops(id, ids) || SameId(last, id)
  {
    var more := ids + [last];
    assert forall i | 0 <= i < |ids| :: more[i] == ids[i];
    assert more[|ids|] == last;
  }

  lemma LoopsLonger(id: Text, ids: seq<Text>, n: nat)
    requires n <= |ids| && Loops(id, ids[..n])
    ensures Loops(id, ids)
  {
    var i :| 0 <= i < n && SameId(ids[..n][i], id);
    assert SameId(ids[i], id);
  }

  /** Copies the received ids and its own into the outgoing context unless one of them is its own. */
  method CheckForLoop(id: Text, received: Metadata) returns (loop: bool, context: Metadata)
    ensures loop <==> exists i :: 0 <= i < |received| && Carries(received, i, id)
    ensures loop <==> Loops(id, Ids(received))
    ensures !loop ==> Ids(context) == Ids(received) + [id] && context == Tagged(Ids(received) + [id])
  {
    LoopsByEntry(id, received);
    context := [];
    var values := Ids(received);
    for i := 0 to |values|
      invariant context == Tagged(values[..i])
      invariant !Loops(id, values[..i])
    {
      var same := AsciiStrIEq(values[i], id);
      assert values[..i + 1] == values[..i] + [values[i]];
      LoopsOneMore(id, values[..i], values[i]);
      if same {
        LoopsLonger(id, values, i + 1);
        return true, context;
      }
      TagOne(values[..i], values[i]);
      context := context + [(ProxyUid, values[i])];
    }
    assert values[..|values|] == values;
    TagOne(values, id);
    context := context + [(ProxyUid, id)];
    loop := false;
    IdsOfTagged(values + [id]);
  }

  datatype Status =
    | OK | CANCELLED | UNKNOWN | INVALID_ARGUMENT | DEADLINE_EXCEEDED | NOT_FOUND | ALREADY_EXISTS
    | PERMISSION_DENIED | RESOURCE_EXHAUSTED | FAILED_PRECONDITION | ABORTED | OUT_OF_RANGE | UNIMPLEMENTED
    | INTERNAL | UNAVAILABLE | DATA_LOSS | UNAUTHENTICATED | DO_NOT_USE

  /** What the callback service answers: a status given to it, or the translation of a delegated result. */
  function Finish(active: bool, result: ExportResult, sync: Status): (r: Status)
    ensures r == FAILED_PRECONDITION <==> !active || sync == FAILED_PRECONDITION
    ensures active && sync != DO_NOT_USE ==> r == sync
    ensures active && sync == DO_NOT_USE ==>
              && (r == OK <==> result == Success) && (r == INVALID_ARGUMENT <==> result == FailureInvalidArgument)
              && (r == UNAVAILABLE <==> result == FailureFull) && (r == ABORTED <==> result == Failure)
  {
    if !active then FAILED_PRECONDITION
    else if sync != DO_NOT_USE then sync
    else match result
      case Success => OK
      case Failure => ABORTED
      case FailureFull => UNAVAILABLE
      case FailureInvalidArgument => INVALID_ARGUMENT
  }

  /** The status codes the client channel retries. */
  predicate Retryable(s: Status) {
    s in {CANCELLED, DEADLINE_EXCEEDED, ABORTED, OUT_OF_RANGE, DATA_LOSS, UNAVAILABLE}
  }

  /** What the channel takes for final. */
  lemma FinalStatuses(s: Status)
    ensures !Retryable(s) <==>
              s in {OK, UNKNOWN, INVALID_ARGUMENT, NOT_FOUND, ALREADY_EXISTS, PERMISSION_DENIED, RESOURCE_EXHAUSTED,
                    FAILED_PRECONDITION, UNIMPLEMENTED, INTERNAL, UNAUTHENTICATED, DO_NOT_USE}
  {
  }

  /** A proxy's delegated failures are retried by the sender, whether its queue was full or not. */
  lemma FailuresRetried(result: ExportResult)
    ensures Retryable(Finish(true, result, DO_NOT_USE)) <==> result == Failure || result == FailureFull
  {
    FinalStatuses(Finish(true, result, DO_NOT_USE));
  }

  // ---- a network of proxies

  type Pid = nat

  /** An asynchronous proxy answers with the result of queueing the call, `delegated`. */
  datatype Proxy = Proxy(id: Text, active: bool, async: bool, delegated: ExportResult)

  datatype Hop = ToProxy(p: Pid) | ToCollector(reply: Status)

  /**
   `route(log)` is where the request goes that is named by the attempt numbers taken at each hop so far:
   routing may differ per hop and per retry.  `attempts` bounds the attempts of each channel.
   */
  datatype Net = Net(proxies: map<Pid, Proxy>, route: seq<nat> -> Hop, attempts: nat)

  function Unnamed(net: Net, ids: seq<Text>): set<Pid> {
    set p | p in net.proxies && !Loops(net.proxies[p].id, ids)
  }

  lemma StillLoops(own: Text, ids: seq<Text>, id: Text)
    ensures Loops(own, ids) ==> Loops(own, ids + [id])
  {
    if Loops(own, ids) {
      var i :| 0 <= i < |ids| && SameId(ids[i], own);
      assert SameId((ids + [id])[i], own);
    }
  }

  lemma NamedAfter(net: Net, p: Pid, ids: seq<Text>)
    requires p in Unnamed(net, ids)
    ensures |Unnamed(net, ids + [net.proxies[p].id])| < |Unnamed(net, ids)|
  {
    var id := net.proxies[p].id;
    var before, after := Unnamed(net, ids), Unnamed(net, ids + [id]);
    assert p !in after by { assert SameId((ids + [id])[|ids|], id); }
    forall q | q in net.proxies ensures q in after ==> q in before {
      StillLoops(net.proxies[q].id, ids, id);
    }
    assert after <= before - {p};
    Smaller(after, before - {p});
  }

  lemma Smaller(a: set<Pid>, b: set<Pid>)
    requires a <= b
    ensures |a| <= |b|
  {
    assert b == a + (b - a);
  }

  /**
   The answer of proxy `p` to a request carrying `ids`.  That this definition is total is the absence of
   endless forwarding: every forwarding step leaves fewer proxies that the headers do not name.
   */
  function Answer(net: Net, p: Pid, ids: seq<Text>, log: seq<nat>): Status
    decreases |Unnamed(net, ids)|, 0, 0
  {
    if p !in net.proxies then UNAVAILABLE
    else
      var x := net.proxies[p];
      if !x.active || Loops(x.id, ids) then FAILED_PRECONDITION
      else if x.async then Finish(x.active, x.delegated, DO_NOT_USE)
      else
        NamedAfter(net, p, ids);
        Send(net, ids + [x.id], log, 0)
  }

  /** The channel's attempt number `k` and, on a retryable status, the following ones. */
  function Send(net: Net, ids: seq<Text>, log: seq<nat>, k: nat): Status
    decreases |Unnamed(net, ids)|, 1, if k < net.attempts then net.attempts - k else 0
  {
    var s := match net.route(log + [k])
      case ToCollector(reply) => reply
      case ToProxy(q) => Answer(net, q, ids, log + [k]);
    if Retryable(s) && k + 1 < net.attempts then Send(net, ids, log, k + 1) else s
  }

  /** What the originator of a request, which sends no id header, is told. */
  function Origin(net: Net): Status {
    Send(net, [], [], 0)
  }

  // ---- the chain of proxies a request has passed

  function IdsOf(net: Net, chain: seq<Pid>): (ids: seq<Text>)
    requires forall p | p in chain :: p in net.proxies
    ensures |ids| == |chain|
    ensures forall i | 0 <= i < |chain| :: ids[i] == net.proxies[chain[i]].id
  {
    seq(|chain|, i requires 0 <= i < |chain| => net.proxies[chain[i]].id)
  }

  /** An active proxy passes requests on, an asynchronous one if its client takes them. */
  predicate CanForward(x: Proxy) {
    x.active && (x.async ==> x.delegated == Success)
  }

  predicate Forwards(net: Net, p: Pid, ids: seq<Text>) {
    p in net.proxies && CanForward(net.proxies[p]) && !Loops(net.proxies[p].id, ids)
  }

  datatype Reached = Nowhere | At(chain: seq<Pid>)

  /** The proxies that have forwarded the request named by `log`, if it exists. */
  function Chain(net: Net, log: seq<nat>): (r: Reached)
    ensures r.At? ==> |r.chain| == |log| && forall p | p in r.chain :: p in net.proxies
  {
    if log == [] then At([])
    else
      var before := Chain(net, log[..|log| - 1]);
      if before.Nowhere? then Nowhere
      else match net.route(log)
        case ToCollector(_) => Nowhere
        case ToProxy(p) =>
          if Forwards(net, p, IdsOf(net, before.chain)) then At(before.chain + [p]) else Nowhere
  }

  /** No proxy that passes requests on has the id of another active proxy. */
  predicate DistinctIds(proxies: map<Pid, Proxy>) {
    forall p, q | p in proxies && q in proxies && p != q && CanForward(proxies[p]) && proxies[q].active ::
      !SameId(proxies[p].id, proxies[q].id)
  }

  lemma {:induction false} ChainForwards(net: Net, log: seq<nat>)
    requires Chain(net, log).At?
    ensures forall p | p in Chain(net, log).chain :: CanForward(net.proxies[p])
  {
    if log != [] { ChainForwards(net, log[..|log| - 1]); }
  }

  /** Whatever the ids, a proxy finds its own in a request that has passed through it. */
  lemma PassedLoops(net: Net, log: seq<nat>, p: Pid)
    requires Chain(net, log).At? && p in Chain(net, log).chain
    ensures Loops(net.proxies[p].id, IdsOf(net, Chain(net, log).chain))
  {
    var chain := Chain(net, log).chain;
    var i :| 0 <= i < |chain| && chain[i] == p;
    assert SameId(IdsOf(net, chain)[i], net.proxies[p].id);
  }

  /** An active proxy finds its own id in the headers exactly when the request has passed through it. */
  lemma LoopExactly(net: Net, log: seq<nat>, p: Pid)
    requires DistinctIds(net.proxies) && Chain(net, log).At? && p in net.proxies && net.proxies[p].active
    ensures Loops(net.proxies[p].id, IdsOf(net, Chain(net, log).chain)) <==> p in Chain(net, log).chain
  {
    var chain := Chain(net, log).chain;
    var ids := IdsOf(net, chain);
    ChainForwards(net, log);
    if p in chain { PassedLoops(net, log, p); }
    if Loops(net.proxies[p].id, ids) {
      var i :| 0 <= i < |ids| && SameId(ids[i], net.proxies[p].id);
      assert chain[i] in chain;
    }
  }

  /** Whatever the ids, no request is forwarded twice by the same proxy, so no chain is longer than the network. */
  lemma {:induction false} NoRepeats(net: Net, log: seq<nat>)
    requires Chain(net, log).At?
    ensures var chain := Chain(net, log).chain;
            && (forall i, j | 0 <= i < j < |chain| :: chain[i] != chain[j])
            && |log| == |chain| <= |net.proxies|
    decreases |log|
  {
    var chain := Chain(net, log).chain;
    if log != [] {
      var shorter := log[..|log| - 1];
      NoRepeats(net, shorter);
      var p := chain[|chain| - 1];
      if p in Chain(net, shorter).chain { PassedLoops(net, shorter, p); }
    }
    var members := set p | p in chain;
    DistinctSize(chain, members);
    assert members <= net.proxies.Keys;
    Smaller(members, net.proxies.Keys);
  }

  lemma {:induction false} DistinctSize(s: seq<Pid>, members: set<Pid>)
    requires forall i, j | 0 <= i < j < |s| :: s[i] != s[j]
    requires members == set p | p in s
    ensures |members| == |s|
  {
    if s != [] {
      var rest := s[..|s| - 1];
      var m := set p | p in rest;
      DistinctSize(rest, m);
      assert members == m + {s[|s| - 1]} by {
        assert s == rest + [s[|s| - 1]];
      }
    }
  }

  /** Two proxies whose ids differ only in case: the second takes the first one's id for a loop. */
  lemma CaseCollision()
    ensures var net := Net(map[0 := Proxy([97], true, false, Success), 1 := Proxy([65], true, false, Success)],
                           log => if |log| == 1 then ToProxy(0) else ToProxy(1), 1);
            && Chain(net, [0]) == At([0])
            && Loops(net.proxies[1].id, IdsOf(net, [0]))
            && Chain(net, [0, 0]) == Nowhere
  {
    var net := Net(map[0 := Proxy([97], true, false, Success), 1 := Proxy([65], true, false, Success)],
                   log => if |log| == 1 then ToProxy(0) else ToProxy(1), 1);
    assert [0][..0] == [] && [0, 0][..1] == [0];
    assert Canon([97]) == [97] && Canon([65]) == [97] by {
      assert [97][1..] == [] && [65][1..] == [];
    }
    assert IdsOf(net, [0]) == [[97]];
    assert SameId(IdsOf(net, [0])[0], net.proxies[1].id);
  }

  /** Loop detection is right about the request named by `log` at every proxy that runs it. */
  predicate DetectsAt(net: Net, log: seq<nat>) {
    Chain(net, log).At? ==>
      var chain := Chain(net, log).chain;
      forall p | p in net.proxies && net.proxies[p].active ::
        Loops(net.proxies[p].id, IdsOf(net, chain)) <==> p in chain
  }

  /** Sends everything to proxy `p`. */
  function AllTo(proxies: map<Pid, Proxy>, p: Pid): Net {
    Net(proxies, log => ToProxy(p), 1)
  }

  lemma OneForwarded(proxies: map<Pid, Proxy>, p: Pid)
    requires p in proxies && CanForward(proxies[p])
    ensures Chain(AllTo(proxies, p), [0]) == At([p])
    ensures IdsOf(AllTo(proxies, p), [p]) == [proxies[p].id]
  {
    assert [0][..0] == [];
  }

  /**
   Whatever the routing, active proxies detect loops exactly if and only if none that passes requests on shares its
   id with another active one.
   */
  lemma DetectionExact(proxies: map<Pid, Proxy>)
    ensures (forall net: Net, log | net.proxies == proxies :: DetectsAt(net, log)) <==> DistinctIds(proxies)
  {
    if DistinctIds(proxies) {
      forall net: Net, log | net.proxies == proxies ensures DetectsAt(net, log) {
        if Chain(net, log).At? {
          forall p | p in net.proxies && net.proxies[p].active
            ensures Loops(net.proxies[p].id, IdsOf(net, Chain(net, log).chain)) <==> p in Chain(net, log).chain
          {
            LoopExactly(net, log, p);
          }
        }
      }
    } else {
      var p, q :| p in proxies && q in proxies && p != q && CanForward(proxies[p]) && proxies[q].active
                  && SameId(proxies[p].id, proxies[q].id);
      OneForwarded(proxies, p);
      assert SameId(IdsOf(AllTo(proxies, p), [p])[0], proxies[q].id);
      assert !DetectsAt(AllTo(proxies, p), [0]);
    }
  }

  // ---- what the originator learns

  /** The reply to attempt number `k` at passing on the request named by `log`. */
  function Reply(net: Net, log: seq<nat>, k: nat): Status
    requires Chain(net, log).At?
  {
    match net.route(log + [k])
    case ToCollector(reply) => reply
    case ToProxy(p) => Answer(net, p, IdsOf(net, Chain(net, log).chain), log + [k])
  }

  /** Attempt `k` is made: all before it were answered with a status that is retried. */
  predicate Made(net: Net, log: seq<nat>, k: nat)
    requires Chain(net, log).At?
  {
    (k == 0 || k < net.attempts) && forall j: nat | j < k :: Retryable(Reply(net, log, j))
  }

  /** The request named by `log` is sent: at every hop the attempt it names is made. */
  predicate Occurs(net: Net, log: seq<nat>) {
    Chain(net, log).At? &&
    (log != [] ==> Occurs(net, log[..|log| - 1]) && Made(net, log[..|log| - 1], log[|log| - 1]))
  }

  lemma {:induction false} SendFrom(net: Net, log: seq<nat>, j: nat, k: nat)
    requires Chain(net, log).At? && Made(net, log, k) && j <= k
    ensures var ids := IdsOf(net, Chain(net, log).chain);
            Send(net, ids, log, j) == Send(net, ids, log, k)
    decreases k - j
  {
    if j < k {
      assert Retryable(Reply(net, log, j));
      SendFrom(net, log, j + 1, k);
    }
  }

  /** The channel answers what the first attempt was answered that is not retried. */
  lemma ChannelAnswer(net: Net, log: seq<nat>, k: nat)
    requires Chain(net, log).At? && Made(net, log, k) && !Retryable(Reply(net, log, k))
    ensures Send(net, IdsOf(net, Chain(net, log).chain), log, 0) == Reply(net, log, k)
  {
    SendFrom(net, log, 0, k);
  }

  /** And when every attempt it may make is retried, what the last of them was answered. */
  lemma ChannelGivesUp(net: Net, log: seq<nat>)
    requires Chain(net, log).At? && net.attempts > 0
    requires forall j: nat | j < net.attempts :: Retryable(Reply(net, log, j))
    ensures Send(net, IdsOf(net, Chain(net, log).chain), log, 0) == Reply(net, log, net.attempts - 1)
  {
    SendFrom(net, log, 0, net.attempts - 1);
  }

  lemma ChainLast(net: Net, log: seq<nat>)
    requires log != [] && Chain(net, log).At?
    ensures var front := log[..|log| - 1];
            && Chain(net, front).At?
            && var before, chain := Chain(net, front).chain, Chain(net, log).chain;
               var p := chain[|chain| - 1];
               && chain == before + [p] && net.route(log) == ToProxy(p)
               && Forwards(net, p, IdsOf(net, before))
               && IdsOf(net, chain) == IdsOf(net, before) + [net.proxies[p].id]
  {
  }

  predicate AllSync(net: Net, log: seq<nat>) {
    Chain(net, log).At? && forall p | p in Chain(net, log).chain :: !net.proxies[p].async
  }

  /** A synchronous proxy answers what it was answered. */
  lemma OneHopBack(net: Net, log: seq<nat>, k: nat)
    requires log != [] && AllSync(net, log) && Made(net, log, k) && !Retryable(Reply(net, log, k))
    ensures AllSync(net, log[..|log| - 1])
    ensures Reply(net, log[..|log| - 1], log[|log| - 1]) == Reply(net, log, k)
  {
    ChainLast(net, log);
    var front, chain := log[..|log| - 1], Chain(net, log).chain;
    assert front + [log[|log| - 1]] == log;
    var before, p := Chain(net, front).chain, chain[|chain| - 1];
    assert p in chain && forall q | q in before :: q in chain;
    ChannelAnswer(net, log, k);
    assert Answer(net, p, IdsOf(net, before), log) == Send(net, IdsOf(net, chain), log, 0);
  }

  /**
   Through synchronous proxies a status that is not retried, FAILED_PRECONDITION among them, travels back
   from any distance, whatever attempts came before, to the originator unchanged.
   */
  lemma {:induction false} SyncCarriesBack(net: Net, log: seq<nat>, k: nat)
    requires Occurs(net, log) && AllSync(net, log) && Made(net, log, k) && !Retryable(Reply(net, log, k))
    ensures Origin(net) == Reply(net, log, k)
    decreases |log|
  {
    if log == [] {
      assert IdsOf(net, []) == [];
      ChannelAnswer(net, log, k);
    } else {
      OneHopBack(net, log, k);
      SyncCarriesBack(net, log[..|log| - 1], log[|log| - 1]);
    }
  }

  /** So a loop found after any number of synchronous hops is reported to the originator. */
  lemma LoopReported(net: Net, log: seq<nat>, k: nat, p: Pid)
    requires Occurs(net, log) && AllSync(net, log) && Made(net, log, k)
    requires net.route(log + [k]) == ToProxy(p) && p in Chain(net, log).chain
    ensures Origin(net) == FAILED_PRECONDITION
  {
    PassedLoops(net, log, p);
    SyncCarriesBack(net, log, k);
  }

  /** One asynchronous proxy on the way hides it: the originator is told OK whatever happens downstream. */
  lemma AsyncHidesDownstream(net: Net, log: seq<nat>, k: nat, p: Pid)
    requires Occurs(net, log) && AllSync(net, log) && Made(net, log, k) && net.route(log + [k]) == ToProxy(p)
    requires Forwards(net, p, IdsOf(net, Chain(net, log).chain))
    requires net.proxies[p].async
    ensures Origin(net) == OK
  {
    SyncCarriesBack(net, log, k);
  }

  /** The first asynchronous proxy of a chain has already told the originator OK. */
  lemma {:induction false} FirstAsync(net: Net, log: seq<nat>)
    requires Occurs(net, log) && !AllSync(net, log)
    ensures Origin(net) == OK
    decreases |log|
  {
    var front, chain := log[..|log| - 1], Chain(net, log).chain;
    ChainLast(net, log);
    var before, p := Chain(net, front).chain, chain[|chain| - 1];
    assert front + [log[|log| - 1]] == log;
    assert forall q | q in before :: q in chain;
    assert p in chain && forall q | q in chain :: q in before || q == p;
    if AllSync(net, front) {
      AsyncHidesDownstream(net, front, log[|log| - 1], p);
    } else {
      FirstAsync(net, front);
    }
  }

  /** A loop is reported to the originator if and only if the request has passed synchronous proxies only. */
  lemma LoopReportedExactly(net: Net, log: seq<nat>, k: nat, p: Pid)
    requires Occurs(net, log) && Made(net, log, k)
    requires net.route(log + [k]) == ToProxy(p) && p in Chain(net, log).chain
    ensures Origin(net) == FAILED_PRECONDITION <==> AllSync(net, log)
  {
    if AllSync(net, log) { LoopReported(net, log, k, p); } else { FirstAsync(net, log); }
  }
}
