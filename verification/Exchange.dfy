/** One exchange of the library/daemon protocol from end to end, in every run (src/library/P2PSession.cpp). */
module Exchanges {

  import opened Prelude
  import opened NodeRegistry
  import opened ApiSessions
  import opened ClientSessions
  import opened Channels
  import opened Protocol
  import opened Daemons
  import opened Systems

  // ----- a run as one connection sees it -----

  /** What a step does to connection s; `reply` is what the daemon answers if it serves s. */
  ghost predicate ConnMoves(c: Conn, e: Step, s: nat, d: Conn, reply: Reply) {
    if e.s != s then d == c
    else
      match e
      case Connect(_) => false
      case SendRequest(_, q) => d == SendOrThrow(c, q)
      case ServerProcess(_, _) => c.requests != [] && d == Answer(c, reply)
      case ClientReceive(_) => c.replies != [] && Receive(c) == Some(d)
      case ClientWake(_, t) => t in Ready(c.client.awaiting) && d == Wake(c, t)
  }

  /** Serving a request of s in state x, with its request q. */
  ghost predicate ServesRequest(x: System, e: Step, s: nat, q: Request) {
    e.ServerProcess? && e.s == s && CanServe(x, s, e.a) && x.conns[s].requests[0].request == q
  }

  /** What the daemon answers in a step, if it serves s there. */
  ghost function ReplyIn(x: System, e: Step, s: nat): Reply {
    if e.ServerProcess? && e.s == s && CanServe(x, s, e.a) then
      var reply := Serve(x.daemon, s, x.conns[s].requests[0].request, e.a).1;
      if reply.Some? then reply.value else Failed(0)
    else Failed(0)
  }

  lemma StepSeenByConn(x: System, e: Step, y: System, s: nat)
    requires SystemInv(x) && Follows(x, e, y) && s in x.conns
    ensures s in y.conns && ConnMoves(x.conns[s], e, s, y.conns[s], ReplyIn(x, e, s))
  {
    if e.s != s {
      OtherConn(x, e, y, s);
    } else if e.ServerProcess? {
      ServeSeenByConn(x, s, e.a);
    } else if e.ClientReceive? {
      ReceiveSeenByConn(x, s);
    } else {
      OwnConn(x, e, y, s);
    }
  }

  lemma OtherConn(x: System, e: Step, y: System, s: nat)
    requires Follows(x, e, y) && s in x.conns && e.s != s
    ensures s in y.conns && y.conns[s] == x.conns[s]
  {
  }

  lemma OwnConn(x: System, e: Step, y: System, s: nat)
    requires Follows(x, e, y) && s in x.conns && e.s == s && (e.SendRequest? || e.ClientWake?)
    ensures s in y.conns && ConnMoves(x.conns[s], e, s, y.conns[s], ReplyIn(x, e, s))
  {
  }

  lemma ServeSeenByConn(x: System, s: nat, a: Address)
    requires SystemInv(x) && CanServe(x, s, a)
    ensures Served(x, s, a).conns[s] == Answer(x.conns[s], ReplyIn(x, ServerProcess(s, a), s))
  {
    ServedKeeps(x, s, a);
  }

  lemma ReceiveSeenByConn(x: System, s: nat)
    requires SystemInv(x) && s in x.conns && x.conns[s].replies != []
    ensures Receive(x.conns[s]).Some?
  {
    ConnLaws(x, s);
    ReplyFindsPromise(x.conns[s]);
  }

  lemma ConnLaws(x: System, s: nat)
    requires SystemInv(x) && s in x.conns
    ensures Matched(x.conns[s]) && TokensConserved(x.conns[s])
  {
    assert ConnOk(x.conns[s], x.daemon.sessions[s]);
  }

  // ----- the caller's request -----

  /** The caller behind token t asked for q. */
  predicate Asked(c: Conn, q: Request, t: Word) {
    t in c.calls && c.calls[t] == q
  }

  lemma SendsAsGiven(c: Conn, q: Request)
    requires Send(c, q).Some?
    ensures var d, t := SendOrThrow(c, q), c.client.nextToken;
            Asked(d, q, t) && d.requests == c.requests + [Tagged(t, q)]
  {
  }

  lemma StillAsked(c: Conn, e: Step, s: nat, d: Conn, reply: Reply, q: Request, t: Word)
    requires Matched(c) && ConnMoves(c, e, s, d, reply) && Asked(c, q, t) && e != ClientWake(s, t)
    ensures Asked(d, q, t)
  {
  }

  /** The request stays on the channel until it is its turn. */
  lemma StillWaiting(c: Conn, e: Step, s: nat, d: Conn, reply: Reply, q: Request, t: Word)
    requires ConnMoves(c, e, s, d, reply) && Tagged(t, q) in c.requests
    ensures Tagged(t, q) in d.requests || (e.ServerProcess? && e.s == s && c.requests != [] && c.requests[0] == Tagged(t, q))
  {
    if e.s == s && e.ServerProcess? {
      assert c.requests == [c.requests[0]] + c.requests[1..];
    }
  }

  // ----- its answer -----

  /** The request under token t has been answered with r, and with nothing else. */
  ghost predicate Answered(c: Conn, t: Word, r: Reply) {
    t in c.client.awaiting && (c.client.awaiting[t].Fulfilled? ==> c.client.awaiting[t].reply == r) &&
    (forall m :: m in c.replies && m.token == t ==> m.reply == r) &&
    (forall m :: m in c.requests ==> m.token != t)
  }

  lemma StillAnswered(c: Conn, e: Step, s: nat, d: Conn, reply: Reply, t: Word, r: Reply)
    requires ConnMoves(c, e, s, d, reply) && Answered(c, t, r) && e != ClientWake(s, t)
    ensures Answered(d, t, r)
  {
    if e.s == s && e.ServerProcess? {
      assert c.requests[0] in c.requests;
    } else if e.s == s && e.ClientReceive? {
      assert c.replies[0] in c.replies;
    }
  }

  /** A token at the head of the request channel is nowhere else. */
  lemma HeadTokenOnce(c: Conn)
    requires TokensConserved(c) && c.requests != []
    ensures var t := c.requests[0].token;
            (forall m :: m in c.requests[1..] ==> m.token != t) && (forall m :: m in c.replies ==> m.token != t) &&
            t in c.client.awaiting && t !in Ready(c.client.awaiting)
  {
    var t, rest := c.requests[0].token, c.requests[1..];
    assert multiset(c.client.awaiting.Keys)[t] <= 1;
    assert InRequests(c, t) == 1 + InRequests(c.(requests := rest), t);
    assert multiset(Ready(c.client.awaiting))[t] == if t in Ready(c.client.awaiting) then 1 else 0;
    forall i | 0 <= i < |rest| && rest[i].token == t
      ensures false
    {
      SumMember(rest, i, RequestToken, t);
    }
    forall i | 0 <= i < |c.replies| && c.replies[i].token == t
      ensures false
    {
      SumMember(c.replies, i, ReplyToken, t);
    }
  }

  /** Serving answers the head request, once and for all. */
  lemma ServingAnswers(c: Conn, reply: Reply)
    requires TokensConserved(c) && c.requests != []
    ensures Answered(Answer(c, reply), c.requests[0].token, reply)
  {
    HeadTokenOnce(c);
  }

  // ----- along a run -----

  ghost predicate AskedAt(x: System, s: nat, q: Request, t: Word) {
    s in x.conns && Asked(x.conns[s], q, t)
  }

  ghost predicate WaitingAt(x: System, s: nat, q: Request, t: Word) {
    s in x.conns && Tagged(t, q) in x.conns[s].requests
  }

  ghost predicate AnsweredAt(x: System, s: nat, t: Word, r: Reply) {
    s in x.conns && Answered(x.conns[s], t, r)
  }

  /** The daemon serves the request q with token t of connection s. */
  ghost predicate Serves(x: System, e: Step, s: nat, q: Request, t: Word) {
    e.ServerProcess? && e.s == s && s in x.conns && x.conns[s].requests != [] && x.conns[s].requests[0] == Tagged(t, q)
  }

  lemma AskedPersists(s: nat, q: Request, t: Word)
    ensures forall x, e, y :: SystemInv(x) && Follows(x, e, y) && e != ClientWake(s, t) && AskedAt(x, s, q, t) ==> AskedAt(y, s, q, t)
  {
    forall x, e, y | SystemInv(x) && Follows(x, e, y) && e != ClientWake(s, t) && AskedAt(x, s, q, t)
      ensures AskedAt(y, s, q, t)
    {
      StepSeenByConn(x, e, y, s);
      ConnLaws(x, s);
      StillAsked(x.conns[s], e, s, y.conns[s], ReplyIn(x, e, s), q, t);
    }
  }

  lemma AnsweredPersists(s: nat, t: Word, r: Reply)
    ensures forall x, e, y :: SystemInv(x) && Follows(x, e, y) && e != ClientWake(s, t) && AnsweredAt(x, s, t, r) ==> AnsweredAt(y, s, t, r)
  {
    forall x, e, y | SystemInv(x) && Follows(x, e, y) && e != ClientWake(s, t) && AnsweredAt(x, s, t, r)
      ensures AnsweredAt(y, s, t, r)
    {
      StepSeenByConn(x, e, y, s);
      StillAnswered(x.conns[s], e, s, y.conns[s], ReplyIn(x, e, s), t, r);
    }
  }

  lemma WaitingPersists(s: nat, q: Request, t: Word)
    ensures forall x, e, y :: SystemInv(x) && Follows(x, e, y) && !Serves(x, e, s, q, t) && WaitingAt(x, s, q, t) ==> WaitingAt(y, s, q, t)
  {
    forall x, e, y | SystemInv(x) && Follows(x, e, y) && !Serves(x, e, s, q, t) && WaitingAt(x, s, q, t)
      ensures WaitingAt(y, s, q, t)
    {
      StepSeenByConn(x, e, y, s);
      StillWaiting(x.conns[s], e, s, y.conns[s], ReplyIn(x, e, s), q, t);
    }
  }

  lemma RunIsChain(steps: seq<Step>, states: seq<System>)
    requires IsRun(steps, states)
    ensures Chain(steps, states, Follows, SystemInv)
  {
    forall m | 0 <= m < |states|
      ensures SystemInv(states[m])
    {
      EveryInterleaving(steps, states, m);
    }
  }

  ghost predicate NoWake(es: seq<Step>, i: nat, j: nat, s: nat, t: Word)
    requires j <= |es|
  {
    forall m :: i <= m < j ==> es[m] != ClientWake(s, t)
  }

  lemma AskedUntilWake(steps: seq<Step>, states: seq<System>, i: nat, j: nat, s: nat, q: Request, t: Word)
    requires Chain(steps, states, Follows, SystemInv) && i <= j <= |steps| && NoWake(steps, i, j, s, t) && AskedAt(states[i], s, q, t)
    ensures AskedAt(states[j], s, q, t)
  {
    AskedPersists(s, q, t);
    Persist(steps, states, Follows, SystemInv, (x, e) => e == ClientWake(s, t), x => AskedAt(x, s, q, t), i, j);
  }

  lemma AnsweredUntilWake(steps: seq<Step>, states: seq<System>, i: nat, j: nat, s: nat, t: Word, r: Reply)
    requires Chain(steps, states, Follows, SystemInv) && i <= j <= |steps| && NoWake(steps, i, j, s, t) && AnsweredAt(states[i], s, t, r)
    ensures AnsweredAt(states[j], s, t, r)
  {
    AnsweredPersists(s, t, r);
    Persist(steps, states, Follows, SystemInv, (x, e) => e == ClientWake(s, t), x => AnsweredAt(x, s, t, r), i, j);
  }

  /** A request on the channel is served before its caller's promise is set. */
  lemma ServedBefore(steps: seq<Step>, states: seq<System>, i: nat, j: nat, s: nat, q: Request, t: Word) returns (k: nat)
    requires Chain(steps, states, Follows, SystemInv) && i <= j <= |steps| && WaitingAt(states[i], s, q, t)
    requires !WaitingAt(states[j], s, q, t)
    ensures i <= k < j && Serves(states[k], steps[k], s, q, t)
  {
    WaitingPersists(s, q, t);
    k := Leaves(steps, states, Follows, SystemInv, (x, e) => Serves(x, e, s, q, t), x => WaitingAt(x, s, q, t), i, j);
  }

  // ----- the theorem -----

  /** Step e of state x puts request q on connection s under token t. */
  ghost predicate Sends(x: System, e: Step, s: nat, q: Request, t: Word) {
    e == SendRequest(s, q) && s in x.conns && Send(x.conns[s], q).Some? && t == x.conns[s].client.nextToken
  }

  /** In state x the caller behind token t of connection s can wake, with this reply. */
  ghost predicate CanWake(x: System, s: nat, t: Word, reply: Reply) {
    s in x.conns && t in x.conns[s].client.awaiting && x.conns[s].client.awaiting[t] == Fulfilled(reply)
  }

  /** The daemon serves request q of connection s, with its whole effect, and answers this. */
  ghost predicate ServedAs(x: System, e: Step, y: System, s: nat, q: Request, reply: Reply) {
    ServesRequest(x, e, s, q) && Serve(x.daemon, s, q, e.a) == (y.daemon, Some(reply)) &&
    GoodReply(x.daemon, s, q, Some(reply)) && Does(x.daemon, s, q, e.a, y.daemon, reply)
  }

  lemma ServeStep(x: System, e: Step, y: System, s: nat, q: Request, t: Word)
    requires SystemInv(x) && Follows(x, e, y) && Serves(x, e, s, q, t)
    ensures ServedAs(x, e, y, s, q, ReplyIn(x, e, s)) && AnsweredAt(y, s, t, ReplyIn(x, e, s))
  {
    ServedKeeps(x, s, e.a);
    ServeDoes(x.daemon, s, q, e.a);
    StepSeenByConn(x, e, y, s);
    ConnLaws(x, s);
    ServingAnswers(x.conns[s], ReplyIn(x, e, s));
  }

  lemma SendStep(x: System, e: Step, y: System, s: nat, q: Request, t: Word)
    requires SystemInv(x) && Follows(x, e, y) && Sends(x, e, s, q, t)
    ensures AskedAt(y, s, q, t) && WaitingAt(y, s, q, t)
  {
    SendsAsGiven(x.conns[s], q);
    StepSeenByConn(x, e, y, s);
  }

  lemma WakeableIsServed(x: System, s: nat, q: Request, t: Word, reply: Reply)
    requires SystemInv(x) && CanWake(x, s, t, reply)
    ensures !WaitingAt(x, s, q, t)
  {
    ConnLaws(x, s);
    OnlyReady(x.conns[s], t);
  }

  /**
   Every exchange of every run. Step j sends q under token t and no caller wakes with t in steps j+1..i-1;
   if the caller can wake in state i, some step k in between had the daemon serve exactly q, with the
   effect its kind promises, and the reply is what the daemon answered there.
   */
  lemma ExchangeEndToEnd(steps: seq<Step>, states: seq<System>, j: nat, i: nat, s: nat, q: Request, t: Word, reply: Reply)
    returns (k: nat)
    requires IsRun(steps, states) && j < i <= |steps| && NoWake(steps, j + 1, i, s, t)
    requires Sends(states[j], steps[j], s, q, t) && CanWake(states[i], s, t, reply)
    ensures j < k < i && ServedAs(states[k], steps[k], states[k + 1], s, q, reply)
    ensures AskedAt(states[i], s, q, t)
  {
    RunIsChain(steps, states);
    k := ChainExchange(steps, states, j, i, s, q, t, reply);
  }

  lemma ChainExchange(steps: seq<Step>, states: seq<System>, j: nat, i: nat, s: nat, q: Request, t: Word, reply: Reply)
    returns (k: nat)
    requires Chain(steps, states, Follows, SystemInv) && j < i <= |steps| && NoWake(steps, j + 1, i, s, t)
    requires Sends(states[j], steps[j], s, q, t) && CanWake(states[i], s, t, reply)
    ensures j < k < i && ServedAs(states[k], steps[k], states[k + 1], s, q, reply)
    ensures AskedAt(states[i], s, q, t)
  {
    SendStep(states[j], steps[j], states[j + 1], s, q, t);
    WakeableIsServed(states[i], s, q, t, reply);
    k := ServedBefore(steps, states, j + 1, i, s, q, t);
    ServeStep(states[k], steps[k], states[k + 1], s, q, t);
    AnsweredUntilWake(steps, states, k + 1, i, s, t, ReplyIn(states[k], steps[k], s));
    AskedUntilWake(steps, states, j + 1, i, s, q, t);
  }

  /**
   In every state from the send up to the wake: the caller is recorded with the request it made, what
   travels under its token is that request, and a reply it could wake with answers that request.
   */
  lemma OwnRequest(steps: seq<Step>, states: seq<System>, j: nat, i: nat, s: nat, q: Request, t: Word)
    requires IsRun(steps, states) && j < i <= |steps| && NoWake(steps, j + 1, i, s, t) && Sends(states[j], steps[j], s, q, t)
    ensures AskedAt(states[i], s, q, t)
    ensures forall m :: m in states[i].conns[s].requests && m.token == t ==> m.request == q
    ensures forall reply :: CanWake(states[i], s, t, reply) ==> Answers(q, reply)
  {
    RunIsChain(steps, states);
    SendStep(states[j], steps[j], states[j + 1], s, q, t);
    AskedUntilWake(steps, states, j + 1, i, s, q, t);
    ConnLaws(states[i], s);
  }
}
