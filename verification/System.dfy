/**
 The daemon and all its connected libraries: every interleaving of sending, serving, receiving
 and waking, over one FIFO channel in each direction per connection.
 */
module Systems {

  import opened Prelude
  import opened NodeRegistry
  import opened ApiSessions
  import opened ClientSessions
  import opened Channels
  import opened Protocol
  import opened Daemons

  datatype System = System(daemon: Daemon, conns: map<nat, Conn>)

  datatype Step =
    | Connect(s: nat)
    | SendRequest(s: nat, q: Request)
    | ServerProcess(s: nat, a: Address)  // a: the address a newly created node would get
    | ClientReceive(s: nat)
    | ClientWake(s: nat, t: Word)

  // ----- steps -----

  /** The oldest request is served. If an exception escapes, it is gone and nothing is sent. */
  ghost function Served(x: System, s: nat, a: Address): System
    requires s in x.conns && x.conns[s].requests != [] && Partitioned(x.daemon) && s in x.daemon.sessions
  {
    var c := x.conns[s];
    var (d, reply) := Serve(x.daemon, s, c.requests[0].request, a);
    System(d, x.conns[s := if reply.Some? then Answer(c, reply.value) else c.(requests := c.requests[1..])])
  }

  ghost predicate CanServe(x: System, s: nat, a: Address) {
    s in x.conns && x.conns[s].requests != [] && a !in x.daemon.registry.nodes &&
    Partitioned(x.daemon) && s in x.daemon.sessions && Conforming(x.daemon, s, x.conns[s].requests[0].request)
  }

  ghost predicate Follows(x: System, e: Step, y: System) {
    match e
    case Connect(s) => s !in x.conns && y == System(OpenSession(x.daemon, s), x.conns[s := NewConn()])
    case SendRequest(s, q) =>
      s in x.conns && MaySend(x.conns[s], q) && y == x.(conns := x.conns[s := SendOrThrow(x.conns[s], q)])
    case ServerProcess(s, a) => CanServe(x, s, a) && y == Served(x, s, a)
    case ClientReceive(s) =>
      s in x.conns && x.conns[s].replies != [] &&
      y == (match Receive(x.conns[s])
            case None => x
            case Some(c) => x.(conns := x.conns[s := c]))
    case ClientWake(s, t) =>
      s in x.conns && t in Ready(x.conns[s].client.awaiting) && y == x.(conns := x.conns[s := Wake(x.conns[s], t)])
  }

  ghost predicate IsRun(steps: seq<Step>, states: seq<System>) {
    |states| == |steps| + 1 && states[0] == System(Daemon(Registry(map[], map[], {}), map[]), map[]) &&
    forall i :: 0 <= i < |steps| ==> Follows(states[i], steps[i], states[i + 1])
  }

  // ----- the invariant -----

  ghost predicate SystemInv(x: System) {
    Inv(x.daemon) && x.conns.Keys == x.daemon.sessions.Keys &&
    forall s :: s in x.conns ==> ConnOk(x.conns[s], x.daemon.sessions[s])
  }

  ghost predicate ConnOk(c: Conn, ses: Session) {
    ConnInv(c, ses.nodes.Keys)
  }

  /** A request in flight names a registered node. */
  lemma RequestedIdRegistered(c: Conn, ids: set<Id>)
    requires ConnInv(c, ids) && c.requests != [] && !c.requests[0].request.Register?
    ensures c.requests[0].request.id in ids
  {
    var r := c.requests[0];
    assert r in c.requests;
    if r.request.Unregister? {
      SumMember(c.requests, 0, GoneIds, r.request.id);
    }
    assert r.request.id in multiset(ids);
  }

  /** Serving moves ids between the session table and the channels, one for one. */
  lemma ProcessMovesIds(r: Registry, ses: Session, q: Request, a: Address)
    requires LeastFree(ses.nodes.Keys, ses.next) && forall id :: id in ses.nodes ==> ses.nodes[id] in r.nodes
    requires Process(r, ses, q, a).reply.Some? && (q.Register? || q.id in ses.nodes)
    ensures var o := Process(r, ses, q, a);
            Answers(q, o.reply.value) &&
            multiset(o.session.nodes.Keys) + RequestIds(q) == multiset(ses.nodes.Keys) + ReplyIds(o.reply.value) &&
            (o.reply.value.Failed? <==> q.Register? && forall i: Id :: 0 < i ==> i in ses.nodes)
  {
    var after := Process(r, ses, q, a).session;
    if q.Register? {
      TooManyExactly(r, ses, a);
      if ses.next != 0 {
        assert after.nodes.Keys == ses.nodes.Keys + {ses.next};
        SetInsert(ses.nodes.Keys, ses.next);
      }
    } else if q.Unregister? {
      assert after.nodes.Keys == ses.nodes.Keys - {q.id};
      SetRemove(ses.nodes.Keys, q.id);
    }
  }

  /** The reply that goes out, and what it may be. */
  ghost predicate GoodReply(d: Daemon, s: nat, q: Request, reply: Option<Reply>)
    requires s in d.sessions
  {
    reply.Some? && Answers(q, reply.value) &&
    (reply.value.Failed? <==> q.Register? && forall i: Id :: 0 < i ==> i in d.sessions[s].nodes)
  }

  lemma ServedConn(d: Daemon, c: Conn, s: nat, a: Address)
    requires Inv(d) && s in d.sessions && a !in d.registry.nodes
    requires ConnOk(c, d.sessions[s]) && c.requests != [] && Conforming(d, s, c.requests[0].request)
    ensures var (e, reply) := Serve(d, s, c.requests[0].request, a);
            Inv(e) && GoodReply(d, s, c.requests[0].request, reply) && s in e.sessions && ConnOk(Answer(c, reply.value), e.sessions[s])
  {
    var q, ses := c.requests[0].request, d.sessions[s];
    if !q.Register? {
      RequestedIdRegistered(c, ses.nodes.Keys);
    }
    ServeExactly(d, s, q, a);
    TableInRegistry(d, s);
    var o := Process(d.registry, ses, q, a);
    ProcessMovesIds(d.registry, ses, q, a);
    AnswerKeeps(c, o.reply.value, ses.nodes.Keys, o.session.nodes.Keys);
  }

  lemma ServedKeeps(x: System, s: nat, a: Address)
    requires SystemInv(x) && CanServe(x, s, a)
    ensures SystemInv(Served(x, s, a))
    ensures var q := x.conns[s].requests[0].request;
            GoodReply(x.daemon, s, q, Serve(x.daemon, s, q, a).1)
  {
    var c := x.conns[s];
    ServedConn(x.daemon, c, s, a);
    var (e, reply) := Serve(x.daemon, s, c.requests[0].request, a);
    ReplaceEntry(x.conns, x.daemon.sessions, s, Answer(c, reply.value), e.sessions[s], ConnOk);
  }

  lemma ReplaceFirst<A, B>(m: map<nat, A>, n: map<nat, B>, s: nat, a: A, p: (A, B) -> bool)
    requires m.Keys == n.Keys && s in n && p(a, n[s]) && forall i :: i in m ==> p(m[i], n[i])
    ensures var m' := m[s := a];
            m'.Keys == n.Keys && forall i :: i in m' ==> p(m'[i], n[i])
  {
  }

  lemma ReplaceEntry<A, B>(m: map<nat, A>, n: map<nat, B>, s: nat, a: A, b: B, p: (A, B) -> bool)
    requires m.Keys == n.Keys && p(a, b) && forall i :: i in m ==> p(m[i], n[i])
    ensures var m', n' := m[s := a], n[s := b];
            m'.Keys == n'.Keys && forall i :: i in m' ==> p(m'[i], n'[i])
  {
  }

  lemma ConnectKeeps(x: System, s: nat)
    requires SystemInv(x) && s !in x.conns
    ensures SystemInv(System(OpenSession(x.daemon, s), x.conns[s := NewConn()]))
  {
    OpenKeeps(x.daemon, s);
    NewConnInv();
    assert Session(map[], 1).nodes.Keys == {};
    ReplaceEntry(x.conns, x.daemon.sessions, s, NewConn(), Session(map[], 1), ConnOk);
  }

  lemma ClientKeeps(x: System, s: nat, c: Conn)
    requires SystemInv(x) && s in x.conns && ConnOk(c, x.daemon.sessions[s])
    ensures SystemInv(x.(conns := x.conns[s := c]))
  {
    ReplaceFirst(x.conns, x.daemon.sessions, s, c, ConnOk);
  }

  lemma SendKeeps(c: Conn, q: Request, ses: Session)
    requires ConnOk(c, ses) && MaySend(c, q)
    ensures ConnOk(SendOrThrow(c, q), ses)
  {
    if Send(c, q).None? {
      ThrowKeeps(c, q, ses.nodes.Keys);
    } else {
      SendTokens(c, q);
      SendIds(c, q, ses.nodes.Keys);
      SendMatched(c, q);
    }
  }

  lemma StepKeeps(x: System, e: Step, y: System)
    requires SystemInv(x) && Follows(x, e, y)
    ensures SystemInv(y)
  {
    match e
    case Connect(s) => ConnectKeeps(x, s);
    case SendRequest(s, q) =>
      SendKeeps(x.conns[s], q, x.daemon.sessions[s]);
      ClientKeeps(x, s, SendOrThrow(x.conns[s], q));
    case ServerProcess(s, a) => ServedKeeps(x, s, a);
    case ClientReceive(s) =>
      ReceiveKeeps(x.conns[s], x.daemon.sessions[s].nodes.Keys);
      ClientKeeps(x, s, Receive(x.conns[s]).value);
    case ClientWake(s, t) =>
      WakeKeeps(x.conns[s], t, x.daemon.sessions[s].nodes.Keys);
      ClientKeeps(x, s, Wake(x.conns[s], t));
  }

  // ----- the theorems -----

  /** The conservation laws hold in every state of every interleaving. */
  lemma {:induction false} EveryInterleaving(steps: seq<Step>, states: seq<System>, i: nat)
    requires IsRun(steps, states) && i < |states|
    ensures SystemInv(states[i])
  {
    if i > 0 {
      EveryInterleaving(steps, states, i - 1);
      StepKeeps(states[i - 1], steps[i - 1], states[i]);
    }
  }

  /** How often an id is held by live nodes, arriving in a registration reply, and leaving in an unregistration. */
  ghost function Held(c: Conn, id: Id): nat { c.live[id] }
  ghost function Arriving(c: Conn, id: Id): nat { (Sum<TaggedReply, Id>(c.replies, NewIds) + MapSum<Word, Promise, Id>(c.client.awaiting, PromiseIds))[id] }
  ghost function Leaving(c: Conn, id: Id): nat { Sum<Tagged, Id>(c.requests, GoneIds)[id] }

  lemma ConservedIds(c: Conn, ids: set<Id>, id: Id)
    requires IdsConserved(c, ids)
    ensures Held(c, id) + Arriving(c, id) + Leaving(c, id) == if id in ids then 1 else 0
  {
    var all: multiset<Id> := multiset(ids);
    assert all[id] == if id in ids then 1 else 0;
  }

  /** In every state, a registered id is in exactly one of the three places, once; any other id is in none. */
  lemma IdsInOnePlace(steps: seq<Step>, states: seq<System>, i: nat, s: nat, id: Id)
    requires IsRun(steps, states) && i < |states| && s in states[i].conns
    ensures s in states[i].daemon.sessions
    ensures var c := states[i].conns[s];
            Held(c, id) + Arriving(c, id) + Leaving(c, id) == if id in states[i].daemon.sessions[s].nodes then 1 else 0
  {
    EveryInterleaving(steps, states, i);
    ConservedIds(states[i].conns[s], states[i].daemon.sessions[s].nodes.Keys, id);
  }

  /** How often a token is in a request in flight, in a reply in flight, and in a promise already set. */
  ghost function InRequests(c: Conn, t: Word): nat { Sum<Tagged, Word>(c.requests, RequestToken)[t] }
  ghost function InReplies(c: Conn, t: Word): nat { Sum<TaggedReply, Word>(c.replies, ReplyToken)[t] }

  /** In every state, a pending token is in exactly one of the three places, once; any other token is in none. */
  lemma TokensInOnePlace(steps: seq<Step>, states: seq<System>, i: nat, s: nat, t: Word)
    requires IsRun(steps, states) && i < |states| && s in states[i].conns
    ensures var c := states[i].conns[s];
            InRequests(c, t) + InReplies(c, t) + (if t in Ready(c.client.awaiting) then 1 else 0) ==
              if t in c.client.awaiting then 1 else 0
  {
    EveryInterleaving(steps, states, i);
    var c := states[i].conns[s];
    assert multiset(c.client.awaiting.Keys)[t] == if t in c.client.awaiting then 1 else 0;
    assert multiset(Ready(c.client.awaiting))[t] == if t in Ready(c.client.awaiting) then 1 else 0;
  }

  /** What step e must not do in state x: fail, or hand a caller anything but the answer to its own request. */
  ghost predicate Safe(x: System, e: Step) {
    match e
    case Connect(_) => true
    case SendRequest(_, _) => true
    case ServerProcess(s, a) =>
      CanServe(x, s, a) ==>
        var q := x.conns[s].requests[0].request;
        GoodReply(x.daemon, s, q, Serve(x.daemon, s, q, a).1)
    case ClientReceive(s) => s in x.conns && x.conns[s].replies != [] ==> Receive(x.conns[s]).Some?
    case ClientWake(s, t) =>
      s in x.conns && t in Ready(x.conns[s].client.awaiting) ==>
        t in x.conns[s].calls && Answers(x.conns[s].calls[t], x.conns[s].client.awaiting[t].reply)
  }

  /**
   In every state of every run: the unchecked find of handleReceive finds its promise and the promise
   is not set yet, no exception escapes a handler, every caller wakes with the reply to its own
   request, nonexistent_node is never among them, and an error is replied only when all ids are taken.
   */
  lemma EveryStepSafe(steps: seq<Step>, states: seq<System>, i: nat, e: Step)
    requires IsRun(steps, states) && i < |states|
    ensures Safe(states[i], e)
  {
    EveryInterleaving(steps, states, i);
    var x := states[i];
    match e
    case Connect(_) =>
    case SendRequest(_, _) =>
    case ServerProcess(s, a) =>
      if CanServe(x, s, a) {
        ServedKeeps(x, s, a);
      }
    case ClientReceive(s) =>
      if s in x.conns && x.conns[s].replies != [] {
        ReplyFindsPromise(x.conns[s]);
      }
    case ClientWake(s, t) =>
      if s in x.conns && t in Ready(x.conns[s].client.awaiting) {
        WakeKeeps(x.conns[s], t, x.daemon.sessions[s].nodes.Keys);
      }
  }

  /** While fewer than 2^32 exchanges were begun on a connection, the next one gets a token that is not pending. */
  lemma SendNeverCollides(steps: seq<Step>, states: seq<System>, i: nat, s: nat, q: Request)
    requires IsRun(steps, states) && i < |states| && s in states[i].conns && states[i].conns[s].issued < U32
    ensures Send(states[i].conns[s], q).Some?
  {
    EveryInterleaving(steps, states, i);
    FewExchanges(states[i].conns[s]);
  }
}
