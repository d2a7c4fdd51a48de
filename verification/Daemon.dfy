/** All sessions of the daemon over the one node database: the invariant of every run of requests. */
module Daemons {

  import opened Prelude
  import opened NodeRegistry
  import opened ApiSessions

  datatype Daemon = Daemon(registry: Registry, sessions: map<nat, Session>)

  /** Session s has the node at address a registered under this id. */
  predicate Holds(d: Daemon, s: nat, id: Id, a: Address) {
    s in d.sessions && id in d.sessions[s].nodes && d.sessions[s].nodes[id] == a
  }

  /** The nodes that exist are the disjoint union of all session tables. */
  ghost predicate Partitioned(d: Daemon) {
    (forall s, id, a :: Holds(d, s, id, a) ==> a in d.registry.nodes) &&
    (forall a :: a in d.registry.nodes ==> exists s, id :: Holds(d, s, id, a)) &&
    (forall s, id, s', id', a :: Holds(d, s, id, a) && Holds(d, s', id', a) ==> s == s' && id == id')
  }

  ghost predicate Allocated(d: Daemon) {
    forall s :: s in d.sessions ==> LeastFree(d.sessions[s].nodes.Keys, d.sessions[s].next)
  }

  ghost predicate Inv(d: Daemon) {
    Consistent(d.registry) && Allocated(d) && Partitioned(d)
  }

  lemma TableInRegistry(d: Daemon, s: nat)
    requires Partitioned(d) && s in d.sessions
    ensures forall id :: id in d.sessions[s].nodes ==> d.sessions[s].nodes[id] in d.registry.nodes
  {
    forall id | id in d.sessions[s].nodes
      ensures d.sessions[s].nodes[id] in d.registry.nodes
    {
      assert Holds(d, s, id, d.sessions[s].nodes[id]);
    }
  }

  /** One request handled in session s: the daemon afterwards, and the reply unless an exception escaped. */
  ghost function Serve(d: Daemon, s: nat, q: Request, a: Address): (Daemon, Option<Reply>)
    requires Partitioned(d) && s in d.sessions
  {
    TableInRegistry(d, s);
    var o := Process(d.registry, d.sessions[s], q, a);
    (Daemon(o.registry, d.sessions[s := o.session]), o.reply)
  }

  /** The one demand on callers: a bind is the node's first and to a free SH, or repeats its SH. */
  ghost predicate Conforming(d: Daemon, s: nat, q: Request)
    requires Partitioned(d) && s in d.sessions
  {
    TableInRegistry(d, s);
    q.Bind? && q.key.Some? && q.id in d.sessions[s].nodes ==>
      BindAllowed(d.registry, d.sessions[s].nodes[q.id], q.key.value)
  }

  // ----- each change keeps the tables a partition -----

  lemma AddEntry(d: Daemon, e: Daemon, s: nat, id: Id, a: Address)
    requires Partitioned(d) && s in d.sessions && a !in d.registry.nodes && id !in d.sessions[s].nodes
    requires e.registry.nodes.Keys == d.registry.nodes.Keys + {a}
    requires e.sessions.Keys == d.sessions.Keys && e.sessions[s].nodes == d.sessions[s].nodes[id := a]
    requires forall s' :: s' in d.sessions && s' != s ==> e.sessions[s'] == d.sessions[s']
    ensures Partitioned(e)
  {
    assert forall s', id', b :: Holds(e, s', id', b) <==> Holds(d, s', id', b) || (s' == s && id' == id && b == a);
    forall b | b in e.registry.nodes
      ensures exists s', id' :: Holds(e, s', id', b)
    {
      if b == a {
        assert Holds(e, s, id, a);
      } else {
        var s', id' :| Holds(d, s', id', b);
        assert Holds(e, s', id', b);
      }
    }
  }

  lemma RemoveEntry(d: Daemon, e: Daemon, s: nat, id: Id, a: Address)
    requires Partitioned(d) && Holds(d, s, id, a)
    requires e.registry.nodes.Keys == d.registry.nodes.Keys - {a}
    requires e.sessions.Keys == d.sessions.Keys && e.sessions[s].nodes == d.sessions[s].nodes - {id}
    requires forall s' :: s' in d.sessions && s' != s ==> e.sessions[s'] == d.sessions[s']
    ensures Partitioned(e)
  {
    assert forall s', id', b :: Holds(e, s', id', b) <==> Holds(d, s', id', b) && !(s' == s && id' == id);
    forall b | b in e.registry.nodes
      ensures exists s', id' :: Holds(e, s', id', b)
    {
      var s', id' :| Holds(d, s', id', b);
      assert Holds(e, s', id', b);
    }
  }

  lemma SameEntries(d: Daemon, e: Daemon)
    requires Partitioned(d) && e.sessions == d.sessions && e.registry.nodes.Keys == d.registry.nodes.Keys
    ensures Partitioned(e)
  {
    assert forall s, id, a :: Holds(e, s, id, a) <==> Holds(d, s, id, a);
    forall b | b in e.registry.nodes
      ensures exists s, id :: Holds(e, s, id, b)
    {
      var s, id :| Holds(d, s, id, b);
      assert Holds(e, s, id, b);
    }
  }

  // ----- each request -----

  lemma ServeRegister(d: Daemon, s: nat, a: Address)
    requires Inv(d) && s in d.sessions && a !in d.registry.nodes
    ensures var o := NodeRegister(d.registry, d.sessions[s], a);
            o.reply.Some? && Inv(Daemon(o.registry, d.sessions[s := o.session]))
  {
    var ses := d.sessions[s];
    var o := NodeRegister(d.registry, ses, a);
    var e := Daemon(o.registry, d.sessions[s := o.session]);
    if ses.next == 0 {
      assert e == d;
    } else {
      assert o.session.nodes.Keys == ses.nodes.Keys + {ses.next};
      RegisterKeepsLeastFree(ses.nodes.Keys, ses.next);
      CreateKeeps(d.registry, a);
      AddEntry(d, e, s, ses.next, a);
    }
  }

  lemma ServeUnregister(d: Daemon, s: nat, id: Id)
    requires Inv(d) && s in d.sessions
    ensures id in d.sessions[s].nodes ==> d.sessions[s].nodes[id] in d.registry.nodes
    ensures var o := NodeUnregister(d.registry, d.sessions[s], id);
            o.reply.Some? && Inv(Daemon(o.registry, d.sessions[s := o.session]))
  {
    TableInRegistry(d, s);
    var ses := d.sessions[s];
    var o := NodeUnregister(d.registry, ses, id);
    var e := Daemon(o.registry, d.sessions[s := o.session]);
    if id !in ses.nodes {
      assert e == d;
    } else {
      DestroyKeeps(d.registry, ses.nodes[id]);
      assert o.session.nodes.Keys == ses.nodes.Keys - {id};
      UnregisterKeepsLeastFree(ses.nodes.Keys, ses.next, id);
      RemoveEntry(d, e, s, id, ses.nodes[id]);
    }
  }

  lemma ServeListen(d: Daemon, s: nat, id: Id, maxConnections: nat)
    requires Inv(d) && s in d.sessions
    ensures id in d.sessions[s].nodes ==> d.sessions[s].nodes[id] in d.registry.nodes
    ensures var o := NodeListen(d.registry, d.sessions[s], id, maxConnections);
            o.reply.Some? && Inv(Daemon(o.registry, d.sessions[s := o.session]))
  {
    TableInRegistry(d, s);
    var o := NodeListen(d.registry, d.sessions[s], id, maxConnections);
    var e := Daemon(o.registry, d.sessions[s := o.session]);
    assert e.sessions == d.sessions;
    if id in d.sessions[s].nodes {
      ListenKeeps(d.registry, d.sessions[s].nodes[id], maxConnections);
    }
    SameEntries(d, e);
  }

  lemma ServeBind(d: Daemon, s: nat, id: Id, key: Option<Sh>)
    requires Inv(d) && s in d.sessions
    ensures id in d.sessions[s].nodes ==> d.sessions[s].nodes[id] in d.registry.nodes
    ensures var o := NodeBind(d.registry, d.sessions[s], id, key);
            o.reply.Some? && Inv(Daemon(o.registry, d.sessions[s := o.session])) <==> Conforming(d, s, Bind(id, key))
  {
    TableInRegistry(d, s);
    var o := NodeBind(d.registry, d.sessions[s], id, key);
    var e := Daemon(o.registry, d.sessions[s := o.session]);
    assert e.sessions == d.sessions;
    if id in d.sessions[s].nodes && key.Some? {
      BindExactly(d.registry, d.sessions[s].nodes[id], key.value);
      assert e.registry.nodes.Keys == d.registry.nodes.Keys;
    }
    SameEntries(d, e);
  }

  /** A request is answered and keeps the invariant if and only if it conforms. */
  lemma ServeExactly(d: Daemon, s: nat, q: Request, a: Address)
    requires Inv(d) && s in d.sessions && a !in d.registry.nodes
    ensures var (e, reply) := Serve(d, s, q, a);
            reply.Some? && Inv(e) <==> Conforming(d, s, q)
  {
    TableInRegistry(d, s);
    match q
    case Register => ServeRegister(d, s, a);
    case Unregister(id) => ServeUnregister(d, s, id);
    case Listen(id, maxConnections) => ServeListen(d, s, id, maxConnections);
    case Bind(id, key) => ServeBind(d, s, id, key);
  }

  // ----- what serving a request does -----

  /** Only session s changes, and there only to this table. */
  ghost predicate OnlyTable(d: Daemon, s: nat, e: Daemon, table: map<Id, Address>) {
    s in e.sessions && e.sessions[s].nodes == table && e.sessions == d.sessions[s := e.sessions[s]]
  }

  /** getBoundNode answers as before, except for this SH. */
  ghost predicate OnlySh(d: Daemon, e: Daemon, sh: Option<Sh>, found: Option<Address>) {
    forall g :: GetBoundNode(e.registry, g) == if Some(g) == sh then found else GetBoundNode(d.registry, g)
  }

  /** NODE_REGISTER: the least free id gets a new unbound node, or nothing happens because there is none. */
  ghost predicate DoesRegister(d: Daemon, s: nat, a: Address, e: Daemon, reply: Reply)
    requires s in d.sessions
  {
    var table := d.sessions[s].nodes;
    if reply.Registered? then
      reply.newId !in table && reply.newId > 0 && (forall i: Id :: 0 < i < reply.newId ==> i in table) &&
      OnlyTable(d, s, e, table[reply.newId := a]) &&
      e.registry.nodes == d.registry.nodes[a := Node(None, 0)] && OnlySh(d, e, None, None)
    else reply == Failed(TOO_MANY_NODES) && e == d && forall i: Id :: 0 < i ==> i in table
  }

  /** A request for a node: refused without effect if the session has no such id, else this happens to the node at a. */
  ghost predicate DoesForNode(d: Daemon, q: Request, a: Address, e: Daemon, reply: Reply)
    requires !q.Register? && a in d.registry.nodes
  {
    var n := d.registry.nodes[a];
    match q
    case Unregister(_) => e.registry.nodes == d.registry.nodes - {a} && OnlySh(d, e, n.sh, None)
    case Listen(_, max) =>
      e.sessions == d.sessions && e.registry.nodes == d.registry.nodes[a := n.(maxConnections := max)] && OnlySh(d, e, None, None)
    case Bind(_, None) => e == d
    case Bind(_, Some(sh)) =>
      e.sessions == d.sessions && e.registry.nodes == d.registry.nodes[a := n.(sh := Some(sh))] && OnlySh(d, e, Some(sh), Some(a))
  }

  /** The whole effect of serving request q in session s, and the reply. */
  ghost predicate Does(d: Daemon, s: nat, q: Request, a: Address, e: Daemon, reply: Reply)
    requires s in d.sessions
  {
    var table := d.sessions[s].nodes;
    if q.Register? then DoesRegister(d, s, a, e, reply)
    else if q.id !in table then e == d && reply == Failed(NONEXISTENT_NODE)
    else
      reply == Done(q) && table[q.id] in d.registry.nodes && DoesForNode(d, q, table[q.id], e, reply) &&
      (q.Unregister? ==> OnlyTable(d, s, e, table - {q.id}))
  }

  lemma RegisterDoes(d: Daemon, s: nat, a: Address)
    requires Inv(d) && s in d.sessions && a !in d.registry.nodes
    ensures var o := NodeRegister(d.registry, d.sessions[s], a);
            o.reply.Some? && DoesRegister(d, s, a, Daemon(o.registry, d.sessions[s := o.session]), o.reply.value)
  {
    TooManyExactly(d.registry, d.sessions[s], a);
    if d.sessions[s].next == 0 {
      assert d.sessions[s := d.sessions[s]] == d.sessions;
    }
  }

  lemma UnregisterDoes(d: Daemon, s: nat, id: Id)
    requires Inv(d) && s in d.sessions && id in d.sessions[s].nodes && d.sessions[s].nodes[id] in d.registry.nodes
    ensures var o, a := NodeUnregister(d.registry, d.sessions[s], id), d.sessions[s].nodes[id];
            var e := Daemon(o.registry, d.sessions[s := o.session]);
            o.reply == Some(Done(Unregister(id))) && DoesForNode(d, Unregister(id), a, e, Done(Unregister(id))) &&
            OnlyTable(d, s, e, d.sessions[s].nodes - {id})
  {
    DestroyKeeps(d.registry, d.sessions[s].nodes[id]);
  }

  lemma ListenDoes(d: Daemon, s: nat, id: Id, max: nat)
    requires s in d.sessions && id in d.sessions[s].nodes && d.sessions[s].nodes[id] in d.registry.nodes
    ensures var o, a := NodeListen(d.registry, d.sessions[s], id, max), d.sessions[s].nodes[id];
            o.reply == Some(Done(Listen(id, max))) &&
            DoesForNode(d, Listen(id, max), a, Daemon(o.registry, d.sessions[s := o.session]), Done(Listen(id, max)))
  {
    assert d.sessions[s := d.sessions[s]] == d.sessions;
  }

  lemma BindDoes(d: Daemon, s: nat, id: Id, key: Option<Sh>)
    requires Inv(d) && s in d.sessions && id in d.sessions[s].nodes && d.sessions[s].nodes[id] in d.registry.nodes
    requires key.Some? ==> BindAllowed(d.registry, d.sessions[s].nodes[id], key.value)
    ensures var o, a := NodeBind(d.registry, d.sessions[s], id, key), d.sessions[s].nodes[id];
            o.reply == Some(Done(Bind(id, key))) &&
            DoesForNode(d, Bind(id, key), a, Daemon(o.registry, d.sessions[s := o.session]), Done(Bind(id, key)))
  {
    assert d.sessions[s := d.sessions[s]] == d.sessions;
    if key.Some? {
      BindKeeps(d.registry, d.sessions[s].nodes[id], key.value);
    }
  }

  /** Serving a conforming request has exactly the effect its kind promises, and nothing else changes. */
  lemma ServeDoes(d: Daemon, s: nat, q: Request, a: Address)
    requires Inv(d) && s in d.sessions && a !in d.registry.nodes && Conforming(d, s, q)
    ensures var (e, reply) := Serve(d, s, q, a);
            reply.Some? && Does(d, s, q, a, e, reply.value)
  {
    TableInRegistry(d, s);
    assert d.sessions[s := d.sessions[s]] == d.sessions;
    if q.Register? {
      RegisterDoes(d, s, a);
    } else if q.id in d.sessions[s].nodes {
      match q
      case Unregister(id) => UnregisterDoes(d, s, id);
      case Listen(id, max) => ListenDoes(d, s, id, max);
      case Bind(id, key) => BindDoes(d, s, id, key);
    }
  }

  // ----- runs -----

  datatype Event = Open(s: nat) | Handle(s: nat, q: Request, a: Address)

  function OpenSession(d: Daemon, s: nat): Daemon {
    if s in d.sessions then d else d.(sessions := d.sessions[s := Session(map[], 1)])
  }

  lemma OpenKeeps(d: Daemon, s: nat)
    requires Inv(d)
    ensures Inv(OpenSession(d, s))
  {
    var e := OpenSession(d, s);
    assert forall s', id, a :: Holds(e, s', id, a) <==> Holds(d, s', id, a);
    forall b | b in e.registry.nodes
      ensures exists s', id :: Holds(e, s', id, b)
    {
      var s', id :| Holds(d, s', id, b);
      assert Holds(e, s', id, b);
    }
  }

  ghost predicate DaemonFollows(c: Daemon, e: Event, d: Daemon) {
    match e
    case Open(s) => d == OpenSession(c, s)
    case Handle(s, q, a) =>
      s in c.sessions && a !in c.registry.nodes && Partitioned(c) && Conforming(c, s, q) && d == Serve(c, s, q, a).0
  }

  /** states lists the daemon's states from the empty one on, one conforming event after the other. */
  ghost predicate IsDaemonRun(events: seq<Event>, states: seq<Daemon>) {
    |states| == |events| + 1 && states[0] == Daemon(Registry(map[], map[], {}), map[]) &&
    forall i :: 0 <= i < |events| ==> DaemonFollows(states[i], events[i], states[i + 1])
  }

  /**
   Throughout every conforming run: each node is in exactly one index, filed under its SH, and in
   exactly one session table; each session's counter is its least free id; and no request throws.
   */
  lemma {:induction false} EveryRun(events: seq<Event>, states: seq<Daemon>, i: nat)
    requires IsDaemonRun(events, states) && i < |states|
    ensures Inv(states[i])
    ensures i < |events| && events[i].Handle? ==>
              events[i].s in states[i].sessions && Serve(states[i], events[i].s, events[i].q, events[i].a).1.Some?
  {
    if i > 0 {
      EveryRun(events, states, i - 1);
      assert DaemonFollows(states[i - 1], events[i - 1], states[i]);
      match events[i - 1]
      case Open(s) => OpenKeeps(states[i - 1], s);
      case Handle(s, q, a) => ServeExactly(states[i - 1], s, q, a);
    }
    if i < |events| && events[i].Handle? {
      assert DaemonFollows(states[i], events[i], states[i + 1]);
      ServeExactly(states[i], events[i].s, events[i].q, events[i].a);
    }
  }

  /** And so it does in every conforming run. */
  lemma EveryRunDoes(events: seq<Event>, states: seq<Daemon>, i: nat)
    requires IsDaemonRun(events, states) && i < |events| && events[i].Handle?
    ensures Inv(states[i]) && events[i].s in states[i].sessions
    ensures var reply := Serve(states[i], events[i].s, events[i].q, events[i].a).1;
            reply.Some? && Does(states[i], events[i].s, events[i].q, events[i].a, states[i + 1], reply.value)
  {
    EveryRun(events, states, i);
    assert DaemonFollows(states[i], events[i], states[i + 1]);
    ServeDoes(states[i], events[i].s, events[i].q, events[i].a);
  }
}
