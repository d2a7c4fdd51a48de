/**
 One connection between the library and the daemon: the client session, its blocked callers, the
 P2PNode objects, and the two FIFO channels (src/library/P2PSession.cpp, src/library/P2PNode.cpp).
 */
module Protocol {

  import opened Prelude
  import opened ApiSessions
  import opened ClientSessions
  import opened Channels

  /**
   calls holds the request of every caller blocked in clientExchange, by token; live holds the
   node_id of every usable P2PNode; issued counts the exchanges begun so far.
   */
  datatype Conn = Conn(client: Client, calls: map<Word, Request>, live: multiset<Id>,
                       requests: seq<Tagged>, replies: seq<TaggedReply>, issued: nat)

  function NewConn(): Conn {
    Conn(Client(map[], 0), map[], multiset{}, [], [], 0)
  }

  // ----- steps -----

  /** What a program that uses P2PNode objects properly may ask for. */
  ghost predicate MaySend(c: Conn, q: Request) {
    match q
    case Register => true
    case Unregister(id) => id in c.live && forall t :: t in c.calls ==> !Uses(c.calls[t], id)
    case Listen(id, _) => id in c.live
    case Bind(id, _) => id in c.live
  }

  /** A call made on the P2PNode with this id. */
  predicate Uses(q: Request, id: Id) {
    (q.Listen? || q.Bind?) && q.id == id
  }

  /** A caller enters clientExchange. The destructor gives its id up as it does. */
  function Send(c: Conn, q: Request): Option<Conn> {
    match Begin(c.client)
    case None => None
    case Some(client) =>
      var t := c.client.nextToken;
      Some(c.(client := client, calls := c.calls[t := q], requests := c.requests + [Tagged(t, q)], issued := c.issued + 1,
              live := if q.Unregister? then c.live - multiset{q.id} else c.live))
  }

  /**
   The same, with what a token that is still pending leads to: an exception that leaves the counter
   stepped and nothing sent. A destructor it leaves ends the program; the id stays registered.
   */
  function SendOrThrow(c: Conn, q: Request): Conn {
    match Send(c, q)
    case Some(d) => d
    case None => c.(client := c.client.(nextToken := Increment(c.client.nextToken)), issued := c.issued + 1)
  }

  /** The daemon takes the oldest request off the channel and its reply goes out. */
  function Answer(c: Conn, reply: Reply): Conn
    requires c.requests != []
  {
    c.(requests := c.requests[1..], replies := c.replies + [TaggedReply(c.requests[0].token, reply)])
  }

  /** The receive loop takes the oldest reply. */
  function Receive(c: Conn): Option<Conn>
    requires c.replies != []
  {
    match Deliver(c.client, c.replies[0])
    case None => None
    case Some(client) => Some(c.(client := client, replies := c.replies[1..]))
  }

  /** The blocked caller goes on with its reply; a constructor takes the id from it. */
  function Wake(c: Conn, t: Word): Conn
    requires t in c.client.awaiting && c.client.awaiting[t].Fulfilled?
  {
    c.(client := Finish(c.client, t), calls := c.calls - {t}, live := c.live + PromiseIds(c.client.awaiting[t]))
  }

  // ----- what travels where -----

  function RequestToken(r: Tagged): multiset<Word> { multiset{r.token} }
  function ReplyToken(r: TaggedReply): multiset<Word> { multiset{r.token} }
  function ReplyIds(r: Reply): multiset<Id> { if r.Registered? then multiset{r.newId} else multiset{} }
  function NewIds(r: TaggedReply): multiset<Id> { ReplyIds(r.reply) }
  function PromiseIds(p: Promise): multiset<Id> { if p.Fulfilled? then ReplyIds(p.reply) else multiset{} }
  function RequestIds(q: Request): multiset<Id> { if q.Unregister? then multiset{q.id} else multiset{} }
  function GoneIds(r: Tagged): multiset<Id> { RequestIds(r.request) }

  function Ready(m: map<Word, Promise>): set<Word> {
    set t | t in m && m[t].Fulfilled?
  }

  // ----- the invariant -----

  /** Every pending token is in exactly one request in flight, reply in flight, or fulfilled promise. */
  ghost predicate TokensConserved(c: Conn) {
    multiset(c.client.awaiting.Keys) ==
      Sum(c.requests, RequestToken) + Sum(c.replies, ReplyToken) + multiset(Ready(c.client.awaiting))
  }

  /** The session's ids are those of live nodes, of registration replies not yet consumed, and of unregistrations under way. */
  ghost predicate IdsConserved(c: Conn, ids: set<Id>) {
    multiset(ids) ==
      c.live + Sum(c.replies, NewIds) + MapSum(c.client.awaiting, PromiseIds) + Sum(c.requests, GoneIds)
  }

  /** The reply a conforming client can get to its request; nonexistent_node is not among them. */
  predicate Answers(q: Request, r: Reply) {
    match r
    case Registered(_) => q.Register?
    case Done(echo) => echo == q && !q.Register?
    case Failed(code) => q.Register? && code == TOO_MANY_NODES
  }

  ghost predicate Matched(c: Conn) {
    c.calls.Keys == c.client.awaiting.Keys &&
    (forall r :: r in c.requests ==> r.token in c.calls && c.calls[r.token] == r.request) &&
    (forall r :: r in c.replies ==> r.token in c.calls && Answers(c.calls[r.token], r.reply)) &&
    (forall t :: t in c.client.awaiting && c.client.awaiting[t].Fulfilled? ==> Answers(c.calls[t], c.client.awaiting[t].reply)) &&
    (forall t :: t in c.calls && (c.calls[t].Listen? || c.calls[t].Bind?) ==> c.calls[t].id in c.live)
  }

  ghost predicate Counted(c: Conn) {
    c.client.nextToken == c.issued % U32 && (c.issued < U32 ==> forall t :: t in c.client.awaiting ==> t < c.issued)
  }

  ghost predicate ConnInv(c: Conn, ids: set<Id>) {
    TokensConserved(c) && IdsConserved(c, ids) && Matched(c) && Counted(c)
  }

  lemma NewConnInv()
    ensures ConnInv(NewConn(), {})
  {
  }

  // ----- each step keeps it -----

  /** With fewer than 2^32 exchanges begun, the next token is never a pending one. */
  lemma FewExchanges(c: Conn)
    requires Counted(c) && c.issued < U32
    ensures Send(c, Register).Some? && c.client.nextToken !in c.client.awaiting
  {
  }

  lemma SendTokens(c: Conn, q: Request)
    requires TokensConserved(c) && c.client.nextToken !in c.client.awaiting
    ensures Send(c, q).Some? && TokensConserved(Send(c, q).value)
  {
    var t, d := c.client.nextToken, Send(c, q).value;
    SumAppend(c.requests, Tagged(t, q), RequestToken);
    assert d.client.awaiting.Keys == c.client.awaiting.Keys + {t};
    SetInsert(c.client.awaiting.Keys, t);
    assert Ready(d.client.awaiting) == Ready(c.client.awaiting);
  }

  lemma SendIds(c: Conn, q: Request, ids: set<Id>)
    requires IdsConserved(c, ids) && (q.Unregister? ==> q.id in c.live) && c.client.nextToken !in c.client.awaiting
    ensures Send(c, q).Some? && IdsConserved(Send(c, q).value, ids)
  {
    var t, d := c.client.nextToken, Send(c, q).value;
    SumAppend(c.requests, Tagged(t, q), GoneIds);
    MapSumUpdate(c.client.awaiting, t, Waiting, PromiseIds);
    GiveUp(c.live, d.live, RequestIds(q), Sum(c.replies, NewIds), MapSum(c.client.awaiting, PromiseIds), Sum(c.requests, GoneIds));
  }

  lemma GiveUp(before: multiset<Id>, after: multiset<Id>, gone: multiset<Id>, b: multiset<Id>, m: multiset<Id>, g: multiset<Id>)
    requires gone <= before && after == before - gone
    ensures before + b + m + g == after + b + m + (g + gone)
  {
    assert before == after + gone;
  }

  lemma SendMatched(c: Conn, q: Request)
    requires Matched(c) && Counted(c) && MaySend(c, q) && c.client.nextToken !in c.client.awaiting
    ensures Send(c, q).Some? && Matched(Send(c, q).value) && Counted(Send(c, q).value)
  {
    SendCounted(c, q);
    var t, d := c.client.nextToken, Send(c, q).value;
    assert d.calls.Keys == c.calls.Keys + {t} && d.client.awaiting.Keys == c.client.awaiting.Keys + {t};
  }

  lemma ThrowKeeps(c: Conn, q: Request, ids: set<Id>)
    requires ConnInv(c, ids) && Send(c, q).None?
    ensures ConnInv(SendOrThrow(c, q), ids)
  {
  }

  lemma SendCounted(c: Conn, q: Request)
    requires Counted(c) && c.client.nextToken !in c.client.awaiting
    ensures Send(c, q).Some? && Counted(Send(c, q).value)
  {
  }

  lemma AnswerMatched(c: Conn, reply: Reply)
    requires Matched(c) && c.requests != [] && Answers(c.requests[0].request, reply)
    ensures Matched(Answer(c, reply))
  {
    var r := c.requests[0];
    assert r in c.requests && c.requests == [r] + c.requests[1..];
  }

  lemma AnswerTokens(c: Conn, reply: Reply)
    requires TokensConserved(c) && c.requests != []
    ensures TokensConserved(Answer(c, reply))
  {
    SumAppend(c.replies, TaggedReply(c.requests[0].token, reply), ReplyToken);
  }

  lemma AnswerIds(c: Conn, reply: Reply, ids: set<Id>, after: set<Id>)
    requires IdsConserved(c, ids) && c.requests != []
    requires multiset(after) + RequestIds(c.requests[0].request) == multiset(ids) + ReplyIds(reply)
    ensures IdsConserved(Answer(c, reply), after)
  {
    var r, d := c.requests[0], Answer(c, reply);
    SumAppend(c.replies, TaggedReply(r.token, reply), NewIds);
    Exchange(c.live, Sum(c.replies, NewIds), MapSum(c.client.awaiting, PromiseIds), Sum(d.requests, GoneIds),
             RequestIds(r.request), ReplyIds(reply), multiset(ids), multiset(after));
  }

  lemma AnswerKeeps(c: Conn, reply: Reply, ids: set<Id>, after: set<Id>)
    requires ConnInv(c, ids) && c.requests != [] && Answers(c.requests[0].request, reply)
    requires multiset(after) + RequestIds(c.requests[0].request) == multiset(ids) + ReplyIds(reply)
    ensures ConnInv(Answer(c, reply), after)
  {
    AnswerMatched(c, reply);
    AnswerTokens(c, reply);
    AnswerIds(c, reply, ids, after);
  }

  lemma Exchange(a: multiset<Id>, b: multiset<Id>, c: multiset<Id>, d: multiset<Id>, gone: multiset<Id>, new': multiset<Id>,
                 before: multiset<Id>, after: multiset<Id>)
    requires before == a + b + c + (gone + d) && after + gone == before + new'
    ensures after == a + (b + new') + c + d
  {
    assert (a + (b + new') + c + d) + gone == before + new';
    Cancel(after, a + (b + new') + c + d, gone);
  }

  /** A reply in flight always finds its promise, not yet set. */
  lemma ReplyFindsPromise(c: Conn)
    requires TokensConserved(c) && c.replies != []
    ensures Receive(c).Some? && c.replies[0].token !in Ready(c.client.awaiting)
  {
    var t := c.replies[0].token;
    assert Sum(c.replies, ReplyToken)[t] >= 1;
    assert multiset(c.client.awaiting.Keys)[t] <= 1;
  }

  lemma ReceiveTokens(c: Conn)
    requires TokensConserved(c) && c.replies != []
    ensures Receive(c).Some? && TokensConserved(Receive(c).value)
  {
    ReplyFindsPromise(c);
    var r, d := c.replies[0], Receive(c).value;
    assert d.client.awaiting.Keys == c.client.awaiting.Keys;
    assert Ready(d.client.awaiting) == Ready(c.client.awaiting) + {r.token};
    SetInsert(Ready(c.client.awaiting), r.token);
  }

  lemma ReceiveIds(c: Conn, ids: set<Id>)
    requires IdsConserved(c, ids) && c.replies != [] && Receive(c).Some?
    ensures IdsConserved(Receive(c).value, ids)
  {
    var r := c.replies[0];
    MapSumUpdate(c.client.awaiting, r.token, Fulfilled(r.reply), PromiseIds);
    MapSumRemove(c.client.awaiting, r.token, PromiseIds);
  }

  lemma ReceiveKeeps(c: Conn, ids: set<Id>)
    requires ConnInv(c, ids) && c.replies != []
    ensures Receive(c).Some? && ConnInv(Receive(c).value, ids)
  {
    ReceiveTokens(c);
    ReceiveIds(c, ids);
    ReceiveMatched(c);
  }

  lemma ReceiveMatched(c: Conn)
    requires Matched(c) && Counted(c) && c.replies != [] && Receive(c).Some?
    ensures Matched(Receive(c).value) && Counted(Receive(c).value)
  {
    var d := Receive(c).value;
    assert c.replies[0] in c.replies && c.replies == [c.replies[0]] + d.replies;
    assert d.client.awaiting.Keys == c.client.awaiting.Keys;
  }

  lemma WakeTokens(c: Conn, t: Word)
    requires TokensConserved(c) && t in c.client.awaiting && c.client.awaiting[t].Fulfilled?
    ensures TokensConserved(Wake(c, t))
  {
    var d := Wake(c, t);
    assert d.client.awaiting.Keys == c.client.awaiting.Keys - {t};
    assert Ready(d.client.awaiting) == Ready(c.client.awaiting) - {t};
    SetRemove(c.client.awaiting.Keys, t);
    SetRemove(Ready(c.client.awaiting), t);
    Cancel(multiset(d.client.awaiting.Keys),
           Sum(c.requests, RequestToken) + Sum(c.replies, ReplyToken) + multiset(Ready(d.client.awaiting)), multiset{t});
  }

  /** The caller that wakes gets an answer to its own request. */
  lemma WakeKeeps(c: Conn, t: Word, ids: set<Id>)
    requires ConnInv(c, ids) && t in c.client.awaiting && c.client.awaiting[t].Fulfilled?
    ensures ConnInv(Wake(c, t), ids) && Answers(c.calls[t], c.client.awaiting[t].reply)
  {
    WakeTokens(c, t);
    MapSumRemove(c.client.awaiting, t, PromiseIds);
    OnlyReady(c, t);
  }

  /** A fulfilled promise's token is no longer in either channel. */
  lemma OnlyReady(c: Conn, t: Word)
    requires TokensConserved(c) && t in Ready(c.client.awaiting)
    ensures (forall r :: r in c.requests ==> r.token != t) && (forall r :: r in c.replies ==> r.token != t)
  {
    assert multiset(c.client.awaiting.Keys)[t] <= 1;
    forall i | 0 <= i < |c.requests| && c.requests[i].token == t
      ensures false
    {
      SumMember(c.requests, i, RequestToken, t);
    }
    forall i | 0 <= i < |c.replies| && c.replies[i].token == t
      ensures false
    {
      SumMember(c.replies, i, ReplyToken, t);
    }
  }
}
