/** The library's side of a connection: tokens and promises (src/library/P2PSession.cpp). */
module ClientSessions {

  import opened Prelude
  import opened ApiSessions

  datatype Tagged = Tagged(token: Word, request: Request)
  datatype TaggedReply = TaggedReply(token: Word, reply: Reply)
  datatype Promise = Waiting | Fulfilled(reply: Reply)

  datatype Client = Client(awaiting: map<Word, Promise>, nextToken: Word)

  /** clientExchange up to the send. None: the token is still pending, so its future is already taken. */
  function Begin(c: Client): Option<Client> {
    if c.nextToken in c.awaiting then None
    else Some(Client(c.awaiting[c.nextToken := Waiting], Increment(c.nextToken)))
  }

  /** handleReceive. None: there is no such promise, or it has been set before. */
  function Deliver(c: Client, m: TaggedReply): Option<Client> {
    if m.token !in c.awaiting || c.awaiting[m.token].Fulfilled? then None
    else Some(c.(awaiting := c.awaiting[m.token := Fulfilled(m.reply)]))
  }

  /** The rest of clientExchange, once the future is ready: the promise is pruned. */
  function Finish(c: Client, token: Word): Client {
    c.(awaiting := c.awaiting - {token})
  }

  class P2PSession {
    var awaitingReceive: map<Word, Promise>
    var nextMsgToken: Word

    ghost function State(): Client
      reads this
    {
      Client(awaitingReceive, nextMsgToken)
    }

    constructor ()
      ensures State() == Client(map[], 0)
    {
      awaitingReceive, nextMsgToken := map[], 0;
    }

    method MarkMessage(request: Request) returns (message: Tagged)
      modifies this
      ensures message == Tagged(old(nextMsgToken), request)
      ensures State() == old(State()).(nextToken := Increment(old(nextMsgToken)))
    {
      message := Tagged(nextMsgToken, request);
      nextMsgToken := Increment(nextMsgToken);
    }

    /** sent is None when the promise for the token could not be set up. */
    method BeginExchange(request: Request) returns (sent: Option<Tagged>)
      modifies this
      ensures sent.Some? <==> Begin(old(State())).Some?
      ensures sent.Some? ==> Begin(old(State())) == Some(State()) && sent.value == Tagged(old(nextMsgToken), request)
      ensures sent.None? ==> State() == old(State()).(nextToken := Increment(old(nextMsgToken)))
    {
      var message := MarkMessage(request);
      if message.token in awaitingReceive {
        return None;
      }
      awaitingReceive := awaitingReceive[message.token := Waiting];
      sent := Some(message);
    }

    method HandleReceive(m: TaggedReply) returns (delivered: bool)
      modifies this
      ensures delivered <==> Deliver(old(State()), m).Some?
      ensures delivered ==> Deliver(old(State()), m) == Some(State())
      ensures !delivered ==> unchanged(this)
    {
      if m.token !in awaitingReceive || awaitingReceive[m.token].Fulfilled? {
        return false;
      }
      awaitingReceive := awaitingReceive[m.token := Fulfilled(m.reply)];
      delivered := true;
    }

    /** What clientExchange returns, or the error code it throws. */
    method FinishExchange(token: Word) returns (reply: Reply)
      requires token in awaitingReceive && awaitingReceive[token].Fulfilled?
      modifies this
      ensures reply == old(awaitingReceive)[token].reply && State() == Finish(old(State()), token)
    {
      reply := awaitingReceive[token].reply;
      awaitingReceive := awaitingReceive - {token};
    }
  }
}
