/** Length-prefixed messages on a byte stream (src/common/api/UnixAPISocket.cpp). */
module Framing {

  import opened Prelude
  import opened BigEndian

  /** MESSAGE_SIZE_LENGTH. */
  const PREFIX: nat := 4

  // ----- sending -----

  /** htonl: the four bytes of a size, most significant first. */
  function SizeBytes(n: Word): (h: Bytes)
    ensures |h| == PREFIX && Value(h) == n
  {
    SizeBytesValue(n);
    [n / 0x100_0000, n / 0x1_0000 % 256, n / 0x100 % 256, n % 256]
  }

  lemma SizeBytesValue(n: Word)
    ensures Value([n / 0x100_0000, n / 0x1_0000 % 256, n / 0x100 % 256, n % 256]) == n
  {
    var a, b, c, d := n / 0x100_0000, n / 0x1_0000 % 256, n / 0x100 % 256, n % 256;
    FourDigits(a, b, c, d);
    assert n == 0x100 * (n / 0x100) + d && n / 0x100 == 0x100 * (n / 0x1_0000) + c && n / 0x1_0000 == 0x100 * a + b;
  }

  lemma FourDigits(a: nat, b: nat, c: nat, d: nat)
    ensures Eval(256, [a, b, c, d]) == 256 * (256 * (256 * a + b) + c) + d
  {
    assert [a, b, c, d][..3] == [a, b, c] && [a, b, c][..2] == [a, b] && [a, b][..1] == [a] && [a][..0] == [];
    assert Eval(256, [a]) == a;
    assert Eval(256, [a, b]) == 256 * a + b;
    assert Eval(256, [a, b, c]) == 256 * (256 * a + b) + c;
  }

  /** generateSendString: the size is narrowed to 32 bits. */
  function Frame(m: Bytes): (f: Bytes)
    ensures |f| == PREFIX + |m|
  {
    SizeBytes(|m| % U32) + m
  }

  function Stream(ms: seq<Bytes>): Bytes {
    if ms == [] then [] else Frame(ms[0]) + Stream(ms[1..])
  }

  // ----- receiving, synchronously -----

  /** What one call of receive returns: a message and the bytes left, or a read error. */
  datatype Received = Message(message: Bytes, rest: Bytes) | ReadError

  function Receive(s: Bytes): Received {
    if |s| < PREFIX then ReadError
    else
      var size, body := Value(s[..PREFIX]), s[PREFIX..];
      if |body| < size then ReadError else Message(body[..size], body[size..])
  }

  /** receive, repeated until it reports an error. */
  function ReceiveAll(s: Bytes): seq<Bytes>
    decreases |s|
  {
    match Receive(s)
    case ReadError => []
    case Message(m, rest) => [m] + ReceiveAll(rest)
  }

  class StreamSocket {
    var incoming: Bytes

    constructor (incoming: Bytes)
      ensures this.incoming == incoming
    {
      this.incoming := incoming;
    }

    /** boost::asio::read: fills the buffer, or drains the stream and fails. */
    method Read(n: nat) returns (buffer: Option<Bytes>)
      modifies this
      ensures n <= |old(incoming)| ==> buffer == Some(old(incoming)[..n]) && incoming == old(incoming)[n..]
      ensures n > |old(incoming)| ==> buffer == None && incoming == []
    {
      if n <= |incoming| {
        buffer := Some(incoming[..n]);
        incoming := incoming[n..];
      } else {
        buffer := None;
        incoming := [];
      }
    }

    method ReceiveMessage() returns (message: Option<Bytes>)
      modifies this
      ensures match Receive(old(incoming))
              case ReadError => message == None && incoming == []
              case Message(m, rest) => message == Some(m) && incoming == rest
    {
      var size := Read(PREFIX);
      if size.None? {
        return None;
      }
      message := Read(Value(size.value));
    }
  }

  // ----- receiving, asynchronously: the bytes come in chunks of any size -----

  /** The outstanding async_read: four size bytes (asyncReceive), or a body (handleReceiveSize). */
  datatype Phase = AwaitSize | AwaitBody(size: nat)

  datatype Receiver = Receiver(phase: Phase, buffer: Bytes)

  /** Messages handed to the receive handler, and the receiver left waiting. */
  datatype Progress = Progress(messages: seq<Bytes>, receiver: Receiver)

  /** Completes reads for as long as the buffered bytes suffice. */
  function Drain(r: Receiver): Progress
    decreases |r.buffer|, if r.phase.AwaitBody? then 1 else 0
  {
    match r.phase
    case AwaitSize =>
      if |r.buffer| < PREFIX then Progress([], r)
      else Drain(Receiver(AwaitBody(Value(r.buffer[..PREFIX])), r.buffer[PREFIX..]))
    case AwaitBody(size) =>
      if |r.buffer| < size then Progress([], r)
      else
        var p := Drain(Receiver(AwaitSize, r.buffer[size..]));
        p.(messages := [r.buffer[..size]] + p.messages)
  }

  /** Chunks arriving one after the other. */
  function Feed(r: Receiver, chunks: seq<Bytes>): Progress
    decreases |chunks|
  {
    if chunks == [] then Progress([], r)
    else
      var p := Drain(r.(buffer := r.buffer + chunks[0]));
      var q := Feed(p.receiver, chunks[1..]);
      q.(messages := p.messages + q.messages)
  }

  class AsyncSocket {
    var receiver: Receiver

    constructor ()
      ensures receiver == Receiver(AwaitSize, [])
    {
      receiver := Receiver(AwaitSize, []);
    }

    /** A chunk arrives; the handlers run until a read is left waiting. */
    method Arrive(chunk: Bytes) returns (messages: seq<Bytes>)
      modifies this
      ensures Progress(messages, receiver) == Drain(old(receiver).(buffer := old(receiver).buffer + chunk))
    {
      receiver := receiver.(buffer := receiver.buffer + chunk);
      messages := [];
      while |receiver.buffer| >= if receiver.phase.AwaitSize? then PREFIX else receiver.phase.size
        invariant var p := Drain(receiver);
                  Drain(old(receiver).(buffer := old(receiver).buffer + chunk)) == p.(messages := messages + p.messages)
        decreases |receiver.buffer|, if receiver.phase.AwaitBody? then 1 else 0
      {
        match receiver.phase {
          case AwaitSize =>
            receiver := Receiver(AwaitBody(Value(receiver.buffer[..PREFIX])), receiver.buffer[PREFIX..]);
          case AwaitBody(size) =>
            messages := messages + [receiver.buffer[..size]];
            receiver := Receiver(AwaitSize, receiver.buffer[size..]);
        }
      }
    }
  }

  function Concat(chunks: seq<Bytes>): Bytes {
    if chunks == [] then [] else chunks[0] + Concat(chunks[1..])
  }

  // ----- chunking does not matter -----

  lemma SliceConcat(b: Bytes, more: Bytes, n: nat)
    requires n <= |b|
    ensures (b + more)[..n] == b[..n] && (b + more)[n..] == b[n..] + more
  {
  }

  /** Draining early and draining late hand over the same messages. */
  lemma {:induction false} DrainMore(r: Receiver, more: Bytes)
    ensures var p := Drain(r);
            var q := Drain(p.receiver.(buffer := p.receiver.buffer + more));
            Drain(r.(buffer := r.buffer + more)) == q.(messages := p.messages + q.messages)
    decreases |r.buffer|, if r.phase.AwaitBody? then 1 else 0
  {
    var b := r.buffer;
    match r.phase
    case AwaitSize =>
      if |b| >= PREFIX {
        SliceConcat(b, more, PREFIX);
        DrainMore(Receiver(AwaitBody(Value(b[..PREFIX])), b[PREFIX..]), more);
      }
    case AwaitBody(size) =>
      if |b| >= size {
        SliceConcat(b, more, size);
        DrainMore(Receiver(AwaitSize, b[size..]), more);
        var p := Drain(Receiver(AwaitSize, b[size..]));
        var q := Drain(p.receiver.(buffer := p.receiver.buffer + more));
        assert [b[..size]] + (p.messages + q.messages) == ([b[..size]] + p.messages) + q.messages;
      }
  }

  lemma {:induction false} FeedIsDrain(r: Receiver, chunks: seq<Bytes>)
    requires Drain(r) == Progress([], r)
    ensures Feed(r, chunks) == Drain(r.(buffer := r.buffer + Concat(chunks)))
    decreases |chunks|
  {
    if chunks == [] {
      assert r.buffer + Concat(chunks) == r.buffer;
    } else {
      var first := r.(buffer := r.buffer + chunks[0]);
      var p := Drain(first);
      Idle(first);
      FeedIsDrain(p.receiver, chunks[1..]);
      DrainMore(first, Concat(chunks[1..]));
      assert r.buffer + Concat(chunks) == first.buffer + Concat(chunks[1..]);
    }
  }

  /** A drained receiver has nothing more to hand over. */
  lemma {:induction false} Idle(r: Receiver)
    ensures Drain(Drain(r).receiver) == Progress([], Drain(r).receiver)
    decreases |r.buffer|, if r.phase.AwaitBody? then 1 else 0
  {
    match r.phase
    case AwaitSize =>
      if |r.buffer| >= PREFIX {
        Idle(Receiver(AwaitBody(Value(r.buffer[..PREFIX])), r.buffer[PREFIX..]));
      }
    case AwaitBody(size) =>
      if |r.buffer| >= size {
        Idle(Receiver(AwaitSize, r.buffer[size..]));
      }
  }

  lemma {:induction false} DrainIsReceiveAll(s: Bytes)
    ensures Drain(Receiver(AwaitSize, s)).messages == ReceiveAll(s)
    decreases |s|
  {
    if Receive(s).Message? {
      DrainIsReceiveAll(Receive(s).rest);
    }
  }

  /** However the stream is cut into chunks, the handlers deliver what repeated receive calls return. */
  lemma ChunkingDoesNotMatter(chunks: seq<Bytes>)
    ensures Feed(Receiver(AwaitSize, []), chunks).messages == ReceiveAll(Concat(chunks))
  {
    FeedIsDrain(Receiver(AwaitSize, []), chunks);
    assert [] + Concat(chunks) == Concat(chunks);
    DrainIsReceiveAll(Concat(chunks));
  }

  // ----- frames arrive -----

  /** How many frames lie wholly within the first n bytes of the stream. */
  function Whole(ms: seq<Bytes>, n: nat): (w: nat)
    ensures w <= |ms|
    decreases |ms|
  {
    if ms == [] || n < |Frame(ms[0])| then 0 else 1 + Whole(ms[1..], n - |Frame(ms[0])|)
  }

  predicate Short(ms: seq<Bytes>) {
    forall i :: 0 <= i < |ms| ==> |ms[i]| < U32
  }

  lemma ReceiveFrame(m: Bytes, rest: Bytes)
    ensures var size := |m| % U32;
            Receive(Frame(m) + rest) == Message(m[..size], m[size..] + rest)
  {
    var s, size := Frame(m) + rest, |m| % U32;
    Narrowed(|m|);
    assert s[..PREFIX] == SizeBytes(size) && s[PREFIX..] == m + rest;
    SliceConcat(m, rest, size);
  }

  lemma ReceivePartial(m: Bytes, n: nat)
    requires |m| < U32 && n < |Frame(m)|
    ensures Receive(Frame(m)[..n]) == ReadError
  {
    Narrowed(|m|);
    if n >= PREFIX {
      assert Frame(m)[..n][..PREFIX] == SizeBytes(|m|);
      assert |Frame(m)[..n][PREFIX..]| < |m|;
    }
  }

  lemma FirstArrives(m: Bytes, rest: Bytes)
    requires |m| < U32
    ensures ReceiveAll(Frame(m) + rest) == [m] + ReceiveAll(rest)
  {
    ReceiveFrame(m, rest);
    Narrowed(|m|);
    assert m[..|m|] == m && m[|m|..] + rest == rest;
  }

  lemma StreamPrefix(ms: seq<Bytes>, n: nat)
    requires ms != [] && n <= |Stream(ms)|
    ensures var f := Frame(ms[0]);
            Stream(ms)[..n] == if n < |f| then f[..n] else f + Stream(ms[1..])[..n - |f|]
  {
  }

  /** A stream cut off after n bytes yields exactly the messages whose frames are complete, and never a wrong one. */
  lemma {:induction false} TruncatedStream(ms: seq<Bytes>, n: nat)
    requires Short(ms) && n <= |Stream(ms)|
    ensures ReceiveAll(Stream(ms)[..n]) == ms[..Whole(ms, n)]
    ensures Whole(ms, n) == |ms| <==> n == |Stream(ms)|
    decreases |ms|
  {
    if ms != [] {
      var size := |Frame(ms[0])|;
      StreamPrefix(ms, n);
      if n < size {
        ReceivePartial(ms[0], n);
        assert ms[..0] == [];
      } else {
        ShortTail(ms);
        TruncatedStream(ms[1..], n - size);
        FirstArrives(ms[0], Stream(ms[1..])[..n - size]);
        FirstOfRest(ms, Whole(ms[1..], n - size));
      }
    }
  }

  /**
   Whatever the chunks: once some first part of the frames of ms has arrived, the messages delivered
   are the first of ms, and they are all of ms exactly when every byte has arrived.
   */
  lemma DeliveredInOrder(ms: seq<Bytes>, chunks: seq<Bytes>)
    requires Short(ms) && Concat(chunks) <= Stream(ms)
    ensures var d := Feed(Receiver(AwaitSize, []), chunks).messages;
            d <= ms && (d == ms <==> Concat(chunks) == Stream(ms))
  {
    var n := |Concat(chunks)|;
    ChunkingDoesNotMatter(chunks);
    assert Concat(chunks) == Stream(ms)[..n];
    TruncatedStream(ms, n);
  }

  /** A list of messages comes back as it was sent if and only if each is shorter than 2^32 bytes. */
  lemma {:induction false} ReceivedExactly(ms: seq<Bytes>)
    ensures ReceiveAll(Stream(ms)) == ms <==> Short(ms)
    decreases |ms|
  {
    if ms != [] {
      var m, rest := ms[0], Stream(ms[1..]);
      if |m| < U32 {
        FirstArrives(m, rest);
        ReceivedExactly(ms[1..]);
        SameTail(ms, [m] + ReceiveAll(rest));
        ShortTail(ms);
      } else {
        ReceiveFrame(m, rest);
        Narrowed(|m|);
        assert ReceiveAll(Stream(ms))[0] == m[..|m| % U32];
      }
    }
  }

  lemma FirstOfRest(ms: seq<Bytes>, w: nat)
    requires w < |ms|
    ensures ms[..w + 1] == [ms[0]] + ms[1..][..w]
  {
  }

  lemma SameTail(a: seq<Bytes>, b: seq<Bytes>)
    requires a != [] && b != [] && a[0] == b[0]
    ensures b == a <==> b[1..] == a[1..]
  {
    assert a == [a[0]] + a[1..] && b == [b[0]] + b[1..];
  }

  lemma ShortTail(ms: seq<Bytes>)
    requires ms != [] && |ms[0]| < U32
    ensures Short(ms) <==> Short(ms[1..])
  {
    assert ms == [ms[0]] + ms[1..];
  }
}
