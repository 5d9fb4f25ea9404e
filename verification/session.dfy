/**
 The chat room client: its stored user name, its two socket streams, and the
 messages it has handed to its delegate.

 Joining and sending write one UTF-8 frame each to the output stream. When
 the input stream reports bytes, the client drains it: it reads at most
 `MaxReadLength` bytes at a time while bytes are available, turns each chunk
 into a message, and hands every message it gets to the delegate, stopping at
 the first read that fails. The end of the input stream closes both streams.
 */
module Session {
  import opened Wrappers
  import opened Components
  import opened Frames
  import opened Streams

  /** The output stream, reduced to whether it is open and the byte buffers written to it. */
  datatype OutputStream = OutputStream(open: bool, written: seq<Bytes>)

  /** The client; `delivered` is every message handed to the delegate, oldest first. */
  datatype ChatRoom = ChatRoom(
    username: string,
    input: InputStream,
    output: OutputStream,
    delivered: seq<Message>)

  /** The stream events a stream delegate is told about. */
  datatype Event =
    | OpenCompleted
    | HasBytesAvailable
    | HasSpaceAvailable
    | ErrorOccurred
    | EndEncountered
    | NoEvent

  /** The client once both streams are open and before anyone has joined. */
  function Connected(pending: seq<Arrival>): (r: ChatRoom)
    ensures r.username == ""
    ensures r.input.open && r.output.open
    ensures r.input.pending == pending && r.output.written == [] && r.delivered == []
  {
    ChatRoom("", InputStream(true, pending), OutputStream(true, []), [])
  }

  /**
   Joining writes exactly one frame, the bytes of `iam:<username>`, and stores
   `username` for classifying later messages; nothing else changes.
   */
  function JoinChat(unicode: Unicode, room: ChatRoom, username: string): (r: ChatRoom)
    ensures r.username == username
    ensures r.output.written == room.output.written + [unicode.encode(Frame(JoinVerb, username))]
    ensures r.output.open == room.output.open
    ensures r.input == room.input && r.delivered == room.delivered
  {
    var data := unicode.encode(Frame(JoinVerb, username));
    room.(username := username, output := room.output.(written := room.output.written + [data]))
  }

  /**
   Sending writes exactly one frame, the bytes of `msg:<message>`; the stored
   user name and everything else stay as they were.
   */
  function Send(unicode: Unicode, room: ChatRoom, message: string): (r: ChatRoom)
    ensures r.output.written == room.output.written + [unicode.encode(Frame(MessageVerb, message))]
    ensures r.username == room.username
    ensures r.output.open == room.output.open
    ensures r.input == room.input && r.delivered == room.delivered
  {
    var data := unicode.encode(Frame(MessageVerb, message));
    room.(output := room.output.(written := room.output.written + [data]))
  }

  /** Ending the session closes both streams and changes nothing else. */
  function StopChatSession(room: ChatRoom): (r: ChatRoom)
    ensures !r.input.open && !r.output.open
    ensures r.input.pending == room.input.pending
    ensures r.output.written == room.output.written
    ensures r.username == room.username && r.delivered == room.delivered
  {
    room.(input := room.input.(open := false), output := room.output.(open := false))
  }

  /** The message a chunk yields, as a sequence of zero or one elements. */
  function Yield(unicode: Unicode, username: string, chunk: Bytes): seq<Message> {
    match ProcessedMessage(unicode, username, chunk)
    case Some(m) => [m]
    case None => []
  }

  /**
   What the delegate receives for a sequence of chunks: one message per chunk
   that decodes, in chunk order, and nothing for the others.
   */
  function Deliveries(unicode: Unicode, username: string, chunks: seq<Bytes>): (r: seq<Message>)
    ensures |r| <= |chunks|
  {
    if |chunks| == 0 then []
    else Yield(unicode, username, chunks[0]) + Deliveries(unicode, username, chunks[1..])
  }

  /** How many of the chunks are valid UTF-8. */
  function ValidCount(unicode: Unicode, chunks: seq<Bytes>): nat {
    if |chunks| == 0 then 0
    else (if unicode.decode(chunks[0]).Some? then 1 else 0) + ValidCount(unicode, chunks[1..])
  }

  /** The delegate is called exactly once for every chunk that decodes. */
  lemma {:induction false} OneDeliveryPerValidChunk(unicode: Unicode, username: string, chunks: seq<Bytes>)
    ensures |Deliveries(unicode, username, chunks)| == ValidCount(unicode, chunks)
    decreases |chunks|
  {
    if |chunks| > 0 {
      OneDeliveryPerValidChunk(unicode, username, chunks[1..]);
    }
  }

  /** When every chunk is valid UTF-8, there is one message per chunk. */
  lemma {:induction false} ValidChunksAllDeliver(unicode: Unicode, username: string, chunks: seq<Bytes>)
    requires forall i :: 0 <= i < |chunks| ==> unicode.decode(chunks[i]).Some?
    ensures |Deliveries(unicode, username, chunks)| == |chunks|
    decreases |chunks|
  {
    if |chunks| > 0 {
      assert unicode.decode(chunks[0]).Some?;
      assert forall i :: 1 <= i < |chunks| ==> chunks[1..][i - 1] == chunks[i];
      ValidChunksAllDeliver(unicode, username, chunks[1..]);
    }
  }

  /**
   The single-index step used by `DeliveriesOfValidChunks`: when every chunk is
   valid UTF-8, the message delivered at index `i` is the `i`-th chunk's.
   */
  lemma {:induction false} DeliveryAt(unicode: Unicode, username: string, chunks: seq<Bytes>, i: nat)
    requires forall j :: 0 <= j < |chunks| ==> unicode.decode(chunks[j]).Some?
    requires i < |chunks|
    ensures i < |Deliveries(unicode, username, chunks)|
    ensures ProcessedMessage(unicode, username, chunks[i]) == Some(Deliveries(unicode, username, chunks)[i])
    decreases i
  {
    ValidChunksAllDeliver(unicode, username, chunks);
    var head := Yield(unicode, username, chunks[0]);
    var rest := Deliveries(unicode, username, chunks[1..]);
    assert unicode.decode(chunks[0]).Some?;
    assert head == [ProcessedMessage(unicode, username, chunks[0]).value];
    assert Deliveries(unicode, username, chunks) == head + rest;
    if i > 0 {
      assert chunks[1..][i - 1] == chunks[i];
      assert forall j :: 0 <= j < |chunks[1..]| ==> chunks[1..][j] == chunks[j + 1];
      DeliveryAt(unicode, username, chunks[1..], i - 1);
      assert (head + rest)[i] == rest[i - 1];
    }
  }

  /** When every chunk is valid UTF-8, the i-th message delivered is the i-th chunk's. */
  lemma DeliveriesOfValidChunks(unicode: Unicode, username: string, chunks: seq<Bytes>)
    requires forall i :: 0 <= i < |chunks| ==> unicode.decode(chunks[i]).Some?
    ensures var r := Deliveries(unicode, username, chunks);
      && |r| == |chunks|
      && forall i :: 0 <= i < |r| ==> ProcessedMessage(unicode, username, chunks[i]) == Some(r[i])
  {
    ValidChunksAllDeliver(unicode, username, chunks);
    forall i | 0 <= i < |chunks|
      ensures ProcessedMessage(unicode, username, chunks[i]) == Some(Deliveries(unicode, username, chunks)[i])
    {
      DeliveryAt(unicode, username, chunks, i);
    }
  }

  /** The first chunk's message, if any, comes before those of the chunks after it. */
  lemma DeliveriesCons(unicode: Unicode, username: string, chunk: Bytes, chunks: seq<Bytes>)
    ensures Deliveries(unicode, username, [chunk] + chunks) ==
      Yield(unicode, username, chunk) + Deliveries(unicode, username, chunks)
  {
    assert ([chunk] + chunks)[1..] == chunks;
  }

  /** Delivery for consecutive runs of chunks is delivery for the first run, then for the second. */
  lemma {:induction false} DeliveriesAppend(unicode: Unicode, username: string, a: seq<Bytes>, b: seq<Bytes>)
    ensures Deliveries(unicode, username, a + b) == Deliveries(unicode, username, a) + Deliveries(unicode, username, b)
    decreases |a|
  {
    if |a| == 0 {
      assert a + b == b;
    } else {
      assert (a + b)[1..] == a[1..] + b;
      DeliveriesAppend(unicode, username, a[1..], b);
    }
  }

  /** Every delivered message is classified by equivalence with the stored user name. */
  lemma {:induction false} DeliveredOrigins(unicode: Unicode, username: string, chunks: seq<Bytes>)
    ensures forall m :: m in Deliveries(unicode, username, chunks) ==>
      (m.origin == Ourself <==> unicode.equivalent(m.senderName, username))
    decreases |chunks|
  {
    if |chunks| > 0 {
      DeliveredOrigins(unicode, username, chunks[1..]);
    }
  }

  /**
   The drain loop: the chunks the input stream yields while bytes are
   available, read at most `MaxReadLength` bytes at a time and up to the first
   failed read, are turned into messages and every message is handed to the
   delegate in read order. A failed read delivers nothing and stays pending.
   */
  function ReadAvailableBytes(unicode: Unicode, room: ChatRoom): (r: ChatRoom)
    ensures r.username == room.username && r.output == room.output
    ensures !room.input.open ==> r == room
    ensures room.input.open ==>
      r.delivered == room.delivered + Deliveries(unicode, room.username, Chunks(room.input.pending))
    ensures room.input.open ==> r.input == room.input.(pending := FromFailure(room.input.pending))
  {
    var drained := Drain(room.input);
    room.(input := drained.rest, delivered := room.delivered + Deliveries(unicode, room.username, drained.chunks))
  }

  /**
   The stream delegate callback: available bytes are drained, the end of the
   stream closes both streams, and every other event, errors included, leaves
   the session as it was.
   */
  function HandleEvent(unicode: Unicode, room: ChatRoom, event: Event): (r: ChatRoom)
    ensures event == HasBytesAvailable ==> r == ReadAvailableBytes(unicode, room)
    ensures event == EndEncountered ==> r == StopChatSession(room)
    ensures event != HasBytesAvailable && event != EndEncountered ==> r == room
    ensures r.username == room.username && r.output.written == room.output.written
    ensures r.input.open != room.input.open ==> event == EndEncountered
  {
    match event
    case HasBytesAvailable => ReadAvailableBytes(unicode, room)
    case EndEncountered => StopChatSession(room)
    case ErrorOccurred => room
    case HasSpaceAvailable => room
    case OpenCompleted => room
    case NoEvent => room
  }

  /** Ending an already ended session changes nothing. */
  lemma StopIsIdempotent(room: ChatRoom)
    ensures StopChatSession(StopChatSession(room)) == StopChatSession(room)
  {
  }

  /** Once the session has ended, available-bytes events deliver nothing and read nothing. */
  lemma NothingDeliveredAfterStop(unicode: Unicode, room: ChatRoom)
    ensures HandleEvent(unicode, StopChatSession(room), HasBytesAvailable) == StopChatSession(room)
  {
  }

  /** A failed read at the front of the stream delivers nothing and leaves the session open. */
  lemma FailedReadDeliversNothing(unicode: Unicode, room: ChatRoom)
    requires room.input.open
    requires |room.input.pending| > 0 && room.input.pending[0].Failure?
    ensures HandleEvent(unicode, room, HasBytesAvailable) == room
  {
  }

  /**
   Before anyone joins, the stored user name is empty, so a message is ours
   exactly when its sender name is empty.
   */
  lemma OriginBeforeJoin(unicode: Unicode, pending: seq<Arrival>)
    requires Lawful(unicode)
    ensures var r := HandleEvent(unicode, Connected(pending), HasBytesAvailable);
      forall m :: m in r.delivered ==> (m.origin == Ourself <==> m.senderName == "")
  {
    DeliveredOrigins(unicode, "", Chunks(pending));
  }

  /**
   A chunk's worth of bytes at the front of an open input stream is read first:
   its message, if any, is delivered before those of everything after it.
   */
  lemma FrontChunkIsDeliveredFirst(unicode: Unicode, room: ChatRoom, chunk: Bytes, rest: seq<Arrival>)
    requires room.input == InputStream(true, [Data(chunk)] + rest)
    requires |chunk| <= MaxReadLength
    ensures var r := HandleEvent(unicode, room, HasBytesAvailable);
      && r.delivered == room.delivered + Yield(unicode, room.username, chunk) +
        Deliveries(unicode, room.username, Chunks(rest))
      && r.input.pending == FromFailure(rest)
  {
    FrontRunIsOneChunk(chunk, rest);
    DeliveriesCons(unicode, room.username, chunk, Chunks(rest));
  }

  /**
   A relayed frame `name:body` (both colon-free, the name not opening with a
   byte-order mark) that arrives whole within the read cap, at the front of the
   input, is delivered first as exactly one message with that sender and body;
   whatever arrived after it is then drained as usual.
   */
  lemma RelayedFrameIsDelivered(unicode: Unicode, room: ChatRoom, name: string, body: string, rest: seq<Arrival>)
    requires Lawful(unicode)
    requires ColonFree(name) && ColonFree(body)
    requires NoLeadingMark(name)
    requires room.input == InputStream(true, [Data(unicode.encode(Frame(name, body)))] + rest)
    requires |unicode.encode(Frame(name, body))| <= MaxReadLength
    ensures var r := HandleEvent(unicode, room, HasBytesAvailable);
      && r.delivered == room.delivered +
        [Message(body, if unicode.equivalent(name, room.username) then Ourself else SomeoneElse, name)] +
        Deliveries(unicode, room.username, Chunks(rest))
      && r.input.pending == FromFailure(rest)
  {
    var chunk := unicode.encode(Frame(name, body));
    FrontChunkIsDeliveredFirst(unicode, room, chunk, rest);
    FrameRoundTrip(unicode, room.username, name, body);
    assert Yield(unicode, room.username, chunk) ==
      [Message(body, if unicode.equivalent(name, room.username) then Ourself else SomeoneElse, name)];
  }

  /**
   Connecting, joining as `me` and receiving one relayed frame `name:body`
   writes only the join frame and delivers exactly that one message.
   */
  lemma JoinThenRelay(unicode: Unicode, me: string, name: string, body: string)
    requires Lawful(unicode)
    requires ColonFree(name) && ColonFree(body)
    requires NoLeadingMark(name)
    requires |unicode.encode(Frame(name, body))| <= MaxReadLength
    ensures var room := JoinChat(unicode, Connected([Data(unicode.encode(Frame(name, body)))]), me);
      var r := HandleEvent(unicode, room, HasBytesAvailable);
      && r.output.written == [unicode.encode(Frame(JoinVerb, me))]
      && r.delivered == [Message(body, if unicode.equivalent(name, me) then Ourself else SomeoneElse, name)]
  {
    var room := JoinChat(unicode, Connected([Data(unicode.encode(Frame(name, body)))]), me);
    assert room.input.pending == [Data(unicode.encode(Frame(name, body)))] + [];
    RelayedFrameIsDelivered(unicode, room, name, body, []);
  }

  /**
   Connecting, joining as `alice` and receiving the relayed `bob:yo` writes the
   join frame and delivers one message from bob, marked as someone else's.
   */
  lemma JoinThenReceive(unicode: Unicode)
    requires Lawful(unicode) && ExactOnAscii(unicode)
    ensures var room := JoinChat(unicode, Connected([Data(unicode.encode("bob:yo"))]), "alice");
      var r := HandleEvent(unicode, room, HasBytesAvailable);
      && r.output.written == [unicode.encode("iam:alice")]
      && r.delivered == [Message("yo", SomeoneElse, "bob")]
  {
    assert Frame("bob", "yo") == "bob:yo";
    assert Frame(JoinVerb, "alice") == "iam:alice";
    assert |unicode.encode("bob:yo")| <= 4 * 6;
    assert Ascii("bob") && Ascii("alice");
    JoinThenRelay(unicode, "alice", "bob", "yo");
  }
}
