# DogeChat chat-room protocol, modelled in Dafny

This project models the protocol logic of the DogeChat client's `ChatRoom`
class (`Doge-Chat/DogeChat/DogeChat-starter/DogeChat/ChatRoom.swift`). The
client talks to a chat server over a TCP socket:

- joining writes the UTF-8 frame `iam:<username>` and stores the user name;
- sending writes the frame `msg:<text>`;
- when the input stream has bytes, the client drains it. It reads at most
  `maxReadLength` (4096) bytes per read, decodes each chunk as UTF-8, splits
  the text on `:` (the model at every colon scalar), and hands a `Message` to its delegate. The message's
  sender is the first component and its body the last. Its origin is
  `.ourself` exactly when the sender equals the stored user name under Swift's
  string `==`, which is canonical equivalence. The drain
  stops at the first read that fails with a stream error;
- the end-of-stream event closes both streams; every other event is only
  logged.

Files and modules:

- `wrappers.dfy` (`Wrappers`): the `Option` type.
- `components.dfy` (`Components`): the split on `:` (Foundation's
  `components(separatedBy:)`), its inverse `Join`, and stand-alone definitions
  of "text before the first colon" and "text after the last colon".
- `frames.dfy` (`Frames`): bytes, the Unicode services (UTF-8 and string
  equivalence), the `iam`/`msg` frames, the
  `Message` record and `ProcessedMessage` (the source's
  `processedMessageString`).
- `streams.dfy` (`Streams`): the input stream as a queue of arrivals, a read
  capped at `MaxReadLength`, and the drain over the stream.
- `session.dfy` (`Session`): the `ChatRoom` state (user name, both streams,
  messages delivered so far), `JoinChat`, `Send`, `StopChatSession`, the
  delegate deliveries, `ReadAvailableBytes` and the event handler
  `HandleEvent` (the source's `stream(_:handle:)`), plus scenario lemmas.

Modelling choices:

- Unicode is abstract. A `Unicode` value holds a total UTF-8 `encode`, a
  partial UTF-8 `decode`, and `equivalent`, the relation Swift's string `==`
  computes. Swift compares strings by canonical equivalence, not scalar by
  scalar: precomposed `é` equals `e` followed by a combining acute. The
  origin of a message is therefore decided by `equivalent`, not by Dafny's
  sequence equality.
- The predicate `Lawful` states the facts the protocol relies on:
  - the empty string encodes to no bytes;
  - no scalar takes more than four bytes;
  - decoding an encoding gives the string back, unless the string opens with
    a byte-order mark (U+FEFF), which UTF-8 decoding may strip;
  - `equivalent` is reflexive and symmetric;
  - only the empty string is equivalent to the empty string.
- `ExactOnAscii` adds that on ASCII text equivalence is plain equality.
- Lemmas that assume `Lawful`: `EmptyChunk`, `FrameRoundTrip`,
  `MessageFrameRoundTrip`, `InnerComponentsAreDropped`, `OriginBeforeJoin`,
  `RelayedFrameIsDelivered`, `JoinThenRelay` and `JoinThenReceive`. `JoinThenReceive` also
  assumes `ExactOnAscii`. No function or other lemma assumes either.
- The socket's input is a queue of arrivals. An arrival is either a run of
  bytes or a transport failure. A read takes at most `MaxReadLength` bytes
  from the front run. A read at a failure reports the stream error and leaves
  the failure pending. The stream offers bytes while it is open and anything,
  even a failure, is pending. A read with a negative count but no stream error
  cannot be expressed in this model.
- Output is the list of byte buffers handed to `write(_:maxLength:)`, in call
  order.
- The delegate is the `delivered` sequence, and a delivery appends to it.
- `ReadAvailableBytes` first computes the chunks of the drain (`Drain`) and
  then the messages for those chunks. The source decodes and delivers inside
  the read loop. The result is the same because the stored user name does not
  change during a drain, and decoding depends only on the chunk and that name.
- The wire format reads as `<sender>:<payload>` with only the first colon as a
  delimiter, but the code behaves differently, and the model follows the
  code. The body is the last colon-separated component, not everything after
  the first colon. A chunk without a colon is delivered, with the whole
  text as both sender and body, not dropped. An error event and a failed read
  do not close the session. Writes are issued in every state; the code has no
  "not open" error.

## Model

| member | source | states |
|---|---|---|
| Components.Split | Doge-Chat/DogeChat/DogeChat-starter/DogeChat/ChatRoom.swift:199-202 | splitting on `:` always yields at least one component, no component contains a colon, and joining the components with `:` gives back the original text |
| Components.ComponentCount | Doge-Chat/DogeChat/DogeChat-starter/DogeChat/ChatRoom.swift:202 | the split has exactly one component more than the text has colons, so the empty text has one empty component and adjacent colons yield empty components |
| Components.SplitJoin | Doge-Chat/DogeChat/DogeChat-starter/DogeChat/ChatRoom.swift:202 | for any non-empty list of colon-free parts, splitting their colon-join gives the same parts back (the inverse direction of Split's own contract) |
| Components.SplitColonFree | Doge-Chat/DogeChat/DogeChat-starter/DogeChat/ChatRoom.swift:202-204 | a text with no colon splits into itself alone, so it is both first and last component |
| Components.First | Doge-Chat/DogeChat/DogeChat-starter/DogeChat/ChatRoom.swift:203 | `stringArray.first` is a colon-free prefix of the text that is either the whole text or followed by a colon, that is, the text before the first colon |
| Components.Last | Doge-Chat/DogeChat/DogeChat-starter/DogeChat/ChatRoom.swift:204 | `stringArray.last` is a colon-free suffix of the text that is either the whole text or preceded by a colon, that is, the text after the last colon |
| Components.FirstFieldUnique | Doge-Chat/DogeChat/DogeChat-starter/DogeChat/ChatRoom.swift:203 | the text before the first colon is determined uniquely by that description |
| Components.LastFieldUnique | Doge-Chat/DogeChat/DogeChat-starter/DogeChat/ChatRoom.swift:204 | the text after the last colon is determined uniquely by that description |
| Components.MiddleIsDiscarded | Doge-Chat/DogeChat/DogeChat-starter/DogeChat/ChatRoom.swift:199-204 | for colon-free `a` and `c` and any `b`, the text `a:b:c` has first component `a` and last component `c`; everything between is lost |
| Frames.ProcessedMessage | Doge-Chat/DogeChat/DogeChat-starter/DogeChat/ChatRoom.swift:193-212 | a chunk yields no message exactly when it is not valid UTF-8; otherwise the sender is the text before the first colon, the body the text after the last colon, and the origin is `Ourself` exactly when the sender is equivalent to the stored user name, Swift's `==` on strings |
| Frames.ColonFreeTextIsKept | Doge-Chat/DogeChat/DogeChat-starter/DogeChat/ChatRoom.swift:199-207 | a valid chunk with no colon is not dropped: its message has the whole text as both sender and body |
| Frames.EmptyChunk | Doge-Chat/DogeChat/DogeChat-starter/DogeChat/ChatRoom.swift:199-209 | a zero-length chunk yields the message with empty sender and empty body, ours exactly when the stored user name is empty |
| Frames.FrameRoundTrip | Doge-Chat/DogeChat/DogeChat-starter/DogeChat/ChatRoom.swift:199-211 | the encoded frame `name:body`, both colon-free and the name not opening with a byte-order mark, decodes to sender `name` and body `body`, ours exactly when `name` is equivalent to the stored user name |
| Frames.MessageFrameRoundTrip | Doge-Chat/DogeChat/DogeChat-starter/DogeChat/ChatRoom.swift:115 | decoding the chat frame `msg:<text>` of a colon-free text gives sender `msg` and body `text`, ours exactly when `msg` is equivalent to the stored user name |
| Frames.InnerComponentsAreDropped | Doge-Chat/DogeChat/DogeChat-starter/DogeChat/ChatRoom.swift:199-204 | for any colon-free `name` not opening with a byte-order mark, any `middle` (colons allowed) and any colon-free `body`, the relayed text `name:middle:body` gives sender `name` and body `body` |
| Streams.FromFailure | Doge-Chat/DogeChat/DogeChat-starter/DogeChat/ChatRoom.swift:177-181 | what a drain leaves pending is a suffix of the pending arrivals, everything before it is a run of bytes, and it starts with the failure that stopped the drain, or is empty |
| Streams.CanRead | Doge-Chat/DogeChat/DogeChat-starter/DogeChat/ChatRoom.swift:171 | `hasBytesAvailable` holds exactly when the stream is open and either a chunk remains to be read or a failure is pending, so a pending failure counts as available and a closed stream offers nothing |
| Streams.FrontRunIsOneChunk | Doge-Chat/DogeChat/DogeChat-starter/DogeChat/ChatRoom.swift:171-181 | a run within 4096 bytes at the front of the stream is read whole, as one chunk, before the chunks of whatever follows it, and leaves the same failure pending |
| Streams.Pieces | Doge-Chat/DogeChat/DogeChat-starter/DogeChat/ChatRoom.swift:174 | a run of bytes is read in ceil(n/4096) pieces (one zero-length piece for an empty run), none longer than 4096, all but the last exactly 4096, and the pieces joined are the run |
| Streams.Chunks | Doge-Chat/DogeChat/DogeChat-starter/DogeChat/ChatRoom.swift:171-181 | the chunks read before the first failure are each at most 4096 bytes and together are exactly the bytes that arrived before the failure, in order |
| Streams.ReadFrom | Doge-Chat/DogeChat/DogeChat-starter/DogeChat/ChatRoom.swift:174-181 | one read returns at most 4096 bytes, the next chunk of `Chunks`, loses no readable byte and keeps any failure pending; a read at a failure reports a stream error and changes nothing |
| Streams.Drain | Doge-Chat/DogeChat/DogeChat-starter/DogeChat/ChatRoom.swift:171-189 | reading while bytes are available returns exactly the chunks of `Chunks` of the pending arrivals and leaves exactly the first failure and what follows it; a closed stream yields nothing |
| Streams.LongRunIsSplit | Doge-Chat/DogeChat/DogeChat-starter/DogeChat/ChatRoom.swift:50 | a frame longer than 4096 bytes is read as two or more chunks, the first being its first 4096 bytes |
| Streams.ShortRunIsOneChunk | Doge-Chat/DogeChat/DogeChat-starter/DogeChat/ChatRoom.swift:171-181 | a run of at most 4096 bytes followed by a failure is read as exactly one chunk, and the failing read adds none |
| Session.Connected | Doge-Chat/DogeChat/DogeChat-starter/DogeChat/ChatRoom.swift:82-83 | right after the streams are opened the stored user name is empty (its initial value at line 47), both streams are open, nothing is written and nothing is delivered |
| Session.JoinChat | Doge-Chat/DogeChat/DogeChat-starter/DogeChat/ChatRoom.swift:87-109 | joining writes exactly one buffer, the encoding of `iam:<username>`, after all earlier writes, stores the user name, and leaves the input stream and the deliveries unchanged |
| Session.Send | Doge-Chat/DogeChat/DogeChat-starter/DogeChat/ChatRoom.swift:112-126 | sending writes exactly one buffer, the encoding of `msg:<message>`, after all earlier writes, and keeps the stored user name and everything else |
| Session.StopChatSession | Doge-Chat/DogeChat/DogeChat-starter/DogeChat/ChatRoom.swift:129-133 | ending the session closes both the input and the output stream and changes nothing else |
| Session.StopIsIdempotent | Doge-Chat/DogeChat/DogeChat-starter/DogeChat/ChatRoom.swift:129-133 | ending an already ended session changes nothing |
| Session.Deliveries | Doge-Chat/DogeChat/DogeChat-starter/DogeChat/ChatRoom.swift:184-188 | the delegate never receives more messages than there were chunks |
| Session.OneDeliveryPerValidChunk | Doge-Chat/DogeChat/DogeChat-starter/DogeChat/ChatRoom.swift:184-188 | the delegate is called exactly once per chunk that is valid UTF-8 |
| Session.ValidChunksAllDeliver | Doge-Chat/DogeChat/DogeChat-starter/DogeChat/ChatRoom.swift:184-188 | when every chunk is valid UTF-8, the delegate receives exactly one message per chunk |
| Session.DeliveriesOfValidChunks | Doge-Chat/DogeChat/DogeChat-starter/DogeChat/ChatRoom.swift:184-188 | when every chunk is valid UTF-8, the i-th delivered message is the message of the i-th chunk read |
| Session.DeliveriesAppend | Doge-Chat/DogeChat/DogeChat-starter/DogeChat/ChatRoom.swift:171-189 | deliveries keep read order: the messages for two consecutive runs of reads are those of the first run followed by those of the second |
| Session.DeliveredOrigins | Doge-Chat/DogeChat/DogeChat-starter/DogeChat/ChatRoom.swift:209 | every delivered message is marked `Ourself` exactly when its sender is equivalent to the stored user name |
| Session.ReadAvailableBytes | Doge-Chat/DogeChat/DogeChat-starter/DogeChat/ChatRoom.swift:165-190 | draining an open input stream appends to the deliveries exactly the messages of the chunks before the first failure, in read order, and leaves that failure pending; a closed stream is not read; the user name and output never change |
| Session.HandleEvent | Doge-Chat/DogeChat/DogeChat-starter/DogeChat/ChatRoom.swift:143-163 | available bytes run the drain; the end of the stream ends the session; error, space-available and all other events change nothing; only the end of the stream changes whether the input is open |
| Session.NothingDeliveredAfterStop | Doge-Chat/DogeChat/DogeChat-starter/DogeChat/ChatRoom.swift:171 | after the session has ended, an available-bytes event reads nothing and delivers nothing |
| Session.FailedReadDeliversNothing | Doge-Chat/DogeChat/DogeChat-starter/DogeChat/ChatRoom.swift:177-181 | when the next read fails, an available-bytes event delivers nothing, consumes nothing and does not close the session |
| Session.OriginBeforeJoin | Doge-Chat/DogeChat/DogeChat-starter/DogeChat/ChatRoom.swift:47 | before any join the stored user name is empty, so a delivered message is ours exactly when its sender is empty (only the empty string is equivalent to the empty string) |
| Session.FrontChunkIsDeliveredFirst | Doge-Chat/DogeChat/DogeChat-starter/DogeChat/ChatRoom.swift:171-188 | bytes within 4096 at the front of an open input stream are read first: their message, if any, is delivered before the messages of everything after them, and the drain leaves what it would leave for the rest |
| Session.RelayedFrameIsDelivered | Doge-Chat/DogeChat/DogeChat-starter/DogeChat/ChatRoom.swift:184-188 | a relayed frame `name:body` (colon-free, the name not opening with a byte-order mark) that arrives whole within 4096 bytes at the front of the input is delivered first, as exactly one message with that sender, that body, and origin `Ourself` exactly when the name is equivalent to the stored user name, followed by the messages of whatever arrived after it |
| Session.JoinThenRelay | Doge-Chat/DogeChat/DogeChat-starter/DogeChat/ChatRoom.swift:87-109 | after connecting and joining as `me`, the only write is the frame `iam:<me>`, and one relayed frame `name:body` is delivered as exactly one message with that sender and body, ours exactly when `name` is equivalent to `me` |
| Session.JoinThenReceive | Doge-Chat/DogeChat/DogeChat-starter/DogeChat/ChatRoom.swift:91-94 | after joining as `alice`, the only write is the frame `iam:alice`, and a relayed `bob:yo` is delivered as one message from `bob` with body `yo`, marked as someone else's |

## Left out

- `setupNetorkCommunication` (lines 52-84): socket creation for the fixed host
  and port, run-loop scheduling and opening the streams are operating-system
  plumbing. `Connected` stands for the state it leaves behind.
- Pointer handling (`withUnsafeBytes`, `assumingMemoryBound`, the buffer
  allocated at line 168, `bytesNoCopy` with `freeWhenDone`): memory is not
  modelled, and the model assumes a fresh buffer for every read. The code as
  written allocates one buffer at line 168, reuses it for every read at line
  174, and hands it with `freeWhenDone: true` to every successful decode at
  lines 200-201. Each decoded string then frees that buffer when it is
  released, so a drain that decodes two or more chunks reads into freed memory
  and frees the buffer more than once. The model delivers every chunk of such
  a drain. A write is modelled as "the bytes written are the encoded frame". The nil-`baseAddress` guard at lines 99-103 and
  119-123 is not modelled: a frame always has at least four bytes.
- The real UTF-8 encoder and decoder and Unicode canonical equivalence: they
  are abstract functions, constrained only by `Lawful` and `ExactOnAscii`
  where a lemma needs them. Normalisation itself is not modelled.
- Frames.FrameRoundTrip: says nothing about a name that opens with a
  byte-order mark, because UTF-8 decoding may strip that mark and the sender
  would then not be the name.
- Session.RelayedFrameIsDelivered: says nothing about a name that opens with
  a byte-order mark, for the same reason.
- Frames.InnerComponentsAreDropped: says nothing about a name that opens with
  a byte-order mark, for the same reason.
- Components.Split: separates at every colon scalar. Line 202 calls
  `components(separatedBy:)` with no options, a Unicode-aware search that may
  not separate at a colon that a combining mark or other extending scalar
  (U+0301, U+200D, U+FE0F) joins to what follows. For `bob:` followed by
  U+0301 and `yo`, the model gives sender `bob`; Foundation may give the whole
  text. Grapheme segmentation is not modelled.
- Components.First: inherits the colon-scalar split, so it may end the sender
  at a colon that Foundation does not separate at.
- Components.Last: inherits the colon-scalar split, so it may start the body
  after a colon that Foundation does not separate at.
- Components.ComponentCount: inherits the colon-scalar split. For `a:`
  followed by U+0301 and `b`, it says two components where Foundation may
  give one.
- Components.SplitJoin: inherits the colon-scalar split, so it promises
  nothing about the source for a part that opens with an extending scalar.
- Components.MiddleIsDiscarded: inherits the colon-scalar split, so it
  promises nothing about the source for a middle or last component that opens
  with an extending scalar.
- Frames.ProcessedMessage: inherits the colon-scalar split, so for a text with
  a colon followed by an extending scalar it may name a different sender and
  body than Foundation would.
- Frames.FrameRoundTrip: inherits the colon-scalar split, so it promises
  nothing about the source for a body that opens with an extending scalar.
- Frames.MessageFrameRoundTrip: inherits the colon-scalar split, so it
  promises nothing about the source for a message that opens with an
  extending scalar.
- Frames.InnerComponentsAreDropped: inherits the colon-scalar split, so it
  promises nothing about the source for a middle or body that opens with an
  extending scalar.
- Session.RelayedFrameIsDelivered: inherits the colon-scalar split, so it
  promises nothing about the source for a body that opens with an extending
  scalar.
- Session.JoinThenRelay: inherits the colon-scalar split and the byte-order
  mark gap of `RelayedFrameIsDelivered`.
- A negative read count without a stream error (line 177): the source then
  decodes a negative length, which has no defined meaning. The model cannot
  express that read.
- The results of `write(_:maxLength:)`, which the source ignores: partial
  writes and writes to a closed stream are Foundation behaviour and not
  modelled.
- Which bytes a real socket read returns is the operating system's choice. The
  model fixes one behaviour: a read returns the front of the current arrival,
  up to the cap.
- `print` diagnostics, and the weak `delegate` reference. The model assumes
  a delegate is registered. With no delegate, the source drops the messages.
- Events are taken to come from the input stream. It is the only stream whose
  delegate is set (line 75).
- `Message.swift` is not part of this model. The `Message` record's fields
  are taken from the initializer call at line 211.
- `ChatRoomViewController.swift`: UIKit lifecycle and table-view glue. On
  appearing, it registers itself as the delegate, calls
  `setupNetorkCommunication` and then `joinChat` (lines 52-54). On
  disappearing, it calls `stopChatSession` (line 61). The send button calls
  `send` (line 70). `Connected` followed by `JoinChat` is the state this
  sequence produces.
