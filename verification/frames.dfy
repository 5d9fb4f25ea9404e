/**
 Chat frames and their decoding into messages.

 Outgoing frames are `verb:payload` texts (`iam:<name>` to join, `msg:<text>`
 to chat) sent as UTF-8. An incoming chunk of bytes is decoded as UTF-8, split
 on every colon, and becomes a message whose sender is the first component,
 whose body is the last component, and whose origin says whether that sender
 is the local user.
 */
module Frames {
  import opened Wrappers
  import opened Components

  newtype byte = x: int | 0 <= x < 256

  type Bytes = seq<byte>

  /**
   The Unicode services the client relies on: `encode` turns a string into its
   UTF-8 bytes (total, like `String.data(using: .utf8)!`), `decode` turns bytes
   into a string or fails on bytes that are not valid UTF-8, and `equivalent`
   is Swift's string `==`, which compares by canonical equivalence rather than
   scalar by scalar (precomposed `é` equals `e` followed by a combining acute).
   */
  datatype Unicode = Unicode(
    encode: string -> Bytes,
    decode: Bytes -> Option<string>,
    equivalent: (string, string) -> bool)

  const ByteOrderMark: char := '\U{FEFF}'

  /** Text that does not open with a byte-order mark, which UTF-8 decoding may drop. */
  predicate NoLeadingMark(s: string) {
    |s| == 0 || s[0] != ByteOrderMark
  }

  /** Every scalar of `s` is ASCII. */
  predicate Ascii(s: string) {
    |s| == 0 || (s[0] < '\U{80}' && Ascii(s[1..]))
  }

  /**
   The properties of genuine UTF-8 and canonical equivalence that the chat logic
   depends on: the empty string has no bytes; no scalar takes more than four
   bytes; decoding an encoding gives the
   text back unless it opens with a byte-order mark; equivalence is reflexive and
   symmetric; and only the empty string is equivalent to the empty string.
   */
  ghost predicate Lawful(unicode: Unicode) {
    && unicode.encode("") == []
    && (forall s :: |unicode.encode(s)| <= 4 * |s|)
    && (forall s :: NoLeadingMark(s) ==> unicode.decode(unicode.encode(s)) == Some(s))
    && (forall s :: unicode.equivalent(s, s))
    && (forall a, b :: unicode.equivalent(a, b) == unicode.equivalent(b, a))
    && (forall s :: unicode.equivalent(s, "") ==> s == "")
  }

  /** On ASCII text, which has no decompositions, canonical equivalence is plain equality. */
  ghost predicate ExactOnAscii(unicode: Unicode) {
    forall a, b :: Ascii(a) && Ascii(b) && unicode.equivalent(a, b) ==> a == b
  }

  const JoinVerb: string := "iam"
  const MessageVerb: string := "msg"

  /** The wire text `verb:payload`. */
  function Frame(verb: string, payload: string): string {
    verb + [Colon] + payload
  }

  /** Whether a message was written by the local user. */
  datatype Origin = Ourself | SomeoneElse

  /** A received chat message: its body, its origin and its sender's name. */
  datatype Message = Message(body: string, origin: Origin, senderName: string)

  /**
   Turns one read chunk into a message: no message exactly when the bytes are not
   valid UTF-8; otherwise the sender is the text before the first colon, the body
   the text after the last colon, and the origin is `Ourself` exactly when the
   sender is equivalent to the stored `username`.
   */
  function ProcessedMessage(unicode: Unicode, username: string, chunk: Bytes): (r: Option<Message>)
    ensures r.None? <==> unicode.decode(chunk).None?
    ensures r.Some? ==> IsFirstField(unicode.decode(chunk).value, r.value.senderName)
    ensures r.Some? ==> IsLastField(unicode.decode(chunk).value, r.value.body)
    ensures r.Some? ==> (r.value.origin == Ourself <==> unicode.equivalent(r.value.senderName, username))
  {
    match unicode.decode(chunk)
    case None => None
    case Some(text) =>
      var name := First(text);
      var origin := if unicode.equivalent(name, username) then Ourself else SomeoneElse;
      Some(Message(Last(text), origin, name))
  }

  /** A chunk whose text has no colon is still a message, with the whole text as sender and body. */
  lemma ColonFreeTextIsKept(unicode: Unicode, username: string, chunk: Bytes, text: string)
    requires unicode.decode(chunk) == Some(text)
    requires ColonFree(text)
    ensures ProcessedMessage(unicode, username, chunk).Some?
    ensures ProcessedMessage(unicode, username, chunk).value.senderName == text
    ensures ProcessedMessage(unicode, username, chunk).value.body == text
  {
  }

  /** A zero-length chunk is the empty text: sender and body are both empty. */
  lemma EmptyChunk(unicode: Unicode, username: string)
    requires Lawful(unicode)
    ensures ProcessedMessage(unicode, username, []) ==
      Some(Message("", if username == "" then Ourself else SomeoneElse, ""))
  {
  }

  /**
   Decoding the bytes of `name:body`, both colon-free and the name not opening
   with a byte-order mark, gives back `name` and `body`.
   */
  lemma FrameRoundTrip(unicode: Unicode, username: string, name: string, body: string)
    requires Lawful(unicode)
    requires ColonFree(name) && ColonFree(body)
    requires NoLeadingMark(name)
    ensures var m := ProcessedMessage(unicode, username, unicode.encode(Frame(name, body)));
      && m.Some?
      && m.value.senderName == name
      && m.value.body == body
      && (m.value.origin == Ourself <==> unicode.equivalent(name, username))
  {
  }

  /** The chat frame of a colon-free message decodes to sender `msg` and that message as body. */
  lemma MessageFrameRoundTrip(unicode: Unicode, username: string, text: string)
    requires Lawful(unicode)
    requires ColonFree(text)
    ensures var m := ProcessedMessage(unicode, username, unicode.encode(Frame(MessageVerb, text)));
      m == Some(Message(text, if unicode.equivalent(MessageVerb, username) then Ourself else SomeoneElse, MessageVerb))
  {
    FrameRoundTrip(unicode, username, MessageVerb, text);
  }

  /**
   Colons inside a relayed text are lost: of `name:middle:body`, with `name` and
   `body` colon-free and `middle` anything, colons included, only the sender
   `name` and the body `body` remain.
   */
  lemma InnerComponentsAreDropped(unicode: Unicode, username: string, name: string, middle: string, body: string)
    requires Lawful(unicode)
    requires ColonFree(name) && ColonFree(body)
    requires NoLeadingMark(name)
    ensures var m := ProcessedMessage(unicode, username, unicode.encode(name + [Colon] + middle + [Colon] + body));
      m.Some? && m.value.senderName == name && m.value.body == body
  {
    var text := name + [Colon] + middle + [Colon] + body;
    assert NoLeadingMark(text) by {
      if |name| == 0 {
        assert text[0] == Colon;
      } else {
        assert text[0] == name[0];
      }
    }
    MiddleIsDiscarded(name, middle, body);
  }
}
