/**
 The socket's input stream, as the chat client sees it through
 `hasBytesAvailable` and `read(_:maxLength:)`.

 What the peer sent is a queue of arrivals: runs of bytes, or a transport
 failure after which every read reports a negative count with a stream error.
 A read takes at most `maxLength` bytes from the front run; whatever is left of
 the run is returned by the next read.
 */
module Streams {
  import opened Frames

  /** The cap on any single read of the chat client. */
  const MaxReadLength: nat := 4096

  datatype Arrival = Data(bytes: Bytes) | Failure

  datatype InputStream = InputStream(open: bool, pending: seq<Arrival>)

  /** The outcome of one read: the bytes read, or a negative count with a stream error. */
  datatype ReadResult = Read(bytes: Bytes) | StreamError

  /**
   `hasBytesAvailable`: a closed stream offers nothing; an open one offers a
   read exactly while a chunk remains to be read or a failure is pending, so a
   pending failure counts as available and its read reports the error.
   */
  predicate CanRead(s: InputStream)
    ensures CanRead(s) <==> s.open && (|Chunks(s.pending)| > 0 || |FromFailure(s.pending)| > 0)
  {
    s.open && |s.pending| > 0
  }

  function Flatten(chunks: seq<Bytes>): Bytes {
    if |chunks| == 0 then [] else chunks[0] + Flatten(chunks[1..])
  }

  lemma {:induction false} FlattenAppend(a: seq<Bytes>, b: seq<Bytes>)
    ensures Flatten(a + b) == Flatten(a) + Flatten(b)
    decreases |a|
  {
    if |a| > 0 {
      assert (a + b)[1..] == a[1..] + b;
      FlattenAppend(a[1..], b);
    } else {
      assert a + b == b;
    }
  }

  /** Every byte that arrived before the first failure, in arrival order. */
  function ReadableBytes(pending: seq<Arrival>): Bytes {
    if |pending| == 0 then []
    else match pending[0]
      case Failure => []
      case Data(d) => d + ReadableBytes(pending[1..])
  }

  /** The arrivals from the first failure on (empty when nothing failed). */
  function FromFailure(pending: seq<Arrival>): (r: seq<Arrival>)
    ensures |r| <= |pending|
    ensures pending == pending[..|pending| - |r|] + r
    ensures forall i :: 0 <= i < |pending| - |r| ==> pending[i].Data?
    ensures |r| > 0 ==> r[0].Failure?
  {
    if |pending| == 0 then []
    else if pending[0].Failure? then pending
    else FromFailure(pending[1..])
  }

  /**
   A run of bytes cut into reads of `MaxReadLength`: every piece but the last
   is full, none is longer, the pieces put together are the run, and an empty
   run is read once, as zero bytes.
   */
  function Pieces(d: Bytes): (r: seq<Bytes>)
    ensures |r| == if |d| == 0 then 1 else (|d| + MaxReadLength - 1) / MaxReadLength
    ensures forall i :: 0 <= i < |r| ==> |r[i]| <= MaxReadLength
    ensures forall i :: 0 <= i < |r| - 1 ==> |r[i]| == MaxReadLength
    ensures Flatten(r) == d
    decreases |d|
  {
    if |d| <= MaxReadLength then
      assert Flatten([d]) == d + Flatten([]);
      [d]
    else
      var rest := Pieces(d[MaxReadLength..]);
      var r := [d[..MaxReadLength]] + rest;
      assert r[1..] == rest;
      assert d == d[..MaxReadLength] + d[MaxReadLength..];
      r
  }

  /**
   The chunks successive reads of `MaxReadLength` return before the first
   failure: none is longer than the cap, and together they are exactly the
   readable bytes, none lost, none repeated, none reordered.
   */
  function Chunks(pending: seq<Arrival>): (r: seq<Bytes>)
    ensures forall i :: 0 <= i < |r| ==> |r[i]| <= MaxReadLength
    ensures Flatten(r) == ReadableBytes(pending)
  {
    if |pending| == 0 then []
    else match pending[0]
      case Failure => []
      case Data(d) =>
        var rest := Chunks(pending[1..]);
        FlattenAppend(Pieces(d), rest);
        Pieces(d) + rest
  }

  /** A measure that every successful read decreases. */
  function Weight(pending: seq<Arrival>): nat {
    if |pending| == 0 then 0
    else match pending[0]
      case Failure => 1 + Weight(pending[1..])
      case Data(d) => 1 + |d| + Weight(pending[1..])
  }

  /**
   `read(_:maxLength:)`: a pending failure is reported and stays pending; a run
   gives up at most `maxLength` bytes from its front. The bytes read are the
   next chunk of `Chunks`, and the failure, if any, is untouched.
   */
  function ReadFrom(s: InputStream): (r: (ReadResult, InputStream))
    requires CanRead(s)
    ensures r.1.open == s.open
    ensures r.0.StreamError? <==> s.pending[0].Failure?
    ensures r.0.StreamError? ==> r.1 == s && Chunks(s.pending) == []
    ensures r.0.Read? ==> |r.0.bytes| <= MaxReadLength
    ensures r.0.Read? ==> Chunks(s.pending) == [r.0.bytes] + Chunks(r.1.pending)
    ensures r.0.Read? ==> ReadableBytes(s.pending) == r.0.bytes + ReadableBytes(r.1.pending)
    ensures r.0.Read? ==> FromFailure(r.1.pending) == FromFailure(s.pending)
    ensures r.0.Read? ==> Weight(r.1.pending) < Weight(s.pending)
  {
    match s.pending[0]
    case Failure => (StreamError, s)
    case Data(d) =>
      if |d| <= MaxReadLength then
        (Read(d), s.(pending := s.pending[1..]))
      else
        var tail := [Data(d[MaxReadLength..])] + s.pending[1..];
        assert tail[1..] == s.pending[1..];
        assert d == d[..MaxReadLength] + d[MaxReadLength..];
        (Read(d[..MaxReadLength]), s.(pending := tail))
  }

  /** The chunks a drain read, and the stream it left behind. */
  datatype Drained = Drained(chunks: seq<Bytes>, rest: InputStream)

  /**
   Reads while bytes are available, at most `MaxReadLength` bytes per read,
   stopping at the first read that fails. An open stream yields exactly the
   chunks of `Chunks` and keeps exactly the failure and what follows it; a
   closed stream yields nothing and stays as it was.
   */
  function Drain(s: InputStream): (r: Drained)
    ensures s.open ==> r.chunks == Chunks(s.pending)
    ensures s.open ==> r.rest == s.(pending := FromFailure(s.pending))
    ensures !s.open ==> r == Drained([], s)
    decreases Weight(s.pending)
  {
    if !CanRead(s) then Drained([], s)
    else
      var step := ReadFrom(s);
      match step.0
      case StreamError => Drained([], s)
      case Read(chunk) =>
        var next := Drain(step.1);
        Drained([chunk] + next.chunks, next.rest)
  }

  /** A run longer than the cap is never read in one piece. */
  lemma LongRunIsSplit(d: Bytes, rest: seq<Arrival>)
    requires |d| > MaxReadLength
    ensures |Chunks([Data(d)] + rest)| >= 2
    ensures Chunks([Data(d)] + rest)[0] == d[..MaxReadLength]
  {
  }

  /**
   A run within the cap at the front of the stream is read whole, as one chunk,
   before anything that follows it, and does not change what a drain leaves.
   */
  lemma FrontRunIsOneChunk(d: Bytes, rest: seq<Arrival>)
    requires |d| <= MaxReadLength
    ensures Chunks([Data(d)] + rest) == [d] + Chunks(rest)
    ensures FromFailure([Data(d)] + rest) == FromFailure(rest)
  {
  }

  /** A run within the cap, followed by a failure, is read as exactly one chunk. */
  lemma ShortRunIsOneChunk(d: Bytes, rest: seq<Arrival>)
    requires |d| <= MaxReadLength
    ensures Chunks([Data(d), Failure] + rest) == [d]
  {
  }
}
