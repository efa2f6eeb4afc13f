/**
 How a handler of `tools/record-fixtures/raw_capture.py` takes a request's body off the connection:
 refused, in chunks, or by its length. It means to record a body verbatim or not at all. Bodies
 that arrive whole are; for those the peer cuts off, the last theorem says exactly which cuts are
 recorded short.

 Header values are Latin-1 text, as `http.server` decodes them.
 */
module RequestBody {
  import opened Bytes
  import opened Chunked
  import Text
  import opened Wrappers

  /** What the handler looks at. `parse` is Python's `int` of a text. */
  datatype Head = Head(acceptChunked: bool, hasBody: bool, encoding: Option<string>, length: Option<string>,
                       parse: string -> Option<int>)

  datatype Framing = Refused | InChunks | Sized(length: nat)

  // ---- The framing ----

  /** What `str.strip` strips of Latin-1. */
  predicate IsBlankChar(c: char) {
    var n := c as int;
    9 <= n <= 13 || 28 <= n <= 32 || n == 0x85 || n == 0xA0
  }

  function StripText(s: string): string
    decreases |s|
  {
    if s != [] && IsBlankChar(s[0]) then StripText(s[1..])
    else if s != [] && IsBlankChar(s[|s| - 1]) then StripText(s[..|s| - 1])
    else s
  }

  predicate NamesChunked(h: Head) { h.encoding.Some? && Text.Lower(StripText(h.encoding.value)) == "chunked" }

  function FramingOf(h: Head): Framing {
    if h.acceptChunked && NamesChunked(h) then InChunks
    else if h.encoding.Some? && h.encoding.value != [] then Refused
    else
      match h.length
      case None => if h.hasBody then Refused else Sized(0)
      case Some(text) =>
        match h.parse(text)
        case None => Refused
        case Some(n) => if n < 0 then Refused else Sized(n)
  }

  // ---- The body ----

  /** What is recorded of a request whose peer sends `sent` and closes. */
  function Recorded(sent: bytes, framing: Framing): Option<bytes> {
    match framing
    case Refused => None
    case InChunks =>
      (match Decode(sent)
       case Ok(body, _) => Some(body)
       case Failed => None)
    case Sized(length) => Some(sent[..Taken(sent, length)])
  }

  /** What is left for the next request. */
  function Left(sent: bytes, framing: Framing): bytes {
    match framing
    case Refused => sent
    case InChunks =>
      (match Decode(sent)
       case Ok(_, rest) => rest
       case Failed => [])
    case Sized(length) => sent[Taken(sent, length)..]
  }

  /** The handler, from the headers to the body. */
  method TakeBody(h: Head, stream: Stream) returns (body: Option<bytes>)
    modifies stream
    ensures body == Recorded(old(stream.rest), FramingOf(h))
    ensures body.Some? || FramingOf(h).Refused? ==> stream.rest == Left(old(stream.rest), FramingOf(h))
  {
    var encoding, length := h.encoding, 0;
    var chunked := h.acceptChunked && NamesChunked(h);
    if chunked {
      encoding := None;
    }
    if encoding.Some? && encoding.value != [] {
      return None;
    } else if chunked {
    } else if h.length.None? {
      if h.hasBody {
        return None;
      }
    } else {
      var n := h.parse(h.length.value);
      if n.None? || n.value < 0 {
        return None;
      }
      length := n.value;
    }
    if chunked {
      body := ReadChunked(stream);
    } else if length != 0 {
      body := stream.Read(length);
    } else {
      body := Some([]);
    }
  }

  // ---- Bodies as they are sent ----

  /** A body by its length, or in chunks. */
  datatype Sent = Plain(body: bytes) | Cut(chunks: seq<Chunk>, last: Chunk, trailers: seq<bytes>)

  ghost predicate IsSent(m: Sent) {
    match m
    case Plain(_) => true
    case Cut(chunks, last, trailers) => WellFormed(chunks, last, trailers)
  }

  function TextOf(m: Sent): bytes {
    match m
    case Plain(body) => body
    case Cut(chunks, last, trailers) => Encoded(chunks, last, trailers)
  }

  function BodyOf(m: Sent): bytes {
    match m
    case Plain(body) => body
    case Cut(chunks, _, _) => Body(chunks)
  }

  function FramingFor(m: Sent): Framing {
    match m
    case Plain(body) => Sized(|body|)
    case Cut(_, _, _) => InChunks
  }

  /** The headers announce the body as it is sent: chunked where that is accepted, or no encoding and
      the body's length, or nothing for a request without one. */
  predicate Announces(h: Head, m: Sent) {
    match m
    case Cut(_, _, _) => h.acceptChunked && NamesChunked(h)
    case Plain(body) =>
      && !(h.acceptChunked && NamesChunked(h)) && (h.encoding.None? || h.encoding.value == [])
      && if h.length.Some? then h.parse(h.length.value) == Some(|body|) else !h.hasBody && body == []
  }

  /** The handler reads a body by the framing it was sent in exactly when the headers announce it. */
  lemma FramedAsAnnounced(h: Head, m: Sent)
    ensures FramingOf(h) == FramingFor(m) <==> Announces(h, m)
  {
  }

  /** A body that is announced and arrives whole is recorded as it was sent, and the connection is
      left just past it. */
  lemma WholeIsVerbatim(h: Head, m: Sent, next: bytes)
    requires IsSent(m) && Announces(h, m)
    ensures Recorded(TextOf(m) + next, FramingOf(h)) == Some(BodyOf(m))
    ensures Left(TextOf(m) + next, FramingOf(h)) == next
  {
    FramedAsAnnounced(h, m);
    match m
    case Plain(body) =>
      assert (body + next)[..|body|] == body && (body + next)[|body|..] == next;
    case Cut(chunks, last, trailers) =>
      DecodeEncoded(chunks, last, trailers, next);
  }

  /** Cut after n bytes, what is recorded isn't the body: any byte of a body by its length is
      missing, or the cut falls among the zeros a chunk's size starts with. */
  ghost predicate CutsShort(m: Sent, n: nat) {
    match m
    case Plain(body) => n < |body|
    case Cut(chunks, _, _) => AmongSomeZeros(chunks, n)
  }

  lemma ChunkedCut(chunks: seq<Chunk>, last: Chunk, trailers: seq<bytes>, n: nat)
    requires WellFormed(chunks, last, trailers) && n <= |Encoded(chunks, last, trailers)|
    ensures var r := Decode(Encoded(chunks, last, trailers)[..n]);
            && (AmongSomeZeros(chunks, n) ==> r.Ok? && r.body < Body(chunks))
            && (!AmongSomeZeros(chunks, n) && r.Ok? ==> r.body == Body(chunks))
  {
    if i :| 0 <= i < |chunks| && AmongZeros(chunks, i, n) {
      CutAmongZeros(chunks, last, trailers, i, n);
    } else {
      CutElsewhere(chunks, last, trailers, n);
    }
  }

  /** Wherever the peer cuts a body off, something else than the body is recorded exactly when
      `CutsShort`, and then it is a proper prefix of it. */
  lemma CutRecordedExactly(m: Sent, n: nat)
    requires IsSent(m) && n <= |TextOf(m)|
    ensures var r := Recorded(TextOf(m)[..n], FramingFor(m));
            && (CutsShort(m, n) <==> r.Some? && r.value != BodyOf(m))
            && (CutsShort(m, n) ==> r.value < BodyOf(m))
  {
    match m
    case Plain(body) =>
      assert body[..n][..n] == body[..n];
      assert n == |body| ==> body[..n] == body;
    case Cut(chunks, last, trailers) =>
      ChunkedCut(chunks, last, trailers, n);
  }

  predicate VerbatimAt(m: Sent, n: nat)
    requires n <= |TextOf(m)|
  {
    var r := Recorded(TextOf(m)[..n], FramingFor(m));
    r.Some? ==> r.value == BodyOf(m)
  }

  /** Recorded verbatim or not at all, wherever the peer may cut. */
  ghost predicate VerbatimOrNothing(m: Sent) {
    forall n | 0 <= n <= |TextOf(m)| :: VerbatimAt(m, n)
  }

  lemma ChunkedAlike(chunks: seq<Chunk>, last: Chunk, trailers: seq<bytes>)
    ensures VerbatimOrNothing(Cut(chunks, last, trailers)) <==> VerbatimOrNotAtAll(chunks, last, trailers)
  {
    var m, all := Cut(chunks, last, trailers), Encoded(chunks, last, trailers);
    if VerbatimOrNothing(m) {
      forall n | 0 <= n <= |all|
        ensures Decode(all[..n]).Ok? ==> Decode(all[..n]).body == Body(chunks)
      {
        assert VerbatimAt(m, n);
      }
    }
  }

  /** A body is verbatim or nothing under every cut exactly when it is empty, or in chunks none of
      whose sizes starts with a zero. */
  lemma VerbatimOrNothingExactly(m: Sent)
    requires IsSent(m)
    ensures VerbatimOrNothing(m)
       <==> match m
            case Plain(body) => body == []
            case Cut(chunks, _, _) => forall c <- chunks :: !ZeroPadded(c)
  {
    match m
    case Plain(body) =>
      if body != [] {
        CutRecordedExactly(m, 0);
        assert !VerbatimAt(m, 0);
      }
    case Cut(chunks, last, trailers) =>
      CutBodiesExactly(chunks, last, trailers);
      ChunkedAlike(chunks, last, trailers);
  }
}
