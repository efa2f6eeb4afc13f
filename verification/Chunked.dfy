/**
 `read_chunked` of `tools/record-fixtures/raw_capture.py`: the payload of a chunked body, section
 7.1 of RFC 9112, its framing removed. The connection's input is everything the peer sends before
 it closes; at its end `readline` and `read` return what is left.
 */
module Chunked {
  import opened Bytes
  import opened Wrappers

  /** `Failed` is the `ValueError` of `int` or `read`. */
  datatype Result = Ok(body: bytes, rest: bytes) | Failed

  const SEMICOLON: byte := 59
  const ZERO: byte := 48
  const UNDERSCORE: byte := 95

  // ---- The stream ----

  /** The length of the first line, its LF included. */
  function LineLength(s: bytes): (n: nat)
    ensures n <= |s| && (s != [] ==> n > 0)
  {
    if s == [] then 0 else if s[0] == LF then 1 else 1 + LineLength(s[1..])
  }

  class Stream {
    var rest: bytes

    constructor (sent: bytes)
      ensures rest == sent
    {
      rest := sent;
    }

    method ReadLine() returns (line: bytes)
      modifies this
      ensures var n := LineLength(old(rest)); line == old(rest)[..n] && rest == old(rest)[n..]
    {
      var n := LineLength(rest);
      line := rest[..n];
      rest := rest[n..];
    }

    /** `read(size)`: everything for -1, a `ValueError` below it. */
    method Read(size: int) returns (data: Option<bytes>)
      modifies this
      ensures data.None? <==> size < -1
      ensures data.None? ==> rest == old(rest)
      ensures data.Some? ==> var n := Taken(old(rest), size); data.value == old(rest)[..n] && rest == old(rest)[n..]
    {
      if size < -1 {
        return None;
      }
      var n := Taken(rest, size);
      data := Some(rest[..n]);
      rest := rest[n..];
    }
  }

  /** How many bytes `read(size)` takes. */
  function Taken(s: bytes, size: int): (n: nat)
    requires size >= -1
    ensures n <= |s|
  {
    if size == -1 || size > |s| then |s| else size
  }

  // ---- The size ----

  /** What `bytes.strip` strips. */
  predicate IsSpace(b: byte) { 9 <= b <= 13 || b == SPACE }

  function StripLeft(s: bytes): bytes {
    if s != [] && IsSpace(s[0]) then StripLeft(s[1..]) else s
  }

  function StripRight(s: bytes): bytes {
    if s != [] && IsSpace(s[|s| - 1]) then StripRight(s[..|s| - 1]) else s
  }

  function Strip(s: bytes): bytes { StripRight(StripLeft(s)) }

  function BeforeSemicolon(s: bytes): bytes {
    if s == [] || s[0] == SEMICOLON then [] else [s[0]] + BeforeSemicolon(s[1..])
  }

  predicate IsHex(b: byte) { 48 <= b <= 57 || 65 <= b <= 70 || 97 <= b <= 102 }

  function HexDigit(b: byte): (v: nat)
    requires IsHex(b)
    ensures v < 16
  {
    if b <= 57 then b - 48 else if b <= 70 then b - 55 else b - 87
  }

  /** Digits with single underscores between them, onto `acc`. */
  function Digits(s: bytes, acc: nat, afterDigit: bool): Option<nat>
    decreases s
  {
    if s == [] then if afterDigit then Some(acc) else None
    else if s[0] == UNDERSCORE && afterDigit then Digits(s[1..], acc, false)
    else if IsHex(s[0]) then Digits(s[1..], acc * 16 + HexDigit(s[0]), true)
    else None
  }

  /** `int(s, 16)` of a stripped `s`: an optional sign, an optional `0x` that an underscore may
      follow, then digits. */
  function HexInt(s: bytes): Option<int> {
    var signed := s != [] && (s[0] == 43 || s[0] == 45);
    var t := if signed then s[1..] else s;
    var prefixed := |t| >= 2 && t[0] == ZERO && (t[1] == 120 || t[1] == 88);
    var u := if !prefixed then t else if |t| > 2 && t[2] == UNDERSCORE then t[3..] else t[2..];
    match Digits(u, 0, false)
    case None => None
    case Some(n) => Some(if signed && s[0] == 45 then -(n as int) else n)
  }

  function ChunkSize(line: bytes): Option<int> {
    HexInt(Strip(BeforeSemicolon(line)))
  }

  // ---- The decoder ----

  /** The stream after the trailers: past the first blank line, or at the end. */
  function AfterTrailers(s: bytes): bytes
    decreases |s|
  {
    var n := LineLength(s);
    if Strip(s[..n]) == [] then s[n..] else AfterTrailers(s[n..])
  }

  function Prepend(data: bytes, r: Result): Result {
    match r
    case Ok(body, rest) => Ok(data + body, rest)
    case Failed => Failed
  }

  /** One turn of the loop: an error, the last chunk with its trailers, or a chunk's data. */
  datatype Turn = Bad | Last(rest: bytes) | More(data: bytes, rest: bytes)

  function OneChunk(s: bytes): (t: Turn)
    ensures t.More? ==> |t.rest| < |s|
  {
    var n := LineLength(s);
    var size := ChunkSize(s[..n]);
    if size.None? || size.value < -1 then Bad
    else if size.value == 0 then Last(AfterTrailers(s[n..]))
    else
      NoSizeInNothing();
      var after := s[n..];
      var k := Taken(after, size.value);
      More(after[..k], after[k..][LineLength(after[k..])..])
  }

  lemma {:induction false} NoSizeInNothing()
    ensures ChunkSize([]) == None
  {
  }

  function Decode(s: bytes): Result
    decreases |s|
  {
    match OneChunk(s)
    case Bad => Failed
    case Last(rest) => Ok([], rest)
    case More(data, rest) => Prepend(data, Decode(rest))
  }

  method SkipTrailers(stream: Stream)
    modifies stream
    ensures stream.rest == AfterTrailers(old(stream.rest))
  {
    var line := stream.ReadLine();
    while Strip(line) != []
      invariant AfterTrailers(old(stream.rest)) == if Strip(line) == [] then stream.rest else AfterTrailers(stream.rest)
      decreases |stream.rest|, |line|
    {
      line := stream.ReadLine();
    }
  }

  method ReadChunk(stream: Stream) returns (t: Turn)
    modifies stream
    ensures t == OneChunk(old(stream.rest))
    ensures !t.Bad? ==> stream.rest == t.rest
  {
    var line := stream.ReadLine();
    var size := ChunkSize(line);
    if size.None? {
      return Bad;
    }
    if size.value == 0 {
      SkipTrailers(stream);
      return Last(stream.rest);
    }
    var data := stream.Read(size.value);
    if data.None? {
      return Bad;
    }
    var _ := stream.ReadLine();
    return More(data.value, stream.rest);
  }

  method ReadChunked(stream: Stream) returns (r: Option<bytes>)
    modifies stream
    ensures r.None? <==> Decode(old(stream.rest)).Failed?
    ensures r.Some? ==> Decode(old(stream.rest)) == Ok(r.value, stream.rest)
  {
    var parts: bytes := [];
    while true
      invariant Decode(old(stream.rest)) == Prepend(parts, Decode(stream.rest))
      decreases |stream.rest|
    {
      ghost var before := stream.rest;
      var turn := ReadChunk(stream);
      match turn {
        case Bad => return None;
        case Last(_) => return Some(parts);
        case More(data, rest) =>
          PrependTwice(parts, data, Decode(rest));
          parts := parts + data;
      }
    }
  }

  lemma {:induction false} PrependTwice(a: bytes, b: bytes, r: Result)
    ensures Prepend(a, Prepend(b, r)) == Prepend(a + b, r)
  {
    if r.Ok? {
      assert a + (b + r.body) == a + b + r.body;
    }
  }

  // ---- Chunked bodies, as section 7.1 of RFC 9112 writes them ----

  /** A size in hexadecimal digits, blanks and an extension after it, and the chunk's data. */
  datatype Chunk = Chunk(size: bytes, pad: bytes, extension: bytes, data: bytes)

  predicate IsHexText(s: bytes) { s != [] && forall b <- s :: IsHex(b) }

  predicate IsBlank(s: bytes) { forall b <- s :: b == SPACE || b == 9 }

  predicate IsExtension(s: bytes) { s == [] || (s[0] == SEMICOLON && LF !in s) }

  function HexValue(s: bytes, acc: nat): nat
    requires forall b <- s :: IsHex(b)
    decreases s
  {
    if s == [] then acc else HexValue(s[1..], acc * 16 + HexDigit(s[0]))
  }

  predicate IsSizeLine(c: Chunk) { IsHexText(c.size) && IsBlank(c.pad) && IsExtension(c.extension) }

  /** A chunk with data, whose size says how much. */
  predicate IsChunk(c: Chunk) { IsSizeLine(c) && c.data != [] && HexValue(c.size, 0) == |c.data| }

  /** The last chunk: a size of zeros, no data. */
  predicate IsLastChunk(c: Chunk) { IsSizeLine(c) && HexValue(c.size, 0) == 0 && c.data == [] }

  predicate IsTrailer(t: bytes) { LF !in t && Strip(t) != [] }

  const CRLF: bytes := [CR, LF]

  function SizeText(c: Chunk): bytes { c.size + c.pad + c.extension }

  function ChunkText(c: Chunk): bytes { SizeText(c) + CRLF + c.data + CRLF }

  function ChunkTexts(chunks: seq<Chunk>): bytes {
    if chunks == [] then [] else ChunkText(chunks[0]) + ChunkTexts(chunks[1..])
  }

  function TrailerTexts(trailers: seq<bytes>): bytes {
    if trailers == [] then CRLF else trailers[0] + CRLF + TrailerTexts(trailers[1..])
  }

  function EndText(last: Chunk, trailers: seq<bytes>): bytes { SizeText(last) + CRLF + TrailerTexts(trailers) }

  function Encoded(chunks: seq<Chunk>, last: Chunk, trailers: seq<bytes>): bytes {
    ChunkTexts(chunks) + EndText(last, trailers)
  }

  function Body(chunks: seq<Chunk>): bytes {
    if chunks == [] then [] else chunks[0].data + Body(chunks[1..])
  }

  ghost predicate WellFormed(chunks: seq<Chunk>, last: Chunk, trailers: seq<bytes>) {
    (forall c <- chunks :: IsChunk(c)) && IsLastChunk(last) && forall t <- trailers :: IsTrailer(t)
  }

  // ---- Lines and sizes ----

  lemma {:induction false} FirstLine(text: bytes, rest: bytes)
    requires LF !in text
    ensures LineLength(text + [LF] + rest) == |text| + 1
  {
    var s := text + [LF] + rest;
    if text != [] {
      assert s[1..] == text[1..] + [LF] + rest;
      FirstLine(text[1..], rest);
    }
  }

  lemma {:induction false} UnendedLine(text: bytes)
    requires LF !in text
    ensures LineLength(text) == |text|
  {
    if text != [] {
      UnendedLine(text[1..]);
    }
  }

  lemma {:induction false} DigitsAreHex(s: bytes, acc: nat, afterDigit: bool)
    requires forall b <- s :: IsHex(b)
    requires s != [] || afterDigit
    ensures Digits(s, acc, afterDigit) == Some(HexValue(s, acc))
    decreases s
  {
    if s != [] {
      assert IsHex(s[0]);
      DigitsAreHex(s[1..], acc * 16 + HexDigit(s[0]), true);
    }
  }

  lemma {:induction false} HexTextIsInt(s: bytes)
    requires IsHexText(s)
    ensures HexInt(s) == Some(HexValue(s, 0))
  {
    assert IsHex(s[0]);
    assert |s| >= 2 ==> IsHex(s[1]);
    DigitsAreHex(s, 0, false);
  }

  lemma {:induction false} BeforeSemicolonOf(a: bytes, b: bytes)
    requires SEMICOLON !in a && (b == [] || b[0] == SEMICOLON)
    ensures BeforeSemicolon(a + b) == a
  {
    if a == [] {
      assert a + b == b;
    } else {
      assert (a + b)[1..] == a[1..] + b;
      BeforeSemicolonOf(a[1..], b);
    }
  }

  lemma {:induction false} StripRightOf(a: bytes, b: bytes)
    requires a != [] && !IsSpace(a[|a| - 1]) && forall x <- b :: IsSpace(x)
    ensures StripRight(a + b) == a
  {
    if b == [] {
      assert a + b == a;
    } else {
      assert (a + b)[..|a + b| - 1] == a + b[..|b| - 1];
      StripRightOf(a, b[..|b| - 1]);
    }
  }

  /** The size line says its hexadecimal value, wherever the line is cut after the digits. */
  lemma {:induction false} SizeIsRead(size: bytes, pad: bytes, extension: bytes, ending: bytes)
    requires IsHexText(size) && IsBlank(pad) && IsExtension(extension)
    requires ending == [] || ending == [CR] || ending == CRLF
    ensures ChunkSize(size + pad + extension + ending) == Some(HexValue(size, 0))
  {
    var blank := if extension == [] then pad + ending else pad;
    var after := if extension == [] then [] else extension + ending;
    assert size + pad + extension + ending == (size + blank) + after;
    assert forall b <- size + blank :: b != SEMICOLON;
    BeforeSemicolonOf(size + blank, after);
    var text := size + blank;
    assert IsHex(size[0]) && text[0] == size[0] && IsHex(size[|size| - 1]);
    assert StripLeft(text) == text;
    StripRightOf(size, blank);
    HexTextIsInt(size);
  }

  // ---- The round trip ----

  /** The turn a size line takes, in terms of what follows the line. */
  lemma {:induction false} TurnOf(text: bytes, size: nat, after: bytes)
    requires LF !in text && ChunkSize(text + [LF]) == Some(size)
    ensures size == 0 ==> OneChunk(text + [LF] + after) == Last(AfterTrailers(after))
    ensures size > 0 ==>
              && var end := after[Taken(after, size)..];
              && OneChunk(text + [LF] + after) == More(after[..Taken(after, size)], end[LineLength(end)..])
  {
    var s := text + [LF] + after;
    FirstLine(text, after);
    assert s[..|text| + 1] == text + [LF] && s[|text| + 1..] == after;
  }

  lemma {:induction false} SizeLineOf(c: Chunk)
    requires IsSizeLine(c)
    ensures LF !in SizeText(c) + [CR]
    ensures ChunkSize(SizeText(c) + [CR] + [LF]) == Some(HexValue(c.size, 0))
  {
    NoLfInSize(c);
    SizeIsRead(c.size, c.pad, c.extension, CRLF);
    assert SizeText(c) + [CR] + [LF] == c.size + c.pad + c.extension + CRLF;
  }

  /** A whole chunk is taken off the front, whatever follows. */
  lemma {:induction false} ChunkIsRead(c: Chunk, rest: bytes)
    requires IsChunk(c)
    ensures Decode(ChunkText(c) + rest) == Prepend(c.data, Decode(rest))
  {
    var text := SizeText(c) + [CR];
    var end := [CR] + [LF] + rest;
    var after := c.data + end;
    assert ChunkText(c) + rest == text + [LF] + after;
    SizeLineOf(c);
    TurnOf(text, |c.data|, after);
    assert after[..|c.data|] == c.data && after[|c.data|..] == end;
    FirstLine([CR], rest);
    assert end[2..] == rest;
  }

  lemma {:induction false} NoLfInSize(c: Chunk)
    requires IsSizeLine(c)
    ensures LF !in SizeText(c)
  {
    assert forall b <- c.size :: b != LF;
  }

  lemma {:induction false} ChunksAreRead(chunks: seq<Chunk>, rest: bytes)
    requires forall c <- chunks :: IsChunk(c)
    ensures Decode(ChunkTexts(chunks) + rest) == Prepend(Body(chunks), Decode(rest))
  {
    if chunks == [] {
      assert ChunkTexts(chunks) + rest == rest;
      PrependTwice([], [], Decode(rest));
      assert Decode(rest).Ok? ==> [] + Decode(rest).body == Decode(rest).body;
    } else {
      var c, more := chunks[0], chunks[1..];
      assert ChunkTexts(chunks) + rest == ChunkText(c) + (ChunkTexts(more) + rest);
      ChunkIsRead(c, ChunkTexts(more) + rest);
      ChunksAreRead(more, rest);
      PrependTwice(c.data, Body(more), Decode(rest));
    }
  }

  lemma {:induction false} TrailersAreSkipped(trailers: seq<bytes>, rest: bytes)
    requires forall t <- trailers :: IsTrailer(t)
    ensures AfterTrailers(TrailerTexts(trailers) + rest) == rest
    decreases |trailers|
  {
    var s := TrailerTexts(trailers) + rest;
    if trailers == [] {
      assert s == [CR] + [LF] + rest;
      FirstLine([CR], rest);
      assert s[..2] == CRLF;
      StripsToNothing(CRLF);
    } else {
      var t, more := trailers[0], trailers[1..];
      var after := TrailerTexts(more) + rest;
      assert IsTrailer(t);
      assert s == (t + [CR]) + [LF] + after;
      FirstLine(t + [CR], after);
      assert s[..|t| + 2] == t + CRLF && s[|t| + 2..] == after;
      StripSome(t, CRLF);
      TrailersAreSkipped(more, rest);
    }
  }

  lemma {:induction false} StripLeftNothing(s: bytes)
    ensures StripLeft(s) == [] <==> forall b <- s :: IsSpace(b)
  {
    if s != [] {
      StripLeftNothing(s[1..]);
      assert s == [s[0]] + s[1..];
    }
  }

  lemma {:induction false} StripLeftHead(s: bytes)
    ensures StripLeft(s) != [] ==> !IsSpace(StripLeft(s)[0])
  {
    if s != [] {
      StripLeftHead(s[1..]);
    }
  }

  lemma {:induction false} StripRightKeeps(s: bytes)
    requires s != [] && !IsSpace(s[0])
    ensures StripRight(s) != []
  {
    if IsSpace(s[|s| - 1]) {
      assert |s| > 1;
      StripRightKeeps(s[..|s| - 1]);
    }
  }

  /** Stripping leaves nothing exactly when there is nothing but whitespace. */
  lemma {:induction false} StripsToNothing(s: bytes)
    ensures Strip(s) == [] <==> forall b <- s :: IsSpace(b)
  {
    StripLeftNothing(s);
    StripLeftHead(s);
    if StripLeft(s) != [] {
      StripRightKeeps(StripLeft(s));
    }
  }

  lemma {:induction false} StripSome(t: bytes, more: bytes)
    requires Strip(t) != []
    ensures Strip(t + more) != []
  {
    StripsToNothing(t);
    StripsToNothing(t + more);
  }

  lemma {:induction false} EndIsRead(last: Chunk, trailers: seq<bytes>, rest: bytes)
    requires IsLastChunk(last) && forall t <- trailers :: IsTrailer(t)
    ensures Decode(EndText(last, trailers) + rest) == Ok([], rest)
  {
    var text := SizeText(last) + [CR];
    var after := TrailerTexts(trailers) + rest;
    var s := EndText(last, trailers) + rest;
    assert s == text + [LF] + after;
    SizeLineOf(last);
    TurnOf(text, 0, after);
    TrailersAreSkipped(trailers, rest);
  }

  /** Every body, however it is cut into chunks and whatever extensions and trailers it carries, is
      returned whole, and the stream is left just past its final empty line. */
  lemma {:induction false} DecodeEncoded(chunks: seq<Chunk>, last: Chunk, trailers: seq<bytes>, rest: bytes)
    requires WellFormed(chunks, last, trailers)
    ensures Decode(Encoded(chunks, last, trailers) + rest) == Ok(Body(chunks), rest)
  {
    var end := EndText(last, trailers) + rest;
    assert Encoded(chunks, last, trailers) + rest == ChunkTexts(chunks) + end;
    ChunksAreRead(chunks, end);
    EndIsRead(last, trailers, rest);
    assert Body(chunks) + [] == Body(chunks);
  }

  // ---- A body cut off ----

  lemma {:induction false} HexValueGrows(s: bytes, acc: nat)
    requires forall b <- s :: IsHex(b)
    ensures acc > 0 ==> HexValue(s, acc) > 0
    decreases s
  {
    if s != [] {
      HexValueGrows(s[1..], acc * 16 + HexDigit(s[0]));
    }
  }

  /** How many zeros a size starts with. */
  function Zeros(size: bytes): (n: nat)
    ensures n <= |size|
  {
    if size == [] || size[0] != ZERO then 0 else 1 + Zeros(size[1..])
  }

  lemma {:induction false} ZerosAreNothing(s: bytes)
    requires forall b <- s :: IsHex(b)
    ensures HexValue(s, 0) == 0 <==> Zeros(s) == |s|
  {
    if s != [] {
      assert IsHex(s[0]);
      if s[0] == ZERO {
        ZerosAreNothing(s[1..]);
      } else {
        HexValueGrows(s[1..], HexDigit(s[0]));
      }
    }
  }

  lemma {:induction false} ZerosOfCut(size: bytes, k: nat)
    requires k <= |size|
    ensures Zeros(size[..k]) == if k < Zeros(size) then k else Zeros(size)
  {
    if k > 0 && size[0] == ZERO {
      assert size[..k][1..] == size[1..][..k - 1];
      ZerosOfCut(size[1..], k - 1);
    }
  }

  /** A size cut short says nothing exactly when the cut leaves zeros alone. */
  lemma {:induction false} CutSize(size: bytes, k: nat)
    requires IsHexText(size) && 0 < k <= |size|
    ensures IsHexText(size[..k])
    ensures HexValue(size[..k], 0) == 0 <==> k <= Zeros(size)
  {
    assert forall b <- size[..k] :: b in size;
    ZerosOfCut(size, k);
    ZerosAreNothing(size[..k]);
  }

  lemma {:induction false} CutBlank(pad: bytes, k: nat)
    requires IsBlank(pad) && k <= |pad|
    ensures IsBlank(pad[..k])
  {
    assert forall i | 0 <= i < k :: pad[i] in pad;
    assert forall b <- pad[..k] :: b in pad;
  }

  /** A size line cut before its LF says nothing exactly when the cut leaves zeros alone of its size. */
  lemma {:induction false} CutSizeLine(c: Chunk, n: nat)
    requires IsSizeLine(c) && 0 < n <= |SizeText(c)| + 1
    ensures var size := ChunkSize((SizeText(c) + [CR])[..n]);
            && size.Some? && size.value >= 0
            && (size.value == 0 <==> n <= Zeros(c.size) || Zeros(c.size) == |c.size|)
  {
    var cut := (SizeText(c) + [CR])[..n];
    var a, b := |c.size|, |c.size| + |c.pad|;
    CutSize(c.size, if n < a then n else a);
    assert c.size[..a] == c.size;
    if n <= a {
      assert cut == c.size[..n] + [] + [] + [];
      SizeIsRead(c.size[..n], [], [], []);
    } else if n <= b {
      assert cut == c.size + c.pad[..n - a] + [] + [];
      CutBlank(c.pad, n - a);
      SizeIsRead(c.size, c.pad[..n - a], [], []);
    } else if n <= |SizeText(c)| {
      assert cut == c.size + c.pad + c.extension[..n - b] + [];
      SizeIsRead(c.size, c.pad, c.extension[..n - b], []);
    } else {
      assert cut == c.size + c.pad + c.extension + [CR];
      SizeIsRead(c.size, c.pad, c.extension, [CR]);
    }
  }

  lemma {:induction false} UnendedTurn(text: bytes, size: nat)
    requires LF !in text && ChunkSize(text) == Some(size)
    ensures Decode(text) == if size == 0 then Ok([], []) else Failed
  {
    UnendedLine(text);
    assert text[..|text|] == text && text[|text|..] == [];
    NothingLeft();
  }

  lemma {:induction false} NothingLeft()
    ensures Decode([]) == Failed && AfterTrailers([]) == []
  {
    NoSizeInNothing();
    var none: bytes := [];
    assert none[..0] == [];
    StripsToNothing([]);
  }

  lemma {:induction false} LineOf(text: bytes, after: bytes)
    ensures text + CRLF + after == text + [CR] + [LF] + after
  {
  }

  lemma {:induction false} LineCut(text: bytes, after: bytes, n: nat)
    requires n <= |text + [LF] + after|
    ensures n <= |text| ==> (text + [LF] + after)[..n] == text[..n]
    ensures n > |text| ==> (text + [LF] + after)[..n] == text + [LF] + after[..n - |text| - 1]
  {
  }

  /** A chunk that isn't all there ends the capture of the body, unless what is there of its size is
      zeros, which is taken for the last chunk. */
  lemma {:induction false} CutChunk(c: Chunk, n: nat)
    requires IsChunk(c) && n < |ChunkText(c)|
    ensures Decode(ChunkText(c)[..n]) == if 0 < n <= Zeros(c.size) then Ok([], []) else Failed
  {
    var text, after := SizeText(c) + [CR], c.data + CRLF;
    LineOf(SizeText(c), after);
    Assoc(SizeText(c) + CRLF, c.data, CRLF);
    LineCut(text, after, n);
    if n == 0 {
      NothingLeft();
    } else if n <= |text| {
      CutChunkSize(c, n);
    } else {
      CutChunkData(c, n - |text| - 1);
    }
  }

  lemma {:induction false} CutChunkSize(c: Chunk, n: nat)
    requires IsChunk(c) && 0 < n <= |SizeText(c)| + 1
    ensures Decode((SizeText(c) + [CR])[..n]) == if n <= Zeros(c.size) then Ok([], []) else Failed
  {
    ZerosAreNothing(c.size);
    SizeLineOf(c);
    CutSizeLine(c, n);
    var cut := (SizeText(c) + [CR])[..n];
    UnendedTurn(cut, ChunkSize(cut).value);
  }

  lemma {:induction false} CutChunkData(c: Chunk, k: nat)
    requires IsChunk(c) && k < |c.data + CRLF|
    ensures Decode(SizeText(c) + [CR] + [LF] + (c.data + CRLF)[..k]) == Failed
  {
    var after := (c.data + CRLF)[..k];
    SizeLineOf(c);
    TurnOf(SizeText(c) + [CR], |c.data|, after);
    var end := after[Taken(after, |c.data|)..];
    assert end == [] || end == [CR];
    UnendedLine(end);
    assert end[|end|..] == [];
    NothingLeft();
  }

  lemma {:induction false} CutTrailers(trailers: seq<bytes>, n: nat)
    requires (forall t <- trailers :: IsTrailer(t)) && n <= |TrailerTexts(trailers)|
    ensures AfterTrailers(TrailerTexts(trailers)[..n]) == []
    decreases |trailers|
  {
    var cut := TrailerTexts(trailers)[..n];
    var first := if trailers == [] then [] else trailers[0];
    assert trailers != [] ==> IsTrailer(first);
    NothingLeft();
    if n <= |first| + 1 {
      assert cut == (first + [CR])[..n];
      assert LF !in first + [CR];
      UnendedLine(cut);
      assert cut[|cut|..] == [];
    } else if trailers == [] {
      TrailersAreSkipped([], []);
      assert cut == TrailerTexts([]) + [];
    } else {
      var rest := TrailerTexts(trailers[1..])[..n - |first| - 2];
      assert cut == (first + [CR]) + [LF] + rest;
      FirstLine(first + [CR], rest);
      assert cut[..|first| + 2] == first + CRLF && cut[|first| + 2..] == rest;
      StripSome(first, CRLF);
      CutTrailers(trailers[1..], n - |first| - 2);
    }
  }

  /** The end of a body is taken for the end as soon as its first byte is there. */
  lemma {:induction false} CutEnd(last: Chunk, trailers: seq<bytes>, n: nat)
    requires IsLastChunk(last) && (forall t <- trailers :: IsTrailer(t)) && 0 < n <= |EndText(last, trailers)|
    ensures Decode(EndText(last, trailers)[..n]) == Ok([], [])
  {
    var text, after := SizeText(last) + [CR], TrailerTexts(trailers);
    LineOf(SizeText(last), after);
    LineCut(text, after, n);
    if n <= |text| {
      CutLastSize(last, n);
    } else {
      SizeLineOf(last);
      TurnOf(text, 0, after[..n - |text| - 1]);
      CutTrailers(trailers, n - |text| - 1);
    }
  }

  lemma {:induction false} CutLastSize(last: Chunk, n: nat)
    requires IsLastChunk(last) && 0 < n <= |SizeText(last)| + 1
    ensures Decode((SizeText(last) + [CR])[..n]) == Ok([], [])
  {
    ZerosAreNothing(last.size);
    SizeLineOf(last);
    CutSizeLine(last, n);
    UnendedTurn((SizeText(last) + [CR])[..n], 0);
  }

  lemma {:induction false} CutConcat(a: bytes, b: bytes, n: nat)
    requires n <= |a + b|
    ensures n < |a| ==> (a + b)[..n] == a[..n]
    ensures n >= |a| ==> (a + b)[..n] == a + b[..n - |a|]
  {
  }

  lemma {:induction false} BodyConcat(a: seq<Chunk>, b: seq<Chunk>)
    ensures Body(a + b) == Body(a) + Body(b) && ChunkTexts(a + b) == ChunkTexts(a) + ChunkTexts(b)
  {
    if a == [] {
      assert a + b == b;
    } else {
      assert (a + b)[1..] == a[1..] + b;
      BodyConcat(a[1..], b);
    }
  }

  // ---- Where a body can be cut off ----

  /** The cut falls among the zeros the i-th chunk's size starts with, after one of them at least. */
  predicate AmongZeros(chunks: seq<Chunk>, i: nat, n: nat)
    requires i < |chunks|
  {
    var at := |ChunkTexts(chunks[..i])|;
    at < n <= at + Zeros(chunks[i].size)
  }

  ghost predicate AmongSomeZeros(chunks: seq<Chunk>, n: nat) {
    exists i | 0 <= i < |chunks| :: AmongZeros(chunks, i, n)
  }

  lemma {:induction false} AmongLaterZeros(chunks: seq<Chunk>, i: nat, n: nat)
    requires chunks != [] && i < |chunks| - 1
    ensures var size := |ChunkText(chunks[0])|;
            AmongZeros(chunks, i + 1, n) <==> n >= size && AmongZeros(chunks[1..], i, n - size)
  {
    assert chunks[..i + 1][1..] == chunks[1..][..i];
  }

  lemma {:induction false} AmongFirstZeros(chunks: seq<Chunk>, n: nat)
    requires chunks != []
    ensures AmongZeros(chunks, 0, n) <==> 0 < n <= Zeros(chunks[0].size)
  {
    assert chunks[..0] == [];
  }

  lemma {:induction false} NotAmongLater(chunks: seq<Chunk>, n: nat)
    requires chunks != [] && !AmongSomeZeros(chunks, n) && n >= |ChunkText(chunks[0])|
    ensures !AmongSomeZeros(chunks[1..], n - |ChunkText(chunks[0])|)
  {
    var later := n - |ChunkText(chunks[0])|;
    forall i | 0 <= i < |chunks[1..]|
      ensures !AmongZeros(chunks[1..], i, later)
    {
      AmongLaterZeros(chunks, i, n);
    }
  }

  lemma {:induction false} FirstAndRest(chunks: seq<Chunk>, last: Chunk, trailers: seq<bytes>)
    requires WellFormed(chunks, last, trailers) && chunks != []
    ensures IsChunk(chunks[0]) && WellFormed(chunks[1..], last, trailers)
  {
    assert chunks[0] in chunks && forall c <- chunks[1..] :: c in chunks;
  }

  /** Cut anywhere else, a body is read whole once its last chunk has begun, and refused before. */
  lemma {:induction false} CutElsewhere(chunks: seq<Chunk>, last: Chunk, trailers: seq<bytes>, n: nat)
    requires WellFormed(chunks, last, trailers) && n <= |Encoded(chunks, last, trailers)|
    requires !AmongSomeZeros(chunks, n)
    ensures Decode(Encoded(chunks, last, trailers)[..n])
         == if n > |ChunkTexts(chunks)| then Ok(Body(chunks), []) else Failed
    decreases |chunks|
  {
    if chunks == [] {
      CutEmptyBody(last, trailers, n);
    } else {
      var c, more := chunks[0], chunks[1..];
      FirstAndRest(chunks, last, trailers);
      Assoc(ChunkText(c), ChunkTexts(more), EndText(last, trailers));
      CutBehind(c, Encoded(more, last, trailers), n);
      AmongFirstZeros(chunks, n);
      if n >= |ChunkText(c)| {
        NotAmongLater(chunks, n);
        CutElsewhere(more, last, trailers, n - |ChunkText(c)|);
      }
    }
  }

  /** A cut within the first chunk, or behind it. */
  lemma {:induction false} CutBehind(c: Chunk, rest: bytes, n: nat)
    requires IsChunk(c) && n <= |ChunkText(c) + rest|
    ensures n < |ChunkText(c)| ==>
              Decode((ChunkText(c) + rest)[..n]) == if 0 < n <= Zeros(c.size) then Ok([], []) else Failed
    ensures n >= |ChunkText(c)| ==>
              Decode((ChunkText(c) + rest)[..n]) == Prepend(c.data, Decode(rest[..n - |ChunkText(c)|]))
  {
    CutConcat(ChunkText(c), rest, n);
    if n < |ChunkText(c)| {
      CutChunk(c, n);
    } else {
      ChunkIsRead(c, rest[..n - |ChunkText(c)|]);
    }
  }

  lemma {:induction false} CutEmptyBody(last: Chunk, trailers: seq<bytes>, n: nat)
    requires WellFormed([], last, trailers) && n <= |Encoded([], last, trailers)|
    ensures Decode(Encoded([], last, trailers)[..n]) == if n > 0 then Ok([], []) else Failed
  {
    assert Encoded([], last, trailers) == EndText(last, trailers);
    if n > 0 {
      CutEnd(last, trailers, n);
    } else {
      NothingLeft();
      assert Encoded([], last, trailers)[..n] == [];
    }
  }

  /** Cut among the zeros a chunk's size starts with, a body is read without that chunk and those
      after it. */
  lemma {:induction false} CutAmongZeros(chunks: seq<Chunk>, last: Chunk, trailers: seq<bytes>, i: nat, n: nat)
    requires WellFormed(chunks, last, trailers) && i < |chunks| && AmongZeros(chunks, i, n)
    ensures n < |ChunkTexts(chunks)|
    ensures Decode(Encoded(chunks, last, trailers)[..n]) == Ok(Body(chunks[..i]), [])
    ensures Body(chunks[..i]) < Body(chunks)
  {
    var before, k := ChunkTexts(chunks[..i]), n - |ChunkTexts(chunks[..i])|;
    var c := chunks[i];
    assert IsChunk(c);
    assert chunks == chunks[..i] + chunks[i..];
    BodyConcat(chunks[..i], chunks[i..]);
    Assoc(before, ChunkTexts(chunks[i..]), EndText(last, trailers));
    CutConcat(before, ChunkTexts(chunks[i..]) + EndText(last, trailers), n);
    CutConcat(ChunkText(c), ChunkTexts(chunks[i..][1..]), k);
    CutConcat(ChunkTexts(chunks[i..]), EndText(last, trailers), k);
    ChunksAreRead(chunks[..i], ChunkText(c)[..k]);
    CutChunk(c, k);
    assert Body(chunks[..i]) + [] == Body(chunks[..i]);
  }

  /** The peer may close anywhere: the decoder returns the whole body or fails. */
  ghost predicate VerbatimOrNotAtAll(chunks: seq<Chunk>, last: Chunk, trailers: seq<bytes>) {
    var all := Encoded(chunks, last, trailers);
    forall n | 0 <= n <= |all| :: Decode(all[..n]).Ok? ==> Decode(all[..n]).body == Body(chunks)
  }

  predicate ZeroPadded(c: Chunk) { c.size != [] && c.size[0] == ZERO }

  /** A body cut off by the peer is never recorded short, exactly when no chunk's size is written
      with a leading zero. */
  lemma {:induction false} CutBodiesExactly(chunks: seq<Chunk>, last: Chunk, trailers: seq<bytes>)
    requires WellFormed(chunks, last, trailers)
    ensures VerbatimOrNotAtAll(chunks, last, trailers) <==> forall c <- chunks :: !ZeroPadded(c)
  {
    if forall c <- chunks :: !ZeroPadded(c) {
      assert forall i | 0 <= i < |chunks| :: !ZeroPadded(chunks[i]);
      forall n | 0 <= n <= |Encoded(chunks, last, trailers)|
        ensures var r := Decode(Encoded(chunks, last, trailers)[..n]); r.Ok? ==> r.body == Body(chunks)
      {
        CutElsewhere(chunks, last, trailers, n);
      }
    } else {
      var i :| 0 <= i < |chunks| && ZeroPadded(chunks[i]);
      CutAmongZeros(chunks, last, trailers, i, |ChunkTexts(chunks[..i])| + 1);
    }
  }
}
