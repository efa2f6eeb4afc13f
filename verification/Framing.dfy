/**
 The stream splitters of `fuzz/fuzz_targets/stream_framing.rs`: lines ended by LF, frames behind a
 4-byte length, and the generator that cuts a stream into pushes.
 */
module Framing {
  import opened Bytes

  datatype Reason = Oversize | Truncated
  datatype Outcome = Frame(data: bytes) | Err(reason: Reason, fatal: bool) | Closed

  /** The outcomes a longer stream can't take back: frames and oversize errors. */
  predicate Settled(o: Outcome) { o.Frame? || (o.Err? && o.reason.Oversize?) }

  function Kept(out: seq<Outcome>): seq<Outcome> {
    if out == [] then [] else (if Settled(out[0]) then [out[0]] else []) + Kept(out[1..])
  }

  predicate IsPrefix<T(==)>(a: seq<T>, b: seq<T>) { a <= b }

  lemma {:induction false} KeptCons(o: Outcome, out: seq<Outcome>)
    ensures Kept([o] + out) == (if Settled(o) then [o] else []) + Kept(out)
  {
    assert ([o] + out)[1..] == out;
  }

  // ---- Lines ----

  function StripCr(piece: bytes): bytes {
    if piece != [] && piece[|piece| - 1] == CR then piece[..|piece| - 1] else piece
  }

  /** What one line yields: an oversize error, nothing for a blank line, or a frame. */
  function LineOutcome(piece: bytes, bound: nat, fatal: bool): seq<Outcome> {
    if |piece| > bound then [Err(Oversize, fatal)]
    else if StripCr(piece) == [] then []
    else [Frame(StripCr(piece))]
  }

  /** The ASCII whitespace `u8::is_ascii_whitespace` takes: space, tab, LF, form feed and CR. */
  predicate IsWhitespace(b: byte) { b in {9, 10, 12, 13, 32} }

  predicate IsBlank(rest: bytes) { forall b <- rest :: IsWhitespace(b) }

  /** What the bytes after the last LF yield at the close. */
  function LineTail(rest: bytes, bound: nat, fatal: bool): seq<Outcome> {
    if |rest| > bound then [Err(Oversize, fatal)] + if fatal then [] else [Closed]
    else (if IsBlank(rest) then [] else [Err(Truncated, true)]) + [Closed]
  }

  /** The outcomes of the pieces between line feeds: a line for each, and the tail. */
  function PieceLines(pieces: seq<bytes>, bound: nat, fatal: bool): seq<Outcome>
    requires pieces != []
  {
    if |pieces| == 1 then LineTail(pieces[0], bound, fatal)
    else if |pieces[0]| > bound && fatal then [Err(Oversize, fatal)]
    else LineOutcome(pieces[0], bound, fatal) + PieceLines(pieces[1..], bound, fatal)
  }

  /** The whole stream's outcomes, by the plain split on LF. */
  function Lines(stream: bytes, bound: nat, fatal: bool): seq<Outcome> {
    PieceLines(Split(stream, LF), bound, fatal)
  }

  /** Where `b` first is in `s`, or `|s|`. */
  function Position(s: bytes, b: byte): (at: nat)
    ensures at <= |s|
  {
    if s == [] || s[0] == b then 0 else 1 + Position(s[1..], b)
  }

  lemma {:induction false} SplitAtPosition(s: bytes, b: byte)
    ensures var at := Position(s, b);
            && (at == |s| ==> Split(s, b) == [s])
            && (at < |s| ==> Split(s, b) == [s[..at]] + Split(s[at + 1..], b))
  {
    if s != [] {
      var at, rest := Position(s, b), s[1..];
      if s[0] == b {
        assert s[..0] == [];
      } else {
        SplitAtPosition(rest, b);
        HeadTail(s);
        if at < |s| {
          assert s[..at] == [s[0]] + rest[..at - 1] && s[at + 1..] == rest[at..];
          TailOf([rest[..at - 1]], Split(rest[at..], b));
        }
      }
    }
  }

  lemma {:induction false} PieceLinesCons(piece: bytes, more: seq<bytes>, bound: nat, fatal: bool)
    requires more != []
    ensures PieceLines([piece] + more, bound, fatal)
         == if |piece| > bound && fatal then [Err(Oversize, fatal)]
            else LineOutcome(piece, bound, fatal) + PieceLines(more, bound, fatal)
  {
    TailOf([piece], more);
  }

  /** One line off the stream. */
  lemma {:induction false} LinesStep(stream: bytes, piece: bytes, rest: bytes, bound: nat, fatal: bool)
    requires Split(stream, LF) == [piece] + Split(rest, LF)
    ensures Lines(stream, bound, fatal)
         == if |piece| > bound && fatal then [Err(Oversize, fatal)]
            else LineOutcome(piece, bound, fatal) + Lines(rest, bound, fatal)
  {
    PieceLinesCons(piece, Split(rest, LF), bound, fatal);
  }

  lemma {:induction false} LinesEnd(rest: bytes, bound: nat, fatal: bool)
    requires Position(rest, LF) == |rest|
    ensures Lines(rest, bound, fatal) == LineTail(rest, bound, fatal)
  {
    SplitAtPosition(rest, LF);
  }

  /** The loop over a shrinking rest does what the split says. */
  method LinesModel(stream: bytes, bound: nat, fatal: bool) returns (out: seq<Outcome>)
    ensures out == Lines(stream, bound, fatal)
  {
    out := [];
    var rest := stream;
    ghost var all, later := Lines(stream, bound, fatal), Lines(rest, bound, fatal);
    while Position(rest, LF) < |rest|
      invariant later == Lines(rest, bound, fatal)
      invariant all == out + later
      decreases |rest|
    {
      var at := Position(rest, LF);
      SplitAtPosition(rest, LF);
      LinesStep(rest, rest[..at], rest[at + 1..], bound, fatal);
      Assoc(out, LineOutcome(rest[..at], bound, fatal), Lines(rest[at + 1..], bound, fatal));
      out := PushLine(out, rest[..at], bound, fatal);
      if at > bound && fatal {
        return;
      }
      rest := rest[at + 1..];
      later := Lines(rest, bound, fatal);
    }
    LinesEnd(rest, bound, fatal);
    out := CloseLines(out, rest, bound, fatal);
  }

  method PushLine(before: seq<Outcome>, piece: bytes, bound: nat, fatal: bool) returns (out: seq<Outcome>)
    ensures out == before + LineOutcome(piece, bound, fatal)
    ensures if |piece| > bound then out == before + [Err(Oversize, fatal)]
            else if piece == [] || piece == [13] then out == before
            else if piece[|piece| - 1] == 13 then out == before + [Frame(piece[..|piece| - 1])]
            else out == before + [Frame(piece)]
  {
    out := before;
    if |piece| > bound {
      return out + [Err(Oversize, fatal)];
    }
    var line := StripCr(piece);
    if line != [] {
      out := out + [Frame(line)];
    }
  }

  /** The close, after the last LF. */
  method CloseLines(before: seq<Outcome>, rest: bytes, bound: nat, fatal: bool) returns (out: seq<Outcome>)
    ensures out == before + LineTail(rest, bound, fatal)
    ensures if |rest| > bound && fatal then out == before + [Err(Oversize, true)]
            else if |rest| > bound then out == before + [Err(Oversize, false), Closed]
            else if forall b <- rest :: b == 9 || b == 10 || b == 12 || b == 13 || b == 32 then out == before + [Closed]
            else out == before + [Err(Truncated, true), Closed]
  {
    out := before;
    if |rest| > bound {
      out := out + [Err(Oversize, fatal)];
      if fatal {
        return;
      }
    } else if !IsBlank(rest) {
      out := out + [Err(Truncated, true)];
    }
    out := out + [Closed];
  }

  // ---- Lines, cut anywhere ----

  lemma {:induction false} KeptConcat(a: seq<Outcome>, b: seq<Outcome>)
    ensures Kept(a + b) == Kept(a) + Kept(b)
  {
    if a == [] {
      assert a + b == b;
    } else {
      TailOf(a, b);
      KeptConcat(a[1..], b);
      Assoc(if Settled(a[0]) then [a[0]] else [], Kept(a[1..]), Kept(b));
    }
  }

  lemma {:induction false} KeptLineTail(rest: bytes, bound: nat, fatal: bool)
    ensures Kept(LineTail(rest, bound, fatal)) == if |rest| > bound then [Err(Oversize, fatal)] else []
  {
    KeptCons(Err(Oversize, fatal), []);
    KeptCons(Err(Oversize, fatal), [Closed]);
    KeptCons(Err(Truncated, true), [Closed]);
    KeptCons(Closed, []);
    assert [Closed] + [] == [Closed];
    assert [Err(Oversize, fatal)] + [] == [Err(Oversize, fatal)];
    assert [] + [Closed] == [Closed];
  }

  lemma {:induction false} KeptOversize(piece: bytes, bound: nat, fatal: bool)
    requires |piece| > bound
    ensures Kept(LineOutcome(piece, bound, fatal)) == [Err(Oversize, fatal)]
  {
    KeptCons(Err(Oversize, fatal), []);
    assert [Err(Oversize, fatal)] + [] == [Err(Oversize, fatal)];
  }

  /** `cut` is `whole` ended inside its piece `|cut| - 1`. */
  ghost predicate EndsWithin(cut: seq<bytes>, whole: seq<bytes>) {
    && 0 < |cut| <= |whole| && cut[|cut| - 1] <= whole[|cut| - 1]
    && forall i | 0 <= i < |cut| - 1 :: cut[i] == whole[i]
  }

  /** Cutting a text cuts its pieces. */
  lemma {:induction false} SplitCut(s: bytes, n: nat, sep: byte)
    requires n <= |s|
    ensures EndsWithin(Split(s[..n], sep), Split(s, sep))
  {
    if n == 0 {
      assert s[..0] == [];
    } else {
      var cut, rest := s[..n], s[1..];
      assert cut[1..] == rest[..n - 1] && cut[0] == s[0];
      SplitCut(rest, n - 1, sep);
    }
  }

  /** A first piece cut short is oversize only if the whole one is. */
  lemma {:induction false} CutFirstPiece(piece: bytes, whole: seq<bytes>, bound: nat, fatal: bool)
    requires whole != [] && piece <= whole[0]
    ensures IsPrefix(Kept(LineTail(piece, bound, fatal)), Kept(PieceLines(whole, bound, fatal)))
  {
    KeptLineTail(piece, bound, fatal);
    if |piece| > bound {
      if |whole| == 1 {
        KeptLineTail(whole[0], bound, fatal);
      } else {
        KeptOversize(whole[0], bound, fatal);
        KeptConcat(LineOutcome(whole[0], bound, fatal), PieceLines(whole[1..], bound, fatal));
      }
    }
  }

  lemma {:induction false} PiecesCut(cut: seq<bytes>, whole: seq<bytes>, bound: nat, fatal: bool)
    requires EndsWithin(cut, whole)
    ensures IsPrefix(Kept(PieceLines(cut, bound, fatal)), Kept(PieceLines(whole, bound, fatal)))
    decreases |cut|
  {
    if |cut| == 1 {
      CutFirstPiece(cut[0], whole, bound, fatal);
    } else if !(|cut[0]| > bound && fatal) {
      PiecesCut(cut[1..], whole[1..], bound, fatal);
      var line := LineOutcome(cut[0], bound, fatal);
      KeptConcat(line, PieceLines(cut[1..], bound, fatal));
      KeptConcat(line, PieceLines(whole[1..], bound, fatal));
    }
  }

  /** Cutting the stream anywhere keeps a prefix of its frames and oversize errors. */
  lemma {:induction false} LinesCut(stream: bytes, n: nat, bound: nat, fatal: bool)
    requires n <= |stream|
    ensures IsPrefix(Kept(Lines(stream[..n], bound, fatal)), Kept(Lines(stream, bound, fatal)))
  {
    SplitCut(stream, n, LF);
    PiecesCut(Split(stream[..n], LF), Split(stream, LF), bound, fatal);
  }

  // ---- The fatal rule ----

  /** Everything up to and including the first oversize error, which is marked fatal. */
  function UpToOversize(out: seq<Outcome>): seq<Outcome> {
    if out == [] then []
    else if out[0] == Err(Oversize, false) then [Err(Oversize, true)]
    else [out[0]] + UpToOversize(out[1..])
  }

  lemma {:induction false} TailUpToOversize(rest: bytes, bound: nat)
    ensures LineTail(rest, bound, true) == UpToOversize(LineTail(rest, bound, false))
  {
    var t := LineTail(rest, bound, false);
    assert UpToOversize([Closed]) == [Closed] by {
      assert [Closed][1..] == [];
    }
    if |t| == 2 {
      assert t[1..] == [Closed];
    } else {
      assert t == [Closed];
    }
  }

  lemma {:induction false} LineUpToOversize(piece: bytes, more: seq<Outcome>, bound: nat)
    ensures UpToOversize(LineOutcome(piece, bound, false) + more)
         == if |piece| > bound then [Err(Oversize, true)]
            else LineOutcome(piece, bound, true) + UpToOversize(more)
  {
    if |piece| <= bound && StripCr(piece) == [] {
      assert [] + more == more && [] + UpToOversize(more) == UpToOversize(more);
    } else {
      ConsUpToOversize(LineOutcome(piece, bound, false)[0], more);
    }
  }

  lemma {:induction false} ConsUpToOversize(o: Outcome, more: seq<Outcome>)
    ensures UpToOversize([o] + more)
         == if o == Err(Oversize, false) then [Err(Oversize, true)] else [o] + UpToOversize(more)
  {
    assert ([o] + more)[1..] == more;
  }

  lemma {:induction false} PiecesUpToOversize(pieces: seq<bytes>, bound: nat)
    requires pieces != []
    ensures PieceLines(pieces, bound, true) == UpToOversize(PieceLines(pieces, bound, false))
  {
    if |pieces| == 1 {
      TailUpToOversize(pieces[0], bound);
    } else {
      PiecesUpToOversize(pieces[1..], bound);
      LineUpToOversize(pieces[0], PieceLines(pieces[1..], bound, false), bound);
    }
  }

  /** Under the fatal rule the splitter says what it says under the draining rule, and stops at
      the first oversize line. */
  lemma {:induction false} FatalStopsAtOversize(stream: bytes, bound: nat)
    ensures Lines(stream, bound, true) == UpToOversize(Lines(stream, bound, false))
  {
    PiecesUpToOversize(Split(stream, LF), bound);
  }

  // ---- Lines, written out ----

  datatype Line = Line(text: bytes, crlf: bool)

  /** A line that survives the framing: not blank, no LF, no CR that would be taken for the
      ending's, and within the bound with its CR. */
  predicate Sendable(l: Line, bound: nat) {
    && l.text != [] && LF !in l.text
    && (l.crlf || l.text[|l.text| - 1] != CR)
    && |l.text| + (if l.crlf then 1 else 0) <= bound
  }

  /** The line up to its LF. */
  function UpToLf(l: Line): bytes { if l.crlf then l.text + [CR] else l.text }

  function Sent(lines: seq<Line>): bytes {
    if lines == [] then [] else UpToLf(lines[0]) + [LF] + Sent(lines[1..])
  }

  function FramesOf(lines: seq<Line>): seq<Outcome> {
    if lines == [] then [] else [Frame(lines[0].text)] + FramesOf(lines[1..])
  }

  lemma {:induction false} FirstSent(l: Line, after: bytes, bound: nat, fatal: bool)
    requires Sendable(l, bound)
    ensures Lines(UpToLf(l) + [LF] + after, bound, fatal) == [Frame(l.text)] + Lines(after, bound, fatal)
  {
    assert l.crlf ==> StripCr(l.text + [CR]) == l.text;
    SplitFirst(UpToLf(l), LF, after);
    PieceLinesCons(UpToLf(l), Split(after, LF), bound, fatal);
  }

  /** Each sendable line comes back as its own frame, whatever follows. */
  lemma {:induction false} LinesRoundTrip(lines: seq<Line>, rest: bytes, bound: nat, fatal: bool)
    requires forall l <- lines :: Sendable(l, bound)
    ensures Lines(Sent(lines) + rest, bound, fatal) == FramesOf(lines) + Lines(rest, bound, fatal)
    decreases |lines|
  {
    if lines == [] {
      assert Sent(lines) + rest == rest;
      assert FramesOf(lines) + Lines(rest, bound, fatal) == Lines(rest, bound, fatal);
    } else {
      var l, more := lines[0], lines[1..];
      LinesRoundTrip(more, rest, bound, fatal);
      FirstSent(l, Sent(more) + rest, bound, fatal);
      Assoc(UpToLf(l) + [LF], Sent(more), rest);
      Assoc([Frame(l.text)], FramesOf(more), Lines(rest, bound, fatal));
    }
  }

  // ---- Length prefixes ----

  function Length(p: bytes, bigEndian: bool): nat
    requires |p| == 4
  {
    if bigEndian then p[0] as int * 0x100_0000 + p[1] as int * 0x1_0000 + p[2] as int * 0x100 + p[3]
    else p[3] as int * 0x100_0000 + p[2] as int * 0x1_0000 + p[1] as int * 0x100 + p[0]
  }

  /** The front of the stream: not a whole frame, a length over the bound, or a frame. */
  datatype Front = Partial | TooLong | Whole(data: bytes, rest: bytes)

  function NextFrame(stream: bytes, bound: nat, bigEndian: bool): (f: Front)
    ensures f.Whole? ==> |f.rest| < |stream|
  {
    if |stream| < 4 then Partial
    else
      var len := Length(stream[..4], bigEndian);
      if len > bound then TooLong
      else if |stream| < 4 + len then Partial
      else Whole(stream[4..4 + len], stream[4 + len..])
  }

  function LengthPrefixed(stream: bytes, bound: nat, bigEndian: bool): seq<Outcome>
    decreases |stream|
  {
    match NextFrame(stream, bound, bigEndian)
    case Partial => (if stream == [] then [] else [Err(Truncated, true)]) + [Closed]
    case TooLong => [Err(Oversize, true)]
    case Whole(data, rest) => [Frame(data)] + LengthPrefixed(rest, bound, bigEndian)
  }

  method LengthPrefixedModel(stream: bytes, bound: nat, bigEndian: bool) returns (out: seq<Outcome>)
    ensures out == LengthPrefixed(stream, bound, bigEndian)
  {
    out := [];
    var rest := stream;
    while |rest| >= 4
      invariant LengthPrefixed(stream, bound, bigEndian) == out + LengthPrefixed(rest, bound, bigEndian)
      decreases |rest|
    {
      var prefix, body := rest[..4], rest[4..];
      var len := Length(prefix, bigEndian);
      if len > bound {
        return out + [Err(Oversize, true)];
      }
      if |body| < len {
        break;
      }
      assert rest[4..4 + len] == body[..len] && rest[4 + len..] == body[len..];
      Assoc(out, [Frame(body[..len])], LengthPrefixed(body[len..], bound, bigEndian));
      out := out + [Frame(body[..len])];
      rest := body[len..];
    }
    if rest != [] {
      out := out + [Err(Truncated, true)];
    }
    out := out + [Closed];
  }

  /** The front of a cut stream is partial, or the whole stream's. */
  lemma {:induction false} FrontCut(stream: bytes, n: nat, bound: nat, bigEndian: bool)
    requires n <= |stream|
    ensures var cut, whole := NextFrame(stream[..n], bound, bigEndian), NextFrame(stream, bound, bigEndian);
            && (cut.TooLong? ==> whole.TooLong?)
            && (cut.Whole? ==> && whole.Whole? && cut.data == whole.data
                               && |cut.rest| <= |whole.rest| && cut.rest == whole.rest[..|cut.rest|])
  {
    if n >= 4 {
      assert stream[..n][..4] == stream[..4];
      var len := Length(stream[..4], bigEndian);
      if n >= 4 + len {
        CutSlices(stream, n, 4, 4 + len);
      }
    }
  }

  lemma {:induction false} CutSlices(s: bytes, n: nat, i: nat, j: nat)
    requires i <= j <= n <= |s|
    ensures s[..n][i..j] == s[i..j] && s[..n][j..] == s[j..][..n - j]
  {
  }

  /** Cutting the stream anywhere keeps a prefix of its frames and oversize errors. */
  lemma {:induction false} LengthPrefixedCut(stream: bytes, n: nat, bound: nat, bigEndian: bool)
    requires n <= |stream|
    ensures IsPrefix(Kept(LengthPrefixed(stream[..n], bound, bigEndian)),
                     Kept(LengthPrefixed(stream, bound, bigEndian)))
    decreases |stream|
  {
    var cut, whole := NextFrame(stream[..n], bound, bigEndian), NextFrame(stream, bound, bigEndian);
    NothingKeptAtClose();
    FrontCut(stream, n, bound, bigEndian);
    if cut.Whole? {
      LengthPrefixedCut(whole.rest, |cut.rest|, bound, bigEndian);
      KeptCons(Frame(whole.data), LengthPrefixed(whole.rest, bound, bigEndian));
      KeptCons(Frame(whole.data), LengthPrefixed(cut.rest, bound, bigEndian));
    }
  }

  lemma {:induction false} NothingKeptAtClose()
    ensures Kept([Err(Truncated, true)] + [Closed]) == [] && Kept([] + [Closed]) == []
  {
    KeptCons(Err(Truncated, true), [Closed]);
    KeptCons(Closed, []);
    assert [Closed] + [] == [Closed] && [] + [Closed] == [Closed];
  }

  function Prefix(len: nat, bigEndian: bool): bytes
    requires len < 0x1_0000_0000
  {
    var a, b, c, d := len / 0x100_0000, len / 0x1_0000 % 0x100, len / 0x100 % 0x100, len % 0x100;
    if bigEndian then [a, b, c, d] else [d, c, b, a]
  }

  function Encoded(frames: seq<bytes>, bigEndian: bool): bytes
    requires forall f <- frames :: |f| < 0x1_0000_0000
  {
    if frames == [] then []
    else Prefix(|frames[0]|, bigEndian) + frames[0] + Encoded(frames[1..], bigEndian)
  }

  function AllFrames(frames: seq<bytes>): seq<Outcome> {
    if frames == [] then [] else [Frame(frames[0])] + AllFrames(frames[1..])
  }

  /** Every frame written behind its length comes back whole, whatever its bytes and whatever
      follows. */
  lemma {:induction false} LengthPrefixedRoundTrip(frames: seq<bytes>, rest: bytes, bound: nat, bigEndian: bool)
    requires forall f <- frames :: |f| < 0x1_0000_0000 && |f| <= bound
    ensures LengthPrefixed(Encoded(frames, bigEndian) + rest, bound, bigEndian)
         == AllFrames(frames) + LengthPrefixed(rest, bound, bigEndian)
  {
    if frames == [] {
      assert Encoded(frames, bigEndian) + rest == rest;
    } else {
      var f, more := frames[0], frames[1..];
      assert f in frames && |f| <= bound;
      var after := Encoded(more, bigEndian) + rest;
      Assoc(Prefix(|f|, bigEndian) + f, Encoded(more, bigEndian), rest);
      FirstFrame(f, after, bound, bigEndian);
      LengthPrefixedRoundTrip(more, rest, bound, bigEndian);
      Assoc([Frame(f)], AllFrames(more), LengthPrefixed(rest, bound, bigEndian));
    }
  }

  lemma {:induction false} FirstFrame(f: bytes, after: bytes, bound: nat, bigEndian: bool)
    requires |f| < 0x1_0000_0000 && |f| <= bound
    ensures LengthPrefixed(Prefix(|f|, bigEndian) + f + after, bound, bigEndian)
         == [Frame(f)] + LengthPrefixed(after, bound, bigEndian)
  {
    var p := Prefix(|f|, bigEndian);
    var stream := p + f + after;
    LengthOfPrefix(|f|, bigEndian);
    assert stream[..4] == p && stream[4..4 + |f|] == f && stream[4 + |f|..] == after;
  }

  lemma {:induction false} LengthOfPrefix(len: nat, bigEndian: bool)
    requires len < 0x1_0000_0000
    ensures Length(Prefix(len, bigEndian), bigEndian) == len
  {
    FourDigits(len);
  }

  lemma FourDigits(len: nat)
    ensures len == len / 0x100_0000 * 0x100_0000 + len / 0x1_0000 % 0x100 * 0x1_0000
                   + len / 0x100 % 0x100 * 0x100 + len % 0x100
  {
    assert len == len / 0x100 * 0x100 + len % 0x100;
    assert len / 0x100 == len / 0x1_0000 * 0x100 + len / 0x100 % 0x100;
    assert len / 0x1_0000 == len / 0x100_0000 * 0x100 + len / 0x1_0000 % 0x100;
  }

  // ---- Push sizes ----

  const U64: nat := 0x1_0000_0000_0000_0000

  type u64 = n: nat | n < 0x1_0000_0000_0000_0000

  /** The generator's next state, wrapping at 64 bits. */
  function NextState(state: u64): u64 {
    (state * 6364136223846793005 + 1442695040888963407) % U64
  }

  /** `seed * 0x9E37_79B9_7F4A_7C15 | 1`, wrapping. */
  function FirstState(seed: byte): u64 {
    var product := seed * 0x9E37_79B9_7F4A_7C15 % U64;
    if product % 2 == 0 then product + 1 else product
  }

  /** How many bytes a roll asks for. */
  function PushSize(roll: nat, lastEmpty: bool): nat {
    if roll % 16 == 0 && !lastEmpty then 0
    else if roll % 16 == 1 then 1 + roll / 16 % 8192
    else 1 + roll / 16 % 64
  }

  /** The front of `rest`, as long as a roll of the next state asks for and no longer than it is. */
  predicate IsNextPush(state: u64, rest: bytes, lastEmpty: bool, next: u64, chunk: bytes) {
    && next == (state * 6364136223846793005 + 1442695040888963407) % 0x1_0000_0000_0000_0000
    && var roll := next / 0x2_0000_0000;
    && var size := if roll % 16 == 0 && !lastEmpty then 0
                   else 1 + roll / 16 % (if roll % 16 == 1 then 8192 else 64);
    && chunk <= rest && (|chunk| == size || (chunk == rest && |rest| < size))
  }

  /** Every push is the generator's next: the states from the first on, and what is left before
      each. */
  ghost predicate Generated(out: seq<bytes>, states: seq<u64>, left: seq<bytes>) {
    && |states| == |left| == |out| + 1
    && forall i | 0 <= i < |out| :: GeneratedAt(out, states, left, i)
  }

  ghost predicate GeneratedAt(out: seq<bytes>, states: seq<u64>, left: seq<bytes>, i: int)
    requires 0 <= i < |out| && |states| == |left| == |out| + 1
  {
    && IsNextPush(states[i], left[i], i > 0 && out[i - 1] == [], states[i + 1], out[i])
    && left[i] == out[i] + left[i + 1]
  }

  lemma GeneratedMore(out: seq<bytes>, states: seq<u64>, left: seq<bytes>, chunk: bytes, state: u64, rest: bytes)
    requires Generated(out, states, left) && left[|out|] == chunk + rest
    requires IsNextPush(states[|out|], left[|out|], out != [] && out[|out| - 1] == [], state, chunk)
    ensures Generated(out + [chunk], states + [state], left + [rest])
  {
    forall i | 0 <= i < |out|
      ensures GeneratedAt(out + [chunk], states + [state], left + [rest], i)
    {
      assert GeneratedAt(out, states, left, i);
    }
  }

  /** One turn of the generator: the next state, and the bytes it takes off `rest`. */
  method NextPush(state: u64, rest: bytes, lastEmpty: bool) returns (next: u64, chunk: bytes)
    requires rest != []
    ensures IsNextPush(state, rest, lastEmpty, next, chunk)
    ensures lastEmpty ==> chunk != []
  {
    next := NextState(state);
    var size := PushSize(next / 0x2_0000_0000, lastEmpty);
    chunk := rest[..if size < |rest| then size else |rest|];
  }

  ghost predicate NoTwoEmpty(chunks: seq<bytes>) {
    forall i | 0 < i < |chunks| :: chunks[i - 1] != [] || chunks[i] != []
  }

  lemma {:induction false} NoTwoEmptyAppend(chunks: seq<bytes>, chunk: bytes)
    requires NoTwoEmpty(chunks) && (chunks == [] || chunks[|chunks| - 1] != [] || chunk != [])
    ensures NoTwoEmpty(chunks + [chunk])
  {
  }

  /** The generator ends, cuts the stream without losing a byte, never pushes nothing twice in a
      row or at the end, pushes at most twice per byte, and each push is as long as the seed's
      states say. */
  method Chunks(stream: bytes, seed: byte) returns (out: seq<bytes>, ghost states: seq<u64>, ghost left: seq<bytes>)
    ensures Flatten(out) == stream
    ensures NoTwoEmpty(out)
    ensures out != [] ==> out[|out| - 1] != []
    ensures |out| <= 2 * |stream|
    ensures Generated(out, states, left) && left[0] == stream && left[|out|] == []
    ensures var product := seed * 0x9E37_79B9_7F4A_7C15 % 0x1_0000_0000_0000_0000;
            states[0] == product + (1 - product % 2)
  {
    var state := FirstState(seed);
    out := [];
    var rest := stream;
    var lastEmpty := false;
    ghost var bytesOut := 0;
    states, left := [state], [stream];
    while rest != []
      invariant Flatten(out) + rest == stream && bytesOut == |stream| - |rest|
      invariant NoTwoEmpty(out)
      invariant lastEmpty <==> out != [] && out[|out| - 1] == []
      invariant lastEmpty ==> rest != []
      invariant Generated(out, states, left) && states[|out|] == state && left[|out|] == rest
      invariant states[0] == FirstState(seed) && left[0] == stream
      invariant |out| <= 2 * bytesOut + if lastEmpty then 1 else 0
      decreases |rest|, !lastEmpty
    {
      var chunk;
      state, chunk := NextPush(state, rest, lastEmpty);
      FlattenAppend(out, chunk);
      assert chunk + rest[|chunk|..] == rest;
      Assoc(Flatten(out), chunk, rest[|chunk|..]);
      NoTwoEmptyAppend(out, chunk);
      GeneratedMore(out, states, left, chunk, state, rest[|chunk|..]);
      states, left := states + [state], left + [rest[|chunk|..]];
      bytesOut := bytesOut + |chunk|;
      out, rest := out + [chunk], rest[|chunk|..];
      lastEmpty := chunk == [];
    }
  }
}
