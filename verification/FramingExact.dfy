/**
 What the splitters of `fuzz/fuzz_targets/stream_framing.rs` make of a stream, a piece at a time and
 byte by byte: together the laws below fix every outcome of every stream.
 */
module FramingExact {
  import opened Bytes
  import opened Framing

  // ---- Lines ----

  /** A stream's first line: over the bound, blank, ended by CR LF, or ended by LF. */
  lemma LineOff(piece: bytes, rest: bytes, bound: nat, fatal: bool)
    requires 10 !in piece
    ensures var more := Lines(rest, bound, fatal);
            Lines(piece + [10] + rest, bound, fatal)
            == if |piece| > bound then if fatal then [Err(Oversize, true)] else [Err(Oversize, false)] + more
               else if piece == [] || piece == [13] then more
               else if piece[|piece| - 1] == 13 then [Frame(piece[..|piece| - 1])] + more
               else [Frame(piece)] + more
  {
    SplitFirst(piece, LF, rest);
    LinesStep(piece + [LF] + rest, piece, rest, bound, fatal);
    assert [] + Lines(rest, bound, fatal) == Lines(rest, bound, fatal);
  }

  /** What is left after the last LF: over the bound, blank, or an unended line. */
  lemma LastPiece(rest: bytes, bound: nat, fatal: bool)
    requires 10 !in rest
    ensures Lines(rest, bound, fatal)
         == if |rest| > bound then if fatal then [Err(Oversize, true)] else [Err(Oversize, false), Closed]
            else if forall b <- rest :: b == 9 || b == 12 || b == 13 || b == 32 then [Closed]
            else [Err(Truncated, true), Closed]
  {
    SplitFree(rest, LF);
    assert IsBlank(rest) <==> forall b <- rest :: b == 9 || b == 12 || b == 13 || b == 32;
  }

  // ---- Length prefixes ----

  /** The length four bytes spell, the most significant first or last. */
  predicate Spells(prefix: bytes, bigEndian: bool, n: nat) {
    && |prefix| == 4
    && var b := if bigEndian then prefix else [prefix[3], prefix[2], prefix[1], prefix[0]];
    n == 16777216 * b[0] as int + 65536 * b[1] as int + 256 * b[2] as int + b[3] as int
  }

  lemma SpelledLength(prefix: bytes, bigEndian: bool, n: nat)
    requires Spells(prefix, bigEndian, n)
    ensures Length(prefix, bigEndian) == n
  {
  }

  /** A length within the bound and as many bytes behind it are a frame. */
  lemma FrameOff(prefix: bytes, data: bytes, rest: bytes, bound: nat, bigEndian: bool)
    requires Spells(prefix, bigEndian, |data|) && |data| <= bound
    ensures LengthPrefixed(prefix + data + rest, bound, bigEndian)
         == [Frame(data)] + LengthPrefixed(rest, bound, bigEndian)
  {
    var stream := prefix + data + rest;
    SpelledLength(prefix, bigEndian, |data|);
    assert stream[..4] == prefix && stream[4..4 + |data|] == data && stream[4 + |data|..] == rest;
  }

  /** A length over the bound ends the stream at once. */
  lemma OversizeEnds(prefix: bytes, n: nat, rest: bytes, bound: nat, bigEndian: bool)
    requires Spells(prefix, bigEndian, n) && n > bound
    ensures LengthPrefixed(prefix + rest, bound, bigEndian) == [Err(Oversize, true)]
  {
    SpelledLength(prefix, bigEndian, n);
    assert (prefix + rest)[..4] == prefix;
  }

  /** A frame the stream ends in is truncated. */
  lemma UnfinishedFrame(prefix: bytes, n: nat, rest: bytes, bound: nat, bigEndian: bool)
    requires Spells(prefix, bigEndian, n) && |rest| < n <= bound
    ensures LengthPrefixed(prefix + rest, bound, bigEndian) == [Err(Truncated, true), Closed]
  {
    SpelledLength(prefix, bigEndian, n);
    assert (prefix + rest)[..4] == prefix;
  }

  /** So is a length cut short; an empty rest is a clean close. */
  lemma UnfinishedLength(rest: bytes, bound: nat, bigEndian: bool)
    requires |rest| < 4
    ensures LengthPrefixed(rest, bound, bigEndian) == if rest == [] then [Closed] else [Err(Truncated, true), Closed]
  {
    assert [] + [Closed] == [Closed];
  }
}
