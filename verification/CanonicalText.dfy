/**
 The canonical request of `crates/logit-aws/src/sigv4.rs`, spelled out: its lines one by one, what a
 reader decodes from its query line, the order of its parameters byte by byte, and the letters of
 its header names. Bytes are given by their numbers: 10 is LF, 38 `&`, 47 `/`, 58 `:`, 61 `=`.
 */
module CanonicalText {
  import opened Bytes
  import opened Sorting
  import opened CanonicalRequest
  import opened SignedHeaders
  import UriEncoding

  // ---- Order ----

  /** `a` is not after `b`: it is a prefix of it, or the smaller byte is `a`'s where they first
      differ. */
  ghost predicate NotAfter(a: bytes, b: bytes) {
    a <= b || exists k :: 0 <= k < |a| && k < |b| && a[..k] == b[..k] && a[k] < b[k]
  }

  lemma {:induction false} LeqIsByteOrder(a: bytes, b: bytes)
    ensures Leq(a, b) <==> NotAfter(a, b)
  {
    if a != [] && b != [] && a[0] == b[0] {
      LeqIsByteOrder(a[1..], b[1..]);
      HeadTail(a);
      HeadTail(b);
      if NotAfter(a[1..], b[1..]) {
        TailsInOrder(a, b);
      } else {
        TailsOutOfOrder(a, b);
      }
    } else if a != [] && b != [] && a[0] < b[0] {
      assert a[..0] == b[..0];
    } else if a != [] && b != [] {
      FrontsDiffer(a, b);
    }
  }

  lemma FrontsDiffer(a: bytes, b: bytes)
    requires a != [] && b != [] && a[0] > b[0]
    ensures !NotAfter(a, b)
  {
    forall k | 0 < k <= |a| && k <= |b|
      ensures a[..k] != b[..k]
    {
      assert a[..k][0] == a[0] && b[..k][0] == b[0];
    }
  }

  lemma PrefixTail(a: bytes, b: bytes)
    requires a != [] && b != []
    ensures a <= b ==> a[1..] <= b[1..]
  {
    if a <= b {
      assert a[1..] == b[..|a|][1..] == b[1..][..|a| - 1];
    }
  }

  lemma TailsInOrder(a: bytes, b: bytes)
    requires a != [] && b != [] && a[0] == b[0] && NotAfter(a[1..], b[1..])
    ensures NotAfter(a, b)
  {
    if !(a[1..] <= b[1..]) {
      var k :| 0 <= k < |a[1..]| && k < |b[1..]| && a[1..][..k] == b[1..][..k] && a[1..][k] < b[1..][k];
      assert a[..k + 1] == [a[0]] + a[1..][..k] && b[..k + 1] == [b[0]] + b[1..][..k];
      assert a[k + 1] < b[k + 1];
    }
  }

  lemma TailsOutOfOrder(a: bytes, b: bytes)
    requires a != [] && b != [] && a[0] == b[0] && !NotAfter(a[1..], b[1..])
    ensures !NotAfter(a, b)
  {
    forall k | 0 <= k < |a| && k < |b| && a[..k] == b[..k]
      ensures a[k] >= b[k]
    {
      if k > 0 {
        assert a[1..][..k - 1] == a[..k][1..] && b[1..][..k - 1] == b[..k][1..];
        assert a[1..][k - 1] >= b[1..][k - 1];
      }
    }
    PrefixTail(a, b);
  }

  // ---- Encoded text ----

  function UpperDigit(n: nat): byte
    requires n < 16
  {
    [48, 49, 50, 51, 52, 53, 54, 55, 56, 57, 65, 66, 67, 68, 69, 70][n]
  }

  /** One byte: letters, digits, `-`, `.`, `_` and `~` as they are, any other as `%` and two digits. */
  lemma EncodedByte(b: byte)
    ensures UriEncoding.Encode([b])
         == if b in {45, 46, 95, 126} || 48 <= b <= 57 || 65 <= b <= 90 || 97 <= b <= 122 then [b]
            else [37, UpperDigit(b / 16), UpperDigit(b % 16)]
  {
    assert [b][1..] == [];
    assert UriEncoding.Encode([b]) == UriEncoding.EncodeByte(b) + [];
  }

  /** A text is encoded byte by byte. */
  lemma {:induction false} EncodedApart(a: bytes, b: bytes)
    ensures UriEncoding.Encode(a + b) == UriEncoding.Encode(a) + UriEncoding.Encode(b)
  {
    if a == [] {
      assert a + b == b;
    } else {
      TailOf(a, b);
      EncodedApart(a[1..], b);
      Assoc(UriEncoding.EncodeByte(a[0]), UriEncoding.Encode(a[1..]), UriEncoding.Encode(b));
    }
  }

  // ---- The query line ----

  /** A `name=value` piece taken apart at its one `=`. */
  function Sides(piece: bytes): Pair {
    var parts := Split(piece, 61);
    if |parts| == 2 then (parts[0], parts[1]) else ([], [])
  }

  function Decoded(pieces: seq<bytes>): (ps: seq<Pair>)
    ensures |ps| == |pieces|
  {
    seq(|pieces|, i requires 0 <= i < |pieces| =>
      (UriEncoding.Decode(Sides(pieces[i]).0), UriEncoding.Decode(Sides(pieces[i]).1)))
  }

  /** Empty without parameters. Otherwise pieces between `&`s, each with one `=`, that decode to the
      parameters as name and value, in the order of the encoded names, and of the encoded values
      where the names agree. */
  ghost predicate IsQueryLine(line: bytes, query: seq<Pair>) {
    var pieces := Split(line, 38);
    if query == [] then line == []
    else
      && (forall i | 0 <= i < |pieces| :: |Split(pieces[i], 61)| == 2)
      && multiset(Decoded(pieces)) == multiset(query)
      && (forall i, j | 0 <= i < j < |pieces| ::
            && NotAfter(Sides(pieces[i]).0, Sides(pieces[j]).0)
            && (Sides(pieces[i]).0 == Sides(pieces[j]).0 ==> NotAfter(Sides(pieces[i]).1, Sides(pieces[j]).1)))
  }

  lemma PieceSides(p: Pair)
    requires Clean(p)
    ensures Split(p.0 + [61] + p.1, 61) == [p.0, p.1]
    ensures Sides(p.0 + [61] + p.1) == p
  {
    SplitFirst(p.0, 61, p.1);
    SplitFree(p.1, 61);
    assert [p.0] + [p.1] == [p.0, p.1];
  }

  lemma ShownSides(p: Pair)
    requires Clean(p)
    ensures |Split(ShowPair(p), 61)| == 2 && Sides(ShowPair(p)) == p
  {
    PieceSides(p);
  }

  lemma QueryDecodes(query: seq<Pair>)
    ensures var sorted := SortedQuery(query);
            |sorted| == |query| && multiset(Map(sorted, DecodePair)) == multiset(query)
  {
    var encoded := Map(query, EncodePair);
    SortSorts(encoded);
    assert |multiset(SortedQuery(query))| == |multiset(encoded)|;
    MapPermutes(SortedQuery(query), encoded, DecodePair);
    DecodedQuery(query);
  }

  lemma QueryPieces(query: seq<Pair>)
    requires query != []
    ensures var pieces, sorted := Split(CanonicalQuery(query), 38), SortedQuery(query);
            && |pieces| == |sorted|
            && (forall i | 0 <= i < |sorted| :: |Split(pieces[i], 61)| == 2 && Sides(pieces[i]) == sorted[i])
            && Decoded(pieces) == Map(sorted, DecodePair)
  {
    var sorted := SortedQuery(query);
    QueryDecodes(query);
    SortedQueryClean(query);
    ShownClean(sorted);
    SplitJoin(ShowPairs(sorted), AMPERSAND);
    forall i | 0 <= i < |sorted|
      ensures |Split(ShowPairs(sorted)[i], 61)| == 2 && Sides(ShowPairs(sorted)[i]) == sorted[i]
    {
      assert sorted[i] in sorted;
      ShownSides(sorted[i]);
    }
  }

  /** The query line is one. */
  lemma QueryLine(query: seq<Pair>)
    ensures IsQueryLine(CanonicalQuery(query), query)
  {
    QueryDecodes(query);
    if query == [] {
      assert SortedQuery(query) == [] && ShowPairs([]) == [];
    } else {
      QueryPieces(query);
      QueryInOrder(query);
    }
  }

  lemma QueryInOrder(query: seq<Pair>)
    ensures var sorted := SortedQuery(query);
            forall i, j | 0 <= i < j < |sorted| ::
              && NotAfter(sorted[i].0, sorted[j].0)
              && (sorted[i].0 == sorted[j].0 ==> NotAfter(sorted[i].1, sorted[j].1))
  {
    var sorted := SortedQuery(query);
    SortSorts(Map(query, EncodePair));
    forall i, j | 0 <= i < j < |sorted|
      ensures NotAfter(sorted[i].0, sorted[j].0)
      ensures sorted[i].0 == sorted[j].0 ==> NotAfter(sorted[i].1, sorted[j].1)
    {
      PairsInOrder(sorted[i], sorted[j]);
    }
  }

  lemma PairsInOrder(p: Pair, q: Pair)
    requires PairLeq(p, q)
    ensures NotAfter(p.0, q.0) && (p.0 == q.0 ==> NotAfter(p.1, q.1))
  {
    LeqIsByteOrder(p.0, q.0);
    LeqIsByteOrder(p.1, q.1);
  }

  // ---- The path line ----

  /** The path's segments, each encoded, between the same slashes. */
  ghost predicate IsPathLine(line: bytes, path: bytes) {
    var parts, segments := Split(line, 47), Split(path, 47);
    |parts| == |segments| && forall i | 0 <= i < |parts| :: parts[i] == UriEncoding.Encode(segments[i])
  }

  lemma PathLine(path: bytes)
    ensures IsPathLine(CanonicalPath(path), path)
  {
    var segments := Split(path, SLASH);
    EncodedParts(segments);
    SplitJoin(EncodeAll(segments), SLASH);
  }

  // ---- Header names ----

  lemma {:induction false} LowerByte(s: bytes, i: nat)
    requires i < |s|
    ensures Lower(s)[i] == if 65 <= s[i] <= 90 then s[i] + 32 else s[i]
  {
    if i > 0 {
      LowerByte(s[1..], i - 1);
    }
  }

  lemma {:induction false} NamedLower(headers: seq<Pair>, name: bytes)
    requires ValuesOf(headers, name) != []
    ensures forall b <- name :: !(65 <= b <= 90)
  {
    var last := |headers| - 1;
    if Lower(headers[last].0) == name {
      forall i | 0 <= i < |name|
        ensures !(65 <= name[i] <= 90)
      {
        LowerByte(headers[last].0, i);
      }
    } else {
      NamedLower(headers[..last], name);
    }
  }

  /** No folded name holds an upper-case letter. */
  lemma FoldedLower(headers: seq<Pair>)
    ensures forall p <- CanonicalHeaders(headers) :: forall b <- p.0 :: !(65 <= b <= 90)
  {
    HeadersFolded(headers);
    forall p <- CanonicalHeaders(headers)
      ensures forall b <- p.0 :: !(65 <= b <= 90)
    {
      assert FoldsTo(headers, p);
      NamedLower(headers, p.0);
    }
  }

  /** The folded names ascend by their bytes. */
  lemma NamesAscend(headers: seq<Pair>)
    ensures var h := CanonicalHeaders(headers);
            forall i, j | 0 <= i < j < |h| :: h[i].0 != h[j].0 && NotAfter(h[i].0, h[j].0)
  {
    HeadersFolded(headers);
    var h := CanonicalHeaders(headers);
    forall i, j | 0 <= i < j < |h|
      ensures NotAfter(h[i].0, h[j].0)
    {
      LeqIsByteOrder(h[i].0, h[j].0);
    }
  }

  // ---- Header values ----

  /** White space, whole characters of it. */
  predicate IsWhiteRun(s: bytes)
    decreases |s|
  {
    s == [] || (WhiteLength(s) > 0 && IsWhiteRun(s[WhiteLength(s)..]))
  }

  /** Words between stretches of white space. */
  function Interleaved(words: seq<bytes>, whites: seq<bytes>): bytes
    requires |whites| == |words| + 1
  {
    if words == [] then whites[0] else whites[0] + words[0] + Interleaved(words[1..], whites[1..])
  }

  ghost predicate Divides(words: seq<bytes>, whites: seq<bytes>) {
    && |whites| == |words| + 1 && (forall w <- whites :: IsWhiteRun(w))
    && forall i | 0 < i < |whites| - 1 :: whites[i] != []
  }

  lemma WhiteFront(s: bytes, more: bytes)
    requires WhiteLength(s) > 0 && IsWhiteRun(more)
    ensures IsWhiteRun(s[..WhiteLength(s)] + more)
  {
    var n := WhiteLength(s);
    assert s == s[..n] + s[n..];
    assert WhiteLength(s[..n]) == n;
    WhiteExtends(s[..n], more);
    assert (s[..n] + more)[n..] == more;
  }

  lemma {:induction false} WordsCover(s: bytes, word: bytes) returns (whites: seq<bytes>)
    ensures var words := WordsFrom(s, word);
            && Divides(words, whites) && Interleaved(words, whites) == word + s
            && (word != [] ==> words != [] && whites[0] == [])
    decreases |s|
  {
    if s == [] {
      whites := if word == [] then [[]] else [[], []];
      assert word + s == word;
      assert word != [] ==> [word][1..] == [] && whites[1..] == [[]];
    } else if WhiteLength(s) > 0 {
      var n := WhiteLength(s);
      var more := WordsCover(s[n..], []);
      WhiteFront(s, more[0]);
      whites := WhiteCovered(s, word, more);
    } else {
      whites := WordsCover(s[1..], word + [s[0]]);
      assert word + [s[0]] + s[1..] == word + s;
    }
  }

  /** White space in front of the rest, after the word so far. */
  lemma WhiteCovered(s: bytes, word: bytes, more: seq<bytes>) returns (whites: seq<bytes>)
    requires WhiteLength(s) > 0 && Divides(WordsFrom(s[WhiteLength(s)..], []), more)
    requires Interleaved(WordsFrom(s[WhiteLength(s)..], []), more) == [] + s[WhiteLength(s)..]
    requires IsWhiteRun(s[..WhiteLength(s)] + more[0])
    ensures var words := WordsFrom(s, word);
            && Divides(words, whites) && Interleaved(words, whites) == word + s
            && (word != [] ==> words != [] && whites[0] == [])
  {
    var n := WhiteLength(s);
    var rest := WordsFrom(s[n..], []);
    assert s == s[..n] + s[n..] && [] + s[n..] == s[n..];
    InFront(rest, more, s[..n]);
    MoreWhite(rest, more, s[..n]);
    whites := [s[..n] + more[0]] + more[1..];
    if word == [] {
      assert WordsFrom(s, word) == [] + rest == rest;
      assert word + s == s;
    } else {
      WordInFront(word, rest, whites);
      whites := [[]] + whites;
      assert WordsFrom(s, word) == [word] + rest;
    }
  }

  lemma MoreWhite(words: seq<bytes>, whites: seq<bytes>, front: bytes)
    requires Divides(words, whites) && front != [] && IsWhiteRun(front + whites[0])
    ensures Divides(words, [front + whites[0]] + whites[1..])
  {
  }

  lemma WordInFront(word: bytes, words: seq<bytes>, whites: seq<bytes>)
    requires Divides(words, whites) && whites[0] != []
    ensures Divides([word] + words, [[]] + whites)
    ensures Interleaved([word] + words, [[]] + whites) == word + Interleaved(words, whites)
  {
    assert ([word] + words)[1..] == words && ([[]] + whites)[1..] == whites;
    assert [] + word == word;
  }

  lemma InFront(words: seq<bytes>, whites: seq<bytes>, front: bytes)
    requires |whites| == |words| + 1
    ensures Interleaved(words, [front + whites[0]] + whites[1..]) == front + Interleaved(words, whites)
  {
    var joined := [front + whites[0]] + whites[1..];
    assert joined[1..] == whites[1..];
    if words != [] {
      Assoc(front, whites[0], words[0]);
      Assoc(front, whites[0] + words[0], Interleaved(words[1..], whites[1..]));
    }
  }

  /** A value's words are what stands between its stretches of white space, in order, and nothing of
      it is left out. */
  lemma WordsExactly(value: bytes) returns (whites: seq<bytes>)
    ensures Divides(Words(value), whites) && Interleaved(Words(value), whites) == value
    ensures forall w <- Words(value) :: w != [] && NoWhite(w)
  {
    whites := WordsCover(value, []);
    WordsAreWords(value, []);
    assert [] + value == value;
  }

  // ---- The whole text ----

  function HeaderTexts(headers: seq<Pair>): (lines: seq<bytes>)
    ensures |lines| == |headers|
    ensures forall i | 0 <= i < |lines| :: lines[i] == headers[i].0 + [58] + headers[i].1
  {
    seq(|headers|, i requires 0 <= i < |headers| => headers[i].0 + [58] + headers[i].1)
  }

  lemma {:induction false} HeaderLinesSplit(headers: seq<Pair>, more: bytes)
    requires forall p <- headers :: LineClean(p)
    ensures Split(HeaderLines(headers) + [LF] + more, LF) == HeaderTexts(headers) + [[]] + Split(more, LF)
  {
    if headers == [] {
      SplitFirst([], LF, more);
      assert HeaderLines(headers) + [LF] + more == [] + [LF] + more;
      assert HeaderTexts(headers) + [[]] == [[]];
    } else {
      var rest := HeaderLines(headers[1..]) + [LF] + more;
      FirstHeaderLine(headers, more);
      OneLine(headers[0]);
      SplitFirst(LineFor(headers[0]), LF, rest);
      assert forall p <- headers[1..] :: p in headers;
      HeaderLinesSplit(headers[1..], more);
      assert HeaderTexts(headers) == [LineFor(headers[0])] + HeaderTexts(headers[1..]);
      Assoc([LineFor(headers[0])], HeaderTexts(headers[1..]), [[]]);
      Assoc([LineFor(headers[0])], HeaderTexts(headers[1..]) + [[]], Split(more, LF));
    }
  }

  /** The lines after the query's: one for each folded header, an empty one, the names joined by `;`,
      and the payload hash. */
  lemma TailLines(headers: seq<Pair>, payloadHash: bytes)
    requires NamesClean(headers)
    ensures var h := CanonicalHeaders(headers);
            Split(SignedTail(headers, payloadHash), LF)
              == HeaderTexts(h) + [[]] + ([Join(NamesOf(h), [59])] + Split(payloadHash, LF))
  {
    var h := CanonicalHeaders(headers);
    var names := Join(NamesOf(h), [SEMICOLON]);
    FoldedClean(headers);
    TailRegroup(HeaderLines(h), names, payloadHash);
    HeaderLinesSplit(h, names + [LF] + payloadHash);
    forall n <- NamesOf(h)
      ensures LF !in n
    {
      var i :| 0 <= i < |h| && NamesOf(h)[i] == n;
      assert h[i] in h;
    }
    JoinWithout(NamesOf(h), SEMICOLON, LF);
    SplitFirst(names, LF, payloadHash);
  }

  /** The canonical request, line by line. */
  lemma TextLines(r: Request)
    requires LF !in r.verb && NamesClean(r.headers)
    ensures var lines, h := Split(Canonical(r), 10), CanonicalHeaders(r.headers);
            && |lines| >= 3 && lines[0] == r.verb && IsPathLine(lines[1], r.path) && IsQueryLine(lines[2], r.query)
            && lines[3..] == HeaderTexts(h) + [[]] + ([Join(NamesOf(h), [59])] + Split(r.payloadHash, 10))
  {
    var path, query, tail := CanonicalPath(r.path), CanonicalQuery(r.query), SignedTail(r.headers, r.payloadHash);
    Regroup(r.verb, path, query, tail);
    NoLineBreaks(r);
    SplitFirst(r.verb, LF, path + [LF] + (query + [LF] + tail));
    SplitFirst(path, LF, query + [LF] + tail);
    SplitFirst(query, LF, tail);
    PathLine(r.path);
    QueryLine(r.query);
    TailLines(r.headers, r.payloadHash);
    ThreeInFront(r.verb, path, query, Split(tail, LF));
  }

  lemma ThreeInFront(a: bytes, b: bytes, c: bytes, rest: seq<bytes>)
    ensures var all := [a] + ([b] + ([c] + rest));
            |all| >= 3 && all[0] == a && all[1] == b && all[2] == c && all[3..] == rest
  {
  }
}
