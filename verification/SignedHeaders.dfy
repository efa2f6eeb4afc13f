/**
 What SigV4's canonical request, from `crates/logit-aws/src/sigv4.rs`, says of the headers: its
 header lines and names can be taken apart again, so the canonical request fixes the folded headers
 and the payload hash as well.
 */
module SignedHeaders {
  import opened Bytes
  import opened Sorting
  import opened CanonicalRequest

  /** Names as HTTP has them, section 5.1 of RFC 9110: no colon and no line feed, among others. */
  predicate NamesClean(headers: seq<Pair>) {
    forall h <- headers :: COLON !in h.0 && LF !in h.0
  }

  predicate LineClean(p: Pair) { COLON !in p.0 && LF !in p.0 && LF !in p.1 }

  // ---- Values hold no line feed ----

  lemma {:induction false} NoLineFeed(w: bytes)
    requires NoWhite(w)
    ensures LF !in w
  {
    forall i | 0 <= i < |w|
      ensures w[i] != LF
    {
      assert WhiteLength(w[i..]) == 0 && w[i..][0] == w[i];
    }
  }

  lemma {:induction false} CollapsedClean(value: bytes)
    ensures LF !in Collapse(value)
  {
    WordsAreWords(value, []);
    forall w <- Words(value)
      ensures LF !in w
    {
      NoLineFeed(w);
    }
    JoinWithout(Words(value), SPACE, LF);
  }

  lemma {:induction false} ValuesClean(headers: seq<Pair>, name: bytes)
    ensures forall v <- ValuesOf(headers, name) :: LF !in v
  {
    if headers != [] {
      var last := |headers| - 1;
      ValuesClean(headers[..last], name);
      CollapsedClean(headers[last].1);
    }
  }

  // ---- Nor do names ----

  lemma {:induction false} LowerClean(name: bytes)
    requires COLON !in name && LF !in name
    ensures COLON !in Lower(name) && LF !in Lower(name)
  {
    if name != [] {
      assert name[0] in name && forall b <- name[1..] :: b in name;
      LowerClean(name[1..]);
    }
  }

  lemma {:induction false} NamedByHeader(headers: seq<Pair>, name: bytes)
    requires NamesClean(headers) && ValuesOf(headers, name) != []
    ensures COLON !in name && LF !in name
  {
    var last := |headers| - 1;
    assert headers[last] in headers;
    if Lower(headers[last].0) == name {
      LowerClean(headers[last].0);
    } else {
      assert forall h <- headers[..last] :: h in headers;
      NamedByHeader(headers[..last], name);
    }
  }

  lemma {:induction false} FoldedClean(headers: seq<Pair>)
    requires NamesClean(headers)
    ensures forall p <- CanonicalHeaders(headers) :: LineClean(p)
  {
    HeadersFolded(headers);
    forall p <- CanonicalHeaders(headers)
      ensures LineClean(p)
    {
      assert FoldsTo(headers, p);
      NamedByHeader(headers, p.0);
      ValuesClean(headers, p.0);
      JoinWithout(ValuesOf(headers, p.0), COMMA, LF);
    }
  }

  // ---- Header lines can be taken apart ----

  /** A header's line, without its end. */
  function LineFor(p: Pair): bytes { p.0 + [COLON] + p.1 }

  lemma {:induction false} FirstHeaderLine(headers: seq<Pair>, more: bytes)
    requires headers != []
    ensures HeaderLines(headers) + [LF] + more
         == LineFor(headers[0]) + [LF] + (HeaderLines(headers[1..]) + [LF] + more)
  {
  }

  lemma {:induction false} NoHeaderLine(headers: seq<Pair>, more: bytes)
    requires headers == []
    ensures HeaderLines(headers) + [LF] + more == [] + [LF] + more
  {
  }

  lemma {:induction false} OneLine(p: Pair)
    requires LineClean(p)
    ensures LF !in LineFor(p) && LineFor(p) != []
  {
  }

  lemma {:induction false} HeaderLinesInjective(a: seq<Pair>, b: seq<Pair>, x: bytes, y: bytes)
    requires (forall p <- a :: LineClean(p)) && (forall p <- b :: LineClean(p))
    requires HeaderLines(a) + [LF] + x == HeaderLines(b) + [LF] + y
    ensures a == b && x == y
    decreases |a|
  {
    var l, r := if a == [] then [] else LineFor(a[0]), if b == [] then [] else LineFor(b[0]);
    var after := if a == [] then x else HeaderLines(a[1..]) + [LF] + x;
    var after' := if b == [] then y else HeaderLines(b[1..]) + [LF] + y;
    FirstOf(a, x);
    FirstOf(b, y);
    FirstSeparatorUnique(l, LF, after, r, after');
    if a != [] && b != [] {
      assert LineClean(a[0]) && LineClean(b[0]);
      FirstSeparatorUnique(a[0].0, COLON, a[0].1, b[0].0, b[0].1);
      assert (forall p <- a[1..] :: p in a) && (forall p <- b[1..] :: p in b);
      HeaderLinesInjective(a[1..], b[1..], x, y);
      HeadTail(a);
      HeadTail(b);
    }
  }

  lemma {:induction false} FirstOf(a: seq<Pair>, x: bytes)
    requires forall p <- a :: LineClean(p)
    ensures var l := if a == [] then [] else LineFor(a[0]);
            var after := if a == [] then x else HeaderLines(a[1..]) + [LF] + x;
            && HeaderLines(a) + [LF] + x == l + [LF] + after && LF !in l && (l == [] <==> a == [])
  {
    if a == [] {
      NoHeaderLine(a, x);
    } else {
      FirstHeaderLine(a, x);
      OneLine(a[0]);
    }
  }

  // ---- The whole request ----

  lemma {:induction false} TailDetermined(a: seq<Pair>, h: bytes, b: seq<Pair>, h': bytes)
    requires NamesClean(a) && NamesClean(b)
    ensures SignedTail(a, h) == SignedTail(b, h') <==> CanonicalHeaders(a) == CanonicalHeaders(b) && h == h'
  {
    if SignedTail(a, h) == SignedTail(b, h') {
      var ca, cb := CanonicalHeaders(a), CanonicalHeaders(b);
      var na, nb := Join(NamesOf(ca), [SEMICOLON]), Join(NamesOf(cb), [SEMICOLON]);
      FoldedClean(a);
      FoldedClean(b);
      TailRegroup(HeaderLines(ca), na, h);
      TailRegroup(HeaderLines(cb), nb, h');
      HeaderLinesInjective(ca, cb, na + [LF] + h, nb + [LF] + h');
      SameRest(na + [LF], h, h');
    }
  }

  lemma {:induction false} TailRegroup(lines: bytes, names: bytes, h: bytes)
    ensures lines + [LF] + names + [LF] + h == lines + [LF] + (names + [LF] + h)
  {
  }

  lemma {:induction false} SameRest(a: bytes, x: bytes, y: bytes)
    requires a + x == a + y
    ensures x == y
  {
    assert x == (a + x)[|a|..] && y == (a + y)[|a|..];
  }

  /** Two requests have the same canonical text exactly when they have the same method, path and
      payload hash, the same parameters up to order, and the same folded headers. */
  lemma {:induction false} RequestDetermined(a: Request, b: Request)
    requires LF !in a.verb && LF !in b.verb && NamesClean(a.headers) && NamesClean(b.headers)
    ensures Canonical(a) == Canonical(b)
       <==> && a.verb == b.verb && a.path == b.path && a.payloadHash == b.payloadHash
            && multiset(a.query) == multiset(b.query)
            && CanonicalHeaders(a.headers) == CanonicalHeaders(b.headers)
  {
    CanonicalDetermines(a, b);
    TailDetermined(a.headers, a.payloadHash, b.headers, b.payloadHash);
  }

  /** A single header folds to its name and its collapsed value. */
  lemma {:induction false} OneHeader(name: bytes, value: bytes)
    ensures CanonicalHeaders([(name, value)]) == [(Lower(name), Collapse(value))]
  {
    var headers := [(name, value)];
    assert headers[..0] == [];
    assert Fold(headers) == [(Lower(name), Collapse(value))];
    var folded := Fold(headers);
    assert folded[1..] == [];
    assert Sort(folded) == Insert(folded[0], Sort([]));
  }
}
