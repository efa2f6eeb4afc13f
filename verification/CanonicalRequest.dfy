/**
 SigV4's canonical request, from `crates/logit-aws/src/sigv4.rs`: the encoded path, the sorted
 query, the folded headers and their names, one part a line. Strings are their UTF-8 bytes, which
 is how Rust compares and hashes them.
 */
module CanonicalRequest {
  import opened Bytes
  import opened Sorting
  import UriEncoding

  const COMMA: byte := 44
  const SLASH: byte := 47
  const COLON: byte := 58
  const SEMICOLON: byte := 59
  const EQUALS: byte := 61
  const AMPERSAND: byte := 38

  datatype Request = Request(verb: bytes, path: bytes, query: seq<Pair>, headers: seq<Pair>, payloadHash: bytes)

  // ---- Path ----

  function EncodeAll(parts: seq<bytes>): (r: seq<bytes>)
    ensures |r| == |parts| && forall i | 0 <= i < |parts| :: r[i] == UriEncoding.Encode(parts[i])
  {
    seq(|parts|, i requires 0 <= i < |parts| => UriEncoding.Encode(parts[i]))
  }

  function CanonicalPath(path: bytes): bytes { Join(EncodeAll(Split(path, SLASH)), [SLASH]) }

  lemma NoSeparators(s: bytes)
    ensures var e := UriEncoding.Encode(s);
            SLASH !in e && EQUALS !in e && AMPERSAND !in e && LF !in e
  {
    UriEncoding.EncodedAlphabet(s);
  }

  lemma EncodedParts(parts: seq<bytes>)
    ensures forall e <- EncodeAll(parts) :: SLASH !in e && EQUALS !in e && AMPERSAND !in e && LF !in e
  {
    forall i | 0 <= i < |parts|
      ensures var e := EncodeAll(parts)[i]; SLASH !in e && EQUALS !in e && AMPERSAND !in e && LF !in e
    {
      NoSeparators(parts[i]);
    }
  }

  /** Two paths give the same canonical path exactly when they are the same. */
  lemma PathInjective(p: bytes, q: bytes)
    ensures CanonicalPath(p) == CanonicalPath(q) <==> p == q
  {
    if CanonicalPath(p) == CanonicalPath(q) {
      var a, b := Split(p, SLASH), Split(q, SLASH);
      EncodedParts(a);
      EncodedParts(b);
      SplitJoin(EncodeAll(a), SLASH);
      SplitJoin(EncodeAll(b), SLASH);
      assert EncodeAll(a) == EncodeAll(b);
      forall i | 0 <= i < |a|
        ensures a[i] == b[i]
      {
        assert EncodeAll(a)[i] == EncodeAll(b)[i];
        UriEncoding.EncodeInjective(a[i], b[i]);
      }
      JoinSplit(p, SLASH);
      JoinSplit(q, SLASH);
      assert a == b;
    }
  }

  // ---- Query ----

  function EncodePair(p: Pair): Pair { (UriEncoding.Encode(p.0), UriEncoding.Encode(p.1)) }

  function DecodePair(p: Pair): Pair { (UriEncoding.Decode(p.0), UriEncoding.Decode(p.1)) }

  function ShowPair(p: Pair): bytes { p.0 + [EQUALS] + p.1 }

  function ShowPairs(ps: seq<Pair>): (r: seq<bytes>)
    ensures |r| == |ps| && forall i | 0 <= i < |ps| :: r[i] == ShowPair(ps[i])
  {
    seq(|ps|, i requires 0 <= i < |ps| => ShowPair(ps[i]))
  }

  function SortedQuery(query: seq<Pair>): seq<Pair> { Sort(Map(query, EncodePair)) }

  function CanonicalQuery(query: seq<Pair>): bytes { Join(ShowPairs(SortedQuery(query)), [AMPERSAND]) }

  /** Encoding and sorting forget the order of the parameters and nothing else. */
  lemma SortedQueryExactly(a: seq<Pair>, b: seq<Pair>)
    ensures SortedQuery(a) == SortedQuery(b) <==> multiset(a) == multiset(b)
  {
    var ea, eb := Map(a, EncodePair), Map(b, EncodePair);
    SortCanonical(ea, eb);
    if multiset(a) == multiset(b) {
      MapPermutes(a, b, EncodePair);
    }
    if multiset(ea) == multiset(eb) {
      MapPermutes(ea, eb, DecodePair);
      DecodedQuery(a);
      DecodedQuery(b);
    }
  }

  lemma DecodedQuery(a: seq<Pair>)
    ensures Map(Map(a, EncodePair), DecodePair) == a
  {
    forall i | 0 <= i < |a|
      ensures DecodePair(EncodePair(a[i])) == a[i]
    {
      UriEncoding.DecodeEncode(a[i].0);
      UriEncoding.DecodeEncode(a[i].1);
    }
  }

  ghost predicate Clean(p: Pair) {
    && EQUALS !in p.0 && AMPERSAND !in p.0 && LF !in p.0
    && EQUALS !in p.1 && AMPERSAND !in p.1 && LF !in p.1
  }

  lemma SortedQueryClean(query: seq<Pair>)
    ensures forall p <- SortedQuery(query) :: Clean(p)
  {
    var encoded := Map(query, EncodePair);
    SortSorts(encoded);
    forall p <- SortedQuery(query)
      ensures Clean(p)
    {
      assert p in multiset(encoded);
      var i :| 0 <= i < |encoded| && encoded[i] == p;
      NoSeparators(query[i].0);
      NoSeparators(query[i].1);
    }
  }

  lemma ShownClean(ps: seq<Pair>)
    requires forall p <- ps :: Clean(p)
    ensures forall s <- ShowPairs(ps) :: s != [] && AMPERSAND !in s && LF !in s
  {
    forall i | 0 <= i < |ps|
      ensures var s := ShowPairs(ps)[i]; s != [] && AMPERSAND !in s && LF !in s
    {
      assert ps[i] in ps;
    }
  }

  /** `name=value` pairs joined by `&` can be taken apart again. */
  lemma JoinedPairsInjective(a: seq<Pair>, b: seq<Pair>)
    requires (forall p <- a :: Clean(p)) && forall p <- b :: Clean(p)
    requires Join(ShowPairs(a), [AMPERSAND]) == Join(ShowPairs(b), [AMPERSAND])
    ensures a == b
  {
    var sa, sb := ShowPairs(a), ShowPairs(b);
    ShownClean(a);
    ShownClean(b);
    JoinedNothing(sa);
    JoinedNothing(sb);
    if a != [] && b != [] {
      SplitJoin(sa, AMPERSAND);
      SplitJoin(sb, AMPERSAND);
      forall i | 0 <= i < |a|
        ensures a[i] == b[i]
      {
        assert sa[i] == sb[i] && Clean(a[i]) && Clean(b[i]);
        FirstSeparatorUnique(a[i].0, EQUALS, a[i].1, b[i].0, b[i].1);
      }
      assert a == b;
    }
  }

  lemma JoinedNothing(shown: seq<bytes>)
    requires forall s <- shown :: s != []
    ensures Join(shown, [AMPERSAND]) == [] <==> shown == []
  {
    if shown != [] {
      assert shown[0] in shown;
    }
  }

  /** Two queries give the same canonical query exactly when one is a permutation of the other. */
  lemma QueryExactly(a: seq<Pair>, b: seq<Pair>)
    ensures CanonicalQuery(a) == CanonicalQuery(b) <==> multiset(a) == multiset(b)
  {
    SortedQueryExactly(a, b);
    if CanonicalQuery(a) == CanonicalQuery(b) {
      SortedQueryClean(a);
      SortedQueryClean(b);
      JoinedPairsInjective(SortedQuery(a), SortedQuery(b));
    }
  }

  // ---- Header values ----

  /** The length of the whitespace character `s` starts with, or 0: Unicode's White_Space, in
      UTF-8. */
  function WhiteLength(s: bytes): (n: nat)
    ensures n <= |s| && (n > 1 ==> forall i | 0 <= i < n :: s[i] >= 0x80)
  {
    if |s| >= 1 && (9 <= s[0] <= 13 || s[0] == SPACE) then 1
    else if |s| >= 2 && s[0] == 0xC2 && (s[1] == 0x85 || s[1] == 0xA0) then 2
    else if |s| >= 3 && (
              || (s[0] == 0xE1 && s[1] == 0x9A && s[2] == 0x80)
              || (s[0] == 0xE2 && s[1] == 0x80 && (0x80 <= s[2] <= 0x8A || s[2] in {0xA8, 0xA9, 0xAF}))
              || (s[0] == 0xE2 && s[1] == 0x81 && s[2] == 0x9F)
              || (s[0] == 0xE3 && s[1] == 0x80 && s[2] == 0x80)) then 3
    else 0
  }

  /** `split_whitespace`, with `word` read so far. */
  function WordsFrom(s: bytes, word: bytes): seq<bytes>
    decreases |s|
  {
    var ended := if word == [] then [] else [word];
    if s == [] then ended
    else if WhiteLength(s) > 0 then ended + WordsFrom(s[WhiteLength(s)..], [])
    else WordsFrom(s[1..], word + [s[0]])
  }

  function Words(s: bytes): seq<bytes> { WordsFrom(s, []) }

  function Collapse(value: bytes): bytes { Join(Words(value), [SPACE]) }

  /** No position of `w` starts a whitespace character. */
  predicate NoWhite(w: bytes) { forall i | 0 <= i < |w| :: WhiteLength(w[i..]) == 0 }

  /** A whitespace character in a text is one in any longer text. */
  lemma WhiteExtends(s: bytes, t: bytes)
    requires WhiteLength(s) > 0
    ensures WhiteLength(s + t) == WhiteLength(s)
  {
    assert forall i | 0 <= i < |s| :: (s + t)[i] == s[i];
  }

  /** Words are what `split_whitespace` promises: not empty, and without whitespace. */
  lemma {:induction false} WordsAreWords(s: bytes, word: bytes)
    requires forall i | 0 <= i < |word| :: WhiteLength(word[i..] + s) == 0
    ensures forall w <- WordsFrom(s, word) :: w != [] && NoWhite(w)
    decreases |s|
  {
    forall i | 0 <= i < |word|
      ensures WhiteLength(word[i..]) == 0
    {
      if WhiteLength(word[i..]) > 0 {
        WhiteExtends(word[i..], s);
      }
    }
    if s != [] {
      if WhiteLength(s) > 0 {
        WordsAreWords(s[WhiteLength(s)..], []);
      } else {
        var word' := word + [s[0]];
        forall i | 0 <= i < |word'|
          ensures WhiteLength(word'[i..] + s[1..]) == 0
        {
          if i < |word| {
            assert word'[i..] + s[1..] == word[i..] + s;
          } else {
            assert word'[i..] + s[1..] == s;
          }
        }
        WordsAreWords(s[1..], word');
      }
    }
  }

  /** A word before a space, or at the end, is read as that word. */
  lemma {:induction false} WordIsRead(word: bytes, w: bytes, s: bytes)
    requires NoWhite(w) && (s == [] || s[0] == SPACE)
    ensures WordsFrom(w + s, word) == WordsFrom(s, word + w)
    decreases |w|
  {
    if w == [] {
      assert w + s == s && word + w == word;
    } else {
      assert (w + s)[1..] == w[1..] + s;
      assert word + w == (word + [w[0]]) + w[1..];
      assert w[0..] == w;
      assert WhiteLength(w) == 0 && WhiteLength(w + s) == 0;
      assert forall i | 0 <= i < |w[1..]| :: w[1..][i..] == w[i + 1..];
      WordIsRead(word + [w[0]], w[1..], s);
    }
  }

  lemma {:induction false} JoinedWords(ws: seq<bytes>)
    requires forall w <- ws :: w != [] && NoWhite(w)
    ensures Words(Join(ws, [SPACE])) == ws
  {
    if ws != [] {
      var w, more := ws[0], ws[1..];
      assert w in ws;
      assert ws == [w] + more;
      if more == [] {
        assert w + [] == w && [] + w == w;
        WordIsRead([], w, []);
      } else {
        var s := [SPACE] + Join(more, [SPACE]);
        assert Join(ws, [SPACE]) == w + s && [] + w == w;
        WordIsRead([], w, s);
        assert s[1..] == Join(more, [SPACE]);
        assert forall x <- more :: x in ws;
        JoinedWords(more);
      }
    }
  }

  /** Collapsing keeps the words, so collapsing twice is collapsing once. */
  lemma CollapseKeepsWords(value: bytes)
    ensures Words(Collapse(value)) == Words(value)
    ensures Collapse(Collapse(value)) == Collapse(value)
  {
    WordsAreWords(value, []);
    JoinedWords(Words(value));
  }

  // ---- Headers ----

  function Lower(s: bytes): (r: bytes)
    ensures |r| == |s|
  {
    if s == [] then []
    else
      var b: byte := if 65 <= s[0] <= 90 then s[0] + 32 else s[0];
      [b] + Lower(s[1..])
  }

  /** Where `name` is in the folded list, or its length. */
  function Find(folded: seq<Pair>, name: bytes): (at: nat)
    ensures at <= |folded|
    ensures at < |folded| ==> folded[at].0 == name
    ensures forall i | 0 <= i < at :: folded[i].0 != name
  {
    if folded == [] || folded[0].0 == name then 0 else 1 + Find(folded[1..], name)
  }

  /** One turn of the folding loop. */
  function FoldOne(folded: seq<Pair>, header: Pair): seq<Pair> {
    var name, value := Lower(header.0), Collapse(header.1);
    var at := Find(folded, name);
    if at < |folded| then folded[at := (name, folded[at].1 + [COMMA] + value)]
    else folded + [(name, value)]
  }

  function Fold(headers: seq<Pair>): seq<Pair> {
    if headers == [] then [] else FoldOne(Fold(headers[..|headers| - 1]), headers[|headers| - 1])
  }

  method FoldHeaders(headers: seq<Pair>) returns (folded: seq<Pair>)
    ensures folded == Fold(headers)
  {
    folded := [];
    for i := 0 to |headers|
      invariant folded == Fold(headers[..i])
    {
      assert headers[..i + 1][..i] == headers[..i];
      var name, value := Lower(headers[i].0), Collapse(headers[i].1);
      var at := Find(folded, name);
      if at < |folded| {
        folded := folded[at := (name, folded[at].1 + [COMMA] + value)];
      } else {
        folded := folded + [(name, value)];
      }
    }
    assert headers[..|headers|] == headers;
  }

  /** The collapsed values of the headers called `name` in any case, in arrival order. */
  function ValuesOf(headers: seq<Pair>, name: bytes): seq<bytes> {
    if headers == [] then []
    else
      var last := |headers| - 1;
      ValuesOf(headers[..last], name)
      + if Lower(headers[last].0) == name then [Collapse(headers[last].1)] else []
  }

  ghost predicate DistinctNames(folded: seq<Pair>) {
    forall i, j | 0 <= i < j < |folded| :: folded[i].0 != folded[j].0
  }

  /** A name that arrived, with its values joined by commas in arrival order. */
  ghost predicate FoldsTo(headers: seq<Pair>, p: Pair) {
    ValuesOf(headers, p.0) != [] && p.1 == Join(ValuesOf(headers, p.0), [COMMA])
  }

  /** The folded list holds each arrived name once. */
  ghost predicate Folds(headers: seq<Pair>, folded: seq<Pair>) {
    && DistinctNames(folded)
    && (forall i | 0 <= i < |folded| :: FoldsTo(headers, folded[i]))
    && (forall n :: ValuesOf(headers, n) != [] ==> Find(folded, n) < |folded|)
  }

  lemma {:induction false} JoinAppend(values: seq<bytes>, v: bytes)
    requires values != []
    ensures Join(values + [v], [COMMA]) == Join(values, [COMMA]) + [COMMA] + v
  {
    var all := values + [v];
    assert all[1..] == values[1..] + [v];
    if |values| == 1 {
      assert all[1..] == [v];
    } else {
      JoinAppend(values[1..], v);
    }
  }

  lemma OneMoreValue(headers: seq<Pair>, h: Pair, n: bytes)
    ensures ValuesOf(headers + [h], n)
         == ValuesOf(headers, n) + if n == Lower(h.0) then [Collapse(h.1)] else []
  {
    assert (headers + [h])[..|headers|] == headers;
  }

  lemma OtherEntryKept(headers: seq<Pair>, h: Pair, p: Pair)
    requires FoldsTo(headers, p) && p.0 != Lower(h.0)
    ensures FoldsTo(headers + [h], p)
  {
    OneMoreValue(headers, h, p.0);
    assert ValuesOf(headers + [h], p.0) == ValuesOf(headers, p.0);
  }

  lemma EntryExtended(headers: seq<Pair>, h: Pair, p: Pair)
    requires FoldsTo(headers, p) && p.0 == Lower(h.0)
    ensures FoldsTo(headers + [h], (p.0, p.1 + [COMMA] + Collapse(h.1)))
  {
    OneMoreValue(headers, h, p.0);
    JoinAppend(ValuesOf(headers, p.0), Collapse(h.1));
  }

  lemma EntryStarted(headers: seq<Pair>, h: Pair)
    requires ValuesOf(headers, Lower(h.0)) == []
    ensures FoldsTo(headers + [h], (Lower(h.0), Collapse(h.1)))
  {
    OneMoreValue(headers, h, Lower(h.0));
    assert ValuesOf(headers + [h], Lower(h.0)) == [Collapse(h.1)];
  }

  lemma NamesFound(headers: seq<Pair>, folded: seq<Pair>, h: Pair, n: bytes)
    requires Folds(headers, folded) && ValuesOf(headers + [h], n) != []
    ensures Find(FoldOne(folded, h), n) < |FoldOne(folded, h)|
  {
    OneMoreValue(headers, h, n);
    var after := FoldOne(folded, h);
    assert after[Find(folded, n)].0 == n;
  }

  lemma NamesStayDistinct(folded: seq<Pair>, h: Pair)
    requires DistinctNames(folded)
    ensures DistinctNames(FoldOne(folded, h))
  {
    assert forall i | 0 <= i < |folded| :: FoldOne(folded, h)[i].0 == folded[i].0;
  }

  lemma EntryFolds(headers: seq<Pair>, folded: seq<Pair>, h: Pair, i: nat)
    requires Folds(headers, folded) && i < |FoldOne(folded, h)|
    ensures FoldsTo(headers + [h], FoldOne(folded, h)[i])
  {
    var at := Find(folded, Lower(h.0));
    if i == |folded| {
      EntryStarted(headers, h);
    } else if i == at {
      EntryExtended(headers, h, folded[i]);
    } else {
      OtherEntryKept(headers, h, folded[i]);
    }
  }

  /** A turn of the loop keeps the folded list folded. */
  lemma FoldOneFolds(headers: seq<Pair>, folded: seq<Pair>, h: Pair)
    requires Folds(headers, folded)
    ensures Folds(headers + [h], FoldOne(folded, h))
  {
    var after := FoldOne(folded, h);
    NamesStayDistinct(folded, h);
    forall i | 0 <= i < |after|
      ensures FoldsTo(headers + [h], after[i])
    {
      EntryFolds(headers, folded, h, i);
    }
    forall n | ValuesOf(headers + [h], n) != []
      ensures Find(after, n) < |after|
    {
      NamesFound(headers, folded, h, n);
    }
  }

  /** What a folded list holds is fixed by the values of each name. */
  lemma FoldedElements(headers: seq<Pair>, folded: seq<Pair>, p: Pair)
    requires Folds(headers, folded)
    ensures p in folded <==> FoldsTo(headers, p)
  {
    if FoldsTo(headers, p) {
      var at := Find(folded, p.0);
      assert FoldsTo(headers, folded[at]);
    }
  }

  lemma {:induction false} FoldFolds(headers: seq<Pair>)
    ensures Folds(headers, Fold(headers))
  {
    if headers != [] {
      var last := |headers| - 1;
      FoldFolds(headers[..last]);
      FoldOneFolds(headers[..last], Fold(headers[..last]), headers[last]);
      assert headers == headers[..last] + [headers[last]];
    }
  }

  function CanonicalHeaders(headers: seq<Pair>): seq<Pair> { Sort(Fold(headers)) }

  ghost predicate Ascending(s: seq<Pair>) {
    forall i, j | 0 <= i < j < |s| :: s[i].0 != s[j].0 && Leq(s[i].0, s[j].0)
  }

  lemma SortKeepsDistinct(folded: seq<Pair>)
    requires DistinctNames(folded)
    ensures Ascending(Sort(folded)) && forall p :: p in Sort(folded) <==> p in folded
  {
    var sorted := Sort(folded);
    SortSorts(folded);
    forall p
      ensures p in sorted <==> p in folded
    {
      assert p in sorted <==> p in multiset(sorted);
    }
    forall i, j | 0 <= i < j < |sorted|
      ensures sorted[i].0 != sorted[j].0 && Leq(sorted[i].0, sorted[j].0)
    {
      if sorted[i].0 == sorted[j].0 {
        assert sorted[i] in folded && sorted[j] in folded;
        if sorted[i] == sorted[j] {
          TwiceInMultiset(sorted, i, j);
          AtMostOnce(folded, sorted[i]);
        }
      }
      LeqTotal(sorted[i].0, sorted[j].0);
    }
  }

  lemma TwiceInMultiset(s: seq<Pair>, i: nat, j: nat)
    requires i < j < |s| && s[i] == s[j]
    ensures multiset(s)[s[i]] >= 2
  {
    assert s == s[..i] + [s[i]] + s[i + 1..j] + [s[j]] + s[j + 1..];
  }

  /** The canonical headers: distinct lowercased names, strictly ascending, each with its collapsed
      values joined by commas in the order they arrived. */
  lemma HeadersFolded(headers: seq<Pair>)
    ensures Ascending(CanonicalHeaders(headers))
    ensures Folds(headers, CanonicalHeaders(headers))
  {
    FoldFolds(headers);
    var folded, sorted := Fold(headers), CanonicalHeaders(headers);
    SortKeepsDistinct(folded);
    forall i | 0 <= i < |sorted|
      ensures FoldsTo(headers, sorted[i])
    {
      FoldedElements(headers, folded, sorted[i]);
    }
    forall n | ValuesOf(headers, n) != []
      ensures Find(sorted, n) < |sorted|
    {
      var p := folded[Find(folded, n)];
      assert p in sorted;
    }
  }

  /** Reordering headers changes nothing, as long as same-named ones keep their order. */
  lemma HeaderOrderForgotten(a: seq<Pair>, b: seq<Pair>)
    requires forall n :: ValuesOf(a, n) == ValuesOf(b, n)
    ensures CanonicalHeaders(a) == CanonicalHeaders(b)
  {
    FoldFolds(a);
    FoldFolds(b);
    forall p
      ensures p in Fold(a) <==> p in Fold(b)
    {
      FoldedElements(a, Fold(a), p);
      FoldedElements(b, Fold(b), p);
    }
    SameSetPermutes(Fold(a), Fold(b));
    SortCanonical(Fold(a), Fold(b));
  }

  // ---- The canonical request ----

  function HeaderLines(headers: seq<Pair>): bytes {
    if headers == [] then []
    else headers[0].0 + [COLON] + headers[0].1 + [LF] + HeaderLines(headers[1..])
  }

  function NamesOf(headers: seq<Pair>): seq<bytes> {
    seq(|headers|, i requires 0 <= i < |headers| => headers[i].0)
  }

  /** Everything after the query. */
  function SignedTail(headers: seq<Pair>, payloadHash: bytes): bytes {
    var h := CanonicalHeaders(headers);
    HeaderLines(h) + [LF] + Join(NamesOf(h), [SEMICOLON]) + [LF] + payloadHash
  }

  function Canonical(r: Request): bytes {
    r.verb + [LF] + CanonicalPath(r.path) + [LF] + CanonicalQuery(r.query) + [LF]
    + SignedTail(r.headers, r.payloadHash)
  }

  method CanonicalRequestText(r: Request) returns (text: bytes)
    ensures text == Canonical(r)
  {
    var path := Join(EncodeAll(Split(r.path, SLASH)), [SLASH]);
    var query := Map(r.query, EncodePair);
    query := Sort(query);
    var headers := FoldHeaders(r.headers);
    headers := Sort(headers);
    var tail := HeaderLines(headers) + [LF] + Join(NamesOf(headers), [SEMICOLON]) + [LF] + r.payloadHash;
    text := r.verb + [LF] + path + [LF] + Join(ShowPairs(query), [AMPERSAND]) + [LF] + tail;
  }

  /** Neither the order of the parameters nor that of differently named headers reaches the
      canonical request. */
  lemma OrderForgotten(a: Request, b: Request)
    requires a.verb == b.verb && a.path == b.path && a.payloadHash == b.payloadHash
    requires multiset(a.query) == multiset(b.query) && forall n :: ValuesOf(a.headers, n) == ValuesOf(b.headers, n)
    ensures Canonical(a) == Canonical(b)
  {
    QueryExactly(a.query, b.query);
    HeaderOrderForgotten(a.headers, b.headers);
  }

  lemma {:induction false} JoinWithout(parts: seq<bytes>, sep: byte, b: byte)
    requires (forall p <- parts :: b !in p) && b != sep
    ensures b !in Join(parts, [sep])
  {
    if parts != [] {
      assert b !in parts[0];
      assert forall p <- parts[1..] :: p in parts;
      JoinWithout(parts[1..], sep, b);
    }
  }

  lemma NoLineBreaks(r: Request)
    ensures LF !in CanonicalPath(r.path) && LF !in CanonicalQuery(r.query)
  {
    EncodedParts(Split(r.path, SLASH));
    JoinWithout(EncodeAll(Split(r.path, SLASH)), SLASH, LF);
    SortedQueryClean(r.query);
    ShownClean(SortedQuery(r.query));
    JoinWithout(ShowPairs(SortedQuery(r.query)), AMPERSAND, LF);
  }

  /** The canonical request gives back the verb, the path, the query up to order, and everything
      the headers and payload put into it. */
  lemma CanonicalDetermines(a: Request, b: Request)
    requires LF !in a.verb && LF !in b.verb
    ensures Canonical(a) == Canonical(b)
       <==> && a.verb == b.verb && a.path == b.path && multiset(a.query) == multiset(b.query)
            && SignedTail(a.headers, a.payloadHash) == SignedTail(b.headers, b.payloadHash)
  {
    PathInjective(a.path, b.path);
    QueryExactly(a.query, b.query);
    if Canonical(a) == Canonical(b) {
      NoLineBreaks(a);
      NoLineBreaks(b);
      LinesDetermined(
        a.verb, CanonicalPath(a.path), CanonicalQuery(a.query), SignedTail(a.headers, a.payloadHash),
        b.verb, CanonicalPath(b.path), CanonicalQuery(b.query), SignedTail(b.headers, b.payloadHash));
    }
  }

  lemma LinesDetermined(v: bytes, p: bytes, q: bytes, t: bytes, v': bytes, p': bytes, q': bytes, t': bytes)
    requires LF !in v && LF !in p && LF !in q && LF !in v' && LF !in p' && LF !in q'
    requires v + [LF] + p + [LF] + q + [LF] + t == v' + [LF] + p' + [LF] + q' + [LF] + t'
    ensures v == v' && p == p' && q == q' && t == t'
  {
    Regroup(v, p, q, t);
    Regroup(v', p', q', t');
    FirstSeparatorUnique(v, LF, p + [LF] + (q + [LF] + t), v', p' + [LF] + (q' + [LF] + t'));
    FirstSeparatorUnique(p, LF, q + [LF] + t, p', q' + [LF] + t');
    FirstSeparatorUnique(q, LF, t, q', t');
  }

  lemma Regroup(v: bytes, p: bytes, q: bytes, t: bytes)
    ensures v + [LF] + p + [LF] + q + [LF] + t == v + [LF] + (p + [LF] + (q + [LF] + t))
  {
  }
}
