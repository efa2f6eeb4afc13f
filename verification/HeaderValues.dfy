/**
 The folded headers of `canonical_request` in `crates/logit-aws/src/sigv4.rs`, in byte values: which
 headers a folded one comes from, in which order, and what its value is made of.
 */
module HeaderValues {
  import opened Bytes
  import opened CanonicalRequest
  import opened CanonicalText
  import opened Sorting
  import Text

  // ---- White space ----

  /** The code point of a character's bytes in UTF-8 (section 3 of RFC 3629). */
  predicate IsCharacter(s: bytes, code: nat) {
    || (|s| == 1 && s[0] < 0x80 && code == s[0])
    || (|s| == 2 && 0xC2 <= s[0] <= 0xDF && 0x80 <= s[1] <= 0xBF
        && code == (s[0] as int - 0xC0) * 0x40 + (s[1] as int - 0x80))
    || (|s| == 3 && 0xE0 <= s[0] <= 0xEF && 0x80 <= s[1] <= 0xBF && 0x80 <= s[2] <= 0xBF && code >= 0x800
        && code == (s[0] as int - 0xE0) * 0x1000 + (s[1] as int - 0x80) * 0x40 + (s[2] as int - 0x80)
        && !(0xD800 <= code <= 0xDFFF))
    || (|s| == 4 && 0xF0 <= s[0] <= 0xF4 && (forall i | 0 < i < 4 :: 0x80 <= s[i] <= 0xBF)
        && 0x1_0000 <= code <= 0x10_FFFF
        && code == (s[0] as int - 0xF0) * 0x4_0000 + (s[1] as int - 0x80) * 0x1000
                   + (s[2] as int - 0x80) * 0x40 + (s[3] as int - 0x80))
  }

  /** The bytes that count as white space are the characters that do, whatever follows them. */
  lemma WhiteIsUnicode(s: bytes, code: nat, rest: bytes)
    requires IsCharacter(s, code)
    ensures WhiteLength(s + rest) == if Text.IsWhitespace(code as char) then |s| else 0
  {
    var all := s + rest;
    assert forall i | 0 <= i < |s| :: all[i] == s[i];
    if |s| == 3 {
      ThreeBytes(s, code);
    }
  }

  lemma ThreeBytes(s: bytes, code: nat)
    requires |s| == 3 && IsCharacter(s, code)
    ensures Text.IsWhitespace(code as char)
       <==> || (s[0] == 0xE1 && s[1] == 0x9A && s[2] == 0x80)
            || (s[0] == 0xE2 && s[1] == 0x80 && (0x80 <= s[2] <= 0x8A || s[2] == 0xA8 || s[2] == 0xA9 || s[2] == 0xAF))
            || (s[0] == 0xE2 && s[1] == 0x81 && s[2] == 0x9F)
            || (s[0] == 0xE3 && s[1] == 0x80 && s[2] == 0x80)
  {
  }

  // ---- One value ----

  /** Words and the white space around them. */
  ghost predicate Parts(value: bytes, words: seq<bytes>, whites: seq<bytes>) {
    && Divides(words, whites) && Interleaved(words, whites) == value
    && forall w <- words :: w != [] && NoWhite(w)
  }

  /** The words of the value with one space between them. */
  ghost predicate IsCollapsed(value: bytes, text: bytes) {
    exists words: seq<bytes>, whites: seq<bytes> :: Parts(value, words, whites) && text == Join(words, [32])
  }

  lemma CollapseIs(value: bytes)
    ensures IsCollapsed(value, Collapse(value))
  {
    var whites := WordsExactly(value);
    assert Parts(value, Words(value), whites);
  }

  // ---- One name ----

  /** The name in lower case. */
  predicate IsLowered(name: bytes, lower: bytes) {
    && |name| == |lower|
    && forall i | 0 <= i < |name| :: lower[i] == if 65 <= name[i] <= 90 then name[i] + 32 else name[i]
  }

  lemma {:induction false} LowerLength(s: bytes)
    ensures |Lower(s)| == |s|
  {
    if s != [] {
      LowerLength(s[1..]);
    }
  }

  lemma LoweredIs(name: bytes, lower: bytes)
    ensures Lower(name) == lower <==> IsLowered(name, lower)
  {
    LowerLength(name);
    forall i | 0 <= i < |name|
      ensures Lower(name)[i] == if 65 <= name[i] <= 90 then name[i] + 32 else name[i]
    {
      LowerByte(name, i);
    }
  }

  // ---- The folded headers ----

  /** `from` are the headers of that name, in arrival order, and `texts` their collapsed values. */
  ghost predicate ComesFrom(headers: seq<Pair>, name: bytes, from: seq<nat>, texts: seq<bytes>) {
    && |from| == |texts|
    && (forall i, j | 0 <= i < j < |from| :: from[i] < from[j])
    && (forall i | 0 <= i < |from| :: OneOf(headers, name, from[i], texts[i]))
    && (forall k | 0 <= k < |headers| && IsLowered(headers[k].0, name) :: k in from)
  }

  ghost predicate OneOf(headers: seq<Pair>, name: bytes, k: nat, text: bytes) {
    k < |headers| && IsLowered(headers[k].0, name) && IsCollapsed(headers[k].1, text)
  }

  lemma {:induction false} ValuesComeFrom(headers: seq<Pair>, name: bytes) returns (from: seq<nat>)
    ensures ComesFrom(headers, name, from, ValuesOf(headers, name))
  {
    from := [];
    if headers != [] {
      var last := |headers| - 1;
      var front, h := headers[..last], headers[last];
      from := ValuesComeFrom(front, name);
      var texts := ValuesOf(front, name);
      LoweredIs(h.0, name);
      assert headers == front + [h];
      if Lower(h.0) == name {
        CollapseIs(h.1);
        assert OneOf(headers, name, last, Collapse(h.1));
        MoreComes(front, h, name, from, texts);
        from := from + [last];
      } else {
        SameComes(front, h, name, from, texts);
        assert texts + [] == texts;
      }
    }
  }

  lemma SameComes(headers: seq<Pair>, h: Pair, name: bytes, from: seq<nat>, texts: seq<bytes>)
    requires ComesFrom(headers, name, from, texts) && !IsLowered(h.0, name)
    ensures ComesFrom(headers + [h], name, from, texts)
  {
    var all := headers + [h];
    forall i | 0 <= i < |from|
      ensures OneOf(all, name, from[i], texts[i])
    {
      assert OneOf(headers, name, from[i], texts[i]);
      assert all[from[i]] == headers[from[i]];
    }
    forall k | 0 <= k < |all| && IsLowered(all[k].0, name)
      ensures k in from
    {
      assert all[k] == headers[k];
    }
  }

  lemma MoreComes(headers: seq<Pair>, h: Pair, name: bytes, from: seq<nat>, texts: seq<bytes>)
    requires ComesFrom(headers, name, from, texts) && OneOf(headers + [h], name, |headers|, Collapse(h.1))
    ensures ComesFrom(headers + [h], name, from + [|headers|], texts + [Collapse(h.1)])
  {
    var all, from', texts' := headers + [h], from + [|headers|], texts + [Collapse(h.1)];
    forall i | 0 <= i < |from'|
      ensures OneOf(all, name, from'[i], texts'[i]) && (i < |from| ==> from'[i] < |headers|)
    {
      if i < |from| {
        assert OneOf(headers, name, from[i], texts[i]);
        assert all[from[i]] == headers[from[i]];
      }
    }
    forall k | 0 <= k < |all| && IsLowered(all[k].0, name)
      ensures k in from'
    {
      if k < |headers| {
        assert all[k] == headers[k] && k in from;
      } else {
        assert from'[|from|] == k;
      }
    }
  }

  /** A canonical header has the lowered name of the headers it comes from, all there are of that
      name, and their values, each collapsed, with commas between them in arrival order. */
  lemma FoldedExactly(headers: seq<Pair>, p: Pair) returns (from: seq<nat>, texts: seq<bytes>)
    requires p in CanonicalHeaders(headers)
    ensures from != [] && ComesFrom(headers, p.0, from, texts) && p.1 == Join(texts, [44])
  {
    HeadersFolded(headers);
    assert FoldsTo(headers, p);
    texts := ValuesOf(headers, p.0);
    from := ValuesComeFrom(headers, p.0);
  }

  /** Every header is in one. */
  lemma EveryHeaderFolded(headers: seq<Pair>, k: nat) returns (i: nat)
    requires k < |headers|
    ensures i < |CanonicalHeaders(headers)| && IsLowered(headers[k].0, CanonicalHeaders(headers)[i].0)
  {
    var name := Lower(headers[k].0);
    HeadersFolded(headers);
    LoweredIs(headers[k].0, name);
    var from := ValuesComeFrom(headers, name);
    assert k in from;
    i := Find(CanonicalHeaders(headers), name);
  }
}
