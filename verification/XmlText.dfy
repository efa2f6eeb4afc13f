/**
 `xml_text` of `crates/logit-aws/src/creds.rs`: the text of the first `<tag>` element of an answer,
 its entity references decoded.

 A character can be spelled in many ways: as itself unless it is `&`, by name, or by number in
 decimal or hexadecimal. `DecodesExactly` says that the decoder reads exactly the texts made of
 spellings, and `ElementIsRead` that it undoes any spelling of any string in any tag.
 */
module XmlText {
  import opened Bytes
  import opened Text
  import opened Wrappers

  // ---- Numbers ----

  function DigitOf(c: char, radix: nat): Option<nat> {
    var d := if '0' <= c <= '9' then c as int - '0' as int
             else if 'a' <= c <= 'z' then c as int - 'a' as int + 10
             else if 'A' <= c <= 'Z' then c as int - 'A' as int + 10
             else 36;
    if d < radix then Some(d) else None
  }

  /** The value of digits on top of `acc`, or nothing past 32 bits. */
  function ParseDigits(s: string, radix: nat, acc: nat): Option<nat>
    decreases s
  {
    if s == [] then Some(acc)
    else
      match DigitOf(s[0], radix)
      case None => None
      case Some(d) =>
        var next := acc * radix + d;
        if next > 0xFFFF_FFFF then None else ParseDigits(s[1..], radix, next)
  }

  /** `u32::from_str_radix`: digits, with a plus sign allowed before them. */
  function ParseU32(s: string, radix: nat): Option<nat> {
    if s == [] || s == "+" then None
    else ParseDigits(if s[0] == '+' then s[1..] else s, radix, 0)
  }

  /** `char::from_u32`. */
  function CharFrom(n: nat): Option<char> {
    if n < 0xD800 || 0xE000 <= n <= 0x10FFFF then Some(n as char) else None
  }

  // ---- Entities ----

  /** What entities stand for. The decoder below is the same for every table; the source's is
      `Entity`. */
  type Table = string -> Option<char>

  /** The character an entity's name or number stands for. */
  function Entity(e: string): Option<char> {
    if e == "amp" then Some('&')
    else if e == "lt" then Some('<')
    else if e == "gt" then Some('>')
    else if e == "quot" then Some('"')
    else if e == "apos" then Some('\'')
    else
      var code := if "#x" <= e || "#X" <= e then ParseU32(e[2..], 16)
                  else if "#" <= e then ParseU32(e[1..], 10)
                  else None;
      match code
      case None => None
      case Some(n) => CharFrom(n)
  }

  function Prepend(s: string, r: Option<string>): Option<string> {
    match r
    case Some(t) => Some(s + t)
    case None => None
  }

  /** One turn of the decode loop: no reference left, a bad one, or the text before one, its
      character and the text after it. */
  datatype Turn = Done | Bad | Reference(before: string, c: char, rest: string)

  /** Where the first `&` is, and the first `;` from it on. */
  datatype Span = NoReference | NoEnd | Span(at: nat, end: nat)

  function FindReference(rest: string): (r: Span)
    ensures r.Span? ==> r.at < r.end < |rest|
  {
    var at := FindChar(rest, '&');
    if at == |rest| then NoReference
    else
      var semi := FindChar(rest[at..], ';');
      if at + semi == |rest| then NoEnd else Span(at, at + semi)
  }

  lemma {:induction false} ReferenceIsFirst(rest: string)
    ensures var r := FindReference(rest);
            && (r.NoReference? ==> '&' !in rest)
            && (r.Span? ==> && rest[r.at] == '&' && rest[r.end] == ';'
                            && '&' !in rest[..r.at] && ';' !in rest[r.at + 1..r.end])
  {
    var at := FindChar(rest, '&');
    forall i | 0 <= i < at
      ensures rest[i] != '&'
    {
      FindCharFirst(rest, '&', i);
    }
    if at < |rest| {
      var semi := FindChar(rest[at..], ';');
      forall k | at < k < at + semi
        ensures rest[k] != ';'
      {
        FindCharFirst(rest[at..], ';', k - at);
      }
    }
  }

  /** The turn for the reference that was found. */
  function TurnAt(table: Table, rest: string, span: Span): Turn
    requires span.Span? ==> span.at < span.end < |rest|
  {
    match span
    case NoReference => Done
    case NoEnd => Bad
    case Span(at, end) =>
      match table(rest[at + 1..end])
      case None => Bad
      case Some(c) => Reference(rest[..at], c, rest[end + 1..])
  }

  function NextTurn(table: Table, rest: string): (t: Turn)
    ensures t.Reference? ==> |t.rest| < |rest|
  {
    TurnAt(table, rest, FindReference(rest))
  }

  /** The text with its entity references decoded. */
  function Decode(table: Table, rest: string): Option<string>
    decreases |rest|
  {
    match NextTurn(table, rest)
    case Done => Some(rest)
    case Bad => None
    case Reference(before, c, after) => Prepend(before + [c], Decode(table, after))
  }

  method DecodeEntities(table: Table, raw: string) returns (out: Option<string>)
    ensures out == Decode(table, raw)
  {
    var text, rest: string := [], raw;
    PrependNothing(Decode(table, raw));
    while true
      invariant Decode(table, raw) == Prepend(text, Decode(table, rest))
      decreases |rest|
    {
      var turn := NextReference(table, rest);
      match turn {
        case Done =>
          return Some(text + rest);
        case Bad =>
          return None;
        case Reference(before, c, after) =>
          PrependTwice(text, before + [c], Decode(table, after));
          text, rest := text + (before + [c]), after;
      }
    }
  }

  /** The head of the loop: the next reference, and what it stands for. */
  method NextReference(table: Table, rest: string) returns (turn: Turn)
    ensures turn == NextTurn(table, rest)
  {
    var at := FindChar(rest, '&');
    if at == |rest| {
      return Done;
    }
    var semi := FindChar(rest[at..], ';');
    if at + semi == |rest| {
      return Bad;
    }
    var c := table(rest[at + 1..at + semi]);
    if c.None? {
      return Bad;
    }
    return Reference(rest[..at], c.value, rest[at + semi + 1..]);
  }

  lemma {:induction false} PrependNothing(r: Option<string>)
    ensures Prepend([], r) == r
  {
    assert r.Some? ==> [] + r.value == r.value;
  }

  lemma {:induction false} PrependTwice(a: string, bc: string, r: Option<string>)
    ensures Prepend(a, Prepend(bc, r)) == Prepend(a + bc, r)
  {
    if r.Some? {
      assert a + (bc + r.value) == a + bc + r.value;
    }
  }

  // ---- The element ----

  function OpenTag(tag: string): string { "<" + tag + ">" }
  function CloseTag(tag: string): string { "</" + tag + ">" }

  /** What stands between the first `<tag>` and the first `</tag>` after it. */
  function RawText(text: string, tag: string): Option<string> {
    match Find(text, OpenTag(tag))
    case None => None
    case Some(at) =>
      var after := text[at + |OpenTag(tag)|..];
      match Find(after, CloseTag(tag))
      case None => None
      case Some(len) => Some(after[..len])
  }

  /** A leaf's text, decoded and trimmed. */
  function LeafText(table: Table, raw: string): Option<string> {
    if '<' in raw then None
    else
      match Decode(table, raw)
      case None => None
      case Some(decoded) => Some(Trim(decoded))
  }

  function ElementText(table: Table, text: string, tag: string): Option<string> {
    match RawText(text, tag)
    case None => None
    case Some(raw) => LeafText(table, raw)
  }

  method ReadElement(table: Table, text: string, tag: string) returns (r: Option<string>)
    ensures r == ElementText(table, text, tag)
  {
    var raw := RawText(text, tag);
    if raw.None? || '<' in raw.value {
      return None;
    }
    var out := DecodeEntities(table, raw.value);
    if out.None? {
      return None;
    }
    return Some(Trim(out.value));
  }

  // ---- Spellings ----

  /** `e` is an entity reference for `c`, or `c` itself. */
  predicate Spells(table: Table, e: string, c: char) {
    || (e == [c] && c != '&')
    || (|e| >= 2 && e[0] == '&' && e[|e| - 1] == ';' && ';' !in e[1..|e| - 1] && table(e[1..|e| - 1]) == Some(c))
  }

  ghost predicate Spelling(table: Table, es: seq<string>, s: string) {
    |es| == |s| && forall i | 0 <= i < |s| :: Spells(table, es[i], s[i])
  }

  /** A plain character only moves the next reference along. */
  lemma {:induction false} SpanShifts(c: char, rest: string)
    requires c != '&'
    ensures FindReference([c] + rest) == ShiftedSpan(FindReference(rest))
  {
    var all := [c] + rest;
    var at := FindChar(rest, '&');
    assert all[1..] == rest;
    if at < |rest| {
      assert all[at + 1..] == rest[at..];
    }
  }

  lemma {:induction false} TurnShifts(table: Table, c: char, rest: string)
    requires c != '&'
    ensures NextTurn(table, [c] + rest)
         == match NextTurn(table, rest)
            case Reference(before, d, after) => Reference([c] + before, d, after)
            case other => other
  {
    SpanShifts(c, rest);
    TurnAtShifts(table, c, rest, FindReference(rest));
  }

  function ShiftedSpan(span: Span): Span {
    match span
    case Span(at, end) => Span(at + 1, end + 1)
    case other => other
  }

  lemma {:induction false} TurnAtShifts(table: Table, c: char, rest: string, span: Span)
    requires span.Span? ==> span.at < span.end < |rest|
    ensures TurnAt(table, [c] + rest, ShiftedSpan(span))
         == match TurnAt(table, rest, span)
            case Reference(before, d, after) => Reference([c] + before, d, after)
            case other => other
  {
    if span.Span? {
      SlicesShift(c, rest, span.at, span.end);
    }
  }

  lemma {:induction false} SlicesShift(c: char, rest: string, at: nat, end: nat)
    requires at < end < |rest|
    ensures ([c] + rest)[at + 2..end + 1] == rest[at + 1..end]
    ensures ([c] + rest)[end + 2..] == rest[end + 1..]
    ensures ([c] + rest)[..at + 1] == [c] + rest[..at]
  {
  }

  lemma {:induction false} DecodePlain(table: Table, c: char, rest: string)
    requires c != '&'
    ensures Decode(table, [c] + rest) == Prepend([c], Decode(table, rest))
  {
    TurnShifts(table, c, rest);
    var turn := NextTurn(table, rest);
    if turn.Reference? {
      Assoc([c], turn.before, [turn.c]);
      PrependTwice([c], turn.before + [turn.c], Decode(table, turn.rest));
    }
  }

  lemma {:induction false} ReferenceFirst(e: string, rest: string)
    requires |e| >= 2 && e[0] == '&' && e[|e| - 1] == ';' && ';' !in e[1..|e| - 1]
    ensures FindReference(e + rest) == Span(0, |e| - 1)
  {
    var all, last := e + rest, |e| - 1;
    assert FindChar(all, '&') == 0 && all[0..] == all;
    forall i | 0 <= i < last
      ensures all[i] != ';'
    {
      assert i > 0 ==> all[i] == e[1..last][i - 1];
    }
    FindCharIs(all, ';', last);
  }

  lemma {:induction false} DecodeReference(table: Table, e: string, c: char, rest: string)
    requires |e| >= 2 && e[0] == '&' && e[|e| - 1] == ';' && ';' !in e[1..|e| - 1]
    requires table(e[1..|e| - 1]) == Some(c)
    ensures Decode(table, e + rest) == Prepend([c], Decode(table, rest))
  {
    var all, last := e + rest, |e| - 1;
    ReferenceFirst(e, rest);
    assert all[1..last] == e[1..last] && all[last + 1..] == rest;
    assert NextTurn(table, all) == Reference([], c, rest);
    assert [] + [c] == [c];
  }

  lemma {:induction false} DecodeSpelled(table: Table, e: string, c: char, rest: string)
    requires Spells(table, e, c)
    ensures Decode(table, e + rest) == Prepend([c], Decode(table, rest))
  {
    if e == [c] && c != '&' {
      DecodePlain(table, c, rest);
    } else {
      DecodeReference(table, e, c, rest);
    }
  }

  lemma {:induction false} SpellingTail(table: Table, es: seq<string>, s: string)
    requires Spelling(table, es, s) && es != []
    ensures Spells(table, es[0], s[0]) && Spelling(table, es[1..], s[1..])
  {
    assert forall i | 0 <= i < |s[1..]| :: es[1..][i] == es[i + 1] && s[1..][i] == s[i + 1];
  }

  /** Any spelling of a string decodes to it. */
  lemma {:induction false} SpellingDecodes(table: Table, es: seq<string>, s: string)
    requires Spelling(table, es, s)
    ensures Decode(table, Flatten(es)) == Some(s)
    decreases |es|
  {
    if es != [] {
      SpellingTail(table, es, s);
      SpellingDecodes(table, es[1..], s[1..]);
      DecodeSpelled(table, es[0], s[0], Flatten(es[1..]));
      assert Decode(table, Flatten(es)) == Prepend([s[0]], Some(s[1..]));
      assert s == [s[0]] + s[1..];
    }
  }

  function Plainly(s: string): (es: seq<string>)
    ensures |es| == |s| && forall i | 0 <= i < |s| :: es[i] == [s[i]]
  {
    seq(|s|, i requires 0 <= i < |s| => [s[i]])
  }

  lemma {:induction false} PlainFlattens(s: string)
    ensures Flatten(Plainly(s)) == s
  {
    if s != [] {
      assert Plainly(s)[1..] == Plainly(s[1..]);
      PlainFlattens(s[1..]);
      assert s == [s[0]] + s[1..];
    }
  }

  /** A turn takes plain characters and one reference off the text. */
  lemma {:induction false} TurnSpells(table: Table, raw: string) returns (ref: string)
    requires NextTurn(table, raw).Reference?
    ensures var t := NextTurn(table, raw);
            '&' !in t.before && Spells(table, ref, t.c) && raw == t.before + ref + t.rest
  {
    var Span(at, end) := FindReference(raw);
    ReferenceIsFirst(raw);
    ref := raw[at..end + 1];
    SpanSpells(table, raw, at, end, NextTurn(table, raw).c);
  }

  lemma {:induction false} SpanSpells(table: Table, raw: string, at: nat, end: nat, c: char)
    requires at < end < |raw| && raw[at] == '&' && raw[end] == ';' && ';' !in raw[at + 1..end]
    requires table(raw[at + 1..end]) == Some(c)
    ensures Spells(table, raw[at..end + 1], c) && raw == raw[..at] + raw[at..end + 1] + raw[end + 1..]
  {
    AroundReference(raw, at, end);
  }

  lemma {:induction false} AroundReference(raw: string, at: nat, end: nat)
    requires at < end < |raw|
    ensures var ref := raw[at..end + 1];
            && ref[0] == raw[at] && ref[|ref| - 1] == raw[end] && ref[1..|ref| - 1] == raw[at + 1..end]
            && raw == raw[..at] + ref + raw[end + 1..]
  {
    Inside(raw, at, end + 1);
    ThreeParts(raw, at, end + 1);
  }

  lemma SpellingConcat(table: Table, before: string, ref: string, c: char, es: seq<string>, s: string)
    requires '&' !in before && Spells(table, ref, c) && Spelling(table, es, s)
    ensures Spelling(table, Plainly(before) + [ref] + es, before + [c] + s)
    ensures Flatten(Plainly(before) + [ref] + es) == before + ref + Flatten(es)
  {
    PlainFlattens(before);
    FlattenAppend(Plainly(before), ref);
    FlattenConcat(Plainly(before) + [ref], es);
    var es', s' := Plainly(before) + [ref] + es, before + [c] + s;
    forall i | 0 <= i < |s'|
      ensures Spells(table, es'[i], s'[i])
    {
      if i < |before| {
        assert es'[i] == [before[i]] && before[i] in before;
      } else if i > |before| {
        assert es'[i] == es[i - |before| - 1];
      }
    }
  }

  /** Whatever decodes is made of spellings. */
  lemma {:induction false} DecodedIsSpelling(table: Table, raw: string) returns (es: seq<string>)
    requires Decode(table, raw).Some?
    ensures Spelling(table, es, Decode(table, raw).value) && Flatten(es) == raw
    decreases |raw|
  {
    var turn := NextTurn(table, raw);
    if turn.Done? {
      es := Plainly(raw);
      PlainFlattens(raw);
      ReferenceIsFirst(raw);
      assert forall i | 0 <= i < |raw| :: Spells(table, es[i], raw[i]);
    } else {
      var more := DecodedIsSpelling(table, turn.rest);
      var ref := TurnSpells(table, raw);
      SpellingConcat(table, turn.before, ref, turn.c, more, Decode(table, turn.rest).value);
      es := Plainly(turn.before) + [ref] + more;
    }
  }

  /** The decoder reads `raw` as `s` exactly when `raw` spells `s`, character by character. */
  lemma {:induction false} DecodesExactly(table: Table, raw: string, s: string)
    ensures Decode(table, raw) == Some(s) <==> exists es :: Spelling(table, es, s) && Flatten(es) == raw
  {
    if Decode(table, raw) == Some(s) {
      var es := DecodedIsSpelling(table, raw);
      assert Spelling(table, es, s) && Flatten(es) == raw;
    }
    forall es | Spelling(table, es, s) && Flatten(es) == raw
      ensures Decode(table, raw) == Some(s)
    {
      SpellingDecodes(table, es, s);
    }
  }

  // ---- The round trip ----

  /** The first `p` is where it is, when none stands before it. */
  lemma {:induction false} FoundHere(pre: string, p: string, post: string)
    requires forall i | 0 <= i < |pre| :: !Occurs(p, pre + p + post, i)
    ensures Find(pre + p + post, p) == Some(|pre|)
  {
    var all := pre + p + post;
    assert all[|pre|..] == p + post;
    assert Occurs(p, all, |pre|);
  }

  /** No tag starts inside a text without `<`. */
  lemma {:induction false} CloseFoundHere(raw: string, tag: string, post: string)
    requires '<' !in raw
    ensures Find(raw + CloseTag(tag) + post, CloseTag(tag)) == Some(|raw|)
  {
    var after := raw + CloseTag(tag) + post;
    forall i | 0 <= i < |raw|
      ensures !Occurs(CloseTag(tag), after, i)
    {
      assert after[i] == raw[i];
      assert after[i..][0] != CloseTag(tag)[0];
    }
    FoundHere(raw, CloseTag(tag), post);
  }

  /** The whole body of an answer around one element. */
  function Around(pre: string, tag: string, raw: string, post: string): string {
    pre + OpenTag(tag) + (raw + CloseTag(tag) + post)
  }

  lemma {:induction false} RawIsFound(pre: string, tag: string, raw: string, post: string)
    requires '<' !in raw
    requires forall i | 0 <= i < |pre| :: !Occurs(OpenTag(tag), Around(pre, tag, raw, post), i)
    ensures RawText(Around(pre, tag, raw, post), tag) == Some(raw)
  {
    var after := raw + CloseTag(tag) + post;
    assert Around(pre, tag, raw, post) == pre + OpenTag(tag) + after;
    FoundHere(pre, OpenTag(tag), after);
    CloseFoundHere(raw, tag, post);
    assert Around(pre, tag, raw, post)[|pre| + |OpenTag(tag)|..] == after;
    assert after[..|raw|] == raw;
  }

  /** An element's text, however it is spelled and whatever stands around it, is read back trimmed,
      as long as no earlier `<tag>` stands before it. */
  lemma ElementIsRead(table: Table, pre: string, tag: string, es: seq<string>, s: string, post: string)
    requires Spelling(table, es, s) && '<' !in Flatten(es)
    requires forall i | 0 <= i < |pre| :: !Occurs(OpenTag(tag), Around(pre, tag, Flatten(es), post), i)
    ensures ElementText(table, Around(pre, tag, Flatten(es), post), tag) == Some(Trim(s))
  {
    RawIsFound(pre, tag, Flatten(es), post);
    SpellingDecodes(table, es, s);
  }

  /** The five markup characters by name, every other one as it is. */
  function Escape(c: char): string {
    if c == '&' then "&amp;"
    else if c == '<' then "&lt;"
    else if c == '>' then "&gt;"
    else if c == '"' then "&quot;"
    else if c == '\'' then "&apos;"
    else [c]
  }

  function Escaped(s: string): (es: seq<string>)
    ensures |es| == |s| && forall i | 0 <= i < |s| :: es[i] == Escape(s[i])
  {
    seq(|s|, i requires 0 <= i < |s| => Escape(s[i]))
  }

  lemma {:induction false} EscapeSpells(c: char)
    ensures Spells(Entity, Escape(c), c) && '<' !in Escape(c)
  {
    match c {
      case '&' => NameSpells("amp", c, Escape(c));
      case '<' => NameSpells("lt", c, Escape(c));
      case '>' => NameSpells("gt", c, Escape(c));
      case '"' => NameSpells("quot", c, Escape(c));
      case '\'' => NameSpells("apos", c, Escape(c));
      case _ =>
    }
  }

  lemma {:induction false} NameSpells(name: string, c: char, e: string)
    requires ';' !in name && '<' !in name && Entity(name) == Some(c) && e == "&" + name + ";"
    ensures Spells(Entity, e, c) && '<' !in e
  {
    assert e[1..|e| - 1] == name;
  }

  lemma {:induction false} EscapedText(s: string)
    ensures '<' !in Flatten(Escaped(s))
  {
    if s != [] {
      EscapeSpells(s[0]);
      assert Escaped(s)[1..] == Escaped(s[1..]);
      EscapedText(s[1..]);
    }
  }

  lemma {:induction false} EscapedSpells(s: string)
    ensures Spelling(Entity, Escaped(s), s)
  {
    forall i | 0 <= i < |s|
      ensures Spells(Entity, Escaped(s)[i], s[i])
    {
      EscapeSpells(s[i]);
    }
  }

  lemma {:induction false} AroundNothing(tag: string, raw: string, post: string)
    ensures Around([], tag, raw, post) == OpenTag(tag) + raw + CloseTag(tag) + post
  {
  }

  /** For every string and every tag: escape, wrap, read back, and the string comes out trimmed. */
  lemma {:induction false} EscapedIsRead(tag: string, s: string, post: string)
    ensures ElementText(Entity, OpenTag(tag) + Flatten(Escaped(s)) + CloseTag(tag) + post, tag) == Some(Trim(s))
  {
    EscapedSpells(s);
    EscapedText(s);
    ElementIsRead(Entity, [], tag, Escaped(s), s, post);
    AroundNothing(tag, Flatten(Escaped(s)), post);
  }

  // ---- Numeric references ----

  /** The digits of `n`, lowercase, in hexadecimal or decimal. */
  function Written(n: nat, hex: bool): (s: string)
    ensures s != []
    decreases n
  {
    if hex then if n < 16 then [Digit(n)] else Written(n / 16, hex) + [Digit(n % 16)]
    else if n < 10 then [Digit(n)] else Written(n / 10, hex) + [Digit(n % 10)]
  }

  function Radix(hex: bool): nat { if hex then 16 else 10 }

  function Digit(d: nat): char
    requires d < 16
  {
    if d < 10 then '0' + d as char else 'a' + (d - 10) as char
  }

  lemma {:induction false} DigitIs(d: nat, radix: nat)
    requires d < radix <= 16
    ensures DigitOf(Digit(d), radix) == Some(d)
  {
  }

  lemma {:induction false} WrittenInDigits(n: nat, hex: bool)
    ensures forall c <- Written(n, hex) :: DigitOf(c, Radix(hex)).Some?
    decreases n
  {
    var radix := Radix(hex);
    DigitIs(n % radix, radix);
    if n >= radix {
      WrittenInDigits(n / radix, hex);
    }
  }

  lemma {:induction false} ParseAppend(s: string, c: char, radix: nat, acc: nat)
    ensures ParseDigits(s + [c], radix, acc)
         == match ParseDigits(s, radix, acc)
            case None => None
            case Some(n) => ParseDigits([c], radix, n)
    decreases s
  {
    if s == [] {
      assert s + [c] == [c];
    } else {
      assert (s + [c])[1..] == s[1..] + [c];
      var d := DigitOf(s[0], radix);
      if d.Some? && acc * radix + d.value <= 0xFFFF_FFFF {
        ParseAppend(s[1..], c, radix, acc * radix + d.value);
      }
    }
  }

  lemma {:induction false} ParseOne(d: nat, radix: nat, acc: nat)
    requires d < radix <= 16 && acc * radix + d <= 0xFFFF_FFFF
    ensures ParseDigits([Digit(d)], radix, acc) == Some(acc * radix + d)
  {
    DigitIs(d, radix);
    assert [Digit(d)][1..] == [];
  }

  lemma {:induction false} ParseWritten(n: nat, hex: bool)
    requires n <= 0xFFFF_FFFF
    ensures ParseDigits(Written(n, hex), Radix(hex), 0) == Some(n)
    decreases n
  {
    if n < Radix(hex) {
      ParseOne(n, Radix(hex), 0);
    } else if hex {
      ParseWritten(n / 16, hex);
      ParseAppend(Written(n / 16, hex), Digit(n % 16), 16, 0);
      ParseOne(n % 16, 16, n / 16);
    } else {
      ParseWritten(n / 10, hex);
      ParseAppend(Written(n / 10, hex), Digit(n % 10), 10, 0);
      ParseOne(n % 10, 10, n / 10);
    }
  }

  lemma {:induction false} ParsedU32(n: nat, hex: bool)
    requires n <= 0xFFFF_FFFF
    ensures ParseU32(Written(n, hex), Radix(hex)) == Some(n)
  {
    var s := Written(n, hex);
    WrittenInDigits(n, hex);
    assert s[0] in s && DigitOf('+', Radix(hex)) == None;
    ParseWritten(n, hex);
  }

  lemma {:induction false} DecimalEntity(c: char)
    ensures Entity("#" + Written(c as int, false)) == Some(c)
  {
    var digits := Written(c as int, false);
    ParsedU32(c as int, false);
    WrittenInDigits(c as int, false);
    assert digits[0] in digits && DigitOf('x', 10) == None && DigitOf('X', 10) == None;
    assert ("#" + digits)[1..] == digits && ("#" + digits)[1] == digits[0];
  }

  lemma {:induction false} HexEntity(c: char)
    ensures Entity("#x" + Written(c as int, true)) == Some(c)
  {
    var digits := Written(c as int, true);
    ParsedU32(c as int, true);
    assert ("#x" + digits)[2..] == digits && ("#x" + digits)[1] == 'x';
  }

  lemma {:induction false} HoldsNoSemicolon(n: nat, hex: bool)
    ensures ';' !in Written(n, hex)
  {
    WrittenInDigits(n, hex);
    assert DigitOf(';', Radix(hex)) == None;
  }

  /** Every character can be spelled by its number, in decimal and in hexadecimal. */
  lemma {:induction false} NumbersSpell(c: char)
    ensures Spells(Entity, "&#" + Written(c as int, false) + ";", c)
    ensures Spells(Entity, "&#x" + Written(c as int, true) + ";", c)
  {
    DecimalEntity(c);
    HoldsNoSemicolon(c as int, false);
    NumberSpells("#" + Written(c as int, false), c, "&#" + Written(c as int, false) + ";");
    HexEntity(c);
    HoldsNoSemicolon(c as int, true);
    NumberSpells("#x" + Written(c as int, true), c, "&#x" + Written(c as int, true) + ";");
  }

  lemma NumberSpells(number: string, c: char, e: string)
    requires ';' !in number && Entity(number) == Some(c)
    requires |e| == |number| + 2 && e[0] == '&' && e[1..|e| - 1] == number && e[|e| - 1] == ';'
    ensures Spells(Entity, e, c)
  {
  }
}
