/**
 Exactly which references `xml_text` of `crates/logit-aws/src/creds.rs` decodes: five names, and
 the code points that digits spell, in decimal or hexadecimal, a plus sign before them or not.
 */
module XmlEntities {
  import opened Bytes
  import Text
  import opened Wrappers
  import opened XmlText

  /** `c` is the digit `d`. */
  predicate IsDigit(c: char, radix: nat, d: nat) {
    && d < radix
    && (('0' <= c <= '9' && d == c as int - 48)
        || ('a' <= c <= 'z' && d == c as int - 87)
        || ('A' <= c <= 'Z' && d == c as int - 55))
  }

  lemma DigitExactly(c: char, radix: nat, d: nat)
    requires radix <= 36
    ensures DigitOf(c, radix) == Some(d) <==> IsDigit(c, radix, d)
  {
  }

  /** The digits' values, most significant first, make `n`. */
  function Value(ds: seq<nat>, radix: nat): nat {
    if ds == [] then 0 else Value(ds[..|ds| - 1], radix) * radix + ds[|ds| - 1]
  }

  ghost predicate AreDigits(s: string, radix: nat, ds: seq<nat>) {
    |ds| == |s| && forall i | 0 <= i < |s| :: IsDigit(s[i], radix, ds[i])
  }

  function ValueFrom(acc: nat, ds: seq<nat>, radix: nat): nat
    decreases ds
  {
    if ds == [] then acc else ValueFrom(acc * radix + ds[0], ds[1..], radix)
  }

  lemma {:induction false} ValueIs(ds: seq<nat>, radix: nat)
    ensures ValueFrom(0, ds, radix) == Value(ds, radix)
    decreases |ds|
  {
    if ds != [] {
      var last := |ds| - 1;
      ValueIs(ds[..last], radix);
      ValueLast(0, ds[..last], ds[last], radix);
      assert ds == ds[..last] + [ds[last]];
    }
  }

  lemma {:induction false} ValueLast(acc: nat, ds: seq<nat>, d: nat, radix: nat)
    ensures ValueFrom(acc, ds + [d], radix) == ValueFrom(acc, ds, radix) * radix + d
    decreases |ds|
  {
    if ds == [] {
      assert ([] + [d])[1..] == [];
      assert ValueFrom(acc, [d], radix) == ValueFrom(acc * radix + d, [], radix);
      assert ds + [d] == [d];
    } else {
      TailOf(ds, [d]);
      ValueLast(acc * radix + ds[0], ds[1..], d, radix);
    }
  }

  lemma {:induction false} ValueGrows(acc: nat, ds: seq<nat>, radix: nat)
    requires radix > 0
    ensures ValueFrom(acc, ds, radix) >= acc
    decreases |ds|
  {
    if ds != [] {
      ValueGrows(acc * radix + ds[0], ds[1..], radix);
      Multiplied(acc, radix);
    }
  }

  lemma Multiplied(acc: nat, radix: nat)
    requires radix > 0
    ensures acc * radix >= acc
  {
    assert acc * radix == acc + acc * (radix - 1);
  }

  /** Digits parse to their value, within 32 bits. */
  lemma {:induction false} DigitsParse(s: string, radix: nat, acc: nat, ds: seq<nat>)
    requires 0 < radix <= 36 && AreDigits(s, radix, ds) && acc <= 0xFFFF_FFFF
    ensures ParseDigits(s, radix, acc)
         == if ValueFrom(acc, ds, radix) > 0xFFFF_FFFF then None else Some(ValueFrom(acc, ds, radix))
    decreases |s|
  {
    if s != [] {
      DigitExactly(s[0], radix, ds[0]);
      var next := acc * radix + ds[0];
      if next > 0xFFFF_FFFF {
        ValueGrows(next, ds[1..], radix);
      } else {
        assert AreDigits(s[1..], radix, ds[1..]);
        DigitsParse(s[1..], radix, next, ds[1..]);
      }
    }
  }

  /** Nothing else parses. */
  lemma {:induction false} OnlyDigitsParse(s: string, radix: nat, acc: nat) returns (ds: seq<nat>)
    requires 0 < radix <= 36 && ParseDigits(s, radix, acc).Some?
    ensures AreDigits(s, radix, ds)
    decreases |s|
  {
    ds := [];
    if s != [] {
      var d := DigitOf(s[0], radix).value;
      DigitExactly(s[0], radix, d);
      var more := OnlyDigitsParse(s[1..], radix, acc * radix + d);
      ds := [d] + more;
      assert forall i | 0 < i < |s| :: s[i] == s[1..][i - 1] && ds[i] == more[i - 1];
    }
  }

  /** At least one digit, behind a plus sign or not, of value `n` in 32 bits. */
  ghost predicate IsNumber(s: string, radix: nat, n: nat) {
    exists digits, ds :: IsSpelledBy(s, digits, radix, ds) && Value(ds, radix) == n <= 0xFFFF_FFFF
  }

  ghost predicate IsSpelledBy(s: string, digits: string, radix: nat, ds: seq<nat>) {
    digits != "" && (s == digits || s == "+" + digits) && AreDigits(digits, radix, ds)
  }

  lemma NumberExactly(s: string, radix: nat, n: nat)
    requires 0 < radix <= 36
    ensures ParseU32(s, radix) == Some(n) <==> IsNumber(s, radix, n)
  {
    if ParseU32(s, radix) == Some(n) {
      var digits := if s[0] == '+' then s[1..] else s;
      var ds := OnlyDigitsParse(digits, radix, 0);
      DigitsParse(digits, radix, 0, ds);
      ValueIs(ds, radix);
      if s[0] == '+' {
        HeadTail(s);
        assert |s| > 1;
      }
      assert IsSpelledBy(s, digits, radix, ds);
    }
    forall digits, ds | IsSpelledBy(s, digits, radix, ds) && Value(ds, radix) == n <= 0xFFFF_FFFF
      ensures ParseU32(s, radix) == Some(n)
    {
      SpelledParses(s, digits, radix, ds);
    }
  }

  lemma SpelledParses(s: string, digits: string, radix: nat, ds: seq<nat>)
    requires 0 < radix <= 36 && IsSpelledBy(s, digits, radix, ds) && Value(ds, radix) <= 0xFFFF_FFFF
    ensures ParseU32(s, radix) == Some(Value(ds, radix))
  {
    DigitsParse(digits, radix, 0, ds);
    ValueIs(ds, radix);
    assert IsDigit(digits[0], radix, ds[0]);
    if s != digits {
      assert s[0] == '+' && s[1..] == digits;
    }
  }

  /** The five names. */
  predicate IsName(e: string, c: char) {
    || (e == "amp" && c == '&') || (e == "lt" && c == '<') || (e == "gt" && c == '>')
    || (e == "quot" && c == '"') || (e == "apos" && c == '\'')
  }

  ghost predicate IsHexNumber(e: string, n: nat) {
    |e| >= 2 && e[0] == '#' && (e[1] == 'x' || e[1] == 'X') && IsNumber(e[2..], 16, n)
  }

  ghost predicate IsDecimalNumber(e: string, n: nat) {
    |e| >= 1 && e[0] == '#' && !(|e| >= 2 && (e[1] == 'x' || e[1] == 'X')) && IsNumber(e[1..], 10, n)
  }

  lemma FromCodePoint(n: nat, c: char)
    ensures CharFrom(n) == Some(c) <==> n == c as int
  {
  }

  /** A reference stands for a character exactly when it is its name or a number of its code point. */
  lemma EntityExactly(e: string, c: char)
    ensures Entity(e) == Some(c) <==> IsName(e, c) || IsHexNumber(e, c as int) || IsDecimalNumber(e, c as int)
  {
    assert "#x" <= e <==> |e| >= 2 && e[0] == '#' && e[1] == 'x';
    assert "#X" <= e <==> |e| >= 2 && e[0] == '#' && e[1] == 'X';
    assert "#" <= e <==> |e| >= 1 && e[0] == '#';
    var n := c as int;
    if "#x" <= e || "#X" <= e {
      NumberExactly(e[2..], 16, n);
      CodeIs(ParseU32(e[2..], 16), c);
    } else if "#" <= e {
      NumberExactly(e[1..], 10, n);
      CodeIs(ParseU32(e[1..], 10), c);
    }
  }

  lemma CodeIs(code: Option<nat>, c: char)
    ensures code.Some? && CharFrom(code.value) == Some(c) <==> code == Some(c as int)
  {
    if code.Some? {
      FromCodePoint(code.value, c);
    }
  }

  // ---- The element ----

  /** Only the text of the first `<tag>`, up to the first `</tag>`, is ever read, and only if no other
      tag starts in it. */
  lemma ElementOnly(table: Table, text: string, tag: string) returns (pre: string, raw: string, post: string)
    requires ElementText(table, text, tag).Some?
    ensures text == Around(pre, tag, raw, post) && '<' !in raw
    ensures forall i | 0 <= i < |pre| :: !Text.Occurs(OpenTag(tag), text, i)
    ensures Decode(table, raw).Some? && ElementText(table, text, tag) == Some(Text.Trim(Decode(table, raw).value))
  {
    var open, close := OpenTag(tag), CloseTag(tag);
    var at := Text.Find(text, open).value;
    var after := text[at + |open|..];
    var len := Text.Find(after, close).value;
    pre, raw, post := text[..at], after[..len], after[len + |close|..];
    OccursSplits(open, text, at);
    OccursSplits(close, after, len);
  }

  lemma OccursSplits(p: string, s: string, at: nat)
    requires Text.Occurs(p, s, at)
    ensures at + |p| <= |s| && s == s[..at] + p + s[at + |p|..]
  {
    assert s[at..] == p + s[at..][|p|..];
    assert s[at..][|p|..] == s[at + |p|..];
    Assoc(s[..at], p, s[at + |p|..]);
  }
}
