/**
 The texts a request is framed by in `tools/record-fixtures/raw_capture.py`, exactly: which chunk
 sizes `int(text, 16)` takes and what they come to, and which transfer codings are `chunked`.
 */
module ChunkSizeText {
  import opened Bytes
  import opened Chunked
  import RequestBody
  import Text
  import opened Wrappers

  // ---- Digits ----

  /** `0`-`9`, `A`-`F` or `a`-`f`, and its value. */
  predicate IsDigit(b: byte, v: nat) {
    (48 <= b <= 57 && v == b - 48) || (65 <= b <= 70 && v == b - 65 + 10) || (97 <= b <= 102 && v == b - 97 + 10)
  }

  lemma DigitValue(b: byte)
    ensures IsHex(b) <==> exists v :: IsDigit(b, v)
    ensures forall v | IsDigit(b, v) :: HexDigit(b) == v
  {
    if IsHex(b) {
      assert IsDigit(b, HexDigit(b));
    }
  }

  /** Digits and single underscores, a digit at either end. */
  ghost predicate IsDigits(s: bytes) {
    s != [] && IsHex(s[0]) && EndsInDigit(s) && Spaced(s)
  }

  predicate EndsInDigit(s: bytes) { s != [] && IsHex(s[|s| - 1]) }

  /** Digits and underscores, no two underscores together. */
  ghost predicate Spaced(s: bytes) {
    && (forall b <- s :: IsHex(b) || b == 95)
    && (forall i | 0 < i < |s| :: !Doubled(s, i))
  }

  predicate Doubled(s: bytes, i: int)
    requires 0 < i < |s|
  {
    s[i - 1] == 95 && s[i] == 95
  }

  /** The digits alone. */
  function DigitsOf(s: bytes): (ds: bytes)
    ensures forall b <- ds :: IsHex(b)
  {
    if s == [] then [] else (if IsHex(s[0]) then [s[0]] else []) + DigitsOf(s[1..])
  }

  lemma SpacedTail(s: bytes)
    requires s != []
    ensures Spaced(s) <==> (IsHex(s[0]) || s[0] == 95) && Spaced(s[1..]) && (|s| > 1 ==> !Doubled(s, 1))
  {
    HeadTail(s);
    assert forall i | 0 < i < |s| - 1 :: Doubled(s[1..], i) <==> Doubled(s, i + 1);
    if Spaced(s[1..]) && (|s| > 1 ==> !Doubled(s, 1)) {
      forall i | 0 < i < |s|
        ensures !Doubled(s, i)
      {
        assert i > 1 ==> !Doubled(s[1..], i - 1);
      }
    }
  }

  /** What may follow: at the end, only a digit just read; an underscore only after a digit. */
  ghost predicate MayFollow(s: bytes, afterDigit: bool) {
    if s == [] then afterDigit else Spaced(s) && EndsInDigit(s) && (IsHex(s[0]) || afterDigit)
  }

  lemma FollowsDigit(s: bytes, afterDigit: bool)
    requires s != [] && IsHex(s[0])
    ensures MayFollow(s, afterDigit) <==> MayFollow(s[1..], true)
  {
    SpacedTail(s);
  }

  lemma FollowsUnderscore(s: bytes)
    requires s != [] && s[0] == 95
    ensures MayFollow(s, true) <==> MayFollow(s[1..], false)
    ensures !MayFollow(s, false)
  {
    SpacedTail(s);
    if |s| > 1 && s[1] != 95 && Spaced(s[1..]) {
      assert s[1..][0] in s[1..];
    }
  }

  lemma {:induction false} DigitsTaken(s: bytes, acc: nat, afterDigit: bool)
    ensures Digits(s, acc, afterDigit)
         == if MayFollow(s, afterDigit) then Some(HexValue(DigitsOf(s), acc)) else None
    decreases s
  {
    if s != [] {
      if IsHex(s[0]) {
        FollowsDigit(s, afterDigit);
        DigitsTaken(s[1..], acc * 16 + HexDigit(s[0]), true);
        assert DigitsOf(s)[1..] == DigitsOf(s[1..]);
      } else if s[0] == 95 {
        FollowsUnderscore(s);
        DigitsTaken(s[1..], acc, false);
        assert DigitsOf(s) == DigitsOf(s[1..]);
      } else {
        assert s[0] in s;
      }
    }
  }

  /** Each further digit counts the ones before it sixteenfold. */
  lemma {:induction false} ValueByPlace(s: bytes, b: byte, acc: nat, v: nat)
    requires (forall c <- s :: IsHex(c)) && IsDigit(b, v)
    ensures IsHex(b) && (forall c <- s + [b] :: IsHex(c)) && HexValue(s + [b], acc) == 16 * HexValue(s, acc) + v
    decreases |s|
  {
    if s == [] {
      assert ([] + [b])[1..] == [];
    } else {
      assert IsHex(s[0]);
      TailOf(s, [b]);
      ValueByPlace(s[1..], b, acc * 16 + HexDigit(s[0]), v);
    }
  }

  // ---- Sizes ----

  predicate IsSign(s: bytes) { s == [] || s == [43] || s == [45] }

  /** Nothing, or `0x` in either case, which an underscore may follow. */
  predicate IsMark(s: bytes) { s == [] || s == [48, 120] || s == [48, 88] || s == [48, 120, 95] || s == [48, 88, 95] }

  function Signed(sign: bytes, n: nat): int { if sign == [45] then -(n as int) else n }

  /** The digits behind a mark. */
  function Unmarked(t: bytes): bytes {
    if |t| < 2 || t[0] != 48 || (t[1] != 120 && t[1] != 88) then t
    else if |t| > 2 && t[2] == 95 then t[3..]
    else t[2..]
  }

  lemma MarkOff(mark: bytes, digits: bytes)
    requires IsMark(mark) && IsDigits(digits)
    ensures Unmarked(mark + digits) == digits
  {
    var t := mark + digits;
    if mark == [] {
      assert t == digits;
      if |digits| >= 2 {
        assert digits[1] in digits;
      }
    } else {
      assert forall i | 0 <= i < |mark| :: t[i] == mark[i];
      assert t[|mark|] == digits[0] && t[|mark|..] == digits;
    }
  }

  /** A sign, a mark and digits are a number. */
  lemma NumberIs(sign: bytes, mark: bytes, digits: bytes)
    requires IsSign(sign) && IsMark(mark) && IsDigits(digits)
    ensures HexInt(sign + mark + digits) == Some(Signed(sign, HexValue(DigitsOf(digits), 0)))
  {
    Assoc(sign, mark, digits);
    assert (mark + digits)[0] == if mark == [] then digits[0] else 48;
    SignOff(sign, mark + digits);
    MarkOff(mark, digits);
    DigitsTaken(digits, 0, false);
  }

  /** Behind a sign, the digits decide. */
  lemma SignOff(sign: bytes, t: bytes)
    requires IsSign(sign) && (sign == [] ==> t == [] || (t[0] != 43 && t[0] != 45))
    ensures var n := Digits(Unmarked(t), 0, false);
            HexInt(sign + t) == if n.None? then None else Some(Signed(sign, n.value))
  {
    assert sign != [] ==> (sign + t)[0] == sign[0] && (sign + t)[1..] == t;
    assert sign == [] ==> sign + t == t;
  }

  /** Nothing else is a number. */
  lemma OnlyNumbers(s: bytes) returns (sign: bytes, mark: bytes, digits: bytes)
    ensures IsSign(sign) && IsMark(mark) && s == sign + mark + digits
    ensures HexInt(s).Some? <==> IsDigits(digits)
  {
    var t;
    sign, t := SignShape(s);
    digits := Unmarked(t);
    mark := MarkShape(t);
    Assoc(sign, mark, digits);
    SignOff(sign, t);
    DigitsTaken(digits, 0, false);
  }

  lemma SignShape(s: bytes) returns (sign: bytes, t: bytes)
    ensures IsSign(sign) && s == sign + t && (sign == [] ==> t == [] || (t[0] != 43 && t[0] != 45))
  {
    sign := if s != [] && (s[0] == 43 || s[0] == 45) then [s[0]] else [];
    t := s[|sign|..];
  }

  lemma MarkShape(t: bytes) returns (mark: bytes)
    ensures IsMark(mark) && t == mark + Unmarked(t)
  {
    var n := |t| - |Unmarked(t)|;
    mark := if n == 0 then [] else if n == 2 then [t[0], t[1]] else [t[0], t[1], t[2]];
  }

  // ---- The size line ----

  /** Tab, LF, vertical tab, form feed, CR or a space. */
  predicate Blank(b: byte) { 9 <= b <= 13 || b == 32 }

  predicate AllSpace(s: bytes) { forall b <- s :: Blank(b) }

  predicate Unspaced(s: bytes) { s == [] || (!Blank(s[0]) && !Blank(s[|s| - 1])) }

  lemma {:induction false} StripsLeft(a: bytes, t: bytes)
    requires AllSpace(a) && (t == [] || !Blank(t[0]))
    ensures StripLeft(a + t) == t
  {
    if a != [] {
      TailOf(a, t);
      assert a[0] in a && AllSpace(a[1..]);
      StripsLeft(a[1..], t);
    } else {
      assert a + t == t;
      assert t != [] ==> !IsSpace(t[0]);
    }
  }

  lemma {:induction false} StripsRight(t: bytes, b: bytes)
    requires AllSpace(b) && (t == [] || !Blank(t[|t| - 1]))
    ensures StripRight(t + b) == t
  {
    if b != [] {
      var last := |b| - 1;
      assert b[last] in b && AllSpace(b[..last]);
      assert (t + b)[..|t + b| - 1] == t + b[..last];
      StripsRight(t, b[..last]);
    } else {
      assert t + b == t;
      assert t != [] ==> !IsSpace(t[|t| - 1]);
    }
  }

  lemma StripIs(a: bytes, t: bytes, b: bytes)
    requires AllSpace(a) && AllSpace(b) && Unspaced(t)
    ensures Strip(a + t + b) == t
  {
    if t == [] {
      assert a + t + b == (a + b) + [];
      StripsLeft(a + b, []);
    } else {
      Assoc(a, t, b);
      StripsLeft(a, t + b);
      StripsRight(t, b);
    }
  }

  lemma {:induction false} UpToSemicolon(x: bytes, rest: bytes)
    requires 59 !in x && (rest == [] || rest[0] == 59)
    ensures BeforeSemicolon(x + rest) == x
  {
    if x != [] {
      TailOf(x, rest);
      UpToSemicolon(x[1..], rest);
      HeadTail(x);
    } else {
      assert x + rest == rest;
    }
  }

  /** A chunk's size is the number at the front of its line, whitespace around it and an extension
      behind it left out. */
  lemma SizeLineIs(a: bytes, number: bytes, b: bytes, extension: bytes)
    requires AllSpace(a) && AllSpace(b) && Unspaced(number) && 59 !in number
    requires extension == [] || extension[0] == 59
    ensures ChunkSize(a + number + b + extension) == HexInt(number)
  {
    assert 59 !in a + number + b;
    UpToSemicolon(a + number + b, extension);
    StripIs(a, number, b);
  }

  // ---- The transfer coding ----

  lemma {:induction false} LowerAt(s: string)
    ensures |Text.Lower(s)| == |s|
    ensures forall i | 0 <= i < |s| ::
              Text.Lower(s)[i] == if 65 <= s[i] as int <= 90 then (s[i] as int + 32) as char else s[i]
  {
    if s != [] {
      LowerAt(s[1..]);
    }
  }

  /** The same text but for the case of ASCII letters. */
  predicate SameButCase(s: string, lower: string) {
    && |s| == |lower|
    && forall i | 0 <= i < |s| ::
         s[i] == lower[i] || (65 <= s[i] as int <= 90 && s[i] as int + 32 == lower[i] as int)
  }

  /** No capital letters. */
  predicate NoCapitals(s: string) { forall c <- s :: !(65 <= c as int <= 90) }

  lemma LowerIs(s: string, lower: string)
    requires NoCapitals(lower)
    ensures Text.Lower(s) == lower <==> SameButCase(s, lower)
  {
    LowerAt(s);
    if SameButCase(s, lower) {
      forall i | 0 <= i < |s|
        ensures Text.Lower(s)[i] == lower[i]
      {
        assert lower[i] in lower;
      }
    }
  }

  /** What `str.strip` takes off Latin-1 text. */
  predicate BlankChar(c: char) {
    9 <= c as int <= 13 || 28 <= c as int <= 32 || c as int == 133 || c as int == 160
  }

  predicate AllBlank(s: string) { forall c <- s :: BlankChar(c) }

  lemma {:induction false} StrippedIs(a: string, t: string, b: string)
    requires AllBlank(a) && AllBlank(b) && t != [] && !BlankChar(t[0]) && !BlankChar(t[|t| - 1])
    ensures RequestBody.StripText(a + t + b) == t
    decreases |a| + |b|
  {
    var s := a + t + b;
    if a != [] {
      assert a[0] in a && AllBlank(a[1..]);
      assert s[0] == a[0] && s[1..] == a[1..] + t + b;
      StrippedIs(a[1..], t, b);
    } else {
      assert s[0] == t[0] && !RequestBody.IsBlankChar(t[0]);
      if b != [] {
        var last := |b| - 1;
        assert b[last] in b && AllBlank(b[..last]);
        assert s[|s| - 1] == b[last] && s[..|s| - 1] == a + t + b[..last];
        StrippedIs(a, t, b[..last]);
      } else {
        assert s == t && !RequestBody.IsBlankChar(t[|t| - 1]);
      }
    }
  }

  lemma {:induction false} StripsOff(s: string) returns (a: string, b: string)
    ensures AllBlank(a) && AllBlank(b) && s == a + RequestBody.StripText(s) + b
    decreases |s|
  {
    a, b := "", "";
    var t := RequestBody.StripText(s);
    if s != [] && RequestBody.IsBlankChar(s[0]) {
      var a', b' := StripsOff(s[1..]);
      a, b := [s[0]] + a', b';
      HeadTail(s);
      Assoc([s[0]], a', t);
      Assoc([s[0]], a' + t, b);
    } else if s != [] && RequestBody.IsBlankChar(s[|s| - 1]) {
      var last := |s| - 1;
      var a', b' := StripsOff(s[..last]);
      a, b := a', b' + [s[last]];
      assert s == s[..last] + [s[last]];
      Assoc(a + t, b', [s[last]]);
    }
  }

  /** `chunked` in any case, blanks around it. */
  ghost predicate SpellsChunked(encoding: string) {
    exists a, w, b :: AllBlank(a) && AllBlank(b) && SameButCase(w, "chunked") && encoding == a + w + b
  }

  lemma ChunkedWord(w: string)
    requires SameButCase(w, "chunked")
    ensures w != [] && !BlankChar(w[0]) && !BlankChar(w[|w| - 1])
  {
  }

  lemma NamesChunkedExactly(h: RequestBody.Head)
    ensures RequestBody.NamesChunked(h) <==> h.encoding.Some? && SpellsChunked(h.encoding.value)
  {
    if h.encoding.Some? {
      var s := h.encoding.value;
      var t := RequestBody.StripText(s);
      LowerIs(t, "chunked");
      if SpellsChunked(s) {
        var a, w, b :| AllBlank(a) && AllBlank(b) && SameButCase(w, "chunked") && s == a + w + b;
        ChunkedWord(w);
        StrippedIs(a, w, b);
      } else {
        var a, b := StripsOff(s);
        assert !SameButCase(t, "chunked");
      }
    }
  }
}
