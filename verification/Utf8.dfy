/**
 Well-formed UTF-8, as section 4 of RFC 3629 gives it in ABNF, and the byte-at-a-time scanner
 that decides it. The scanner is the proof device for texts cut and edited at single bytes: its
 state after a prefix says whether the prefix ends between two characters.
 */
module Utf8 {
  import opened Bytes

  predicate IsTail(b: byte) { 0x80 <= b <= 0xBF }

  /** The length of the character `s` starts with, or 0 when it starts with none. */
  function CharLength(s: bytes): (n: nat)
    ensures n <= |s| && n <= 4
  {
    if |s| >= 1 && s[0] <= 0x7F then 1
    else if |s| >= 2 && 0xC2 <= s[0] <= 0xDF && IsTail(s[1]) then 2
    else if |s| >= 3 && IsTail(s[2]) && TripleStart(s[0], s[1]) then 3
    else if |s| >= 4 && IsTail(s[2]) && IsTail(s[3]) && QuadrupleStart(s[0], s[1]) then 4
    else 0
  }

  predicate TripleStart(a: byte, b: byte) {
    || (a == 0xE0 && 0xA0 <= b <= 0xBF)
    || (0xE1 <= a <= 0xEC && IsTail(b))
    || (a == 0xED && 0x80 <= b <= 0x9F)
    || (0xEE <= a <= 0xEF && IsTail(b))
  }

  predicate QuadrupleStart(a: byte, b: byte) {
    || (a == 0xF0 && 0x90 <= b <= 0xBF)
    || (0xF1 <= a <= 0xF3 && IsTail(b))
    || (a == 0xF4 && 0x80 <= b <= 0x8F)
  }

  /** `UTF8-octets = *( UTF8-char )`. */
  predicate Valid(s: bytes)
    decreases |s|
  {
    s == [] || (CharLength(s) > 0 && Valid(s[CharLength(s)..]))
  }

  /** Between two characters, `Tails` short of one, or after a lead byte that narrows the next. */
  datatype Scan = Ready | Tails(n: nat) | AfterE0 | AfterED | AfterF0 | AfterF4 | Dead

  function Step(q: Scan, b: byte): Scan {
    match q
    case Ready =>
      if b <= 0x7F then Ready
      else if 0xC2 <= b <= 0xDF then Tails(1)
      else if b == 0xE0 then AfterE0
      else if b == 0xED then AfterED
      else if 0xE1 <= b <= 0xEF then Tails(2)
      else if b == 0xF0 then AfterF0
      else if 0xF1 <= b <= 0xF3 then Tails(3)
      else if b == 0xF4 then AfterF4
      else Dead
    case Tails(n) => if !IsTail(b) || n == 0 then Dead else if n == 1 then Ready else Tails(n - 1)
    case AfterE0 => if 0xA0 <= b <= 0xBF then Tails(1) else Dead
    case AfterED => if 0x80 <= b <= 0x9F then Tails(1) else Dead
    case AfterF0 => if 0x90 <= b <= 0xBF then Tails(2) else Dead
    case AfterF4 => if 0x80 <= b <= 0x8F then Tails(2) else Dead
    case Dead => Dead
  }

  function Run(q: Scan, s: bytes): Scan
    decreases s
  {
    if s == [] then q else Run(Step(q, s[0]), s[1..])
  }

  lemma {:induction false} RunDead(s: bytes)
    ensures Run(Dead, s) == Dead
  {
    if s != [] {
      RunDead(s[1..]);
    }
  }

  lemma {:induction false} RunAppend(q: Scan, s: bytes, b: byte)
    ensures Run(q, s + [b]) == Step(Run(q, s), b)
    decreases s
  {
    if s == [] {
      assert s + [b] == [b];
      assert [b][1..] == [];
      assert Run(Step(q, b), []) == Step(q, b);
    } else {
      assert (s + [b])[1..] == s[1..] + [b];
      RunAppend(Step(q, s[0]), s[1..], b);
    }
  }

  /** A byte below 0x80 is read only between characters, and leaves the scanner there. */
  lemma {:induction false} AsciiOnlyWhenReady(q: Scan, b: byte, rest: bytes)
    requires b < 0x80 && Run(Step(q, b), rest) == Ready
    ensures q == Ready && Step(q, b) == Ready
  {
    if q != Ready {
      assert Step(q, b) == Dead;
      RunDead(rest);
    }
  }

  /** The scanner steps over a whole character exactly when the grammar has one there. */
  lemma {:induction false} ScanCharacter(s: bytes)
    requires s != []
    ensures CharLength(s) > 0 ==> Run(Ready, s) == Run(Ready, s[CharLength(s)..])
    ensures CharLength(s) == 0 ==> Run(Ready, s) != Ready
  {
    var q1 := Step(Ready, s[0]);
    assert Run(Ready, s) == Run(q1, s[1..]);
    RunDead(s[1..]);
    if |s| >= 2 {
      var q2 := Step(q1, s[1]);
      RunSecond(q1, s, 1);
      RunDead(s[2..]);
      if |s| >= 3 {
        var q3 := Step(q2, s[2]);
        RunSecond(q2, s, 2);
        RunDead(s[3..]);
        if |s| >= 4 {
          RunSecond(q3, s, 3);
          RunDead(s[4..]);
        }
      }
    }
  }

  lemma {:induction false} RunSecond(q: Scan, s: bytes, k: nat)
    requires k < |s|
    ensures Run(q, s[k..]) == Run(Step(q, s[k]), s[k + 1..])
  {
    assert s[k..][0] == s[k] && s[k..][1..] == s[k + 1..];
  }

  /** The scanner accepts exactly the well-formed texts. */
  lemma {:induction false} ScannerDecides(s: bytes)
    ensures Valid(s) <==> Run(Ready, s) == Ready
    decreases |s|
  {
    if s != [] {
      ScanCharacter(s);
      if CharLength(s) > 0 {
        ScannerDecides(s[CharLength(s)..]);
      }
    }
  }
}
