/**
 Bytes, byte strings, and the sequence operations the components share: joining with a
 separator, plain splitting, and concatenating parts.
 */
module Bytes {
  type byte = b: int | 0 <= b < 256
  type bytes = seq<byte>

  const LF: byte := 10
  const CR: byte := 13
  const SPACE: byte := 32
  const QUOTE: byte := 34

  /** The bytes of a text whose characters are ASCII, the only texts it is used on. */
  function Ascii(s: string): bytes {
    seq(|s|, i requires 0 <= i < |s| => AsciiByte(s[i]))
  }

  function AsciiByte(c: char): byte { c as int % 256 }

  /** An ASCII text's bytes are its characters' codes. */
  lemma AsciiIs(s: string)
    requires forall c <- s :: c as int < 128
    ensures |Ascii(s)| == |s| && forall i | 0 <= i < |s| :: Ascii(s)[i] as int == s[i] as int
  {
    forall i | 0 <= i < |s|
      ensures Ascii(s)[i] as int == s[i] as int
    {
      assert s[i] in s;
    }
  }

  /** `n` in decimal. */
  function Decimal(n: nat): (s: string)
    ensures s != [] && forall c <- s :: '0' <= c <= '9'
  {
    if n < 10 then ['0' + n as char] else Decimal(n / 10) + ['0' + (n % 10) as char]
  }

  /** The concatenation of `parts`. */
  function Flatten<T>(parts: seq<seq<T>>): seq<T> {
    if parts == [] then [] else parts[0] + Flatten(parts[1..])
  }

  /** `parts` with `sep` between each two neighbours. */
  function Join<T>(parts: seq<seq<T>>, sep: seq<T>): seq<T> {
    if parts == [] then []
    else if |parts| == 1 then parts[0]
    else parts[0] + sep + Join(parts[1..], sep)
  }

  /** The pieces of `s` between its occurrences of `sep`: always at least one. */
  function Split<T(==)>(s: seq<T>, sep: T): (parts: seq<seq<T>>)
    ensures parts != []
  {
    if s == [] then [[]]
    else
      var rest := Split(s[1..], sep);
      if s[0] == sep then [[]] + rest
      else [[s[0]] + rest[0]] + rest[1..]
  }

  // Facts about sequences, stated once so that longer proofs needn't find them.

  lemma Assoc<T>(a: seq<T>, b: seq<T>, c: seq<T>)
    ensures a + b + c == a + (b + c)
  {
  }

  lemma HeadTail<T>(s: seq<T>)
    requires s != []
    ensures s == [s[0]] + s[1..]
  {
  }

  lemma TailOf<T>(a: seq<T>, b: seq<T>)
    requires a != []
    ensures (a + b)[0] == a[0] && (a + b)[1..] == a[1..] + b
  {
  }

  lemma Inside<T>(s: seq<T>, i: nat, j: nat)
    requires i + 2 <= j <= |s|
    ensures s[i..j][1..j - i - 1] == s[i + 1..j - 1]
  {
    var m := s[i..j];
    var inner, outer := m[1..j - i - 1], s[i + 1..j - 1];
    forall k | 0 <= k < |inner|
      ensures inner[k] == outer[k]
    {
      assert inner[k] == m[k + 1] == s[i + k + 1];
    }
  }

  lemma ThreeParts<T>(s: seq<T>, i: nat, j: nat)
    requires i <= j <= |s|
    ensures s == s[..i] + s[i..j] + s[j..]
  {
  }

  lemma DropOf<T>(a: seq<T>, b: seq<T>)
    ensures (a + b)[..|a|] == a && (a + b)[|a|..] == b
  {
  }

  lemma {:induction false} FlattenConcat<T>(a: seq<seq<T>>, b: seq<seq<T>>)
    ensures Flatten(a + b) == Flatten(a) + Flatten(b)
  {
    if a == [] {
      assert a + b == b;
    } else {
      TailOf(a, b);
      FlattenConcat(a[1..], b);
      Assoc(a[0], Flatten(a[1..]), Flatten(b));
    }
  }

  lemma FlattenAppend<T>(a: seq<seq<T>>, x: seq<T>)
    ensures Flatten(a + [x]) == Flatten(a) + x
  {
    FlattenConcat(a, [x]);
    assert Flatten([x]) == x + Flatten([]);
  }

  /** Where a separator's first occurrence is fixed, so are both sides. */
  lemma {:induction false} FirstSeparatorUnique<T>(x: seq<T>, sep: T, xs: seq<T>, y: seq<T>, ys: seq<T>)
    requires sep !in x && sep !in y
    requires x + [sep] + xs == y + [sep] + ys
    ensures x == y && xs == ys
  {
    var s := x + [sep] + xs;
    assert s[|x|] == sep && s[|y|] == sep;
    assert forall i | 0 <= i < |x| :: s[i] == x[i];
    assert forall i | 0 <= i < |y| :: s[i] == y[i];
    assert |x| == |y|;
    assert x == s[..|x|] && y == s[..|y|];
    assert xs == s[|x| + 1..] && ys == s[|y| + 1..];
  }

  /** Where a separator's last occurrence is fixed, so are both sides. */
  lemma LastSeparatorUnique<T>(xs: seq<T>, sep: T, x: seq<T>, ys: seq<T>, y: seq<T>)
    requires sep !in x && sep !in y
    requires xs + [sep] + x == ys + [sep] + y
    ensures x == y && xs == ys
  {
    var s := xs + [sep] + x;
    assert s[|xs|] == sep && s[|ys|] == sep;
    assert forall i | |xs| < i < |s| :: s[i] == x[i - |xs| - 1];
    assert forall i | |ys| < i < |s| :: s[i] == y[i - |ys| - 1];
    assert |xs| == |ys|;
    assert xs == s[..|xs|] && ys == s[..|ys|];
    assert x == s[|xs| + 1..] && y == s[|ys| + 1..];
  }

  /** Splitting undoes joining, on parts that don't hold the separator. */
  lemma {:induction false} SplitJoin<T>(parts: seq<seq<T>>, sep: T)
    requires parts != []
    requires forall p <- parts :: sep !in p
    ensures Split(Join(parts, [sep]), sep) == parts
  {
    var first, rest := parts[0], parts[1..];
    assert sep !in first;
    assert parts == [first] + rest;
    if rest == [] {
      SplitFree(first, sep);
    } else {
      assert forall p <- rest :: p in parts;
      SplitJoin(rest, sep);
      SplitFirst(first, sep, Join(rest, [sep]));
    }
  }

  lemma {:induction false} SplitFree<T>(s: seq<T>, sep: T)
    requires sep !in s
    ensures Split(s, sep) == [s]
  {
    if s != [] {
      SplitFree(s[1..], sep);
      assert s == [s[0]] + s[1..];
    }
  }

  lemma {:induction false} SplitFirst<T>(p: seq<T>, sep: T, rest: seq<T>)
    requires sep !in p
    ensures Split(p + [sep] + rest, sep) == [p] + Split(rest, sep)
  {
    var s := p + [sep] + rest;
    if p == [] {
      assert s[1..] == rest;
    } else {
      SplitFirst(p[1..], sep, rest);
      assert s[1..] == p[1..] + [sep] + rest;
      assert p == [p[0]] + p[1..];
    }
  }

  /** Joining undoes splitting. */
  lemma {:induction false} JoinSplit<T>(s: seq<T>, sep: T)
    ensures Join(Split(s, sep), [sep]) == s
  {
    if s != [] {
      JoinSplit(s[1..], sep);
      HeadTail(s);
      var rest := Split(s[1..], sep);
      if s[0] == sep {
        TailOf([[]], rest);
      } else {
        TailOf([[s[0]] + rest[0]], rest[1..]);
        if |rest| > 1 {
          Assoc([s[0]], rest[0], [sep] + Join(rest[1..], [sep]));
          Assoc([s[0]] + rest[0], [sep], Join(rest[1..], [sep]));
          Assoc(rest[0], [sep], Join(rest[1..], [sep]));
        }
      }
    }
  }

  /** No piece holds the separator. */
  lemma {:induction false} SplitPieces<T>(s: seq<T>, sep: T)
    ensures forall p <- Split(s, sep) :: sep !in p
  {
    if s != [] {
      SplitPieces(s[1..], sep);
    }
  }
}
