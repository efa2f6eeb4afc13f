/**
 The string operations of Rust's standard library that `crates/logit-aws/src/creds.rs` reads its
 inputs with. A string is its sequence of Unicode scalar values.
 */
module Text {
  import opened Wrappers

  /** Unicode's White_Space, as `char::is_whitespace` has it. */
  predicate IsWhitespace(c: char) {
    var n := c as int;
    || 9 <= n <= 13 || n == 0x20 || n == 0x85 || n == 0xA0 || n == 0x1680 || 0x2000 <= n <= 0x200A
    || n == 0x2028 || n == 0x2029 || n == 0x202F || n == 0x205F || n == 0x3000
  }

  function TrimStart(s: string): string {
    if s != [] && IsWhitespace(s[0]) then TrimStart(s[1..]) else s
  }

  function TrimEnd(s: string): string {
    if s != [] && IsWhitespace(s[|s| - 1]) then TrimEnd(s[..|s| - 1]) else s
  }

  function Trim(s: string): string { TrimEnd(TrimStart(s)) }

  /** `s` with its ASCII letters in lower case. */
  function Lower(s: string): string {
    if s == [] then [] else [if 'A' <= s[0] <= 'Z' then s[0] + 32 as char else s[0]] + Lower(s[1..])
  }

  /** Where `c` first is in `s`, or `|s|`. */
  function FindChar(s: string, c: char): (at: nat)
    ensures at <= |s| && (at < |s| ==> s[at] == c)
  {
    if s == [] || s[0] == c then 0 else 1 + FindChar(s[1..], c)
  }

  lemma {:induction false} FindCharFirst(s: string, c: char, i: nat)
    requires i < FindChar(s, c)
    ensures s[i] != c
  {
    if i > 0 {
      FindCharFirst(s[1..], c, i - 1);
    }
  }

  predicate Occurs(p: string, s: string, at: int) { 0 <= at <= |s| && p <= s[at..] }

  /** Where `p` first is in `s`. */
  function Find(s: string, p: string): (r: Option<nat>)
    ensures r.Some? ==> Occurs(p, s, r.value) && forall i | 0 <= i < r.value :: !Occurs(p, s, i)
    ensures r.None? ==> forall i | 0 <= i <= |s| :: !Occurs(p, s, i)
  {
    FindFrom(s, p, 0)
  }

  function FindFrom(s: string, p: string, from: nat): (r: Option<nat>)
    requires from <= |s|
    ensures r.Some? ==> from <= r.value && Occurs(p, s, r.value) && forall i | from <= i < r.value :: !Occurs(p, s, i)
    ensures r.None? ==> forall i | from <= i <= |s| :: !Occurs(p, s, i)
    decreases |s| - from
  {
    if Occurs(p, s, from) then Some(from)
    else if from == |s| then None
    else FindFrom(s, p, from + 1)
  }

  /** `str::lines`: the pieces between line feeds, each without the carriage return before one. A
      last piece that is empty isn't a line. */
  function Lines(s: string): seq<string> {
    var at := FindChar(s, '\n');
    if s == [] then []
    else if at == |s| then [s]
    else [WithoutCr(s[..at])] + Lines(s[at + 1..])
  }

  function WithoutCr(s: string): string {
    if s != [] && s[|s| - 1] == '\r' then s[..|s| - 1] else s
  }

  /** `FindChar` gives the one position that has `c` first. */
  lemma {:induction false} FindCharIs(s: string, c: char, k: nat)
    requires k <= |s| && (k < |s| ==> s[k] == c) && forall i | 0 <= i < k :: s[i] != c
    ensures FindChar(s, c) == k
  {
    if k > 0 {
      FindCharIs(s[1..], c, k - 1);
    }
  }
}
