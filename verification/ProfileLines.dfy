/**
 The lines of a shared AWS file as `profile_keys` of `crates/logit-aws/src/creds.rs` reads them, said
 by how a line is written: where it is cut, what is trimmed, which headers are the profile's. A
 section written out plainly reads back as the keys it was written from.
 */
module ProfileLines {
  import Bytes
  import opened Text
  import opened Profile
  import opened Wrappers

  // ---- Trimming ----

  predicate AllWhite(s: string) { forall c <- s :: IsWhitespace(c) }

  /** No whitespace at either end. */
  predicate Bare(s: string) { s == "" || (!IsWhitespace(s[0]) && !IsWhitespace(s[|s| - 1])) }

  lemma {:induction false} TrimsStart(a: string, t: string)
    requires AllWhite(a) && (t == "" || !IsWhitespace(t[0]))
    ensures TrimStart(a + t) == t
  {
    if a != "" {
      Bytes.TailOf(a, t);
      assert a[0] in a && AllWhite(a[1..]);
      TrimsStart(a[1..], t);
    } else {
      assert a + t == t;
    }
  }

  lemma {:induction false} TrimsEnd(t: string, b: string)
    requires AllWhite(b) && (t == "" || !IsWhitespace(t[|t| - 1]))
    ensures TrimEnd(t + b) == t
  {
    if b != "" {
      var last := |b| - 1;
      assert b[last] in b && AllWhite(b[..last]);
      assert (t + b)[..|t + b| - 1] == t + b[..last];
      TrimsEnd(t, b[..last]);
    } else {
      assert t + b == t;
    }
  }

  /** The one part between the whitespace around it. */
  lemma TrimIs(a: string, t: string, b: string)
    requires AllWhite(a) && AllWhite(b) && Bare(t)
    ensures Trim(a + t + b) == t
  {
    if t == "" {
      assert a + t + b == (a + b) + "";
      TrimsStart(a + b, "");
    } else {
      Bytes.Assoc(a, t, b);
      TrimsStart(a, t + b);
      TrimsEnd(t, b);
    }
  }

  lemma BareStays(t: string)
    requires Bare(t)
    ensures Trim(t) == t
  {
    TrimIs("", t, "");
    assert "" + t + "" == t;
  }

  lemma {:induction false} StartSplits(s: string) returns (a: string)
    ensures AllWhite(a) && s == a + TrimStart(s)
    ensures TrimStart(s) == "" || !IsWhitespace(TrimStart(s)[0])
  {
    a := "";
    if s != "" && IsWhitespace(s[0]) {
      var a' := StartSplits(s[1..]);
      Bytes.HeadTail(s);
      a := [s[0]] + a';
      Bytes.Assoc([s[0]], a', TrimStart(s[1..]));
    }
  }

  lemma {:induction false} EndSplits(s: string) returns (b: string)
    ensures AllWhite(b) && s == TrimEnd(s) + b
    ensures TrimEnd(s) == "" || !IsWhitespace(TrimEnd(s)[|TrimEnd(s)| - 1])
  {
    b := "";
    if s != "" && IsWhitespace(s[|s| - 1]) {
      var front, last := s[..|s| - 1], s[|s| - 1];
      var b' := EndSplits(front);
      assert s == front + [last];
      b := b' + [last];
      Bytes.Assoc(TrimEnd(front), b', [last]);
    }
  }

  /** Every string is whitespace, then its trimmed part, then whitespace. */
  lemma TrimSplits(s: string) returns (a: string, b: string)
    ensures AllWhite(a) && AllWhite(b) && Bare(Trim(s)) && s == a + Trim(s) + b
  {
    a := StartSplits(s);
    b := EndSplits(TrimStart(s));
    Bytes.Assoc(a, Trim(s), b);
    if Trim(s) != "" {
      assert TrimStart(s)[0] == Trim(s)[0];
    }
  }

  // ---- Lines ----

  lemma FeedEnds(piece: string, rest: string)
    requires '\n' !in piece
    ensures Lines(piece + "\n" + rest) == [WithoutCr(piece)] + Lines(rest)
  {
    var s := piece + "\n" + rest;
    FindCharIs(s, '\n', |piece|);
    assert s[..|piece|] == piece && s[|piece| + 1..] == rest;
  }

  /** A line feed ends a line, whatever follows. */
  lemma LineFeedEnds(line: string, rest: string)
    requires '\n' !in line && (line == "" || line[|line| - 1] != '\r')
    ensures Lines(line + "\n" + rest) == [line] + Lines(rest)
  {
    FeedEnds(line, rest);
  }

  /** So does a carriage return with a line feed. */
  lemma CrLfEnds(line: string, rest: string)
    requires '\n' !in line
    ensures Lines(line + "\r\n" + rest) == [line] + Lines(rest)
  {
    var cut := line + "\r";
    assert line + "\r\n" == cut + "\n" && cut[..|line|] == line;
    FeedEnds(cut, rest);
  }

  /** What stands behind the last line feed is a line unless it is empty. */
  lemma LastLine(line: string)
    requires '\n' !in line
    ensures Lines(line) == if line == "" then [] else [line]
  {
    FindCharIs(line, '\n', |line|);
  }

  // ---- What a line is ----

  predicate Indented(raw: string) { raw != "" && (raw[0] == ' ' || raw[0] == '\t') }

  /** Indented, blank, a comment, or no assignment. */
  predicate IsIgnored(raw: string) {
    var t := Trim(raw);
    Indented(raw) || t == "" || t[0] == '#' || t[0] == ';' || (t[0] != '[' && '=' !in t)
  }

  /** `[section]`, whatever stands behind it. */
  predicate IsHeader(raw: string, section: string, rest: string) {
    !Indented(raw) && Trim(raw) == "[" + section + "]" + rest && ']' !in section
  }

  predicate IsOpenHeader(raw: string, rest: string) {
    !Indented(raw) && Trim(raw) == "[" + rest && ']' !in rest
  }

  /** `key=value` and then nothing or a comment: the first blank with `#` or `;` behind it. */
  ghost predicate IsAssignment(raw: string, key: string, value: string, comment: string) {
    && !Indented(raw) && Trim(raw) == key + "=" + (value + comment)
    && '=' !in key && (key == "" || (key[0] != '[' && key[0] != '#' && key[0] != ';'))
    && (comment == "" || CommentAt(value + comment, |value|))
    && forall i | 0 <= i < |value| :: !CommentAt(value + comment, i)
  }

  lemma IgnoredLine(raw: string, config: bool, name: string)
    requires IsIgnored(raw)
    ensures Classify(raw, config, name) == Skip
  {
    var t := Trim(raw);
    if t != "" && t[0] != '[' && '=' !in t {
      FindCharIs(t, '=', |t|);
    }
  }

  lemma HeaderIs(raw: string, config: bool, name: string, section: string, rest: string)
    requires IsHeader(raw, section, rest)
    ensures Classify(raw, config, name) == Header(Rank(Trim(section), config, name))
  {
    var t := Trim(raw);
    assert t[0] == '[' && t[1..] == section + "]" + rest;
    FindCharIs(t[1..], ']', |section|);
    assert t[1..][..|section|] == section;
  }

  /** `[name]` is the profile's in the credentials file. */
  lemma CredentialsHeader(raw: string, name: string, section: string, rest: string)
    requires IsHeader(raw, section, rest)
    ensures Classify(raw, false, name) == Header(if Trim(section) == name then 2 else 0)
  {
    HeaderIs(raw, false, name, section, rest);
  }

  /** `[profile name]` is the profile's in the config file, with any whitespace behind `profile `. */
  lemma ConfigHeader(raw: string, name: string, section: string, rest: string, profile: string)
    requires IsHeader(raw, section, rest) && Trim(section) == "profile " + profile
    ensures Classify(raw, true, name) == Header(if Trim(profile) == name then 2 else 0)
  {
    HeaderIs(raw, true, name, section, rest);
    assert ("profile " + profile)[8..] == profile;
  }

  /** Without `profile `, only `[default]` is one, and only the default profile's. */
  lemma BareConfigHeader(raw: string, name: string, section: string, rest: string)
    requires IsHeader(raw, section, rest) && !("profile " <= Trim(section))
    ensures Classify(raw, true, name)
         == Header(if Trim(section) == "default" && name == "default" then 1 else 0)
  {
    HeaderIs(raw, true, name, section, rest);
  }

  /** A header that isn't closed is nobody's. */
  lemma OpenHeader(raw: string, config: bool, name: string, rest: string)
    requires IsOpenHeader(raw, rest)
    ensures Classify(raw, config, name) == Header(0)
  {
    assert Trim(raw)[1..] == rest;
    FindCharIs(rest, ']', |rest|);
  }

  /** The value ends where its first comment starts. */
  lemma CutIs(value: string, comment: string)
    requires comment == "" || CommentAt(value + comment, |value|)
    requires forall i | 0 <= i < |value| :: !CommentAt(value + comment, i)
    ensures CutEach(value + comment, MARKERS) == value
  {
    var right := value + comment;
    CutsAreOneCut(right);
    assert FirstComment(right, 0) == |value| by {
      assert !CommentAt(right, |right|);
    }
    assert right[..|value|] == value;
  }

  lemma AssignmentIs(raw: string, config: bool, name: string, key: string, value: string, comment: string)
    requires IsAssignment(raw, key, value, comment)
    ensures Classify(raw, config, name) == Assign(Trim(key), Trim(value))
  {
    var t := Trim(raw);
    FindCharIs(t, '=', |key|);
    assert t[..|key|] == key && t[|key| + 1..] == value + comment;
    CutIs(value, comment);
    assert key != "" ==> t[0] == key[0];
  }

  /** Every line is one of these. */
  lemma EveryLine(raw: string)
    ensures || IsIgnored(raw) || (exists rest :: IsOpenHeader(raw, rest))
            || (exists section, rest :: IsHeader(raw, section, rest))
            || (exists key, value, comment :: IsAssignment(raw, key, value, comment))
  {
    if !IsIgnored(raw) {
      var t := Trim(raw);
      if t[0] == '[' {
        HeaderShape(raw);
      } else {
        AssignmentShape(raw);
      }
    }
  }

  lemma HeaderShape(raw: string)
    requires !Indented(raw) && Trim(raw) != "" && Trim(raw)[0] == '['
    ensures (exists rest :: IsOpenHeader(raw, rest)) || exists section, rest :: IsHeader(raw, section, rest)
  {
    var t := Trim(raw);
    var rest := t[1..];
    var at := FindChar(rest, ']');
    Bytes.HeadTail(t);
    forall i | 0 <= i < at
      ensures rest[i] != ']'
    {
      FindCharFirst(rest, ']', i);
    }
    if at == |rest| {
      assert IsOpenHeader(raw, rest);
    } else {
      assert t == "[" + rest[..at] + "]" + rest[at + 1..];
      assert IsHeader(raw, rest[..at], rest[at + 1..]);
    }
  }

  /** Every value ends at a comment or at its end. */
  lemma ValueShape(right: string) returns (value: string, comment: string)
    ensures right == value + comment && (comment == "" || CommentAt(right, |value|))
    ensures forall i | 0 <= i < |value| :: !CommentAt(right, i)
  {
    var cut := FirstComment(right, 0);
    value, comment := right[..cut], right[cut..];
  }

  lemma KeyShape(t: string) returns (key: string, right: string)
    requires '=' in t
    ensures '=' !in key && t == key + "=" + right
  {
    var at := FindChar(t, '=');
    forall i | 0 <= i < at
      ensures t[i] != '='
    {
      FindCharFirst(t, '=', i);
    }
    key, right := t[..at], t[at + 1..];
  }

  lemma AssignmentShape(raw: string)
    requires !IsIgnored(raw) && Trim(raw)[0] != '['
    ensures exists key, value, comment :: IsAssignment(raw, key, value, comment)
  {
    var key, right := KeyShape(Trim(raw));
    var value, comment := ValueShape(right);
    assert key != "" ==> key[0] == Trim(raw)[0];
    assert IsAssignment(raw, key, value, comment);
  }

  // ---- The header above ----

  /** The last header decides the rank lines stand under. */
  lemma {:induction false} HeaderAbove(kinds: seq<LineKind>, i: nat)
    requires i < |kinds| && kinds[i].Header? && forall j | i < j < |kinds| :: !kinds[j].Header?
    ensures RankAfter(kinds) == kinds[i].rank
  {
    if i < |kinds| - 1 {
      HeaderAbove(kinds[..|kinds| - 1], i);
    }
  }

  lemma {:induction false} NoHeaderAbove(kinds: seq<LineKind>)
    requires forall j | 0 <= j < |kinds| :: !kinds[j].Header?
    ensures RankAfter(kinds) == 0
  {
    if kinds != [] {
      NoHeaderAbove(kinds[..|kinds| - 1]);
    }
  }

  // ---- A section, written and read ----

  type Pair = (string, string)

  /** A key and a value that can be written as they are. */
  ghost predicate Plain(p: Pair) {
    && p.0 != "" && Bare(p.0) && Bare(p.1) && '=' !in p.0 && '\n' !in p.0 && '\n' !in p.1
    && p.0[0] != '[' && p.0[0] != '#' && p.0[0] != ';'
    && forall i | 0 <= i < |p.1| :: !CommentAt(p.1, i)
  }

  function Line(p: Pair): string { p.0 + "=" + p.1 }

  function Written(pairs: seq<Pair>): string {
    if pairs == [] then "" else Line(pairs[0]) + "\n" + Written(pairs[1..])
  }

  lemma PlainLine(p: Pair, config: bool, name: string)
    requires Plain(p)
    ensures Classify(Line(p), config, name) == Assign(p.0, p.1)
    ensures '\n' !in Line(p) && Line(p)[|Line(p)| - 1] != '\r'
  {
    var line := Line(p);
    assert line[0] == p.0[0];
    assert !IsWhitespace('=');
    BareStays(line);
    BareStays(p.0);
    BareStays(p.1);
    assert p.1 + "" == p.1;
    assert IsAssignment(line, p.0, p.1, "");
    AssignmentIs(line, config, name, p.0, p.1, "");
  }

  lemma {:induction false} WrittenLines(pairs: seq<Pair>)
    requires forall p <- pairs :: Plain(p)
    ensures Lines(Written(pairs)) == seq(|pairs|, i requires 0 <= i < |pairs| => Line(pairs[i]))
  {
    if pairs == [] {
      LastLine("");
    } else {
      assert Plain(pairs[0]);
      PlainLine(pairs[0], false, "");
      WrittenLines(pairs[1..]);
      LineFeedEnds(Line(pairs[0]), Written(pairs[1..]));
    }
  }

  /** The ways to head the profile's section. */
  predicate Heads(header: string, config: bool, name: string) {
    if !config then header == "[" + name + "]"
    else header == "[profile " + name + "]" || (name == "default" && header == "[default]")
  }

  /** A name that can stand in a header as it is. */
  predicate PlainName(name: string) { name != "" && Bare(name) && ']' !in name && '\n' !in name }

  /** A header with a bare section in it. */
  lemma PlainHeader(section: string)
    requires Bare(section) && section != "" && ']' !in section && '\n' !in section
    ensures var header := "[" + section + "]";
            IsHeader(header, section, "") && '\n' !in header && header[|header| - 1] != '\r'
    ensures Trim(section) == section
  {
    var header := "[" + section + "]";
    assert Bare(header) by {
      assert !IsWhitespace('[') && !IsWhitespace(']');
    }
    BareStays(header);
    BareStays(section);
    assert header + "" == header;
  }

  lemma ProfileSection(name: string)
    requires PlainName(name)
    ensures Bare("profile " + name) && ']' !in "profile " + name && '\n' !in "profile " + name
  {
    assert !IsWhitespace('p');
  }

  lemma HeaderRanks(header: string, config: bool, name: string)
    requires PlainName(name) && Heads(header, config, name)
    ensures Classify(header, config, name) == Header(if header == "[default]" && config then 1 else 2)
    ensures '\n' !in header && header[|header| - 1] != '\r'
  {
    if !config {
      PlainHeader(name);
      CredentialsHeader(header, name, name, "");
    } else if header == "[default]" {
      DefaultHeader();
    } else {
      var section := "profile " + name;
      assert header == "[" + section + "]";
      ProfileSection(name);
      PlainHeader(section);
      BareStays(name);
      ConfigHeader(header, name, section, "", name);
    }
  }

  lemma DefaultHeader()
    ensures Classify("[default]", true, "default") == Header(1)
  {
    assert Bare("default") by {
      assert !IsWhitespace('d') && !IsWhitespace('t');
    }
    PlainHeader("default");
    assert "[default]" == "[" + "default" + "]";
    BareConfigHeader("[default]", "default", "default", "");
  }

  /** A section's lines, classified. */
  function Heading(rank: nat, pairs: seq<Pair>): seq<LineKind> {
    [Header(rank)] + seq(|pairs|, i requires 0 <= i < |pairs| => Assign(pairs[i].0, pairs[i].1))
  }

  lemma PairKinds(pairs: seq<Pair>, config: bool, name: string)
    requires forall p <- pairs :: Plain(p)
    ensures ClassifyAll(seq(|pairs|, i requires 0 <= i < |pairs| => Line(pairs[i])), config, name)
         == seq(|pairs|, i requires 0 <= i < |pairs| => Assign(pairs[i].0, pairs[i].1))
  {
    forall i | 0 <= i < |pairs|
      ensures Classify(Line(pairs[i]), config, name) == Assign(pairs[i].0, pairs[i].1)
    {
      assert Plain(pairs[i]);
      PlainLine(pairs[i], config, name);
    }
  }

  lemma FirstKind(line: string, lines: seq<string>, config: bool, name: string)
    ensures ClassifyAll([line] + lines, config, name)
         == [Classify(line, config, name)] + ClassifyAll(lines, config, name)
  {
  }

  lemma WrittenKinds(header: string, config: bool, name: string, pairs: seq<Pair>, rank: nat)
    requires (forall p <- pairs :: Plain(p)) && Classify(header, config, name) == Header(rank)
    requires '\n' !in header && header != "" && header[|header| - 1] != '\r'
    ensures ClassifyAll(Lines(header + "\n" + Written(pairs)), config, name) == Heading(rank, pairs)
  {
    LineFeedEnds(header, Written(pairs));
    WrittenLines(pairs);
    FirstKind(header, Lines(Written(pairs)), config, name);
    PairKinds(pairs, config, name);
  }

  lemma HeadingCounts(rank: nat, pairs: seq<Pair>, j: nat)
    requires 0 < j <= |pairs|
    ensures Counts(Heading(rank, pairs), rank, j)
  {
    HeaderAbove(Heading(rank, pairs)[..j], 0);
  }

  lemma HeadingTop(rank: nat, pairs: seq<Pair>)
    ensures Top(Heading(rank, pairs)) == rank
  {
    TopMeaning(Heading(rank, pairs));
    assert Heading(rank, pairs)[0] == Header(rank);
  }

  /** Position `i` is the last that has its key. */
  ghost predicate LastPair(pairs: seq<Pair>, i: int) {
    0 <= i < |pairs| && forall j | i < j < |pairs| :: pairs[j].0 != pairs[i].0
  }

  /** Every key that was written, with the last value written for it, and no other. */
  ghost predicate ReadsBack(keys: Keys, pairs: seq<Pair>) {
    && (forall i | LastPair(pairs, i) :: pairs[i].0 in keys && keys[pairs[i].0] == pairs[i].1)
    && (forall k <- keys :: exists i :: 0 <= i < |pairs| && pairs[i].0 == k)
  }

  lemma HeadingLast(rank: nat, pairs: seq<Pair>, i: int)
    requires LastPair(pairs, i)
    ensures LastAssignment(Heading(rank, pairs), rank, pairs[i].0, i + 1)
  {
    var kinds := Heading(rank, pairs);
    HeadingCounts(rank, pairs, i + 1);
    forall j | i + 1 < j < |kinds| && Counts(kinds, rank, j)
      ensures kinds[j].key != pairs[i].0
    {
      assert kinds[j].key == pairs[j - 1].0;
    }
  }

  lemma HeadingKey(rank: nat, pairs: seq<Pair>, i: int)
    requires LastPair(pairs, i)
    ensures var keys := KeysOf(Heading(rank, pairs), rank); pairs[i].0 in keys && keys[pairs[i].0] == pairs[i].1
  {
    KeysMeaning(Heading(rank, pairs), rank, pairs[i].0);
    HeadingLast(rank, pairs, i);
  }

  lemma HeadingKeys(rank: nat, pairs: seq<Pair>)
    ensures ReadsBack(KeysOf(Heading(rank, pairs), rank), pairs)
  {
    var kinds := Heading(rank, pairs);
    var keys := KeysOf(kinds, rank);
    forall i | LastPair(pairs, i)
      ensures pairs[i].0 in keys && keys[pairs[i].0] == pairs[i].1
    {
      HeadingKey(rank, pairs, i);
    }
    forall k <- keys
      ensures exists i :: 0 <= i < |pairs| && pairs[i].0 == k
    {
      KeysMeaning(kinds, rank, k);
      var j :| LastAssignment(kinds, rank, k, j);
      assert pairs[j - 1].0 == k;
    }
  }

  /** A section written out plainly reads back as its pairs. */
  lemma WrittenProfile(header: string, config: bool, name: string, pairs: seq<Pair>)
    requires PlainName(name) && Heads(header, config, name) && forall p <- pairs :: Plain(p)
    ensures var keys := ProfileKeysOf(header + "\n" + Written(pairs), config, name);
            keys.Some? && ReadsBack(keys.value, pairs)
  {
    var rank := if header == "[default]" && config then 1 else 2;
    HeaderRanks(header, config, name);
    WrittenKinds(header, config, name, pairs, rank);
    HeadingTop(rank, pairs);
    HeadingKeys(rank, pairs);
  }
}
