/**
 `profile_keys` of `crates/logit-aws/src/creds.rs`: a profile's keys in a shared AWS file.

 The reader collects the sections that match, each with its rank, and merges those of the highest
 rank in file order. The meaning below never speaks of sections: an assignment belongs to the last
 header above it, and the result is fixed by the assignments under headers of the highest rank.
 */
module Profile {
  import opened Text
  import opened Wrappers

  type Keys = map<string, string>

  /** What a line is: nothing, a header with its rank (0 when it isn't the profile's), or an
      assignment. */
  datatype LineKind = Skip | Header(rank: nat) | Assign(key: string, value: string)

  // ---- A line ----

  /** `[profile <name>]` ranks 2 and `[default]` 1 in the config file; `[<name>]` ranks 2 in the
      credentials file. */
  function Rank(section: string, config: bool, name: string): nat {
    if !config then if section == name then 2 else 0
    else if "profile " <= section then if Trim(section[8..]) == name then 2 else 0
    else if section == "default" && name == "default" then 1
    else 0
  }

  const MARKERS: seq<string> := [" #", " ;", "\t#", "\t;"]

  function CutAt(value: string, marker: string): string {
    match Find(value, marker)
    case Some(at) => value[..at]
    case None => value
  }

  /** The value cut at each marker in turn. */
  function CutEach(value: string, markers: seq<string>): string
    decreases markers
  {
    if markers == [] then value else CutEach(CutAt(value, markers[0]), markers[1..])
  }

  function Classify(raw: string, config: bool, name: string): LineKind {
    var line := Trim(raw);
    if raw != [] && (raw[0] == ' ' || raw[0] == '\t') then Skip
    else if line == [] || line[0] == '#' || line[0] == ';' then Skip
    else if line[0] == '[' then
      var rest := line[1..];
      var at := FindChar(rest, ']');
      if at == |rest| then Header(0) else Header(Rank(Trim(rest[..at]), config, name))
    else
      var at := FindChar(line, '=');
      if at == |line| then Skip
      else Assign(Trim(line[..at]), Trim(CutEach(line[at + 1..], MARKERS)))
  }

  function ClassifyAll(lines: seq<string>, config: bool, name: string): (kinds: seq<LineKind>)
    ensures |kinds| == |lines|
    ensures forall i | 0 <= i < |lines| :: kinds[i] == Classify(lines[i], config, name)
  {
    seq(|lines|, i requires 0 <= i < |lines| => Classify(lines[i], config, name))
  }

  // ---- The meaning ----

  /** The rank of the last header among `kinds`, or 0. */
  function RankAfter(kinds: seq<LineKind>): nat {
    if kinds == [] then 0
    else
      var last := kinds[|kinds| - 1];
      if last.Header? then last.rank else RankAfter(kinds[..|kinds| - 1])
  }

  /** The highest rank among the headers, or 0. */
  function Top(kinds: seq<LineKind>): nat {
    if kinds == [] then 0
    else
      var before, last := Top(kinds[..|kinds| - 1]), kinds[|kinds| - 1];
      if last.Header? && last.rank > before then last.rank else before
  }

  /** Whether line `j` is an assignment under a header of rank `r`. */
  predicate Counts(kinds: seq<LineKind>, r: nat, j: int) {
    0 <= j < |kinds| && kinds[j].Assign? && RankAfter(kinds[..j]) == r
  }

  /** Those assignments, in file order. */
  function Assignments(kinds: seq<LineKind>, r: nat): seq<(string, string)> {
    if kinds == [] then []
    else
      var last := |kinds| - 1;
      Assignments(kinds[..last], r)
      + if Counts(kinds, r, last) then [(kinds[last].key, kinds[last].value)] else []
  }

  function Assigned(list: seq<(string, string)>): Keys {
    if list == [] then map[]
    else Assigned(list[..|list| - 1])[list[|list| - 1].0 := list[|list| - 1].1]
  }

  function KeysOf(kinds: seq<LineKind>, r: nat): Keys { Assigned(Assignments(kinds, r)) }

  function ProfileKeysOf(text: string, config: bool, name: string): Option<Keys> {
    var kinds := ClassifyAll(Lines(text), config, name);
    if Top(kinds) == 0 then None else Some(KeysOf(kinds, Top(kinds)))
  }

  // ---- The reader ----

  datatype Section = Section(rank: nat, keys: Keys)

  /** The sections of rank `r`, merged in order. */
  function Merged(sections: seq<Section>, r: nat): Keys {
    if sections == [] then map[]
    else
      var last := sections[|sections| - 1];
      var before := Merged(sections[..|sections| - 1], r);
      if last.rank == r then before + last.keys else before
  }

  function MaxRank(sections: seq<Section>): nat {
    if sections == [] then 0
    else
      var before, last := MaxRank(sections[..|sections| - 1]), sections[|sections| - 1].rank;
      if last > before then last else before
  }

  /** The sections hold what the lines so far say, and `current` is the last one, if the last
      header matched. */
  ghost predicate Collected(kinds: seq<LineKind>, sections: seq<Section>, current: Option<nat>) {
    && (forall r | r > 0 :: Merged(sections, r) == KeysOf(kinds, r))
    && MaxRank(sections) == Top(kinds)
    && (current.None? ==> RankAfter(kinds) == 0)
    && (current.Some? ==> sections != [] && current.value == |sections| - 1
                          && sections[|sections| - 1].rank == RankAfter(kinds) > 0)
  }

  lemma {:induction false} OneMoreKind(kinds: seq<LineKind>, kind: LineKind, r: nat)
    ensures RankAfter(kinds + [kind]) == if kind.Header? then kind.rank else RankAfter(kinds)
    ensures Assignments(kinds + [kind], r)
         == Assignments(kinds, r) + if kind.Assign? && RankAfter(kinds) == r then [(kind.key, kind.value)] else []
    ensures Top(kinds + [kind]) == if kind.Header? && kind.rank > Top(kinds) then kind.rank else Top(kinds)
  {
    var all := kinds + [kind];
    assert all[..|kinds|] == kinds;
  }

  lemma {:induction false} OneMoreLine(kinds: seq<LineKind>, kind: LineKind, r: nat)
    ensures KeysOf(kinds + [kind], r)
         == if kind.Assign? && RankAfter(kinds) == r then KeysOf(kinds, r)[kind.key := kind.value]
            else KeysOf(kinds, r)
  {
    OneMoreKind(kinds, kind, r);
    if kind.Assign? && RankAfter(kinds) == r {
      AssignedLast(Assignments(kinds, r), kind.key, kind.value);
    } else {
      assert Assignments(kinds, r) + [] == Assignments(kinds, r);
    }
  }

  lemma {:induction false} AssignedLast(list: seq<(string, string)>, key: string, value: string)
    ensures Assigned(list + [(key, value)]) == Assigned(list)[key := value]
  {
    assert (list + [(key, value)])[..|list|] == list;
  }

  lemma OneMoreSection(sections: seq<Section>, s: Section, r: nat)
    ensures Merged(sections + [s], r)
         == if s.rank == r then Merged(sections, r) + s.keys else Merged(sections, r)
    ensures MaxRank(sections + [s]) == if s.rank > MaxRank(sections) then s.rank else MaxRank(sections)
  {
    assert (sections + [s])[..|sections|] == sections;
  }

  lemma HeaderCollected(kinds: seq<LineKind>, sections: seq<Section>, current: Option<nat>, rank: nat)
    requires Collected(kinds, sections, current)
    ensures rank == 0 ==> Collected(kinds + [Header(rank)], sections, None)
    ensures rank > 0 ==>
              Collected(kinds + [Header(rank)], sections + [Section(rank, map[])], Some(|sections|))
  {
    forall r | r > 0
      ensures KeysOf(kinds + [Header(rank)], r) == KeysOf(kinds, r)
      ensures Merged(sections + [Section(rank, map[])], r) == Merged(sections, r)
    {
      OneMoreLine(kinds, Header(rank), r);
      OneMoreSection(sections, Section(rank, map[]), r);
      assert Merged(sections, r) + map[] == Merged(sections, r);
    }
    OneMoreKind(kinds, Header(rank), 1);
    OneMoreSection(sections, Section(rank, map[]), 1);
  }

  lemma AssignMerged(kinds: seq<LineKind>, before: seq<Section>, last: Section, key: string, value: string, r: nat)
    requires Merged(before + [last], r) == KeysOf(kinds, r) && last.rank == RankAfter(kinds)
    ensures Merged(before + [last.(keys := last.keys[key := value])], r) == KeysOf(kinds + [Assign(key, value)], r)
  {
    OneMoreLine(kinds, Assign(key, value), r);
    OneMoreSection(before, last, r);
    OneMoreSection(before, last.(keys := last.keys[key := value]), r);
    MergeThenAssign(Merged(before, r), last.keys, key, value);
  }

  lemma MergeThenAssign(a: Keys, b: Keys, key: string, value: string)
    ensures a + b[key := value] == (a + b)[key := value]
  {
  }

  lemma AssignCollected(kinds: seq<LineKind>, sections: seq<Section>, at: nat, key: string, value: string)
    requires Collected(kinds, sections, Some(at))
    ensures Collected(kinds + [Assign(key, value)],
                      sections[at := sections[at].(keys := sections[at].keys[key := value])], Some(at))
  {
    var before, last := sections[..at], sections[at];
    var now := last.(keys := last.keys[key := value]);
    assert sections == before + [last] && sections[at := now] == before + [now];
    forall r | r > 0
      ensures Merged(before + [now], r) == KeysOf(kinds + [Assign(key, value)], r)
    {
      assert Merged(before + [last], r) == KeysOf(kinds, r);
      AssignMerged(kinds, before, last, key, value, r);
    }
    OneMoreKind(kinds, Assign(key, value), 1);
    OneMoreSection(before, last, 1);
    OneMoreSection(before, now, 1);
  }

  lemma SkipCollected(kinds: seq<LineKind>, sections: seq<Section>, current: Option<nat>, kind: LineKind)
    requires Collected(kinds, sections, current) && (kind.Skip? || (kind.Assign? && current.None?))
    ensures Collected(kinds + [kind], sections, current)
  {
    forall r | r > 0
      ensures KeysOf(kinds + [kind], r) == KeysOf(kinds, r)
    {
      OneMoreLine(kinds, kind, r);
    }
    OneMoreKind(kinds, kind, 1);
  }

  method CutComments(value: string) returns (cut: string)
    ensures cut == CutEach(value, MARKERS)
  {
    cut := value;
    for i := 0 to |MARKERS|
      invariant CutEach(value, MARKERS) == CutEach(cut, MARKERS[i..])
    {
      assert MARKERS[i..][0] == MARKERS[i] && MARKERS[i..][1..] == MARKERS[i + 1..];
      var at := Find(cut, MARKERS[i]);
      if at.Some? {
        cut := cut[..at.value];
      }
    }
  }

  method ReadLine(raw: string, config: bool, name: string) returns (kind: LineKind)
    ensures kind == Classify(raw, config, name)
  {
    if raw != [] && (raw[0] == ' ' || raw[0] == '\t') {
      return Skip;
    }
    var line := Trim(raw);
    if line == [] || line[0] == '#' || line[0] == ';' {
      return Skip;
    }
    if line[0] == '[' {
      var rest := line[1..];
      var at := FindChar(rest, ']');
      if at == |rest| {
        return Header(0);
      }
      return Header(Rank(Trim(rest[..at]), config, name));
    }
    var at := FindChar(line, '=');
    if at == |line| {
      return Skip;
    }
    var value := CutComments(line[at + 1..]);
    return Assign(Trim(line[..at]), Trim(value));
  }

  method ReadSections(text: string, config: bool, name: string) returns (sections: seq<Section>)
    ensures exists current :: Collected(ClassifyAll(Lines(text), config, name), sections, current)
  {
    var lines := Lines(text);
    sections := [];
    var current: Option<nat> := None;
    ghost var seen: seq<LineKind> := [];
    for i := 0 to |lines|
      invariant |seen| == i && forall j | 0 <= j < i :: seen[j] == Classify(lines[j], config, name)
      invariant Collected(seen, sections, current)
    {
      var kind := ReadLine(lines[i], config, name);
      sections, current := TakeLine(sections, current, kind, seen);
      seen := seen + [kind];
    }
    assert seen == ClassifyAll(lines, config, name);
  }

  /** One line's turn: a section opened, a key set in the current one, or nothing. */
  method TakeLine(sections: seq<Section>, current: Option<nat>, kind: LineKind, ghost kinds: seq<LineKind>)
      returns (sections': seq<Section>, current': Option<nat>)
    requires Collected(kinds, sections, current)
    ensures Collected(kinds + [kind], sections', current')
  {
    sections', current' := sections, current;
    match kind {
      case Skip =>
        SkipCollected(kinds, sections, current, kind);
      case Header(rank) =>
        HeaderCollected(kinds, sections, current, rank);
        current' := None;
        if rank > 0 {
          sections' := sections + [Section(rank, map[])];
          current' := Some(|sections|);
        }
      case Assign(key, value) =>
        if current.None? {
          SkipCollected(kinds, sections, current, kind);
        } else {
          var at := current.value;
          AssignCollected(kinds, sections, at, key, value);
          sections' := sections[at := sections[at].(keys := sections[at].keys[key := value])];
        }
    }
  }

  method MergeSections(sections: seq<Section>) returns (keys: Option<Keys>)
    ensures keys == if MaxRank(sections) == 0 then None else Some(Merged(sections, MaxRank(sections)))
  {
    var top := MaxRank(sections);
    if top == 0 {
      return None;
    }
    var merged: Keys := map[];
    for i := 0 to |sections|
      invariant merged == Merged(sections[..i], top)
    {
      assert sections[..i + 1][..i] == sections[..i];
      if sections[i].rank == top {
        merged := merged + sections[i].keys;
      }
    }
    assert sections[..|sections|] == sections;
    return Some(merged);
  }

  method ProfileKeys(text: string, config: bool, name: string) returns (keys: Option<Keys>)
    ensures keys == ProfileKeysOf(text, config, name)
  {
    var sections := ReadSections(text, config, name);
    keys := MergeSections(sections);
  }

  // ---- What the result says ----

  /** The last assignment of `key` under a header of rank `r` is on line `j`. */
  ghost predicate LastAssignment(kinds: seq<LineKind>, r: nat, key: string, j: int) {
    && Counts(kinds, r, j) && kinds[j].key == key
    && forall i | j < i < |kinds| && Counts(kinds, r, i) :: kinds[i].key != key
  }

  /** A key is there exactly when some line under such a header assigns it, and its value is the
      last one's. */
  lemma {:induction false} KeysMeaning(kinds: seq<LineKind>, r: nat, key: string)
    ensures key in KeysOf(kinds, r) <==> exists j :: LastAssignment(kinds, r, key, j)
    ensures forall j | LastAssignment(kinds, r, key, j) ::
              key in KeysOf(kinds, r) && KeysOf(kinds, r)[key] == kinds[j].value
  {
    if kinds != [] {
      var last := |kinds| - 1;
      var before, kind := kinds[..last], kinds[last];
      assert kinds == before + [kind];
      KeysMeaning(before, r, key);
      OneMoreLine(before, kind, r);
      forall j | 0 <= j < last
        ensures Counts(kinds, r, j) <==> Counts(before, r, j)
      {
        assert kinds[..j] == before[..j];
      }
      if Counts(kinds, r, last) && kind.key == key {
        assert LastAssignment(kinds, r, key, last);
      } else {
        forall j
          ensures LastAssignment(kinds, r, key, j) <==> LastAssignment(before, r, key, j)
        {
          LastStaysLast(kinds, r, key, j);
        }
      }
    }
  }

  lemma LastStaysLast(kinds: seq<LineKind>, r: nat, key: string, j: int)
    requires kinds != []
    requires forall i | 0 <= i < |kinds| - 1 :: Counts(kinds, r, i) <==> Counts(kinds[..|kinds| - 1], r, i)
    requires !(Counts(kinds, r, |kinds| - 1) && kinds[|kinds| - 1].key == key)
    ensures LastAssignment(kinds, r, key, j) <==> LastAssignment(kinds[..|kinds| - 1], r, key, j)
  {
  }

  /** A header of rank `r`, of some line. */
  predicate HasHeader(kinds: seq<LineKind>, r: nat) {
    exists i :: 0 <= i < |kinds| && kinds[i].Header? && kinds[i].rank == r
  }

  lemma {:induction false} TopMeaning(kinds: seq<LineKind>)
    ensures Top(kinds) > 0 ==> HasHeader(kinds, Top(kinds))
    ensures forall i | 0 <= i < |kinds| && kinds[i].Header? :: kinds[i].rank <= Top(kinds)
  {
    if kinds != [] {
      var last := |kinds| - 1;
      TopMeaning(kinds[..last]);
      if Top(kinds) > 0 && !(kinds[last].Header? && kinds[last].rank == Top(kinds)) {
        var i :| 0 <= i < last && kinds[..last][i].Header? && kinds[..last][i].rank == Top(kinds);
        assert kinds[i].Header?;
      }
      forall i | 0 <= i < |kinds| && kinds[i].Header?
        ensures kinds[i].rank <= Top(kinds)
      {
        assert i < last ==> kinds[..last][i] == kinds[i];
      }
    }
  }

  /** No keys come back exactly when no section is the profile's. Otherwise each key is the one the
      last assignment under a header of the highest rank gives, wherever the sections stand. */
  lemma ProfileMeaning(text: string, config: bool, name: string)
    ensures var kinds := ClassifyAll(Lines(text), config, name);
            var keys := ProfileKeysOf(text, config, name);
            && (keys.None? <==> forall i | 0 <= i < |kinds| && kinds[i].Header? :: kinds[i].rank == 0)
            && (keys.Some? ==>
                  && HasHeader(kinds, Top(kinds))
                  && (forall i | 0 <= i < |kinds| && kinds[i].Header? :: kinds[i].rank <= Top(kinds))
                  && (forall k :: k in keys.value <==> exists j :: LastAssignment(kinds, Top(kinds), k, j))
                  && (forall k, j | LastAssignment(kinds, Top(kinds), k, j) ::
                        k in keys.value && keys.value[k] == kinds[j].value))
  {
    var kinds := ClassifyAll(Lines(text), config, name);
    TopMeaning(kinds);
    forall k
      ensures k in KeysOf(kinds, Top(kinds)) <==> exists j :: LastAssignment(kinds, Top(kinds), k, j)
      ensures forall j | LastAssignment(kinds, Top(kinds), k, j) ::
                k in KeysOf(kinds, Top(kinds)) && KeysOf(kinds, Top(kinds))[k] == kinds[j].value
    {
      KeysMeaning(kinds, Top(kinds), k);
    }
  }

  // ---- Comments ----

  /** A comment starts at `i`: a blank, then `#` or `;`. */
  predicate CommentAt(value: string, i: int) {
    && 0 <= i < |value| - 1
    && (value[i] == ' ' || value[i] == '\t') && (value[i + 1] == '#' || value[i + 1] == ';')
  }

  /** The first comment's start, or the end. */
  function FirstComment(value: string, from: nat): (at: nat)
    requires from <= |value|
    ensures from <= at <= |value| && (at < |value| ==> CommentAt(value, at))
    ensures forall i | from <= i < at :: !CommentAt(value, i)
    decreases |value| - from
  {
    if from == |value| || CommentAt(value, from) then from else FirstComment(value, from + 1)
  }

  predicate IsMarker(m: string) { |m| == 2 && (m[0] == ' ' || m[0] == '\t') && (m[1] == '#' || m[1] == ';') }

  lemma MarkerOccurs(value: string, m: string, i: int)
    requires |m| == 2
    ensures Occurs(m, value, i) <==> 0 <= i < |value| - 1 && value[i] == m[0] && value[i + 1] == m[1]
  {
    if 0 <= i < |value| - 1 {
      assert value[i..][..2] == [value[i], value[i + 1]];
      assert m == [m[0], m[1]];
    }
  }

  /** `first` starts the first comment of `value`, or is its end or beyond. */
  ghost predicate NoneBefore(value: string, first: nat) {
    first <= |value| && forall i | 0 <= i < first :: !CommentAt(value, i)
  }

  /** `cut` is `value` cut at or after `first`, its comments whole. */
  ghost predicate CutAfter(value: string, cut: string, first: nat) {
    && cut <= value && first <= |cut|
    && forall i :: CommentAt(cut, i) <==> CommentAt(value, i) && i < |cut|
  }

  /** Cutting at one marker leaves every comment before the cut whole, and none of that marker:
      markers don't overlap. */
  lemma CutOnce(value: string, m: string, first: nat)
    requires IsMarker(m) && NoneBefore(value, first)
    ensures var cut := CutAt(value, m);
            && CutAfter(value, cut, first) && NoneBefore(cut, first)
            && (forall i | CommentAt(cut, i) :: cut[i..i + 2] != m)
  {
    var cut := CutAt(value, m);
    MarkerOccurs(value, m, |cut|);
    if |cut| < |value| {
      assert CommentAt(value, |cut|);
    }
    assert forall i :: CommentAt(cut, i) ==> CommentAt(value, i);
    forall i | CommentAt(cut, i)
      ensures cut[i..i + 2] != m
    {
      NotTheMarker(value, m, i);
      assert cut[i..i + 2] == [value[i], value[i + 1]];
    }
  }

  /** No marker starts before the cut it makes. */
  lemma NotTheMarker(value: string, m: string, i: int)
    requires |m| == 2 && 0 <= i < |CutAt(value, m)| - 1
    ensures [value[i], value[i + 1]] != m
  {
    MarkerOccurs(value, m, i);
  }

  lemma {:induction false} CutTogether(value: string, markers: seq<string>, first: nat)
    requires (forall m <- markers :: IsMarker(m)) && NoneBefore(value, first)
    ensures var cut := CutEach(value, markers);
            && CutAfter(value, cut, first)
            && (forall i | CommentAt(cut, i) :: cut[i..i + 2] !in markers)
    decreases markers
  {
    if markers != [] {
      var m, more := markers[0], markers[1..];
      var once := CutAt(value, m);
      var cut := CutEach(once, more);
      assert markers == [m] + more;
      CutOnce(value, m, first);
      CutTogether(once, more, first);
      forall i | CommentAt(cut, i)
        ensures cut[i..i + 2] !in markers
      {
        assert once[i..i + 2] == cut[i..i + 2];
      }
    }
  }

  /** Cutting at the four markers one after another is cutting at the first comment. */
  lemma CutsAreOneCut(value: string)
    ensures CutEach(value, MARKERS) == value[..FirstComment(value, 0)]
  {
    var first := FirstComment(value, 0);
    var cut := CutEach(value, MARKERS);
    CutTogether(value, MARKERS, first);
    MarkersCover(cut, first);
    assert !CommentAt(cut, first);
  }

  lemma MarkersCover(value: string, i: int)
    ensures CommentAt(value, i) ==> value[i..i + 2] in MARKERS
  {
    if CommentAt(value, i) {
      assert value[i..i + 2] == [value[i], value[i + 1]];
    }
  }
}
