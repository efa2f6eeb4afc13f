/**
 A shared AWS file by its sections: the lines before the first header, then each header with the
 lines up to the next. Only the profile's sections of the highest rank decide what `profile_keys`
 of `crates/logit-aws/src/creds.rs` returns: any other section can be added, removed or moved, and
 so can the lines in front.
 */
module ProfileSections {
  import opened Bytes
  import opened Text
  import opened Profile

  /** A section's lines. */
  type Block = seq<string>

  /** Which profile of which file is read. */
  datatype Reader = Reader(config: bool, name: string)

  function Kind(of: Reader, line: string): LineKind { Classify(line, of.config, of.name) }

  function Kinds(of: Reader, lines: seq<string>): seq<LineKind> { ClassifyAll(lines, of.config, of.name) }

  predicate NoHeaders(of: Reader, lines: seq<string>) {
    forall line <- lines :: !Kind(of, line).Header?
  }

  predicate IsSection(of: Reader, s: Block) {
    s != [] && Kind(of, s[0]).Header? && NoHeaders(of, s[1..])
  }

  /** The lines are those in front and then the sections. */
  ghost predicate Divides(of: Reader, lines: seq<string>, front: seq<string>, sections: seq<Block>) {
    && NoHeaders(of, front) && (forall s <- sections :: IsSection(of, s))
    && lines == front + Flatten(sections)
  }

  /** Every file has sections. */
  lemma {:induction false} EveryFileDivides(of: Reader, lines: seq<string>)
      returns (front: seq<string>, sections: seq<Block>)
    ensures Divides(of, lines, front, sections)
  {
    if lines == [] {
      front, sections := [], [];
    } else {
      var front', sections' := EveryFileDivides(of, lines[1..]);
      HeadTail(lines);
      Assoc([lines[0]], front', Flatten(sections'));
      if Kind(of, lines[0]).Header? {
        var s := [lines[0]] + front';
        assert s[1..] == front';
        front, sections := [], [s] + sections';
        assert Flatten(sections) == s + Flatten(sections');
        assert lines == [] + Flatten(sections);
      } else {
        front, sections := [lines[0]] + front', sections';
      }
    }
  }

  function RankOf(of: Reader, s: Block): nat {
    if s != [] && Kind(of, s[0]).Header? then Kind(of, s[0]).rank else 0
  }

  function HighestRank(of: Reader, sections: seq<Block>): nat {
    if sections == [] then 0
    else
      var before, last := HighestRank(of, sections[..|sections| - 1]), RankOf(of, sections[|sections| - 1]);
      if last > before then last else before
  }

  /** The sections of rank `r`, in file order. */
  function OfRank(of: Reader, sections: seq<Block>, r: nat): seq<Block> {
    if sections == [] then []
    else
      var before, last := OfRank(of, sections[..|sections| - 1], r), sections[|sections| - 1];
      if RankOf(of, last) == r then before + [last] else before
  }

  /** The sections that decide: those of the highest rank, if any section is the profile's. */
  function Deciding(of: Reader, sections: seq<Block>): seq<Block> {
    var top := HighestRank(of, sections);
    if top == 0 then [] else OfRank(of, sections, top)
  }

  // ---- Assignments by section ----

  /** Lines that start with a header read alike wherever they stand. */
  lemma {:induction false} HeaderStartsAfresh(a: seq<LineKind>, b: seq<LineKind>, r: nat)
    requires b != [] && b[0].Header?
    ensures RankAfter(a + b) == RankAfter(b)
    ensures Assignments(a + b, r) == Assignments(a, r) + Assignments(b, r)
    ensures Top(a + b) == if Top(b) > Top(a) then Top(b) else Top(a)
    decreases |b|
  {
    var last := |b| - 1;
    var front, k := b[..last], b[last];
    assert b == front + [k];
    Assoc(a, front, [k]);
    if last == 0 {
      assert a + front == a;
      assert front == [];
    } else {
      HeaderStartsAfresh(a, front, r);
    }
    OneMoreKind(front, k, r);
    OneMoreKind(a + front, k, r);
    var one := if k.Assign? && RankAfter(front) == r then [(k.key, k.value)] else [];
    Assoc(Assignments(a, r), Assignments(front, r), one);
  }

  /** Without headers, lines keep the rank they stand under. */
  lemma {:induction false} NoHeadersKeepRank(first: LineKind, kinds: seq<LineKind>, r: nat)
    requires first.Header? && forall k <- kinds :: !k.Header?
    ensures RankAfter([first] + kinds) == first.rank == Top([first] + kinds)
    ensures first.rank != r ==> Assignments([first] + kinds, r) == []
    decreases |kinds|
  {
    if kinds == [] {
      assert [first] + kinds == [] + [first];
      OneMoreKind([], first, r);
    } else {
      var last := |kinds| - 1;
      assert kinds == kinds[..last] + [kinds[last]];
      Assoc([first], kinds[..last], [kinds[last]]);
      NoHeadersKeepRank(first, kinds[..last], r);
      OneMoreKind([first] + kinds[..last], kinds[last], r);
    }
  }

  lemma {:induction false} NothingInFront(kinds: seq<LineKind>, r: nat)
    requires (forall k <- kinds :: !k.Header?) && r > 0
    ensures Assignments(kinds, r) == [] && RankAfter(kinds) == 0 == Top(kinds)
    decreases |kinds|
  {
    if kinds != [] {
      var last := |kinds| - 1;
      assert kinds == kinds[..last] + [kinds[last]];
      NothingInFront(kinds[..last], r);
      OneMoreKind(kinds[..last], kinds[last], r);
    }
  }

  lemma KindsConcat(of: Reader, a: seq<string>, b: seq<string>)
    ensures Kinds(of, a + b) == Kinds(of, a) + Kinds(of, b)
  {
  }

  /** A section behind other lines adds its assignments to its own rank and nothing to another. */
  lemma SectionAdds(of: Reader, before: seq<string>, s: Block, r: nat)
    requires IsSection(of, s)
    ensures Assignments(Kinds(of, before + s), r)
         == Assignments(Kinds(of, before), r) + if RankOf(of, s) == r then Assignments(Kinds(of, s), r) else []
    ensures var top, rank := Top(Kinds(of, before)), RankOf(of, s);
            Top(Kinds(of, before + s)) == if rank > top then rank else top
  {
    var kinds := Kinds(of, s);
    KindsConcat(of, before, s);
    HeaderStartsAfresh(Kinds(of, before), kinds, r);
    assert kinds == [kinds[0]] + kinds[1..];
    assert forall k <- kinds[1..] :: !k.Header? by {
      assert forall i | 0 <= i < |s| - 1 :: kinds[1..][i] == Kind(of, s[1..][i]);
    }
    NoHeadersKeepRank(kinds[0], kinds[1..], r);
  }

  /** A file's assignments of a rank are those of the sections of that rank, in order. */
  lemma {:induction false} SectionsDecide(of: Reader, front: seq<string>, sections: seq<Block>, r: nat)
    requires NoHeaders(of, front) && (forall s <- sections :: IsSection(of, s)) && r > 0
    ensures Assignments(Kinds(of, front + Flatten(sections)), r)
         == Assignments(Kinds(of, Flatten(OfRank(of, sections, r))), r)
    ensures Top(Kinds(of, front + Flatten(sections))) == HighestRank(of, sections)
    decreases |sections|
  {
    if sections == [] {
      assert front + Flatten(sections) == front;
      assert forall i | 0 <= i < |front| :: Kinds(of, front)[i] == Kind(of, front[i]);
      NothingInFront(Kinds(of, front), r);
    } else {
      var last := |sections| - 1;
      var before, s := sections[..last], sections[last];
      assert sections == before + [s];
      SectionsDecide(of, front, before, r);
      FlattenAppend(before, s);
      Assoc(front, Flatten(before), s);
      SectionAdds(of, front + Flatten(before), s, r);
      LastOfRank(of, before, s, r);
    }
  }

  lemma OneMoreSection(of: Reader, before: seq<Block>, s: Block, r: nat)
    ensures OfRank(of, before + [s], r) == OfRank(of, before, r) + if RankOf(of, s) == r then [s] else []
    ensures var top, rank := HighestRank(of, before), RankOf(of, s);
            HighestRank(of, before + [s]) == if rank > top then rank else top
  {
    assert (before + [s])[..|before|] == before;
  }

  lemma LastOfRank(of: Reader, before: seq<Block>, s: Block, r: nat)
    requires IsSection(of, s)
    ensures Assignments(Kinds(of, Flatten(OfRank(of, before + [s], r))), r)
         == Assignments(Kinds(of, Flatten(OfRank(of, before, r))), r)
            + if RankOf(of, s) == r then Assignments(Kinds(of, s), r) else []
  {
    OneMoreSection(of, before, s, r);
    if RankOf(of, s) == r {
      FlattenAppend(OfRank(of, before, r), s);
      SectionAdds(of, Flatten(OfRank(of, before, r)), s, r);
    }
  }

  lemma {:induction false} RankedOf(of: Reader, sections: seq<Block>, r: nat)
    ensures forall s <- OfRank(of, sections, r) :: RankOf(of, s) == r
    ensures OfRank(of, sections, HighestRank(of, sections)) != [] || HighestRank(of, sections) == 0
  {
    if sections != [] {
      RankedOf(of, sections[..|sections| - 1], r);
    }
  }

  // ---- What decides ----

  /** Two files with the same deciding sections in the same order give the profile the same keys:
      every other section, and whatever stands in front, can be added, removed or moved. */
  lemma OnlyTopSectionsMatter(of: Reader, text: string, front: seq<string>, sections: seq<Block>,
                              other: string, front': seq<string>, sections': seq<Block>)
    requires Divides(of, Lines(text), front, sections) && Divides(of, Lines(other), front', sections')
    requires Deciding(of, sections) == Deciding(of, sections')
    ensures ProfileKeysOf(text, of.config, of.name) == ProfileKeysOf(other, of.config, of.name)
  {
    var top := HighestRank(of, sections);
    SameTop(of, sections, sections');
    var r := if top == 0 then 1 else top;
    SectionsDecide(of, front, sections, r);
    SectionsDecide(of, front', sections', r);
  }

  lemma SameTop(of: Reader, a: seq<Block>, b: seq<Block>)
    requires Deciding(of, a) == Deciding(of, b)
    ensures HighestRank(of, a) == HighestRank(of, b)
  {
    var top, top' := HighestRank(of, a), HighestRank(of, b);
    RankedOf(of, a, top);
    RankedOf(of, b, top');
    if Deciding(of, a) != [] {
      assert Deciding(of, a)[0] in OfRank(of, a, top) && Deciding(of, b)[0] in OfRank(of, b, top');
    }
  }

  /** In particular: a section below the highest rank can be taken out. */
  lemma LowerSectionsAddNothing(of: Reader, text: string, other: string, front: seq<string>,
                                before: seq<Block>, s: Block, after: seq<Block>)
    requires Divides(of, Lines(text), front, before + [s] + after)
    requires Divides(of, Lines(other), front, before + after)
    requires RankOf(of, s) < HighestRank(of, before + after) || RankOf(of, s) == 0
    ensures ProfileKeysOf(text, of.config, of.name) == ProfileKeysOf(other, of.config, of.name)
  {
    OneSectionLess(of, before, s, after, HighestRank(of, before + after));
    OnlyTopSectionsMatter(of, text, front, before + [s] + after, other, front, before + after);
  }

  lemma {:induction false} OneSectionLess(of: Reader, before: seq<Block>, s: Block, after: seq<Block>, r: nat)
    ensures RankOf(of, s) != r ==> OfRank(of, before + [s] + after, r) == OfRank(of, before + after, r)
    ensures var top, rank := HighestRank(of, before + after), RankOf(of, s);
            HighestRank(of, before + [s] + after) == if rank > top then rank else top
    decreases |after|
  {
    if after == [] {
      assert before + [s] + after == before + [s] && before + after == before;
      OneMoreSection(of, before, s, r);
    } else {
      var last := |after| - 1;
      var front, x := after[..last], after[last];
      assert after == front + [x];
      Assoc(before + [s], front, [x]);
      Assoc(before, front, [x]);
      OneSectionLess(of, before, s, front, r);
      OneMoreSection(of, before + [s] + front, x, r);
      OneMoreSection(of, before + front, x, r);
    }
  }
}
