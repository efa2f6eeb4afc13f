/**
 Which requests a capture of `tools/record-fixtures/raw_capture.py` claims and what their files are
 called, said of every reachable state by its claims alone: the plan's counters are how many claims
 there are, of a path or counted, and a stem is the path's words and a number.
 */
module CaptureClaims {
  import opened Bytes
  import opened Capture
  import opened Wrappers

  // ---- The counters ----

  /** The claims of a path. */
  function OfPath(claims: seq<Claim>, path: string): set<int> {
    set i | 0 <= i < |claims| && claims[i].path == path
  }

  /** The claims whose replies are counted. */
  function Replied(claims: seq<Claim>): set<int> {
    set i | 0 <= i < |claims| && claims[i].phase.Counted?
  }

  lemma {:induction false} ClaimsOfIsSize(claims: seq<Claim>, path: string)
    ensures ClaimsOf(claims, path) == |OfPath(claims, path)|
  {
    if claims != [] {
      var last := |claims| - 1;
      ClaimsOfIsSize(claims[..last], path);
      OfPathAppend(claims[..last], claims[last], path);
      assert claims == claims[..last] + [claims[last]];
    }
  }

  lemma OfPathAppend(claims: seq<Claim>, c: Claim, path: string)
    ensures |OfPath(claims + [c], path)| == |OfPath(claims, path)| + if c.path == path then 1 else 0
  {
    assert OfPath(claims + [c], path) == OfPath(claims, path) + if c.path == path then {|claims|} else {};
  }

  lemma {:induction false} CountedIsSize(claims: seq<Claim>)
    ensures CountedIn(claims) == |Replied(claims)|
    decreases |claims|
  {
    if claims != [] {
      var last := |claims| - 1;
      CountedIsSize(claims[..last]);
      CountedAppend(claims[..last], claims[last]);
      RepliedAppend(claims[..last], claims[last]);
      assert claims == claims[..last] + [claims[last]];
    }
  }

  lemma RepliedAppend(claims: seq<Claim>, c: Claim)
    ensures |Replied(claims + [c])| == |Replied(claims)| + if c.phase.Counted? then 1 else 0
  {
    assert Replied(claims + [c]) == Replied(claims) + if c.phase.Counted? then {|claims|} else {};
  }

  // ---- What a request does ----

  /** Every required path has its claims, or enough replies are counted. */
  ghost predicate Enough(config: Config, claims: seq<Claim>) {
    if config.required != map[] then forall p <- config.required :: |OfPath(claims, p)| >= config.required[p]
    else |Replied(claims)| >= config.count
  }

  lemma EnoughIsComplete(config: Config, s: State)
    requires Inv(config, s) && (config.required != map[] ==> config.byPath)
    ensures Complete(config, s.tally) <==> Enough(config, s.claims)
  {
    CountedIsSize(s.claims);
    forall p
      ensures ClaimsOf(s.claims, p) == |OfPath(s.claims, p)|
    {
      ClaimsOfIsSize(s.claims, p);
    }
  }

  /** There is room for one more: below the path's own limit, the larger of the two it may have, or
      below the count. */
  predicate HasRoom(config: Config, claims: seq<Claim>, path: string) {
    if config.byPath then
      || |OfPath(claims, path)| < config.maxPerPath
      || (path in config.required && |OfPath(claims, path)| < config.required[path])
    else |claims| < config.count
  }

  lemma RoomIsNumber(config: Config, s: State, path: string)
    requires Inv(config, s)
    ensures Number(config, s.tally, path)
         == if path in config.discard || !HasRoom(config, s.claims, path) then None
            else Some(if config.byPath then |OfPath(s.claims, path)| else |s.claims|)
  {
    ClaimsOfIsSize(s.claims, path);
  }

  /** In every interleaving, a request is claimed exactly when the capture still needs one, its path
      isn't discarded and has room; it is numbered by the claims before it. Nothing else happens. */
  lemma RequestClaims(config: Config, events: seq<Event>, path: string)
    requires config.required != map[] ==> config.byPath
    ensures var s := Reached(config, events);
            var s' := Step(config, s, Request(path));
            if !Enough(config, s.claims) && path !in config.discard && HasRoom(config, s.claims, path)
            then var number := if config.byPath then |OfPath(s.claims, path)| else |s.claims|;
                 s'.claims == s.claims + [Claim(path, number, Decided)]
            else s' == s
  {
    var s := Reached(config, events);
    ReachedInv(config, events);
    EnoughIsComplete(config, s);
    RoomIsNumber(config, s, path);
  }

  // ---- Numbers and words ----

  function Digit(n: nat): char
    requires n < 10
  {
    (48 + n) as char
  }

  /** Numbers below a thousand are three digits. */
  lemma ThreeDigits(a: nat, b: nat, c: nat)
    requires a < 10 && b < 10 && c < 10
    ensures Padded(100 * a + 10 * b + c) == [Digit(a), Digit(b), Digit(c)]
  {
    var n := 100 * a + 10 * b + c;
    assert n / 10 == 10 * a + b && n % 10 == c;
    assert n / 10 / 10 == a && n / 10 % 10 == b;
    assert Decimal(n / 10) == if n / 10 < 10 then [Digit(b)] else [Digit(a), Digit(b)];
    assert n < 10 ==> a == 0 && b == 0;
    assert n < 100 ==> a == 0;
  }

  predicate Letters(w: string) { forall c <- w :: IsAlphanumeric(c) }

  predicate Others(g: string) { forall c <- g :: !IsAlphanumeric(c) }

  /** A word and the gap behind it. */
  datatype Piece = Piece(word: string, gap: string)

  /** Every word has letters, and a gap behind it unless it is the last. */
  predicate ArePieces(pieces: seq<Piece>) {
    && (forall p <- pieces :: p.word != "" && Letters(p.word) && Others(p.gap))
    && (forall i | 0 <= i < |pieces| - 1 :: pieces[i].gap != "")
  }

  function Glued(pieces: seq<Piece>): string {
    if pieces == [] then "" else pieces[0].word + (pieces[0].gap + Glued(pieces[1..]))
  }

  function Words(pieces: seq<Piece>): seq<string> {
    seq(|pieces|, i requires 0 <= i < |pieces| => pieces[i].word)
  }

  lemma {:induction false} WordDashed(word: string, rest: string, inRun: bool)
    requires word != "" && Letters(word)
    ensures Dashed(word + rest, inRun) == word + Dashed(rest, false)
    decreases |word|
  {
    TailOf(word, rest);
    HeadTail(word);
    assert IsAlphanumeric(word[0]) && Letters(word[1..]);
    if |word| == 1 {
      assert word[1..] + rest == rest;
    } else {
      WordDashed(word[1..], rest, false);
      Assoc([word[0]], word[1..], Dashed(rest, false));
    }
  }

  lemma {:induction false} GapDashed(gap: string, rest: string, inRun: bool)
    requires Others(gap)
    ensures Dashed(gap + rest, inRun)
         == if gap == "" then Dashed(rest, inRun) else (if inRun then "" else "-") + Dashed(rest, true)
    decreases |gap|
  {
    if gap == "" {
      assert gap + rest == rest;
    } else {
      TailOf(gap, rest);
      assert !IsAlphanumeric(gap[0]) && Others(gap[1..]);
      GapDashed(gap[1..], rest, true);
      assert "" + Dashed(rest, true) == Dashed(rest, true);
    }
  }

  /** Words joined by dashes, and one more for a gap at the end. */
  lemma {:induction false} GluedDashed(pieces: seq<Piece>, inRun: bool)
    requires ArePieces(pieces) && pieces != []
    ensures Dashed(Glued(pieces), inRun)
         == Join(Words(pieces), "-") + if pieces[|pieces| - 1].gap == "" then "" else "-"
    decreases |pieces|
  {
    var p, more := pieces[0], pieces[1..];
    assert p in pieces;
    WordDashed(p.word, p.gap + Glued(more), inRun);
    GapDashed(p.gap, Glued(more), false);
    if more == [] {
      assert Dashed(Glued(more), true) == "" && "-" + "" == "-";
      assert Join(Words(pieces), "-") == p.word;
    } else {
      assert ArePieces(more) && Words(pieces)[1..] == Words(more);
      GluedDashed(more, true);
      MoreWords(p.word, Join(Words(more), "-"), if more[|more| - 1].gap == "" then "" else "-");
    }
  }

  lemma MoreWords(word: string, joined: string, end: string)
    ensures word + ("-" + (joined + end)) == word + "-" + joined + end
  {
  }

  /** Neither end is a dash. */
  predicate NoDashes(s: string) { s != "" && s[0] != '-' && s[|s| - 1] != '-' }

  lemma {:induction false} JoinedEnds(pieces: seq<Piece>)
    requires ArePieces(pieces) && pieces != []
    ensures NoDashes(Join(Words(pieces), "-"))
    decreases |pieces|
  {
    var p, more := pieces[0], pieces[1..];
    assert p in pieces && p.word[0] in p.word && p.word[|p.word| - 1] in p.word;
    if more != [] {
      assert ArePieces(more) && Words(pieces)[1..] == Words(more);
      JoinedEnds(more);
    }
  }

  lemma DashesOff(lead: string, s: string, end: string)
    requires NoDashes(s) && (lead == "" || lead == "-") && (end == "" || end == "-")
    ensures StripDashes(lead + s + end) == s
  {
    assert StripDashes(s) == s;
    var t := s + end;
    assert StripDashes(t) == s by {
      assert end == "" ==> t == s;
      assert end == "-" ==> t[..|t| - 1] == s;
    }
    Assoc(lead, s, end);
    assert lead == "" ==> lead + t == t;
    assert lead == "-" ==> (lead + t)[1..] == t;
  }

  /** A path's slug is its words, its runs of letters and digits, with dashes between them; a path
      without any is `root`. */
  lemma SlugIs(lead: string, pieces: seq<Piece>)
    requires Others(lead) && ArePieces(pieces)
    ensures Slug(lead + Glued(pieces)) == if pieces == [] then "root" else Join(Words(pieces), "-")
  {
    GapDashed(lead, Glued(pieces), false);
    var front := if lead == "" then "" else "-";
    if pieces == [] {
      assert Dashed(Glued(pieces), false) == "" == Dashed(Glued(pieces), true);
      assert "-" + "" == "-" && "-"[1..] == "";
      assert StripDashes("-") == StripDashes("") == "";
    } else {
      var joined, end := Join(Words(pieces), "-"), if pieces[|pieces| - 1].gap == "" then "" else "-";
      GluedDashed(pieces, false);
      GluedDashed(pieces, true);
      JoinedEnds(pieces);
      DashesOff(front, joined, end);
      Assoc(front, joined, end);
      assert "" + (joined + end) == joined + end;
    }
  }
}
