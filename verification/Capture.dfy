/**
 The HTTP capture plan of `tools/record-fixtures/raw_capture.py`: which requests are written, under
 which file stem, and when the capture is complete, shared by handler threads under one lock.

 `Plan` is the object; `Claimed` and `Complete` say what its methods do. The protocol below runs
 the handlers of a capture in any interleaving: a request is decided on under the lock, its files
 are written, its reply is flushed, and its completion is counted under the lock. A handler may
 fail at any point.
 */
module Capture {
  import opened Bytes
  import opened Wrappers

  /** The command line: `required` is `--require`, and `byPath` is `--name-by-path`. */
  datatype Config = Config(byPath: bool, count: int, maxPerPath: int, discard: set<string>, required: map<string, int>)

  datatype Tally = Tally(written: map<string, nat>, total: nat, done: nat)

  // ---- File stems ----

  /** `{n:03d}`. */
  function Padded(n: nat): (s: string)
    ensures forall c <- s :: '0' <= c <= '9'
  {
    (if n < 10 then "00" else if n < 100 then "0" else "") + Decimal(n)
  }

  predicate IsAlphanumeric(c: char) { '0' <= c <= '9' || 'A' <= c <= 'Z' || 'a' <= c <= 'z' }

  /** Each run of other characters as one `-`. */
  function Dashed(path: string, inRun: bool): string
    decreases path
  {
    if path == [] then []
    else if IsAlphanumeric(path[0]) then [path[0]] + Dashed(path[1..], false)
    else (if inRun then [] else ['-']) + Dashed(path[1..], true)
  }

  function StripDashes(s: string): string
    decreases |s|
  {
    if s != [] && s[0] == '-' then StripDashes(s[1..])
    else if s != [] && s[|s| - 1] == '-' then StripDashes(s[..|s| - 1])
    else s
  }

  function Slug(path: string): string {
    var s := StripDashes(Dashed(path, false));
    if s == [] then "root" else s
  }

  function Stem(config: Config, path: string, number: nat): string {
    if config.byPath then Slug(path) + "-" + Padded(number) else Padded(number)
  }

  // ---- The plan ----

  function Get(m: map<string, nat>, path: string): nat { if path in m then m[path] else 0 }

  function Limit(config: Config, path: string): int {
    var required := if path in config.required then config.required[path] else 0;
    if config.maxPerPath > required then config.maxPerPath else required
  }

  /** The number a request to `path` is claimed under, or `None` when it is discarded. */
  function Number(config: Config, tally: Tally, path: string): Option<nat> {
    if path in config.discard then None
    else if !config.byPath then if tally.total >= config.count then None else Some(tally.total)
    else if Get(tally.written, path) >= Limit(config, path) then None
    else Some(Get(tally.written, path))
  }

  function Claimed(config: Config, tally: Tally, path: string): Tally {
    match Number(config, tally, path)
    case None => tally
    case Some(n) =>
      Tally(if config.byPath then tally.written[path := n + 1] else tally.written, tally.total + 1, tally.done)
  }

  predicate Complete(config: Config, tally: Tally) {
    if config.required != map[] then
      forall p <- config.required :: Get(tally.written, p) >= config.required[p]
    else tally.done >= config.count
  }

  class Plan {
    const config: Config
    var written: map<string, nat>
    var total: nat
    var done: nat

    function State(): Tally reads this { Tally(written, total, done) }

    constructor (config: Config)
      ensures this.config == config && State() == Tally(map[], 0, 0)
    {
      this.config := config;
      written, total, done := map[], 0, 0;
    }

    method Claim(path: string) returns (stem: Option<string>)
      modifies this
      ensures State() == Claimed(config, old(State()), path)
      ensures match Number(config, old(State()), path)
              case None => stem == None
              case Some(n) => stem == Some(Stem(config, path, n))
    {
      if path in config.discard {
        return None;
      }
      if !config.byPath {
        if total >= config.count {
          return None;
        }
        stem := Some(Padded(total));
        total := total + 1;
        return;
      }
      var n := Get(written, path);
      if n >= Limit(config, path) {
        return None;
      }
      written := written[path := n + 1];
      total := total + 1;
      return Some(Slug(path) + "-" + Padded(n));
    }

    method IsComplete() returns (complete: bool)
      ensures complete == Complete(config, State())
    {
      if config.required != map[] {
        complete := forall p <- config.required :: Get(written, p) >= config.required[p];
      } else {
        complete := done >= config.count;
      }
    }

    /** The locked end of a handler: count the flushed reply, and say whether that was enough. */
    method Finish() returns (enough: bool)
      modifies this
      ensures State() == old(State()).(done := old(done) + 1)
      ensures enough == Complete(config, State())
    {
      done := done + 1;
      enough := IsComplete();
    }
  }

  // ---- The handlers ----

  datatype Phase = Decided | Written | Flushed | Counted | Failed

  /** A claimed request, in the order the claims were made. */
  datatype Claim = Claim(path: string, number: nat, phase: Phase)

  datatype State = State(tally: Tally, claims: seq<Claim>)

  /** A request arriving, and what its handler does next. */
  datatype Event = Request(path: string) | Write(k: nat) | Flush(k: nat) | Count(k: nat) | Fail(k: nat)

  const Initial := State(Tally(map[], 0, 0), [])

  function SetPhase(s: State, k: nat, phase: Phase): State
    requires k < |s.claims|
  {
    s.(claims := s.claims[k := s.claims[k].(phase := phase)])
  }

  predicate InPhase(s: State, k: nat, phase: Phase) { k < |s.claims| && s.claims[k].phase == phase }

  /** One step. An event that isn't enabled changes nothing. */
  function Step(config: Config, s: State, e: Event): State {
    match e
    case Request(path) =>
      if Complete(config, s.tally) then s
      else
        (match Number(config, s.tally, path)
         case None => s
         case Some(n) => State(Claimed(config, s.tally, path), s.claims + [Claim(path, n, Decided)]))
    case Write(k) => if InPhase(s, k, Decided) then SetPhase(s, k, Written) else s
    case Flush(k) => if InPhase(s, k, Written) then SetPhase(s, k, Flushed) else s
    case Count(k) =>
      if InPhase(s, k, Flushed) then SetPhase(s, k, Counted).(tally := s.tally.(done := s.tally.done + 1)) else s
    case Fail(k) =>
      if k < |s.claims| && !s.claims[k].phase.Counted? then SetPhase(s, k, Failed) else s
  }

  function Run(config: Config, s: State, events: seq<Event>): State
    decreases events
  {
    if events == [] then s else Run(config, Step(config, s, events[0]), events[1..])
  }

  // ---- What every step keeps ----

  function CountedIn(claims: seq<Claim>): (n: nat)
    ensures n <= |claims|
    ensures n == |claims| ==> forall c <- claims :: c.phase.Counted?
  {
    if claims == [] then 0
    else
      assert claims == [claims[0]] + claims[1..];
      (if claims[0].phase.Counted? then 1 else 0) + CountedIn(claims[1..])
  }

  function ClaimsOf(claims: seq<Claim>, path: string): nat {
    if claims == [] then 0
    else
      var last := |claims| - 1;
      ClaimsOf(claims[..last], path) + if claims[last].path == path then 1 else 0
  }

  /** The k-th claim's number: how many came before it, of its path under `byPath`. */
  function NumberAt(config: Config, claims: seq<Claim>, k: nat): nat
    requires k < |claims|
  {
    if config.byPath then ClaimsOf(claims[..k], claims[k].path) else k
  }

  ghost predicate Inv(config: Config, s: State) {
    && s.tally.total == |s.claims|
    && s.tally.done == CountedIn(s.claims)
    && (config.byPath ==> forall p :: Get(s.tally.written, p) == ClaimsOf(s.claims, p))
    && (!config.byPath ==> |s.claims| == 0 || |s.claims| <= config.count)
    && (forall k | 0 <= k < |s.claims| :: s.claims[k].number == NumberAt(config, s.claims, k))
  }

  lemma {:induction false} CountedUpdate(claims: seq<Claim>, k: nat, phase: Phase)
    requires k < |claims| && !claims[k].phase.Counted?
    ensures CountedIn(claims[k := claims[k].(phase := phase)])
         == CountedIn(claims) + if phase.Counted? then 1 else 0
  {
    var after := claims[k := claims[k].(phase := phase)];
    if k > 0 {
      assert after[1..] == claims[1..][k - 1 := claims[k].(phase := phase)];
      CountedUpdate(claims[1..], k - 1, phase);
    } else {
      assert after[1..] == claims[1..];
    }
  }

  lemma {:induction false} CountedAppend(claims: seq<Claim>, c: Claim)
    ensures CountedIn(claims + [c]) == CountedIn(claims) + if c.phase.Counted? then 1 else 0
  {
    if claims == [] {
      assert claims + [c] == [c];
      assert [c][1..] == [];
    } else {
      assert (claims + [c])[1..] == claims[1..] + [c];
      CountedAppend(claims[1..], c);
    }
  }

  lemma {:induction false} SamePathsCount(a: seq<Claim>, b: seq<Claim>, p: string)
    requires |a| == |b| && forall i | 0 <= i < |a| :: a[i].path == b[i].path
    ensures ClaimsOf(a, p) == ClaimsOf(b, p)
  {
    if a != [] {
      SamePathsCount(a[..|a| - 1], b[..|b| - 1], p);
    }
  }

  lemma PhaseKeepsNumbers(config: Config, s: State, k: nat, phase: Phase)
    requires Inv(config, s) && k < |s.claims|
    ensures var s' := SetPhase(s, k, phase);
            && (forall p :: ClaimsOf(s'.claims, p) == ClaimsOf(s.claims, p))
            && forall j | 0 <= j < |s'.claims| :: s'.claims[j].number == NumberAt(config, s'.claims, j)
  {
    var s' := SetPhase(s, k, phase);
    forall p
      ensures ClaimsOf(s'.claims, p) == ClaimsOf(s.claims, p)
    {
      SamePathsCount(s'.claims, s.claims, p);
    }
    forall j | 0 <= j < |s'.claims|
      ensures s'.claims[j].number == NumberAt(config, s'.claims, j)
    {
      SamePathsCount(s'.claims[..j], s.claims[..j], s.claims[j].path);
    }
  }

  lemma RequestKeepsInv(config: Config, s: State, path: string)
    requires Inv(config, s)
    ensures Inv(config, Step(config, s, Request(path)))
  {
    var s' := Step(config, s, Request(path));
    if s' != s {
      var c := s'.claims[|s.claims|];
      assert s'.claims == s.claims + [c];
      CountedAppend(s.claims, c);
      assert s'.claims[..|s.claims|] == s.claims;
      forall k | 0 <= k < |s'.claims|
        ensures s'.claims[k].number == NumberAt(config, s'.claims, k)
      {
        assert s'.claims[..k] == s.claims[..k];
        if k < |s.claims| {
          assert s'.claims[k] == s.claims[k];
        } else {
          assert s.claims[..k] == s.claims;
        }
      }
    }
  }

  lemma StepKeepsInv(config: Config, s: State, e: Event)
    requires Inv(config, s)
    ensures Inv(config, Step(config, s, e))
  {
    if e.Request? {
      RequestKeepsInv(config, s, e.path);
    } else if e.k < |s.claims| && !s.claims[e.k].phase.Counted? {
      CountedUpdate(s.claims, e.k, Written);
      CountedUpdate(s.claims, e.k, Flushed);
      CountedUpdate(s.claims, e.k, Counted);
      CountedUpdate(s.claims, e.k, Failed);
      PhaseKeepsNumbers(config, s, e.k, Written);
      PhaseKeepsNumbers(config, s, e.k, Flushed);
      PhaseKeepsNumbers(config, s, e.k, Counted);
      PhaseKeepsNumbers(config, s, e.k, Failed);
    }
  }

  lemma {:induction false} RunKeepsInv(config: Config, s: State, events: seq<Event>)
    requires Inv(config, s)
    ensures Inv(config, Run(config, s, events))
    decreases events
  {
    if events != [] {
      StepKeepsInv(config, s, events[0]);
      RunKeepsInv(config, Step(config, s, events[0]), events[1..]);
    }
  }

  // ---- Safety over whole captures ----

  function Reached(config: Config, events: seq<Event>): State { Run(config, Initial, events) }

  lemma ReachedInv(config: Config, events: seq<Event>)
    ensures Inv(config, Reached(config, events))
  {
    RunKeepsInv(config, Initial, events);
  }

  /** Under the plain `--count` rule, in every interleaving: replies counted never exceed claims,
      claims never exceed the count, and the capture is complete only once every claimed request's
      reply has been flushed and counted. */
  lemma PlainCountSafe(config: Config, events: seq<Event>)
    requires !config.byPath && config.required == map[]
    ensures var s := Reached(config, events);
            && s.tally.done <= s.tally.total
            && (s.tally.total == 0 || s.tally.total <= config.count)
            && (Complete(config, s.tally) ==> forall c <- s.claims :: c.phase.Counted?)
  {
    ReachedInv(config, events);
  }

  /** A complete capture stays complete, under either rule. */
  lemma {:induction false} CompleteNeverReverts(config: Config, s: State, events: seq<Event>)
    requires Complete(config, s.tally)
    ensures Complete(config, Run(config, s, events).tally)
    ensures Run(config, s, events).tally.written == s.tally.written
    ensures |Run(config, s, events).claims| == |s.claims|
    decreases events
  {
    if events != [] {
      CompleteNeverReverts(config, Step(config, s, events[0]), events[1..]);
    }
  }

  // ---- Distinct files ----

  /** The number a run of digits writes, leading zeros and all. */
  function DecimalValue(s: string): int {
    if s == [] then 0 else DecimalValue(s[..|s| - 1]) * 10 + (s[|s| - 1] as int - '0' as int)
  }

  lemma {:induction false} DecimalValueOf(n: nat)
    ensures DecimalValue(Decimal(n)) == n
  {
    var s := Decimal(n);
    if n < 10 {
      assert s[..0] == [];
    } else {
      assert s[..|s| - 1] == Decimal(n / 10);
      DecimalValueOf(n / 10);
    }
  }

  lemma {:induction false} LeadingZero(s: string)
    ensures DecimalValue(['0'] + s) == DecimalValue(s)
  {
    var t := ['0'] + s;
    if s == [] {
      assert t[..0] == [];
    } else {
      assert t[..|t| - 1] == ['0'] + s[..|s| - 1];
      LeadingZero(s[..|s| - 1]);
    }
  }

  lemma PaddedInjective(m: nat, n: nat)
    ensures Padded(m) == Padded(n) <==> m == n
  {
    PaddedValue(m);
    PaddedValue(n);
  }

  lemma PaddedValue(n: nat)
    ensures DecimalValue(Padded(n)) == n
  {
    DecimalValueOf(n);
    LeadingZero(Decimal(n));
    LeadingZero(['0'] + Decimal(n));
    assert "00" + Decimal(n) == ['0'] + (['0'] + Decimal(n));
    assert "0" + Decimal(n) == ['0'] + Decimal(n);
    assert "" + Decimal(n) == Decimal(n);
  }

  /** Two stems agree exactly when their numbers do and, under `byPath`, their slugs. */
  lemma SameStem(config: Config, p: string, m: nat, q: string, n: nat)
    ensures Stem(config, p, m) == Stem(config, q, n) <==> m == n && (config.byPath ==> Slug(p) == Slug(q))
  {
    PaddedInjective(m, n);
    if config.byPath && Stem(config, p, m) == Stem(config, q, n) {
      assert '-' !in Padded(m) && '-' !in Padded(n);
      assert "-" == ['-'];
      LastSeparatorUnique(Slug(p), '-', Padded(m), Slug(q), Padded(n));
    }
  }

  function StemAt(config: Config, s: State, k: nat): string
    requires k < |s.claims|
  {
    Stem(config, s.claims[k].path, s.claims[k].number)
  }

  ghost predicate DistinctStems(config: Config, s: State) {
    forall j, k | 0 <= j < k < |s.claims| :: StemAt(config, s, j) != StemAt(config, s, k)
  }

  /** Two claimed paths whose slugs agree. */
  ghost predicate SlugsClash(s: State) {
    exists j, k :: 0 <= j < |s.claims| && 0 <= k < |s.claims|
                   && s.claims[j].path != s.claims[k].path && Slug(s.claims[j].path) == Slug(s.claims[k].path)
  }

  lemma {:induction false} ClaimsOfGrows(claims: seq<Claim>, j: nat, k: nat)
    requires j < k <= |claims|
    ensures ClaimsOf(claims[..j], claims[j].path) < ClaimsOf(claims[..k], claims[j].path)
    decreases k
  {
    assert claims[..k][..k - 1] == claims[..k - 1];
    if j < k - 1 {
      ClaimsOfGrows(claims, j, k - 1);
    }
  }

  /** The first claim of a path is its number 0. */
  lemma {:induction false} FirstClaim(config: Config, s: State, k: nat) returns (first: nat)
    requires Inv(config, s) && config.byPath && k < |s.claims|
    ensures first < |s.claims| && s.claims[first].path == s.claims[k].path && s.claims[first].number == 0
  {
    first := k;
    if s.claims[k].number > 0 {
      var j := EarlierClaim(s.claims, k, s.claims[k].path);
      first := FirstClaim(config, s, j);
    }
  }

  lemma {:induction false} EarlierClaim(claims: seq<Claim>, k: nat, path: string) returns (j: nat)
    requires k <= |claims| && ClaimsOf(claims[..k], path) > 0
    ensures j < k && claims[j].path == path
  {
    assert claims[..k][..k - 1] == claims[..k - 1];
    if claims[k - 1].path == path {
      j := k - 1;
    } else {
      j := EarlierClaim(claims, k - 1, path);
    }
  }

  /** The first claims of two paths of one slug share a file. */
  lemma ClashShares(config: Config, s: State, j: nat, k: nat)
    requires Inv(config, s) && config.byPath && j < |s.claims| && k < |s.claims|
    requires s.claims[j].path != s.claims[k].path && Slug(s.claims[j].path) == Slug(s.claims[k].path)
    ensures !DistinctStems(config, s)
  {
    var j' := FirstClaim(config, s, j);
    var k' := FirstClaim(config, s, k);
    SameStem(config, s.claims[j'].path, 0, s.claims[k'].path, 0);
    var lo, hi := if j' < k' then j' else k', if j' < k' then k' else j';
    assert StemAt(config, s, lo) == StemAt(config, s, hi);
  }

  lemma StemsDiffer(config: Config, s: State, j: nat, k: nat)
    requires Inv(config, s) && j < k < |s.claims| && !(config.byPath && SlugsClash(s))
    ensures StemAt(config, s, j) != StemAt(config, s, k)
  {
    var a, b := s.claims[j], s.claims[k];
    SameStem(config, a.path, a.number, b.path, b.number);
    ClaimsOfGrows(s.claims, j, k);
  }

  /** In every interleaving no two claimed requests share a file, exactly when no two claimed paths
      share a slug; without `--name-by-path`, always. */
  lemma FilesAreDistinct(config: Config, events: seq<Event>)
    ensures var s := Reached(config, events);
            DistinctStems(config, s) <==> !(config.byPath && SlugsClash(s))
  {
    var s := Reached(config, events);
    ReachedInv(config, events);
    if config.byPath && SlugsClash(s) {
      var j, k :| 0 <= j < |s.claims| && 0 <= k < |s.claims|
                  && s.claims[j].path != s.claims[k].path && Slug(s.claims[j].path) == Slug(s.claims[k].path);
      ClashShares(config, s, j, k);
    } else {
      forall j, k | 0 <= j < k < |s.claims|
        ensures StemAt(config, s, j) != StemAt(config, s, k)
      {
        StemsDiffer(config, s, j, k);
      }
    }
  }

  /** Two paths of one slug: under `--name-by-path` the second request's files replace the first's. */
  lemma SlugClash(config: Config)
    requires config.byPath && config.required == map[] && config.count > 0
    requires config.maxPerPath > 0 && config.discard == {}
    ensures !DistinctStems(config, Reached(config, [Request("/a/b"), Request("/a-b")]))
  {
    var p, q := "/a/b", "/a-b";
    SlugOfAB();
    var s1 := Step(config, Initial, Request(p));
    var s2 := Step(config, s1, Request(q));
    assert Run(config, s2, []) == s2;
    assert [Request(p), Request(q)][1..] == [Request(q)] && [Request(q)][1..] == [];
    assert s2.claims == [Claim(p, 0, Decided), Claim(q, 0, Decided)];
    assert StemAt(config, s2, 0) == StemAt(config, s2, 1);
  }

  lemma SlugOfAB()
    ensures Slug("/a/b") == Slug("/a-b") == "a-b"
  {
    assert Dashed("b", false) == "b" by {
      assert "b"[1..] == [];
    }
    assert "/b"[1..] == "b" && "-b"[1..] == "b";
    assert Dashed("/b", false) == "-b" && Dashed("-b", false) == "-b";
    assert "a/b"[1..] == "/b" && "a-b"[1..] == "-b";
    assert Dashed("a/b", true) == "a-b" && Dashed("a-b", true) == "a-b";
    assert "/a/b"[1..] == "a/b" && "/a-b"[1..] == "a-b";
    assert Dashed("/a/b", false) == "-a-b" && Dashed("/a-b", false) == "-a-b";
    assert "-a-b"[1..] == "a-b";
    assert StripDashes("-a-b") == "a-b";
  }
}
