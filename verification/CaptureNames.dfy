/**
 When the files of a capture of `tools/record-fixtures/raw_capture.py` are distinct, told from its
 command line. Without `--name-by-path` they always are. With it a file is named after its path's
 slug, and paths that share one share files; `--max-per-path` above zero lets any path in, so two
 of those can always turn up.
 */
module CaptureNames {
  import opened Capture
  import opened CaptureCompletion
  import opened Wrappers

  /** In every interleaving of every sender's requests, no two claimed requests share a file. */
  ghost predicate NeverShared(config: Config) {
    forall events :: DistinctStems(config, Reached(config, events))
  }

  /** A path `--require` asks for and `--discard` leaves in. */
  predicate Wanted(config: Config, p: string) {
    p in config.required && config.required[p] > 0 && p !in config.discard
  }

  /** What to ask of a command line: files aren't named by path, or the capture is complete before
      it starts, or only required paths are claimed and no two of them share a slug. */
  ghost predicate SlugsKeepApart(config: Config) {
    || !config.byPath
    || Complete(config, Initial.tally)
    || (config.maxPerPath <= 0
        && forall p, q | Wanted(config, p) && Wanted(config, q) && p != q :: Slug(p) != Slug(q))
  }

  // ---- Where no slug is shared ----

  /** With no room for other paths, a claimed path is a wanted one. */
  lemma ClaimedIsWanted(config: Config, events: seq<Event>, k: nat)
    requires config.byPath && config.maxPerPath <= 0 && k < |Reached(config, events).claims|
    ensures Wanted(config, Reached(config, events).claims[k].path)
  {
    var claims := Reached(config, events).claims;
    var p := claims[k].path;
    ReachedInv(config, events);
    ClaimsOfGrows(claims, k, |claims|);
    assert claims[..|claims|] == claims;
    if !Wanted(config, p) {
      NeverWritten(config, Initial, p, events);
    }
  }

  lemma KeptApart(config: Config, events: seq<Event>)
    requires SlugsKeepApart(config)
    ensures DistinctStems(config, Reached(config, events))
  {
    FilesAreDistinct(config, events);
    var s := Reached(config, events);
    if config.byPath && SlugsClash(s) {
      var j, k :| 0 <= j < |s.claims| && 0 <= k < |s.claims|
                  && s.claims[j].path != s.claims[k].path && Slug(s.claims[j].path) == Slug(s.claims[k].path);
      if Complete(config, Initial.tally) {
        NeverClaimed(config, events);
      } else {
        ClaimedIsWanted(config, events, j);
        ClaimedIsWanted(config, events, k);
      }
      assert false;
    }
  }

  // ---- Runs that share a file ----

  /** The claim of a path that is let in: its number 0, and no other path's count changes. */
  lemma FirstOfPath(config: Config, tally: Tally, p: string)
    requires config.byPath && p !in config.discard && Limit(config, p) > 0 && Get(tally.written, p) == 0
    ensures Number(config, tally, p) == Some(0)
    ensures forall q | q != p :: Get(Claimed(config, tally, p).written, q) == Get(tally.written, q)
    ensures Claimed(config, tally, p).done == tally.done
  {
  }

  /** Two requests of one slug, the second while the capture is still running. */
  lemma SharedByTwo(config: Config, p: string, q: string)
    requires config.byPath && p != q && Slug(p) == Slug(q) && !Complete(config, Initial.tally)
    requires p !in config.discard && Limit(config, p) > 0 && q !in config.discard && Limit(config, q) > 0
    requires !Complete(config, Claimed(config, Initial.tally, p))
    ensures !DistinctStems(config, Reached(config, [Request(p), Request(q)]))
  {
    FirstOfPath(config, Initial.tally, p);
    var s1 := Step(config, Initial, Request(p));
    FirstOfPath(config, s1.tally, q);
    var s2 := Step(config, s1, Request(q));
    assert s1.claims == [Claim(p, 0, Decided)];
    assert s2.claims == [Claim(p, 0, Decided), Claim(q, 0, Decided)];
    assert [Request(p), Request(q)][1..] == [Request(q)] && [Request(q)][1..] == [];
    assert Run(config, s2, []) == s2;
    assert Run(config, s1, [Request(q)]) == s2;
    assert StemAt(config, s2, 0) == StemAt(config, s2, 1);
  }

  /** Two wanted paths of one slug: the second is still wanted when the first has been claimed. */
  lemma WantedShare(config: Config, p: string, q: string)
    requires config.byPath && Wanted(config, p) && Wanted(config, q) && p != q && Slug(p) == Slug(q)
    ensures !NeverShared(config)
  {
    FirstOfPath(config, Initial.tally, p);
    assert Get(Claimed(config, Initial.tally, p).written, q) == 0 < config.required[q];
    SharedByTwo(config, p, q);
  }

  function Slashes(n: nat): (s: string)
    ensures |s| == n
  {
    if n == 0 then [] else ['/'] + Slashes(n - 1)
  }

  lemma {:induction false} DashedSlashes(n: nat, inRun: bool)
    ensures Dashed(Slashes(n), inRun) == if n == 0 || inRun then [] else ['-']
    decreases n
  {
    if n > 0 {
      assert Slashes(n)[1..] == Slashes(n - 1);
      DashedSlashes(n - 1, true);
    }
  }

  /** Every path of slashes alone is `root`. */
  lemma SlugOfSlashes(n: nat)
    ensures Slug(Slashes(n)) == "root"
  {
    DashedSlashes(n, false);
    assert StripDashes([]) == [];
    assert ['-'][1..] == [];
    assert StripDashes(['-']) == StripDashes([]);
  }

  /** With room for any path, two that nobody asked for share the slug `root`. */
  lemma OthersShare(config: Config)
    requires config.byPath && config.maxPerPath > 0 && !Complete(config, Initial.tally)
    ensures !NeverShared(config)
  {
    var longest := FreshPath(config.discard + config.required.Keys);
    var p, q := Slashes(|longest|), Slashes(|longest| + 1);
    Longer(config.discard + config.required.Keys, longest, p);
    Longer(config.discard + config.required.Keys, longest, q);
    SlugOfSlashes(|longest|);
    SlugOfSlashes(|longest| + 1);
    FirstOfPath(config, Initial.tally, p);
    StillRunning(config, p);
    SharedByTwo(config, p, q);
  }

  lemma Longer(used: set<string>, longest: string, p: string)
    requires (forall q <- used :: |q| < |longest|) && |longest| <= |p|
    ensures p !in used
  {
  }

  /** A claim of a path nobody requires completes nothing. */
  lemma StillRunning(config: Config, p: string)
    requires !Complete(config, Initial.tally) && p !in config.required
    requires Number(config, Initial.tally, p).Some? && config.byPath
    ensures !Complete(config, Claimed(config, Initial.tally, p))
  {
    if config.required != map[] {
      var q :| q in config.required && Get(Initial.tally.written, q) < config.required[q];
      assert Get(Claimed(config, Initial.tally, p).written, q) == 0;
    }
  }

  /** Files are never shared, whoever sends what in whatever order, exactly when `SlugsKeepApart`. */
  lemma NeverSharedExactly(config: Config)
    ensures NeverShared(config) <==> SlugsKeepApart(config)
  {
    if SlugsKeepApart(config) {
      forall events
        ensures DistinctStems(config, Reached(config, events))
      {
        KeptApart(config, events);
      }
    } else if config.maxPerPath > 0 {
      OthersShare(config);
    } else {
      var p, q :| Wanted(config, p) && Wanted(config, q) && p != q && Slug(p) == Slug(q);
      WantedShare(config, p, q);
    }
  }
}
