/**
 When a complete capture of `tools/record-fixtures/raw_capture.py` has answered everything it
 claimed. Under the plain `--count` rule it always has. `--require` counts requests at their claim,
 and `--name-by-path` goes on claiming past `--count`, so under either a capture can be complete
 with a claimed request's files and reply still to come.
 */
module CaptureCompletion {
  import opened Capture

  ghost predicate AllCounted(s: State) { forall c <- s.claims :: c.phase.Counted? }

  /** In every interleaving, a capture is complete only once every claimed request's reply has been
      flushed and counted. */
  ghost predicate WaitsForReplies(config: Config) {
    forall events ::
      Complete(config, Reached(config, events).tally) ==> AllCounted(Reached(config, events))
  }

  /** What to ask of a command line: under `--name-by-path`, either nothing can be claimed, or some
      required path is discarded, and the capture never completes. */
  ghost predicate NothingOutruns(config: Config) {
    || !config.byPath
    || if config.required == map[] then config.count <= 0 || config.maxPerPath <= 0
       else
         || (forall p <- config.required :: config.required[p] <= 0)
         || (exists p <- config.required :: config.required[p] > 0 && p in config.discard)
  }

  // ---- Where nothing outruns the replies ----

  lemma NeverClaimed(config: Config, events: seq<Event>)
    requires Complete(config, Initial.tally)
    ensures Reached(config, events).claims == []
  {
    CompleteNeverReverts(config, Initial, events);
  }

  lemma {:induction false} NeverWritten(config: Config, s: State, p: string, events: seq<Event>)
    requires !config.byPath || p in config.discard || Limit(config, p) <= 0
    requires Get(s.tally.written, p) == 0
    ensures Get(Run(config, s, events).tally.written, p) == 0
    decreases events
  {
    if events != [] {
      NeverWritten(config, Step(config, s, events[0]), p, events[1..]);
    }
  }

  /** Without `--name-by-path`, a `--require` that asks for anything is never met. */
  lemma UnmetRequire(config: Config, p: string, events: seq<Event>)
    requires p in config.required && config.required[p] > 0
    requires !config.byPath || p in config.discard
    ensures !Complete(config, Reached(config, events).tally)
  {
    NeverWritten(config, Initial, p, events);
  }

  lemma NoRoomNoClaim(config: Config, events: seq<Event>)
    requires config.byPath && config.required == map[] && config.maxPerPath <= 0
    ensures Reached(config, events).claims == []
  {
    var s := Reached(config, events);
    ReachedInv(config, events);
    if s.claims != [] {
      var p := s.claims[|s.claims| - 1].path;
      NeverWritten(config, Initial, p, events);
      assert false;
    }
  }

  lemma OutrunsNothing(config: Config, events: seq<Event>)
    requires NothingOutruns(config) && Complete(config, Reached(config, events).tally)
    ensures AllCounted(Reached(config, events))
  {
    if config.required == map[] {
      if !config.byPath {
        PlainCountSafe(config, events);
      } else if config.count <= 0 {
        NeverClaimed(config, events);
      } else {
        NoRoomNoClaim(config, events);
      }
    } else if p :| p in config.required && config.required[p] > 0 && (!config.byPath || p in config.discard) {
      UnmetRequire(config, p, events);
    } else {
      NeverClaimed(config, events);
    }
  }

  // ---- Runs that complete too soon ----

  lemma {:induction false} RunMore(config: Config, s: State, events: seq<Event>, e: Event)
    ensures Run(config, s, events + [e]) == Step(config, Run(config, s, events), e)
    decreases events
  {
    if events == [] {
      assert events + [e] == [e] && [e][1..] == [];
    } else {
      assert (events + [e])[1..] == events[1..] + [e];
      RunMore(config, Step(config, s, events[0]), events[1..], e);
    }
  }

  ghost predicate AllDecided(s: State) { forall c <- s.claims :: c.phase.Decided? }

  /** One more request claimed, none written. */
  lemma OneMoreClaim(config: Config, events: seq<Event>, p: string)
    requires var s := Reached(config, events);
             AllDecided(s) && !Complete(config, s.tally) && Number(config, s.tally, p).Some?
    ensures var s, s' := Reached(config, events), Reached(config, events + [Request(p)]);
            && AllDecided(s') && |s'.claims| == |s.claims| + 1
            && s'.tally == Claimed(config, s.tally, p)
  {
    RunMore(config, Initial, events, Request(p));
  }

  /** Whatever was required of a path stays met. */
  predicate Met(config: Config, s: State, p: string) {
    Complete(config, s.tally) || (p in config.required && Get(s.tally.written, p) >= config.required[p])
  }

  ghost predicate StaysMet(config: Config, events: seq<Event>, more: seq<Event>) {
    forall q :: Met(config, Reached(config, events), q) ==> Met(config, Reached(config, more), q)
  }

  lemma {:induction false} MeetPath(config: Config, events: seq<Event>, p: string) returns (more: seq<Event>)
    requires config.byPath && p in config.required && (config.required[p] > 0 ==> p !in config.discard)
    requires AllDecided(Reached(config, events))
    ensures AllDecided(Reached(config, more)) && Met(config, Reached(config, more), p)
    ensures StaysMet(config, events, more)
    decreases config.required[p] - Get(Reached(config, events).tally.written, p)
  {
    more := events;
    if !Met(config, Reached(config, events), p) {
      OneMoreClaim(config, events, p);
      more := MeetPath(config, events + [Request(p)], p);
    }
  }

  lemma {:induction false} MeetAll(config: Config, events: seq<Event>, left: set<string>) returns (more: seq<Event>)
    requires config.byPath && config.required != map[]
    requires forall p <- config.required | config.required[p] > 0 :: p !in config.discard
    requires left <= config.required.Keys && AllDecided(Reached(config, events))
    requires forall p <- config.required.Keys - left :: Met(config, Reached(config, events), p)
    ensures AllDecided(Reached(config, more)) && Complete(config, Reached(config, more).tally)
    decreases left
  {
    more := events;
    if left != {} {
      var p :| p in left;
      more := MeetPath(config, events, p);
      more := MeetAll(config, more, left - {p});
    } else {
      assert config.required.Keys - left == config.required.Keys;
      assert forall p <- config.required :: Met(config, Reached(config, events), p);
    }
  }

  /** Every required path claimed often enough, and nothing written yet. */
  lemma RequireOutruns(config: Config)
    requires config.required != map[] && !NothingOutruns(config)
    ensures !WaitsForReplies(config)
  {
    var events := MeetAll(config, [], config.required.Keys);
    var s := Reached(config, events);
    var p :| p in config.required && config.required[p] > 0;
    ReachedInv(config, events);
    assert Get(s.tally.written, p) == ClaimsOf(s.claims, p) > 0;
    assert s.claims[0] in s.claims;
    assert !AllCounted(s);
  }

  lemma {:induction false} FreshPath(used: set<string>) returns (p: string)
    ensures p !in used
    ensures forall q <- used :: |q| < |p|
  {
    p := "/";
    if used != {} {
      var u :| u in used;
      var longer := FreshPath(used - {u});
      p := longer + u + "/";
      forall q | q in used
        ensures |q| < |p|
      {
        assert q == u || q in used - {u};
      }
    }
  }

  /** As many requests in flight as one likes, each to a path of its own. */
  lemma {:induction false} ManyClaims(config: Config, n: nat) returns (events: seq<Event>)
    requires config.byPath && config.required == map[] && config.count > 0 && config.maxPerPath > 0
    ensures var s := Reached(config, events);
            AllDecided(s) && |s.claims| == n && s.tally.done == 0
  {
    events := [];
    if n > 0 {
      events := ManyClaims(config, n - 1);
      var s := Reached(config, events);
      var p := FreshPath(config.discard + s.tally.written.Keys);
      assert p !in s.tally.written.Keys;
      OneMoreClaim(config, events, p);
      events := events + [Request(p)];
    }
  }

  /** Write, flush and count the k-th claim. */
  lemma FinishOne(config: Config, events: seq<Event>, k: nat)
    requires InPhase(Reached(config, events), k, Decided)
    ensures var s := Reached(config, events);
            Reached(config, events + [Write(k)] + [Flush(k)] + [Count(k)])
              == State(s.tally.(done := s.tally.done + 1), s.claims[k := s.claims[k].(phase := Counted)])
  {
    RunMore(config, Initial, events, Write(k));
    RunMore(config, Initial, events + [Write(k)], Flush(k));
    RunMore(config, Initial, events + [Write(k)] + [Flush(k)], Count(k));
  }

  /** The first n finished, the others not begun. */
  ghost predicate Finished(s: State, n: nat) {
    s.tally.done == n && forall k | n <= k < |s.claims| :: s.claims[k].phase.Decided?
  }

  lemma {:induction false} FinishFirst(config: Config, events: seq<Event>, n: nat) returns (more: seq<Event>)
    requires n <= |Reached(config, events).claims| && Finished(Reached(config, events), 0)
    ensures |Reached(config, more).claims| == |Reached(config, events).claims|
    ensures Finished(Reached(config, more), n)
  {
    more := events;
    if n > 0 {
      more := FinishFirst(config, events, n - 1);
      FinishOne(config, more, n - 1);
      more := more + [Write(n - 1)] + [Flush(n - 1)] + [Count(n - 1)];
    }
  }

  /** One request more than `--count` in flight, and all but that one finished. */
  lemma CountOutruns(config: Config)
    requires config.required == map[] && !NothingOutruns(config)
    ensures !WaitsForReplies(config)
  {
    var events := ManyClaims(config, config.count + 1);
    var more := FinishFirst(config, events, config.count);
    var s := Reached(config, more);
    assert s.claims[config.count] in s.claims && s.claims[config.count].phase.Decided?;
    assert Complete(config, s.tally) && !AllCounted(s);
  }

  /** Completion waits for every claimed request's reply exactly when `NothingOutruns`. */
  lemma WaitsExactly(config: Config)
    ensures WaitsForReplies(config) <==> NothingOutruns(config)
  {
    if NothingOutruns(config) {
      forall events | Complete(config, Reached(config, events).tally)
        ensures AllCounted(Reached(config, events))
      {
        OutrunsNothing(config, events);
      }
    } else if config.required == map[] {
      CountOutruns(config);
    } else {
      RequireOutruns(config);
    }
  }
}
