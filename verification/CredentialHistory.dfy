/**
 The credential cache of `crates/logit-aws/src/creds.rs`, seen from its log: in every run the cache
 is what the stores and forgets logged so far make of it, each store brings credentials newer than
 all stored before, and each forget names credentials that were stored. So forgetting older
 credentials never touches newer ones, and a lookup that fails or is cancelled leaves the cache
 alone.
 */
module CredentialHistory {
  import opened CredentialCache
  import opened Wrappers

  // ---- The cache the log implies ----

  function Replayed(cache: Option<Cached>, e: Event): Option<Cached> {
    match e
    case Keep(c, _, wall, later) => Entry(c, wall, later)
    case Forgot(c) => Without(cache, c)
    case _ => cache
  }

  function Replay(log: seq<Event>): Option<Cached> {
    if log == [] then None else Replayed(Replay(log[..|log| - 1]), log[|log| - 1])
  }

  // ---- What every step keeps ----

  ghost predicate WasKept(log: seq<Event>, c: Credentials) {
    exists e <- log :: e.Keep? && e.c == c
  }

  ghost predicate KeptBelow(log: seq<Event>, n: nat) {
    forall e <- log :: e.Keep? ==> e.c.id < n
  }

  /** Each store is newer than those before it, and each forget names one of those before it. */
  ghost predicate InOrder(before: seq<Event>, e: Event) {
    (e.Keep? ==> KeptBelow(before, e.c.id)) && (e.Forgot? ==> WasKept(before, e.c))
  }

  ghost predicate InOrderAt(log: seq<Event>, k: nat)
    requires k < |log|
  {
    InOrder(log[..k], log[k])
  }

  ghost predicate AllInOrder(log: seq<Event>) {
    forall k | 0 <= k < |log| :: InOrderAt(log, k)
  }

  predicate Unstored(d: Dial) { d.Found? || d.Measured? || d.Stamped? }

  ghost predicate ReturnedKept(log: seq<Event>, dials: seq<Dial>) {
    forall d <- dials :: d.Returned? ==> WasKept(log, d.c)
  }

  ghost predicate CurrentInv(log: seq<Event>, current: Dial) {
    && (Unstored(current) ==> KeptBelow(log, current.c.id))
    && (current.Stored? ==> WasKept(log, current.c))
  }

  ghost predicate CacheInv(log: seq<Event>, cache: Option<Cached>) {
    cache == Replay(log) && (cache.Some? ==> WasKept(log, cache.value.credentials))
  }

  ghost predicate History(s: State) {
    && CacheInv(s.log, s.cache) && AllInOrder(s.log) && KeptBelow(s.log, s.next)
    && ReturnedKept(s.log, s.dials) && CurrentInv(s.log, Current(s.holder, s.dials))
  }

  lemma {:induction false} OneMore(log: seq<Event>, e: Event)
    ensures Replay(log + [e]) == Replayed(Replay(log), e)
    ensures AllInOrder(log) && InOrder(log, e) ==> AllInOrder(log + [e])
  {
    var all := log + [e];
    assert all[..|log|] == log;
    if AllInOrder(log) && InOrder(log, e) {
      forall k | 0 <= k < |all|
        ensures InOrderAt(all, k)
      {
        if k < |log| {
          assert all[..k] == log[..k] && InOrderAt(log, k);
        }
      }
    }
  }

  lemma {:induction false} KeptStays(log: seq<Event>, e: Event, c: Credentials)
    ensures WasKept(log + [e], c) <==> WasKept(log, c) || (e.Keep? && e.c == c)
  {
    if WasKept(log, c) {
      var k :| k in log && k.Keep? && k.c == c;
      assert k in log + [e];
    } else if e.Keep? && e.c == c {
      assert e in log + [e];
    }
  }

  /** Logging anything but a store or a forget. */
  lemma {:induction false} Uneventful(log: seq<Event>, e: Event, cache: Option<Cached>, dials: seq<Dial>, n: nat)
    requires !e.Keep? && !e.Forgot? && CacheInv(log, cache) && AllInOrder(log)
    requires KeptBelow(log, n) && ReturnedKept(log, dials)
    ensures CacheInv(log + [e], cache) && AllInOrder(log + [e])
    ensures KeptBelow(log + [e], n) && ReturnedKept(log + [e], dials)
  {
    OneMore(log, e);
    forall c
      ensures WasKept(log + [e], c) <==> WasKept(log, c)
    {
      KeptStays(log, e, c);
    }
  }

  lemma ForgetLogged(log: seq<Event>, c: Credentials, cache: Option<Cached>, dials: seq<Dial>, n: nat)
    requires WasKept(log, c) && CacheInv(log, cache) && AllInOrder(log)
    requires KeptBelow(log, n) && ReturnedKept(log, dials)
    ensures var log' := log + [Forgot(c)];
            && CacheInv(log', Without(cache, c)) && AllInOrder(log')
            && KeptBelow(log', n) && ReturnedKept(log', dials)
  {
    OneMore(log, Forgot(c));
    forall x
      ensures WasKept(log + [Forgot(c)], x) <==> WasKept(log, x)
    {
      KeptStays(log, Forgot(c), x);
    }
  }

  lemma {:induction false} StoreLogged(log: seq<Event>, e: Event, dials: seq<Dial>, n: nat)
    requires e.Keep? && KeptBelow(log, e.c.id) && AllInOrder(log)
    requires KeptBelow(log, n) && e.c.id < n && ReturnedKept(log, dials)
    ensures var log' := log + [e];
            && CacheInv(log', Entry(e.c, e.wall, e.later)) && AllInOrder(log')
            && KeptBelow(log', n) && ReturnedKept(log', dials) && CurrentInv(log', Stored(e.c))
  {
    OneMore(log, e);
    forall x
      ensures WasKept(log + [e], x) <==> WasKept(log, x) || x == e.c
    {
      KeptStays(log, e, x);
    }
  }

  lemma {:induction false} CurrentStays(log: seq<Event>, e: Event, current: Dial)
    requires CurrentInv(log, current) && !e.Keep?
    ensures CurrentInv(log + [e], current)
  {
    if current.Stored? {
      KeptStays(log, e, current.c);
    }
  }

  lemma {:induction false} ReturnedMove(log: seq<Event>, dials: seq<Dial>, d: nat, dial: Dial)
    requires ReturnedKept(log, dials) && d < |dials| && (dial.Returned? ==> WasKept(log, dial.c))
    ensures ReturnedKept(log, dials[d := dial])
  {
  }

  lemma {:induction false} ServeKeeps(s: State, d: nat, c: Credentials)
    requires LockInv(s.holder, s.dials) && History(s) && At(s, d) && s.dials[d].Checking?
    requires Served(s.cache, s.mono) == Some(c)
    ensures History(CheckCache(s, d))
  {
    HolderMoves(s, d, Returned(c));
    ReturnedMove(s.log, s.dials, d, Returned(c));
    Uneventful(s.log, Serve(c, s.mono, s.wall), s.cache, s.dials[d := Returned(c)], s.next);
  }

  lemma {:induction false} StartKeeps(s: State, d: nat)
    requires LockInv(s.holder, s.dials) && History(s) && At(s, d) && s.dials[d].Checking?
    requires Served(s.cache, s.mono).None?
    ensures History(CheckCache(s, d))
  {
    HolderMoves(s, d, Looking);
    ReturnedMove(s.log, s.dials, d, Looking);
    Uneventful(s.log, Start(s.mono), s.cache, s.dials[d := Looking], s.next);
  }

  lemma {:induction false} CheckKeeps(s: State, d: nat)
    requires LockInv(s.holder, s.dials) && History(s) && At(s, d) && s.dials[d].Checking?
    ensures History(CheckCache(s, d))
  {
    match Served(s.cache, s.mono) {
      case Some(c) => ServeKeeps(s, d, c);
      case None => StartKeeps(s, d);
    }
  }

  lemma {:induction false} AnswerKeeps(s: State, d: nat, expires: Option<int>)
    requires LockInv(s.holder, s.dials) && History(s) && At(s, d) && s.dials[d].Looking?
    ensures History(Step(s, Answer(d, expires)))
  {
    var dial := Found(Credentials(s.next, expires));
    HolderMoves(s, d, dial);
    ReturnedMove(s.log, s.dials, d, dial);
  }

  lemma {:induction false} BreakKeeps(s: State, d: nat, a: Action)
    requires LockInv(s.holder, s.dials) && History(s) && At(s, d) && s.dials[d].Looking?
    requires a == Fail(d) || a == Cancel(d)
    ensures History(Step(s, a))
  {
    var dial, e := if a.Fail? then Failed else Cancelled, if a.Fail? then LookupFailed else LookupCancelled;
    HolderMoves(s, d, dial);
    ReturnedMove(s.log, s.dials, d, dial);
    Uneventful(s.log, e, s.cache, s.dials[d := dial], s.next);
  }

  lemma {:induction false} LeaveKeeps(s: State, d: nat)
    requires LockInv(s.holder, s.dials) && History(s) && At(s, d) && s.dials[d].Waiting?
    ensures History(Step(s, Cancel(d)))
  {
    assert Current(s.holder, s.dials[d := Cancelled]) == Current(s.holder, s.dials);
    ReturnedMove(s.log, s.dials, d, Cancelled);
  }

  lemma {:induction false} MoveKeeps(s: State, a: Action)
    requires LockInv(s.holder, s.dials) && History(s) && (a.Measure? || a.Stamp? || a.Return?)
    ensures History(Step(s, a))
  {
    if At(s, a.d) && HasFresh(s.dials[a.d]) && Step(s, a) != s {
      var dial := Step(s, a).dials[a.d];
      HolderMoves(s, a.d, dial);
      ReturnedMove(s.log, s.dials, a.d, dial);
    }
  }

  lemma {:induction false} StoreKeeps(s: State, d: nat)
    requires LockInv(s.holder, s.dials) && History(s) && At(s, d) && s.dials[d].Stamped? && s.dials[d].c.id < s.next
    ensures History(StoreEntry(s, d))
  {
    var Stamped(c, mono, wall, later) := s.dials[d];
    HolderMoves(s, d, Stored(c));
    ReturnedMove(s.log, s.dials, d, Stored(c));
    StoreLogged(s.log, Keep(c, mono, wall, later), s.dials[d := Stored(c)], s.next);
  }

  lemma {:induction false} ForgetKeeps(s: State, c: Credentials)
    requires History(s) && Returned(c) in s.dials
    ensures History(Step(s, Forget(c)))
  {
    ForgetLogged(s.log, c, s.cache, s.dials, s.next);
    CurrentStays(s.log, Forgot(c), Current(s.holder, s.dials));
  }

  lemma {:induction false} QuietKeeps(s: State, a: Action)
    requires LockInv(s.holder, s.dials) && History(s) && (a.Arrive? || a.Acquire? || a.Tick? || a.Adjust?)
    ensures History(Step(s, a))
  {
  }

  lemma {:induction false} StepKeepsHistory(s: State, a: Action)
    requires Inv(s) && History(s)
    ensures History(Step(s, a))
  {
    match a
    case Check(d) => if At(s, d) && s.dials[d].Checking? { CheckKeeps(s, d); }
    case Answer(d, expires) => if At(s, d) && s.dials[d].Looking? { AnswerKeeps(s, d, expires); }
    case Fail(d) => if At(s, d) && s.dials[d].Looking? { BreakKeeps(s, d, a); }
    case Cancel(d) =>
      if At(s, d) && s.dials[d].Waiting? {
        LeaveKeeps(s, d);
      } else if At(s, d) && s.dials[d].Looking? {
        BreakKeeps(s, d, a);
      }
    case Measure(_) => MoveKeeps(s, a);
    case Stamp(_) => MoveKeeps(s, a);
    case Return(_) => MoveKeeps(s, a);
    case Store(d) => if At(s, d) && s.dials[d].Stamped? { StoreKeeps(s, d); }
    case Forget(c) => if Returned(c) in s.dials { ForgetKeeps(s, c); }
    case Arrive => QuietKeeps(s, a);
    case Acquire(_) => QuietKeeps(s, a);
    case Tick(_) => QuietKeeps(s, a);
    case Adjust(_) => QuietKeeps(s, a);
  }

  lemma {:induction false} RunKeepsHistory(s: State, actions: seq<Action>)
    requires Inv(s) && History(s)
    ensures History(Run(s, actions))
    decreases actions
  {
    if actions != [] {
      StepKeepsInv(s, actions[0]);
      StepKeepsHistory(s, actions[0]);
      RunKeepsHistory(Step(s, actions[0]), actions[1..]);
    }
  }

  lemma {:induction false} ReachedHistory(mono: int, wall: int, actions: seq<Action>)
    ensures History(Run(Initial(mono, wall), actions))
  {
    RunKeepsHistory(Initial(mono, wall), actions);
  }

  // ---- Whole runs ----

  function Log(mono: int, wall: int, actions: seq<Action>): seq<Event> { Run(Initial(mono, wall), actions).log }

  /** In every run, the cache is what its log's stores and forgets make of it: nothing else, and no
      failed or cancelled lookup among them, ever changes it. */
  lemma {:induction false} CacheIsReplay(mono: int, wall: int, actions: seq<Action>)
    ensures Run(Initial(mono, wall), actions).cache == Replay(Log(mono, wall, actions))
  {
    ReachedHistory(mono, wall, actions);
  }

  /** In every run, each stored credential is newer than every one stored before it. */
  lemma {:induction false} StoredInOrder(mono: int, wall: int, actions: seq<Action>, i: nat, j: nat)
    ensures var log := Log(mono, wall, actions);
            i < j < |log| && log[i].Keep? && log[j].Keep? ==> log[i].c.id < log[j].c.id
  {
    ReachedHistory(mono, wall, actions);
    var log := Log(mono, wall, actions);
    if i < j < |log| && log[i].Keep? && log[j].Keep? {
      assert InOrderAt(log, j);
      assert log[..j][i] in log[..j];
    }
  }

  /** In every run, whatever is forgotten was stored before. */
  lemma {:induction false} ForgottenWasStored(mono: int, wall: int, actions: seq<Action>, k: nat) returns (i: nat)
    requires k < |Log(mono, wall, actions)| && Log(mono, wall, actions)[k].Forgot?
    ensures var log := Log(mono, wall, actions);
            i < k && log[i].Keep? && log[i].c == log[k].c
  {
    ReachedHistory(mono, wall, actions);
    var log := Log(mono, wall, actions);
    assert InOrderAt(log, k);
    var e :| e in log[..k] && e.Keep? && e.c == log[k].c;
    i :| 0 <= i < k && log[..k][i] == e;
  }

  /** What is in the cache came with the last store. */
  lemma {:induction false} CachedIsLatest(log: seq<Event>) returns (j: nat)
    requires Replay(log).Some?
    ensures j < |log| && log[j].Keep? && log[j].c == Replay(log).value.credentials
    ensures forall m | j < m < |log| :: !log[m].Keep?
  {
    j := |log| - 1;
    if !log[j].Keep? {
      j := CachedIsLatest(log[..|log| - 1]);
    }
  }

  /** In every run, a forget of credentials stored before the latest ones leaves the cache, and so
      the latest ones, as they were. */
  lemma {:induction false} OlderForgetsNothing(mono: int, wall: int, actions: seq<Action>, i: nat, j: nat, k: nat)
    requires var log := Log(mono, wall, actions);
             && i < j < k < |log| && log[i].Keep? && log[j].Keep? && log[k] == Forgot(log[i].c)
    ensures var log := Log(mono, wall, actions);
            Replay(log[..k + 1]) == Replay(log[..k])
  {
    var log := Log(mono, wall, actions);
    assert log[..k + 1][..k] == log[..k];
    if Replay(log[..k]).Some? {
      var latest := CachedIsLatest(log[..k]);
      assert log[..k][j] == log[j];
      StoredInOrder(mono, wall, actions, i, latest);
    }
  }

  // ---- Broken lookups ----

  predicate Breaks(e: Event) { e.LookupFailed? || e.LookupCancelled? }

  /** A lookup that starts at `i` and breaks at `k`, with none started between. */
  ghost predicate BrokenLookup(log: seq<Event>, i: nat, k: nat) {
    i < k < |log| && log[i].Start? && Breaks(log[k]) && forall n | i < n < k :: !log[n].Start?
  }

  lemma {:induction false} OneLater(log: seq<Event>, m: nat)
    requires m < |log|
    ensures LastLookup(log[..m + 1]) == After(LastLookup(log[..m]), log[m])
    ensures Replay(log[..m + 1]) == Replayed(Replay(log[..m]), log[m])
  {
    assert log[..m + 1][..m] == log[..m];
  }

  /** Once a lookup has ended, only another start puts one in flight. */
  lemma {:induction false} EndedStaysEnded(log: seq<Event>, m: nat, k: nat)
    requires m < k <= |log| && (log[m].Keep? || Breaks(log[m]))
    requires forall n | m < n < k :: !log[n].Start?
    ensures !LastLookup(log[..k]).InFlight?
    decreases k
  {
    OneLater(log, k - 1);
    if m < k - 1 {
      EndedStaysEnded(log, m, k - 1);
    }
  }

  /** What is logged during a lookup that will break is a forget. */
  lemma {:induction false} ForgetsOnly(log: seq<Event>, i: nat, m: nat, k: nat)
    requires LogInv(log) && BrokenLookup(log, i, k) && i < m < k && LastLookup(log[..m]).InFlight?
    ensures log[m].Forgot?
  {
    assert PromisedAt(log, m) && PromisedAt(log, k);
    if log[m].Keep? || Breaks(log[m]) {
      EndedStaysEnded(log, m, k);
    }
  }

  /** The forgets among `events`, applied to `cache`. */
  function Forgotten(cache: Option<Cached>, events: seq<Event>): Option<Cached>
    decreases events
  {
    if events == [] then cache
    else
      var last := |events| - 1;
      var before := Forgotten(cache, events[..last]);
      if events[last].Forgot? then Without(before, events[last].c) else before
  }

  lemma {:induction false} OneMoreForgotten(cache: Option<Cached>, log: seq<Event>, i: nat, m: nat)
    requires i <= m < |log| && log[m].Forgot?
    ensures Forgotten(cache, log[i..m + 1]) == Without(Forgotten(cache, log[i..m]), log[m].c)
  {
    assert log[i..m + 1][..m - i] == log[i..m];
  }

  lemma {:induction false} StaysInFlight(log: seq<Event>, i: nat, m: nat, k: nat)
    requires LogInv(log) && BrokenLookup(log, i, k) && i < m < k
    ensures LastLookup(log[..m]).InFlight? && log[m].Forgot?
    decreases m
  {
    OneLater(log, m - 1);
    if i < m - 1 {
      StaysInFlight(log, i, m - 1, k);
    }
    ForgetsOnly(log, i, m, k);
  }

  lemma {:induction false} ForgetsApplied(log: seq<Event>, i: nat, m: nat)
    requires i < m <= |log| && log[i].Start? && forall n | i < n < m :: log[n].Forgot?
    ensures Replay(log[..m]) == Forgotten(Replay(log[..i]), log[i + 1..m])
    decreases m
  {
    OneLater(log, m - 1);
    if i < m - 1 {
      ForgetsApplied(log, i, m - 1);
      OneMoreForgotten(Replay(log[..i]), log, i + 1, m - 1);
    } else {
      assert log[i + 1..m] == [];
    }
  }

  lemma {:induction false} BrokenLookupReplayed(log: seq<Event>, i: nat, k: nat)
    requires LogInv(log) && BrokenLookup(log, i, k)
    ensures Replay(log[..k + 1]) == Forgotten(Replay(log[..i]), log[i + 1..k])
  {
    forall n | i < n < k
      ensures log[n].Forgot?
    {
      StaysInFlight(log, i, n, k);
    }
    ForgetsApplied(log, i, k);
    OneLater(log, k);
  }

  /** In every run, over a lookup that fails or is cancelled, from its start to its end, the cache
      changes by the forgets made meanwhile and by nothing else. */
  lemma {:induction false} BrokenLookupLeavesCache(mono: int, wall: int, actions: seq<Action>, i: nat, k: nat)
    requires BrokenLookup(Log(mono, wall, actions), i, k)
    ensures var log := Log(mono, wall, actions);
            Replay(log[..k + 1]) == Forgotten(Replay(log[..i]), log[i + 1..k])
  {
    ReachedInv(mono, wall, actions);
    BrokenLookupReplayed(Log(mono, wall, actions), i, k);
  }
}
