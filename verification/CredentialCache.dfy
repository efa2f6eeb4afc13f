/**
 The shared credential cache of `crates/logit-aws/src/creds.rs`: `Chain::credentials` and
 `Chain::forget`, called by concurrent dials.

 `Chain` holds the cache; its methods are the sections the source runs under the cache's lock. The
 protocol runs any number of dials through `credentials` one clock read, lookup or locked section
 at a time, with cancellations at the two awaits, forgets, time passing and the wall clock being
 set. Every theorem is about the log of every run.

 Times are nanoseconds. `mono` is what `Instant::now` reads and `wall` what `SystemTime::now` reads.
 */
module CredentialCache {
  import opened Wrappers

  const REFRESH_MARGIN: int := 5 * 60 * 1_000_000_000

  /** `id` is the identity `Arc::ptr_eq` compares: every lookup's answer is a new one. */
  datatype Credentials = Credentials(id: nat, expires: Option<int>)

  datatype Cached = Cached(credentials: Credentials, refreshAt: int)

  // ---- The locked sections ----

  /** What a dial is served from the cache at `mono`. */
  function Served(cache: Option<Cached>, mono: int): Option<Credentials> {
    if cache.Some? && mono < cache.value.refreshAt then Some(cache.value.credentials) else None
  }

  /** How long credentials are reused, seen from `wall`: nothing without an expiry, past it, or
      within the margin of it. */
  function Reuse(c: Credentials, wall: int): Option<int> {
    match c.expires
    case None => None
    case Some(expires) =>
      if expires < wall || expires - wall < REFRESH_MARGIN then None else Some(expires - wall - REFRESH_MARGIN)
  }

  /** What the cache holds after a lookup: `wall` is read on line 205, `mono` on line 209. */
  function Entry(c: Credentials, wall: int, mono: int): Option<Cached> {
    match Reuse(c, wall)
    case None => None
    case Some(reuse) => Some(Cached(c, mono + reuse))
  }

  function Without(cache: Option<Cached>, c: Credentials): Option<Cached> {
    if cache.Some? && cache.value.credentials.id == c.id then None else cache
  }

  class Chain {
    var cache: Option<Cached>

    constructor ()
      ensures cache == None
    {
      cache := None;
    }

    method Check(mono: int) returns (c: Option<Credentials>)
      ensures c == Served(cache, mono)
      ensures c.Some? <==> cache.Some? && mono < cache.value.refreshAt
      ensures c.Some? ==> c.value == cache.value.credentials
    {
      if cache.Some? && mono < cache.value.refreshAt {
        return Some(cache.value.credentials);
      }
      return None;
    }

    method Store(c: Credentials, wall: int, mono: int)
      modifies this
      ensures cache == Entry(c, wall, mono)
      ensures c.expires.None? || c.expires.value < wall + 300_000_000_000 ==> cache == None
      ensures c.expires.Some? && c.expires.value >= wall + 300_000_000_000 ==>
                cache == Some(Cached(c, mono + (c.expires.value - wall - 300_000_000_000)))
    {
      var reuse := Reuse(c, wall);
      cache := if reuse.Some? then Some(Cached(c, mono + reuse.value)) else None;
    }

    /** Drops exactly the credentials given: another lookup's stay. */
    method Forget(c: Credentials)
      modifies this
      ensures cache == Without(old(cache), c)
    {
      if cache.Some? && cache.value.credentials.id == c.id {
        cache := None;
      }
    }

    /** One call with nobody else about: the lookup's answer, if it is asked, is `answer`, and the
        clocks read `mono`, then `wall`, then `later`. */
    method Call(mono: int, answer: Option<Credentials>, wall: int, later: int)
        returns (r: Option<Credentials>, asked: bool)
      modifies this
      ensures asked <==> Served(old(cache), mono).None?
      ensures !asked ==> r == Served(old(cache), mono) && cache == old(cache)
      ensures asked ==> r == answer
      ensures asked && answer.None? ==> cache == old(cache)
      ensures asked && answer.Some? ==> cache == Entry(answer.value, wall, later)
    {
      r := Check(mono);
      asked := r.None?;
      if asked && answer.Some? {
        Store(answer.value, wall, later);
        r := answer;
      }
    }
  }

  // ---- The protocol ----

  /** Where a dial is in `credentials`: waiting for the lock (line 197), about to read the cache
      (198), in the lookup (203), with its answer, after reading the wall clock (205), after reading
      the monotonic one (209), after the store (207), or out. */
  datatype Dial =
    | Waiting | Checking | Looking
    | Found(c: Credentials)
    | Measured(c: Credentials, mono: int, wall: int)
    | Stamped(c: Credentials, mono: int, wall: int, later: int)
    | Stored(c: Credentials)
    | Returned(c: Credentials) | Failed | Cancelled

  /** What happened, in order. */
  datatype Event =
    | Serve(c: Credentials, mono: int, wall: int)
    | Start(mono: int)
    | LookupFailed | LookupCancelled
    | Keep(c: Credentials, mono: int, wall: int, later: int)
    | Forgot(c: Credentials)

  datatype State = State(mono: int, wall: int, cache: Option<Cached>, holder: Option<nat>,
                         dials: seq<Dial>, next: nat, log: seq<Event>)

  datatype Action =
    | Arrive | Acquire(d: nat) | Check(d: nat)
    | Answer(d: nat, expires: Option<int>) | Fail(d: nat) | Cancel(d: nat)
    | Measure(d: nat) | Stamp(d: nat) | Store(d: nat) | Return(d: nat)
    | Forget(c: Credentials) | Tick(n: nat) | Adjust(change: int)

  function Initial(mono: int, wall: int): State { State(mono, wall, None, None, [], 0, []) }

  predicate At(s: State, d: nat) { d < |s.dials| }

  function Moved(s: State, d: nat, dial: Dial): State
    requires At(s, d)
  {
    s.(dials := s.dials[d := dial])
  }

  function Logged(s: State, e: Event): State { s.(log := s.log + [e]) }

  /** The read of the cache: serve and leave, or start a lookup. */
  function CheckCache(s: State, d: nat): State
    requires At(s, d)
  {
    match Served(s.cache, s.mono)
    case Some(c) => Logged(Moved(s, d, Returned(c)).(holder := None), Serve(c, s.mono, s.wall))
    case None => Logged(Moved(s, d, Looking), Start(s.mono))
  }

  /** Dropping the call's future: it can be waiting for the lock or for the lookup. */
  function CancelDial(s: State, d: nat): State
    requires At(s, d)
  {
    if s.dials[d].Waiting? then Moved(s, d, Cancelled)
    else if s.dials[d].Looking? then Logged(Moved(s, d, Cancelled).(holder := None), LookupCancelled)
    else s
  }

  function StoreEntry(s: State, d: nat): State
    requires At(s, d) && s.dials[d].Stamped?
  {
    var Stamped(c, mono, wall, later) := s.dials[d];
    Logged(Moved(s, d, Stored(c)).(cache := Entry(c, wall, later)), Keep(c, mono, wall, later))
  }

  /** One step. An action that isn't enabled changes nothing. */
  function Step(s: State, a: Action): State {
    match a
    case Arrive => s.(dials := s.dials + [Waiting])
    case Acquire(d) =>
      if At(s, d) && s.dials[d].Waiting? && s.holder.None? then Moved(s, d, Checking).(holder := Some(d)) else s
    case Check(d) => if At(s, d) && s.dials[d].Checking? then CheckCache(s, d) else s
    case Answer(d, expires) =>
      if At(s, d) && s.dials[d].Looking? then Moved(s, d, Found(Credentials(s.next, expires))).(next := s.next + 1)
      else s
    case Fail(d) =>
      if At(s, d) && s.dials[d].Looking? then Logged(Moved(s, d, Failed).(holder := None), LookupFailed) else s
    case Cancel(d) => if At(s, d) then CancelDial(s, d) else s
    case Measure(d) =>
      if At(s, d) && s.dials[d].Found? then Moved(s, d, Measured(s.dials[d].c, s.mono, s.wall)) else s
    case Stamp(d) =>
      if At(s, d) && s.dials[d].Measured?
      then Moved(s, d, Stamped(s.dials[d].c, s.dials[d].mono, s.dials[d].wall, s.mono)) else s
    case Store(d) => if At(s, d) && s.dials[d].Stamped? then StoreEntry(s, d) else s
    case Return(d) =>
      if At(s, d) && s.dials[d].Stored? then Moved(s, d, Returned(s.dials[d].c)).(holder := None) else s
    case Forget(c) =>
      if Returned(c) in s.dials then Logged(s.(cache := Without(s.cache, c)), Forgot(c)) else s
    case Tick(n) => s.(mono := s.mono + n, wall := s.wall + n)
    case Adjust(change) => s.(wall := s.wall + change)
  }

  function Run(s: State, actions: seq<Action>): State
    decreases actions
  {
    if actions == [] then s else Run(Step(s, actions[0]), actions[1..])
  }

  // ---- What the log says ----

  /** How the last lookup ended, and what became of its credentials. */
  datatype Outcome =
    | NoLookup | InFlight | Broken | NotKept | Kept(c: Credentials, refreshAt: int) | Dropped

  function After(o: Outcome, e: Event): Outcome {
    match e
    case Serve(_, _, _) => o
    case Start(_) => InFlight
    case LookupFailed | LookupCancelled => Broken
    case Keep(c, _, wall, later) =>
      (match Entry(c, wall, later)
       case None => NotKept
       case Some(entry) => Kept(c, entry.refreshAt))
    case Forgot(c) => if o.Kept? && o.c.id == c.id then Dropped else o
  }

  function LastLookup(log: seq<Event>): Outcome {
    if log == [] then NoLookup else After(LastLookup(log[..|log| - 1]), log[|log| - 1])
  }

  function ForgottenIn(log: seq<Event>): set<nat> {
    set e <- log | e.Forgot? :: e.c.id
  }

  // ---- What every step keeps ----

  predicate Inside(d: Dial) { d.Checking? || d.Looking? || HasFresh(d) }

  /** The dial has an answer nobody else has seen. */
  predicate HasFresh(d: Dial) { d.Found? || d.Measured? || d.Stamped? || d.Stored? }

  predicate LookingUp(d: Dial) { d.Looking? || d.Found? || d.Measured? || d.Stamped? }

  /** The dial that holds the lock, and only it, is past line 197. */
  ghost predicate LockInv(holder: Option<nat>, dials: seq<Dial>) {
    && (holder.Some? ==> holder.value < |dials|)
    && forall d | 0 <= d < |dials| :: Inside(dials[d]) <==> holder == Some(d)
  }

  /** The lock holder, or a dial outside when there is none. */
  function Current(holder: Option<nat>, dials: seq<Dial>): Dial {
    if holder.Some? && holder.value < |dials| then dials[holder.value] else Waiting
  }

  ghost predicate NotReturned(dials: seq<Dial>, id: nat) {
    forall e | 0 <= e < |dials| && dials[e].Returned? :: dials[e].c.id != id
  }

  /** No identity is in use twice: not the fresh one, and not a forgotten one. */
  ghost predicate IdInv(cache: Option<Cached>, dials: seq<Dial>, next: nat, forgotten: set<nat>, current: Dial) {
    && (cache.Some? ==> cache.value.credentials.id < next && cache.value.credentials.id !in forgotten)
    && (forall e | 0 <= e < |dials| && dials[e].Returned? :: dials[e].c.id < next)
    && (forall id <- forgotten :: id < next)
    && (HasFresh(current) ==>
          && current.c.id < next && current.c.id !in forgotten && NotReturned(dials, current.c.id)
          && (cache.Some? && !current.Stored? ==> cache.value.credentials.id != current.c.id))
  }

  /** The cache is what the last lookup left, and a lookup is under way exactly when the lock holder
      is in one. */
  ghost predicate OutcomeInv(last: Outcome, cache: Option<Cached>, mono: int, current: Dial) {
    && (last.InFlight? <==> LookingUp(current))
    && match last
       case Kept(c, refreshAt) => cache == Some(Cached(c, refreshAt))
       case NoLookup => cache == None
       case NotKept => cache == None
       case Dropped => cache == None
       case Broken => Served(cache, mono) == None
       case InFlight => Served(cache, mono) == None
  }

  /** Times are read in order. */
  ghost predicate TimeInv(mono: int, current: Dial) {
    && (current.Measured? ==> current.mono <= mono)
    && (current.Stamped? ==> current.mono <= current.later <= mono)
  }

  /** What a logged event promises, given what was logged before it. */
  ghost predicate Promised(before: seq<Event>, e: Event) {
    var last := LastLookup(before);
    match e
    case Serve(c, mono, _) => last.Kept? && last.c == c && mono < last.refreshAt && c.id !in ForgottenIn(before)
    case Start(mono) => !last.InFlight? && (last.Kept? ==> last.refreshAt <= mono)
    case Keep(_, mono, _, later) => last.InFlight? && mono <= later
    case LookupFailed | LookupCancelled => last.InFlight?
    case Forgot(_) => true
  }

  ghost predicate PromisedAt(log: seq<Event>, k: nat)
    requires k < |log|
  {
    Promised(log[..k], log[k])
  }

  ghost predicate LogInv(log: seq<Event>) {
    forall k | 0 <= k < |log| :: PromisedAt(log, k)
  }

  ghost predicate Inv(s: State) {
    && var current := Current(s.holder, s.dials);
    && LockInv(s.holder, s.dials)
    && IdInv(s.cache, s.dials, s.next, ForgottenIn(s.log), current)
    && OutcomeInv(LastLookup(s.log), s.cache, s.mono, current)
    && TimeInv(s.mono, current)
    && LogInv(s.log)
  }

  lemma OneMoreEvent(log: seq<Event>, e: Event)
    ensures LastLookup(log + [e]) == After(LastLookup(log), e)
    ensures ForgottenIn(log + [e]) == ForgottenIn(log) + if e.Forgot? then {e.c.id} else {}
    ensures LogInv(log) && Promised(log, e) ==> LogInv(log + [e])
  {
    var all := log + [e];
    assert all[..|log|] == log;
    if LogInv(log) && Promised(log, e) {
      forall k | 0 <= k < |all|
        ensures PromisedAt(all, k)
      {
        if k < |log| {
          assert all[..k] == log[..k] && PromisedAt(log, k);
        }
      }
    }
  }

  lemma QuietStep(s: State, a: Action)
    requires Inv(s) && (a.Arrive? || a.Acquire? || a.Tick? || a.Adjust?)
    ensures Inv(Step(s, a))
  {
  }

  /** A move of the lock holder, within the section or out of it. */
  lemma HolderMoves(s: State, d: nat, dial: Dial)
    requires LockInv(s.holder, s.dials) && At(s, d) && Inside(s.dials[d])
    ensures s.holder == Some(d) && Current(s.holder, s.dials) == s.dials[d]
    ensures Inside(dial) ==>
              LockInv(s.holder, s.dials[d := dial]) && Current(s.holder, s.dials[d := dial]) == dial
    ensures !Inside(dial) ==>
              LockInv(None, s.dials[d := dial]) && Current(None, s.dials[d := dial]) == Waiting
  {
  }

  lemma ServeKeeps(s: State, d: nat)
    requires Inv(s) && At(s, d) && s.dials[d].Checking? && Served(s.cache, s.mono).Some?
    ensures Inv(CheckCache(s, d))
  {
    var c := s.cache.value.credentials;
    HolderMoves(s, d, Returned(c));
    OneMoreEvent(s.log, Serve(c, s.mono, s.wall));
    assert Promised(s.log, Serve(c, s.mono, s.wall));
  }

  lemma StartKeeps(s: State, d: nat)
    requires Inv(s) && At(s, d) && s.dials[d].Checking? && Served(s.cache, s.mono).None?
    ensures Inv(CheckCache(s, d))
  {
    HolderMoves(s, d, Looking);
    OneMoreEvent(s.log, Start(s.mono));
    assert Promised(s.log, Start(s.mono));
  }

  lemma AnswerKeeps(s: State, d: nat, expires: Option<int>)
    requires Inv(s)
    ensures Inv(Step(s, Answer(d, expires)))
  {
    if At(s, d) && s.dials[d].Looking? {
      HolderMoves(s, d, Found(Credentials(s.next, expires)));
    }
  }

  lemma FailKeeps(s: State, d: nat)
    requires Inv(s)
    ensures Inv(Step(s, Fail(d)))
  {
    if At(s, d) && s.dials[d].Looking? {
      HolderMoves(s, d, Failed);
      OneMoreEvent(s.log, LookupFailed);
    }
  }

  lemma CancelWaiting(s: State, d: nat)
    requires Inv(s) && At(s, d) && s.dials[d].Waiting?
    ensures Inv(Moved(s, d, Cancelled))
  {
    assert Current(s.holder, s.dials[d := Cancelled]) == Current(s.holder, s.dials);
  }

  lemma CancelKeeps(s: State, d: nat)
    requires Inv(s)
    ensures Inv(Step(s, Cancel(d)))
  {
    if At(s, d) && s.dials[d].Waiting? {
      CancelWaiting(s, d);
    } else if At(s, d) && s.dials[d].Looking? {
      HolderMoves(s, d, Cancelled);
      OneMoreEvent(s.log, LookupCancelled);
    }
  }

  lemma ClockReadsKeep(s: State, a: Action)
    requires Inv(s) && (a.Measure? || a.Stamp? || a.Return?)
    ensures Inv(Step(s, a))
  {
    if At(s, a.d) && HasFresh(s.dials[a.d]) && Step(s, a) != s {
      HolderMoves(s, a.d, Step(s, a).dials[a.d]);
    }
  }

  lemma StoreKeeps(s: State, d: nat)
    requires Inv(s)
    ensures Inv(Step(s, Store(d)))
  {
    if At(s, d) && s.dials[d].Stamped? {
      var Stamped(c, mono, wall, later) := s.dials[d];
      HolderMoves(s, d, Stored(c));
      OneMoreEvent(s.log, Keep(c, mono, wall, later));
    }
  }

  /** What a dial got back is neither fresh nor, once dropped, in the cache. */
  lemma ForgetIds(cache: Option<Cached>, dials: seq<Dial>, next: nat, forgotten: set<nat>, current: Dial, e: nat)
    requires IdInv(cache, dials, next, forgotten, current) && e < |dials| && dials[e].Returned?
    ensures IdInv(Without(cache, dials[e].c), dials, next, forgotten + {dials[e].c.id}, current)
  {
  }

  lemma ForgetOutcome(last: Outcome, cache: Option<Cached>, mono: int, current: Dial, c: Credentials)
    requires OutcomeInv(last, cache, mono, current)
    ensures OutcomeInv(After(last, Forgot(c)), Without(cache, c), mono, current)
  {
  }

  lemma ForgetKeeps(s: State, c: Credentials)
    requires Inv(s)
    ensures Inv(Step(s, Forget(c)))
  {
    if Returned(c) in s.dials {
      var e :| 0 <= e < |s.dials| && s.dials[e] == Returned(c);
      var current := Current(s.holder, s.dials);
      ForgetIds(s.cache, s.dials, s.next, ForgottenIn(s.log), current, e);
      ForgetOutcome(LastLookup(s.log), s.cache, s.mono, current, c);
      OneMoreEvent(s.log, Forgot(c));
    }
  }

  lemma StepKeepsInv(s: State, a: Action)
    requires Inv(s)
    ensures Inv(Step(s, a))
  {
    match a
    case Arrive => QuietStep(s, a);
    case Acquire(_) => QuietStep(s, a);
    case Tick(_) => QuietStep(s, a);
    case Adjust(_) => QuietStep(s, a);
    case Check(d) =>
      if At(s, d) && s.dials[d].Checking? {
        if Served(s.cache, s.mono).Some? {
          ServeKeeps(s, d);
        } else {
          StartKeeps(s, d);
        }
      }
    case Answer(d, expires) => AnswerKeeps(s, d, expires);
    case Fail(d) => FailKeeps(s, d);
    case Cancel(d) => CancelKeeps(s, d);
    case Measure(_) => ClockReadsKeep(s, a);
    case Stamp(_) => ClockReadsKeep(s, a);
    case Return(_) => ClockReadsKeep(s, a);
    case Store(d) => StoreKeeps(s, d);
    case Forget(c) => ForgetKeeps(s, c);
  }

  lemma {:induction false} RunKeepsInv(s: State, actions: seq<Action>)
    requires Inv(s)
    ensures Inv(Run(s, actions))
    decreases actions
  {
    if actions != [] {
      StepKeepsInv(s, actions[0]);
      RunKeepsInv(Step(s, actions[0]), actions[1..]);
    }
  }

  lemma ReachedInv(mono: int, wall: int, actions: seq<Action>)
    ensures Inv(Run(Initial(mono, wall), actions))
  {
    RunKeepsInv(Initial(mono, wall), actions);
  }

  // ---- Whole runs ----

  /** In every run, at most one dial is in a lookup. */
  lemma SingleFlight(mono: int, wall: int, actions: seq<Action>, d: nat, e: nat)
    ensures var s := Run(Initial(mono, wall), actions);
            At(s, d) && At(s, e) && LookingUp(s.dials[d]) && LookingUp(s.dials[e]) ==> d == e
  {
    ReachedInv(mono, wall, actions);
  }

  /** In every run, a dial that reads the cache is served exactly when the last lookup left
      credentials that aren't due, and then it is served those. */
  lemma ServedExactly(mono: int, wall: int, actions: seq<Action>, c: Credentials)
    ensures var s := Run(Initial(mono, wall), actions);
            var last := LastLookup(s.log);
            Served(s.cache, s.mono) == Some(c) <==> last.Kept? && last.c == c && s.mono < last.refreshAt
  {
    ReachedInv(mono, wall, actions);
  }

  /** Why a lookup starts: there was none before, or the last one failed, was cancelled, brought
      nothing to keep, was forgotten, or is due. It never starts during another. */
  ghost predicate Justified(before: Outcome, mono: int) {
    match before
    case NoLookup => true
    case Broken => true
    case NotKept => true
    case Dropped => true
    case Kept(_, refreshAt) => refreshAt <= mono
    case InFlight => false
  }

  /** In every run, every lookup is justified by what became of the one before it. */
  lemma LookupsJustified(mono: int, wall: int, actions: seq<Action>, k: nat)
    ensures var log := Run(Initial(mono, wall), actions).log;
            k < |log| && log[k].Start? ==> Justified(LastLookup(log[..k]), log[k].mono)
  {
    ReachedInv(mono, wall, actions);
    var log := Run(Initial(mono, wall), actions).log;
    assert k < |log| ==> PromisedAt(log, k);
  }

  /** Kept credentials were stored, at the time the entry says. */
  lemma {:induction false} KeptWasStored(log: seq<Event>) returns (j: nat)
    requires LastLookup(log).Kept?
    ensures j < |log| && log[j].Keep?
    ensures var o := LastLookup(log);
            log[j].c == o.c && Entry(log[j].c, log[j].wall, log[j].later) == Some(Cached(o.c, o.refreshAt))
  {
    j := |log| - 1;
    if !log[j].Keep? {
      j := KeptWasStored(log[..|log| - 1]);
    }
  }

  /** In every run, credentials served from the cache are served before their expiry less the
      margin, up to the time that passed between the clock reads on lines 205 and 209 and to how
      far the wall clock has been set since the first of them. */
  lemma ServedInTime(mono: int, wall: int, actions: seq<Action>, k: nat) returns (j: nat)
    requires var log := Run(Initial(mono, wall), actions).log; k < |log| && log[k].Serve?
    ensures j < k
    ensures var log := Run(Initial(mono, wall), actions).log;
            && log[j].Keep? && log[j].c == log[k].c && log[k].c.expires.Some?
            && var gap := log[j].later - log[j].mono;
            && var adjusted := (log[k].wall - log[k].mono) - (log[j].wall - log[j].mono);
            && gap >= 0
            && log[k].wall < log[k].c.expires.value - REFRESH_MARGIN + gap + adjusted
  {
    ReachedInv(mono, wall, actions);
    var log := Run(Initial(mono, wall), actions).log;
    assert PromisedAt(log, k);
    j := KeptWasStored(log[..k]);
    assert PromisedAt(log, j);
  }

  /** In every run, no cache read after a forget serves what was forgotten. */
  lemma ForgottenStaysForgotten(mono: int, wall: int, actions: seq<Action>, i: nat, k: nat)
    ensures var log := Run(Initial(mono, wall), actions).log;
            i < k < |log| && log[i].Forgot? && log[k].Serve? ==> log[k].c.id != log[i].c.id
  {
    ReachedInv(mono, wall, actions);
    var log := Run(Initial(mono, wall), actions).log;
    if i < k < |log| && log[i].Forgot? && log[k].Serve? {
      assert PromisedAt(log, k);
      assert log[..k][i] == log[i];
      assert log[i] in log[..k];
    }
  }

  /** The wall and monotonic clocks are `n` apart, and were whenever both were read. */
  ghost predicate Apart(s: State, n: int) {
    && s.wall - s.mono == n
    && (forall e <- s.log :: (e.Serve? || e.Keep?) ==> e.wall - e.mono == n)
    && (forall d <- s.dials :: (d.Measured? || d.Stamped?) ==> d.wall - d.mono == n)
  }

  lemma StepKeepsApart(s: State, a: Action, n: int)
    requires Apart(s, n) && !a.Adjust?
    ensures Apart(Step(s, a), n)
  {
  }

  /** Setting no clock: the clocks keep their distance. */
  lemma {:induction false} ClocksKeepDistance(s: State, actions: seq<Action>, n: int)
    requires Apart(s, n) && forall a <- actions :: !a.Adjust?
    ensures Apart(Run(s, actions), n)
    decreases actions
  {
    if actions != [] {
      assert actions[0] in actions && forall a <- actions[1..] :: a in actions;
      StepKeepsApart(s, actions[0], n);
      ClocksKeepDistance(Step(s, actions[0]), actions[1..], n);
    }
  }

  /** In every run in which nobody sets the wall clock, the only slack is the gap between the two
      clock reads. */
  lemma ServedInTimeUnset(mono: int, wall: int, actions: seq<Action>, k: nat) returns (j: nat)
    requires forall a <- actions :: !a.Adjust?
    requires var log := Run(Initial(mono, wall), actions).log; k < |log| && log[k].Serve?
    ensures j < k
    ensures var log := Run(Initial(mono, wall), actions).log;
            && log[j].Keep? && log[j].c == log[k].c && log[k].c.expires.Some?
            && log[k].wall < log[k].c.expires.value - REFRESH_MARGIN + (log[j].later - log[j].mono)
  {
    j := ServedInTime(mono, wall, actions, k);
    ClocksKeepDistance(Initial(mono, wall), actions, wall - mono);
    var log := Run(Initial(mono, wall), actions).log;
    assert log[j] in log && log[k] in log;
  }
}
