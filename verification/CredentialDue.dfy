/**
 How long the credential cache of `crates/logit-aws/src/creds.rs` serves what it stored, said from
 the log's times alone: until five minutes before the expiry, and not a moment less. Times are
 nanoseconds.
 */
module CredentialDue {
  import opened CredentialCache
  import opened CredentialHistory
  import opened Wrappers

  // ---- Times are logged in order ----

  /** The monotonic time an event happened at, when it has one. */
  function TimeOf(e: Event): Option<int> {
    match e
    case Serve(_, mono, _) => Some(mono)
    case Start(mono) => Some(mono)
    case Keep(_, _, _, later) => Some(later)
    case _ => None
  }

  ghost predicate NotAfter(e: Event, t: int) { TimeOf(e).Some? ==> TimeOf(e).value <= t }

  /** Every logged time is past, and no earlier than those logged before it. */
  ghost predicate TimesInOrder(log: seq<Event>, mono: int) {
    && (forall e <- log :: NotAfter(e, mono))
    && (forall j, k | 0 <= j < k < |log| && TimeOf(log[k]).Some? :: NotAfter(log[j], TimeOf(log[k]).value))
  }

  lemma LaterTime(log: seq<Event>, mono: int, e: Event, now: int)
    requires TimesInOrder(log, mono) && mono <= now
    requires TimeOf(e).Some? ==> mono <= TimeOf(e).value <= now
    ensures TimesInOrder(log + [e], now)
  {
    var all := log + [e];
    forall j, k | 0 <= j < k < |all| && TimeOf(all[k]).Some?
      ensures NotAfter(all[j], TimeOf(all[k]).value)
    {
      assert log[j] in log;
      if k < |log| {
        assert NotAfter(log[j], TimeOf(log[k]).value);
      } else {
        assert NotAfter(log[j], mono);
      }
    }
  }

  /** A stamp is taken after all that was logged: nothing but forgets is logged in a lookup. */
  ghost predicate StampInOrder(s: State) {
    forall d <- s.dials :: d.Stamped? ==> (forall e <- s.log :: NotAfter(e, d.later)) && d.later <= s.mono
  }

  ghost predicate Timed(s: State) { TimesInOrder(s.log, s.mono) && StampInOrder(s) }

  /** The lock holder is the only dial with a stamp. */
  lemma OneStamp(s: State, d: nat, e: nat)
    requires LockInv(s.holder, s.dials) && At(s, d) && At(s, e) && Inside(s.dials[d]) && s.dials[e].Stamped?
    ensures d == e
  {
  }

  lemma CheckTimed(s: State, d: nat)
    requires LockInv(s.holder, s.dials) && Timed(s) && At(s, d) && s.dials[d].Checking?
    ensures Timed(CheckCache(s, d))
  {
    var served := Served(s.cache, s.mono);
    var e := if served.Some? then Serve(served.value, s.mono, s.wall) else Start(s.mono);
    LaterTime(s.log, s.mono, e, s.mono);
    NoStampElsewhere(s, d);
  }

  lemma NoStampElsewhere(s: State, d: nat)
    requires LockInv(s.holder, s.dials) && At(s, d) && Inside(s.dials[d]) && !s.dials[d].Stamped?
    ensures forall x <- s.dials :: !x.Stamped?
  {
    forall i | 0 <= i < |s.dials|
      ensures !s.dials[i].Stamped?
    {
      if s.dials[i].Stamped? {
        OneStamp(s, d, i);
      }
    }
  }

  lemma BreakTimed(s: State, d: nat, dial: Dial, e: Event)
    requires Timed(s) && At(s, d) && !dial.Stamped? && TimeOf(e).None?
    ensures Timed(Logged(Moved(s, d, dial).(holder := None), e))
  {
    LaterTime(s.log, s.mono, e, s.mono);
  }

  lemma StampTimed(s: State, d: nat)
    requires Timed(s)
    ensures Timed(Step(s, Stamp(d)))
  {
  }

  lemma StoreTimed(s: State, d: nat)
    requires LockInv(s.holder, s.dials) && Timed(s) && At(s, d) && s.dials[d].Stamped?
    ensures Timed(StoreEntry(s, d))
  {
    var Stamped(c, mono, wall, later) := s.dials[d];
    var e := Keep(c, mono, wall, later);
    assert s.dials[d] in s.dials;
    assert TimesInOrder(s.log, later);
    LaterTime(s.log, later, e, s.mono);
    forall i | 0 <= i < |s.dials| && i != d
      ensures !s.dials[i].Stamped?
    {
      if s.dials[i].Stamped? {
        OneStamp(s, d, i);
      }
    }
  }

  lemma ForgetTimed(s: State, c: Credentials)
    requires Timed(s)
    ensures Timed(Step(s, Forget(c)))
  {
    LaterTime(s.log, s.mono, Forgot(c), s.mono);
  }

  lemma TickTimed(s: State, n: nat)
    requires Timed(s)
    ensures Timed(Step(s, Tick(n)))
  {
  }

  lemma StepKeepsTimed(s: State, a: Action)
    requires Inv(s) && Timed(s)
    ensures Timed(Step(s, a))
  {
    match a
    case Check(d) => if At(s, d) && s.dials[d].Checking? { CheckTimed(s, d); }
    case Fail(d) => if At(s, d) && s.dials[d].Looking? { BreakTimed(s, d, Failed, LookupFailed); }
    case Cancel(d) => if At(s, d) && s.dials[d].Looking? { BreakTimed(s, d, Cancelled, LookupCancelled); }
    case Stamp(d) => StampTimed(s, d);
    case Store(d) => if At(s, d) && s.dials[d].Stamped? { StoreTimed(s, d); }
    case Forget(c) => ForgetTimed(s, c);
    case Tick(n) => TickTimed(s, n);
    case _ =>
  }

  lemma {:induction false} RunKeepsTimed(s: State, actions: seq<Action>)
    requires Inv(s) && Timed(s)
    ensures Timed(Run(s, actions))
    decreases actions
  {
    if actions != [] {
      StepKeepsInv(s, actions[0]);
      StepKeepsTimed(s, actions[0]);
      RunKeepsTimed(Step(s, actions[0]), actions[1..]);
    }
  }

  // ---- What the last lookup left ----

  /** The last lookup ended with the store at `j`, and nothing has forgotten what it stored. */
  ghost predicate LastStored(log: seq<Event>, j: nat) {
    && j < |log| && log[j].Keep?
    && forall m | j < m < |log| ::
         && (log[m].Serve? || log[m].Forgot?)
         && (log[m].Forgot? ==> log[m].c.id != log[j].c.id)
  }

  lemma {:induction false} LastIsStored(log: seq<Event>, j: nat)
    requires LastStored(log, j)
    ensures var c := log[j].c;
            LastLookup(log) == match Entry(c, log[j].wall, log[j].later)
                               case None => NotKept
                               case Some(entry) => Kept(c, entry.refreshAt)
    decreases |log|
  {
    if j < |log| - 1 {
      var before := log[..|log| - 1];
      assert forall m | 0 <= m < |before| :: before[m] == log[m];
      LastIsStored(before, j);
    }
  }

  /** At `t`, credentials stored at `later` when the wall clock read `wall` are still more than five
      minutes from their expiry, as far as the two clocks' reads can tell. */
  ghost predicate StillGood(e: Event, t: int)
    requires e.Keep?
  {
    e.c.expires.Some? && t - e.later < e.c.expires.value - e.wall - 300_000_000_000
  }

  lemma KeptWhileGood(e: Event, t: int)
    requires e.Keep? && e.later <= t
    ensures Served(Entry(e.c, e.wall, e.later), t) == if StillGood(e, t) then Some(e.c) else None
  {
  }

  // ---- Whole runs ----

  lemma ReachedTimed(mono: int, wall: int, actions: seq<Action>)
    ensures Timed(Run(Initial(mono, wall), actions))
  {
    RunKeepsTimed(Initial(mono, wall), actions);
  }

  /** In every run, no lookup starts while what the last one stored is still good. */
  lemma NotTooEarly(mono: int, wall: int, actions: seq<Action>, j: nat, k: nat)
    requires var log := Log(mono, wall, actions); k < |log| && log[k].Start? && LastStored(log[..k], j)
    ensures var log := Log(mono, wall, actions);
            !StillGood(log[j], log[k].mono)
  {
    var log := Log(mono, wall, actions);
    ReachedInv(mono, wall, actions);
    ReachedTimed(mono, wall, actions);
    LastIsStored(log[..k], j);
    assert PromisedAt(log, k);
    assert NotAfter(log[j], log[k].mono);
    KeptWhileGood(log[j], log[k].mono);
  }

  /** In every run, a dial that checks the cache is served what the last lookup stored exactly while
      it is good: it is handed those credentials, and otherwise a lookup starts. */
  lemma ServedWhileGood(mono: int, wall: int, actions: seq<Action>, j: nat, d: nat)
    requires var s := Run(Initial(mono, wall), actions);
             LastStored(s.log, j) && At(s, d) && s.dials[d].Checking?
    ensures var s := Run(Initial(mono, wall), actions);
            var s' := Step(s, Check(d));
            if StillGood(s.log[j], s.mono)
            then s'.dials[d] == Returned(s.log[j].c) && s'.log == s.log + [Serve(s.log[j].c, s.mono, s.wall)]
            else s'.dials[d] == Looking && s'.log == s.log + [Start(s.mono)]
  {
    var s := Run(Initial(mono, wall), actions);
    ReachedTimed(mono, wall, actions);
    assert s.log[j] in s.log;
    StoredIsCached(mono, wall, actions, j);
    KeptWhileGood(s.log[j], s.mono);
  }

  lemma {:induction false} ReplayOfLast(log: seq<Event>, j: nat)
    requires LastStored(log, j)
    ensures Replay(log) == Entry(log[j].c, log[j].wall, log[j].later)
    decreases |log|
  {
    if j < |log| - 1 {
      var before := log[..|log| - 1];
      assert forall m | 0 <= m < |before| :: before[m] == log[m];
      ReplayOfLast(before, j);
    }
  }

  lemma StoredIsCached(mono: int, wall: int, actions: seq<Action>, j: nat)
    requires LastStored(Log(mono, wall, actions), j)
    ensures var log := Log(mono, wall, actions);
            Run(Initial(mono, wall), actions).cache == Entry(log[j].c, log[j].wall, log[j].later)
  {
    CacheIsReplay(mono, wall, actions);
    ReplayOfLast(Log(mono, wall, actions), j);
  }
}
