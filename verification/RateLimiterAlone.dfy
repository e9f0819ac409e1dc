/**
 One request run alone through the step system of RateLimiterThreads gives the response, and
 leaves the entry, that RateLimiter proves of the whole middleware (middleware/rate_limit.go:108-208).
 */
module RateLimiterAlone {
  import opened MachineWords
  import opened Wrappers
  import opened RateLimiterEntry
  import opened RateLimiterWindows
  import opened RateLimiter
  import opened RateLimiterThreads
  import opened RateLimiterDeadlines

  /** The next step of `t`, once the clock shows `now`. */
  function StepAt(c: Config, s: State, t: Tid, now: Time, fault: bool, status: nat): State
    requires c.window > 0
  {
    if t in s.threads then Step(c, s.(clock := now), t, fault, status) else s
  }

  /** The first locked section of a new request: lock, load, read the clock, save, unlock. */
  function FirstSection(c: Config, s: State, t: Tid, k: Key, clock: Clock, faults: Faults): State
    requires c.window > 0
  {
    var s0 := s.(threads := s.threads[t := Thread(k, Arrived, None, NotYet, false, None)]);
    var s1 := StepAt(c, s0, t, clock.load, false, 0);
    var s2 := StepAt(c, s1, t, clock.load, faults.load, 0);
    var s3 := StepAt(c, s2, t, clock.stamp, false, 0);
    var s4 := StepAt(c, s3, t, clock.save, faults.save, 0);
    StepAt(c, s4, t, clock.save, false, 0)
  }

  /** `Next`, then the second locked section: lock, load, save, unlock. */
  function SecondSection(c: Config, s: State, t: Tid, clock: Clock, faults: Faults, status: nat): State
    requires c.window > 0
  {
    var s1 := StepAt(c, s, t, clock.save, false, status);
    var s2 := StepAt(c, s1, t, clock.load2, false, 0);
    var s3 := StepAt(c, s2, t, clock.load2, faults.load2, 0);
    var s4 := StepAt(c, s3, t, clock.save2, faults.save2, 0);
    StepAt(c, s4, t, clock.save2, false, 0)
  }

  function Alone(c: Config, s: State, t: Tid, k: Key, clock: Clock, faults: Faults, status: nat): State
    requires c.window > 0
  {
    SecondSection(c, FirstSection(c, s, t, k, clock, faults), t, clock, faults, status)
  }

  // ----- it is one of the interleavings

  /** The readings of one request, none before the one before. */
  predicate InOrder(c: Config, now: Time, clock: Clock) {
    && NotBefore(now, clock.load) && NotBefore(clock.load, clock.stamp) && NotBefore(clock.stamp, clock.save)
    && NotBefore(clock.save, clock.load2) && NotBefore(clock.load2, clock.save2)
    && clock.save2.second + c.window < WORD64
    && now.part < c.ticks && clock.load.part < c.ticks && clock.stamp.part < c.ticks && clock.save.part < c.ticks
    && clock.load2.part < c.ticks && clock.save2.part < c.ticks
  }

  predicate NotBefore(a: Time, b: Time) {
    a == b || Before(a, b)
  }

  lemma StepAtReachable(c: Config, s: State, t: Tid, k: Key, now: Time, fault: bool, status: nat)
    requires ValidConfig(c) && Reachable(c, s, k, false) && t in s.threads
    requires s.clock.part < c.ticks && now.part < c.ticks && now.second + c.window < WORD64 && NotBefore(s.clock, now)
    ensures Reachable(c, StepAt(c, s, t, now, fault, status), k, false)
    ensures StepAt(c, s, t, now, fault, status).clock == now && t in StepAt(c, s, t, now, fault, status).threads
  {
    ReachableLater(c, s, now, k, false);
    ReachableStep(c, s.(clock := now), Advance(t, fault, status), k, false);
    StepOnlyOf(c, s.(clock := now), t, fault, status);
  }

  lemma AloneIsReachable(c: Config, s: State, t: Tid, k: Key, clock: Clock, faults: Faults, status: nat)
    requires ValidConfig(c) && Reachable(c, s, k, false) && t !in s.threads && InOrder(c, s.clock, clock)
    ensures Reachable(c, Alone(c, s, t, k, clock, faults, status), k, false)
  {
    ReachableStep(c, s, Spawn(t, k), k, false);
    var s0 := s.(threads := s.threads[t := Thread(k, Arrived, None, NotYet, false, None)]);
    StepAtReachable(c, s0, t, k, clock.load, false, 0);
    var s1 := StepAt(c, s0, t, clock.load, false, 0);
    StepAtReachable(c, s1, t, k, clock.load, faults.load, 0);
    var s2 := StepAt(c, s1, t, clock.load, faults.load, 0);
    StepAtReachable(c, s2, t, k, clock.stamp, false, 0);
    var s3 := StepAt(c, s2, t, clock.stamp, false, 0);
    StepAtReachable(c, s3, t, k, clock.save, faults.save, 0);
    var s4 := StepAt(c, s3, t, clock.save, faults.save, 0);
    StepAtReachable(c, s4, t, k, clock.save, false, 0);
    var s5 := StepAt(c, s4, t, clock.save, false, 0);
    assert s5 == FirstSection(c, s, t, k, clock, faults);
    SecondIsReachable(c, s5, t, k, clock, faults, status);
  }

  lemma SecondIsReachable(c: Config, s: State, t: Tid, k: Key, clock: Clock, faults: Faults, status: nat)
    requires ValidConfig(c) && Reachable(c, s, k, false) && t in s.threads
             && InOrder(c, s.clock, clock.(load := s.clock, stamp := s.clock))
    requires s.clock == clock.save
    ensures Reachable(c, SecondSection(c, s, t, clock, faults, status), k, false)
  {
    StepAtReachable(c, s, t, k, clock.save, false, status);
    var s1 := StepAt(c, s, t, clock.save, false, status);
    StepAtReachable(c, s1, t, k, clock.load2, false, 0);
    var s2 := StepAt(c, s1, t, clock.load2, false, 0);
    StepAtReachable(c, s2, t, k, clock.load2, faults.load2, 0);
    var s3 := StepAt(c, s2, t, clock.load2, faults.load2, 0);
    StepAtReachable(c, s3, t, k, clock.save2, faults.save2, 0);
    var s4 := StepAt(c, s3, t, clock.save2, faults.save2, 0);
    StepAtReachable(c, s4, t, k, clock.save2, false, 0);
  }

  // ----- and it serves the request

  /** What the client is told, read off a request that has ended. */
  function OutcomeOf(c: Config, th: Thread, h: Entry, ts: nat, next: NextResult): Outcome
    requires c.window > 0
  {
    var reset := ResetTime(h, ts);
    var remaining := c.max - Rate(h, ts, c.window);
    if th.hit.None? || th.second.Faulted? then StorageError
    else if !th.forwarded then TooManyRequests(reset)
    else Forwarded(c.max, if th.second.Refunded? then remaining + 1 else remaining, reset, next.failed)
  }

  /** `t` stands at `th` in `s'`, and has the lock of its slot if it should, added to `owner`. */
  ghost predicate StandsAt(c: Config, s': State, t: Tid, th: Thread, owner: map<nat, Tid>) {
    && t in s'.threads && s'.threads[t] == th
    && s'.owner == if Holds(th.pc) then owner[c.slotOf(th.key) := t] else owner
  }

  /** A request that stands before a free lock takes it and loads. */
  lemma LocksAndLoads(c: Config, s: State, t: Tid, now: Time, fault: bool)
    requires c.window > 0 && t in s.threads && c.slotOf(s.threads[t].key) !in s.owner
    requires s.threads[t].pc.Arrived? || s.threads[t].pc.Returning?
    ensures var th := s.threads[t];
            var s' := StepAt(c, StepAt(c, s, t, now, false, 0), t, now, fault, 0);
            var live := Live(s.store, th.key, now);
            var pc := if th.pc.Arrived? then
                        if c.external && fault then Aborting else Loaded(Decode(live), live != [], now)
                      else
                        if c.external && fault then Aborting else LoadedAgain(Decode(live));
            var second := if th.pc.Returning? && c.external && fault then Faulted else th.second;
            && StandsAt(c, s', t, th.(pc := pc, second := second), s.owner)
            && s'.store == s.store && s'.history == s.history
  {
    var th := s.threads[t];
    var holding := th.(pc := if th.pc.Arrived? then Holding else HoldingAgain);
    var s1 := StepAt(c, s, t, now, false, 0);
    assert StandsAt(c, s1, t, holding, s.owner) && s1.store == s.store && s1.history == s.history;
  }

  /** One that only has its lock to give back ends, or goes on to `Next`. */
  lemma LetsGo(c: Config, s: State, t: Tid, th: Thread, owner: map<nat, Tid>, now: Time)
    requires c.window > 0 && StandsAt(c, s, t, th, owner) && c.slotOf(th.key) !in owner
    requires th.pc.Counted? || th.pc.Releasing? || th.pc.Aborting?
    ensures var s' := StepAt(c, s, t, now, false, 0);
            var admitted := th.pc.Counted? && th.pc.admitted;
            && s'.store == s.store && s'.history == s.history
            && StandsAt(c, s', t, th.(pc := if admitted then InNext else Ended,
                                      forwarded := if th.pc.Counted? then admitted else th.forwarded), owner)
  {
    assert owner[c.slotOf(th.key) := t] - {c.slotOf(th.key)} == owner;
  }

  lemma EndedStays(c: Config, s: State, t: Tid, now: Time, fault: bool, status: nat)
    requires c.window > 0 && t in s.threads && s.threads[t].pc.Ended?
    ensures StepAt(c, s, t, now, fault, status) == s.(clock := now)
  {
  }

  /** One that has loaded reads the clock and saves. */
  lemma StampsThenSaves(c: Config, s: State, t: Tid, th: Thread, owner: map<nat, Tid>, clock: Clock, fault: bool)
    requires c.window > 0 && StandsAt(c, s, t, th, owner) && th.pc.Loaded?
    ensures var s' := StepAt(c, StepAt(c, s, t, clock.stamp, false, 0), t, clock.save, fault, 0);
            var h := Hit(th.pc.found, clock.Ts(), c.window);
            var ttl := ResetTime(h, clock.Ts()) + c.window;
            var admitted := Rate(h, clock.Ts(), c.window) <= c.max;
            if c.external && fault then
              StandsAt(c, s', t, th.(pc := Aborting), owner) && s'.store == s.store
            else
              && StandsAt(c, s', t, th.(pc := Counted(admitted), hit := Some(|History(s, th.key)|)), owner)
              && s'.store == s.store[th.key := Saved(Encode(h), Deadline(c.external, clock.save, ttl))]
  {
    var s1 := StepAt(c, s, t, clock.stamp, false, 0);
    var h := Hit(th.pc.found, clock.Ts(), c.window);
    assert StandsAt(c, s1, t, th.(pc := Stamped(h, Arrival(clock.Ts(), th.pc.kept), th.pc.at)), owner);
    assert s1.store == s.store && s1.history == s.history;
  }

  /** Where the first section leaves a request. */
  ghost predicate FirstLeaves(c: Config, s: State, s': State, t: Tid, k: Key, clock: Clock, faults: Faults)
    requires c.window > 0
  {
    var h := Hit(Decode(Live(s.store, k, clock.load)), clock.Ts(), c.window);
    var ttl := ResetTime(h, clock.Ts()) + c.window;
    var admitted := Rate(h, clock.Ts(), c.window) <= c.max;
    if c.external && (faults.load || faults.save) then
      s'.store == s.store && StandsAt(c, s', t, Thread(k, Ended, None, NotYet, false, None), s.owner)
    else
      && s'.store == s.store[k := Saved(Encode(h), Deadline(c.external, clock.save, ttl))]
      && var pc := if admitted then InNext else Ended;
         StandsAt(c, s', t, Thread(k, pc, Some(|History(s, k)|), NotYet, admitted, None), s.owner)
  }

  lemma FirstAlone(c: Config, s: State, t: Tid, k: Key, clock: Clock, faults: Faults)
    requires c.window > 0 && c.slotOf(k) !in s.owner
    ensures FirstLeaves(c, s, FirstSection(c, s, t, k, clock, faults), t, k, clock, faults)
  {
    var th := Thread(k, Arrived, None, NotYet, false, None);
    var s0 := s.(threads := s.threads[t := th]);
    LocksAndLoads(c, s0, t, clock.load, faults.load);
    var s2 := StepAt(c, StepAt(c, s0, t, clock.load, false, 0), t, clock.load, faults.load, 0);
    if c.external && faults.load {
      LetsGo(c, s2, t, s2.threads[t], s.owner, clock.stamp);
      var s3 := StepAt(c, s2, t, clock.stamp, false, 0);
      EndedStays(c, s3, t, clock.save, faults.save, 0);
      EndedStays(c, s3.(clock := clock.save), t, clock.save, false, 0);
    } else {
      assert History(s2, k) == History(s, k);
      StampsThenSaves(c, s2, t, s2.threads[t], s.owner, clock, faults.save);
      var s4 := StepAt(c, StepAt(c, s2, t, clock.stamp, false, 0), t, clock.save, faults.save, 0);
      LetsGo(c, s4, t, s4.threads[t], s.owner, clock.save);
    }
  }

  /** Where the second section leaves one that was let through; `kept` is the store it started with. */
  ghost predicate SecondLeaves(c: Config, store: map<Key, Saved>, s': State, t: Tid, clock: Clock, faults: Faults,
                               status: nat)
    requires t in s'.threads
  {
    var th := s'.threads[t];
    var found := Decode(Live(store, th.key, clock.load2));
    if !(c.skipFailed && status >= 400) then s'.store == store && th.second == NotYet
    else if c.external && faults.load2 then s'.store == store && th.second == Faulted
    else if found.currHits == 0 then s'.store == store && th.second.NoneLeft?
    else if c.external && faults.save2 then s'.store == store && th.second == Faulted
    else
      && s'.store == store[th.key := Saved(Encode(Refund(found)), Deadline(c.external, clock.save2, c.window))]
      && th.second.Refunded?
  }

  /** The second save, after which the lock is let go. */
  lemma SavesAgain(c: Config, s: State, t: Tid, th: Thread, owner: map<nat, Tid>, now: Time, fault: bool)
    requires c.window > 0 && StandsAt(c, s, t, th, owner) && th.pc.LoadedAgain?
    ensures var s' := StepAt(c, s, t, now, fault, 0);
            var found := th.pc.found;
            && t in s'.threads
            && StandsAt(c, s', t, th.(pc := s'.threads[t].pc, second := s'.threads[t].second), owner)
            && (s'.threads[t].pc.Releasing? || s'.threads[t].pc.Aborting?)
            && if found.currHits == 0 then s'.store == s.store && s'.threads[t].second.NoneLeft?
               else if c.external && fault then s'.store == s.store && s'.threads[t].second == Faulted
               else
                 && s'.store == s.store[th.key := Saved(Encode(Refund(found)), Deadline(c.external, now, c.window))]
                 && s'.threads[t].second.Refunded?
  {
  }

  lemma SecondAlone(c: Config, s: State, t: Tid, th: Thread, owner: map<nat, Tid>, clock: Clock, faults: Faults,
                    status: nat)
    requires c.window > 0 && StandsAt(c, s, t, th, owner) && c.slotOf(th.key) !in owner
    requires th.pc == InNext && th.second == NotYet
    ensures var s' := SecondSection(c, s, t, clock, faults, status);
            && t in s'.threads
            && StandsAt(c, s', t, th.(pc := Ended, answer := Some(status), second := s'.threads[t].second), owner)
            && SecondLeaves(c, s.store, s', t, clock, faults, status)
  {
    var s1 := StepAt(c, s, t, clock.save, false, status);
    if c.skipFailed && status >= 400 {
      assert StandsAt(c, s1, t, th.(pc := Returning, answer := Some(status)), owner) && s1.store == s.store;
      ReturnsAlone(c, s1, t, s1.threads[t], owner, clock, faults, status);
    } else {
      assert StandsAt(c, s1, t, th.(pc := Ended, answer := Some(status)), owner) && s1.store == s.store;
      SecondStays(c, s1, t, clock, faults);
    }
  }

  lemma ReturnsAlone(c: Config, s: State, t: Tid, th: Thread, owner: map<nat, Tid>, clock: Clock, faults: Faults,
                     status: nat)
    requires c.window > 0 && StandsAt(c, s, t, th, owner) && c.slotOf(th.key) !in owner
    requires th.pc == Returning && th.second == NotYet && c.skipFailed && status >= 400
    ensures var s3 := StepAt(c, StepAt(c, s, t, clock.load2, false, 0), t, clock.load2, faults.load2, 0);
            var s' := StepAt(c, StepAt(c, s3, t, clock.save2, faults.save2, 0), t, clock.save2, false, 0);
            && t in s'.threads
            && StandsAt(c, s', t, th.(pc := Ended, second := s'.threads[t].second), owner)
            && SecondLeaves(c, s.store, s', t, clock, faults, status)
  {
    var s3 := StepAt(c, StepAt(c, s, t, clock.load2, false, 0), t, clock.load2, faults.load2, 0);
    var s4 := StepAt(c, s3, t, clock.save2, faults.save2, 0);
    LocksAndLoads(c, s, t, clock.load2, faults.load2);
    if c.external && faults.load2 {
      LetsGo(c, s3, t, s3.threads[t], owner, clock.save2);
      EndedStays(c, s4, t, clock.save2, false, 0);
    } else {
      SavesAgain(c, s3, t, s3.threads[t], owner, clock.save2, faults.save2);
      LetsGo(c, s4, t, s4.threads[t], owner, clock.save2);
    }
  }

  lemma SecondStays(c: Config, s: State, t: Tid, clock: Clock, faults: Faults)
    requires c.window > 0 && t in s.threads && s.threads[t].pc.Ended?
    ensures var s2 := StepAt(c, s, t, clock.load2, false, 0);
            var s3 := StepAt(c, s2, t, clock.load2, faults.load2, 0);
            var s4 := StepAt(c, s3, t, clock.save2, faults.save2, 0);
            StepAt(c, s4, t, clock.save2, false, 0) == s.(clock := clock.save2)
  {
    EndedStays(c, s, t, clock.load2, false, 0);
    EndedStays(c, s.(clock := clock.load2), t, clock.load2, faults.load2, 0);
    EndedStays(c, s.(clock := clock.load2), t, clock.save2, faults.save2, 0);
    EndedStays(c, s.(clock := clock.save2), t, clock.save2, false, 0);
  }

  /** The second section in the words of `Finished`. */
  lemma SecondIsFinished(c: Config, store: map<Key, Saved>, s': State, t: Tid, h: Entry,
                         clock: Clock, faults: Faults, next: NextResult)
    requires c.window > 0 && t in s'.threads && SecondLeaves(c, store, s', t, clock, faults, next.status)
    requires s'.threads[t].hit.Some? && s'.threads[t].forwarded && s'.threads[t].key in store && Fits(h)
    requires store[s'.threads[t].key] ==
             Saved(Encode(h), Deadline(c.external, clock.save, ResetTime(h, clock.Ts()) + c.window))
    ensures var k := s'.threads[t].key;
            var remaining := c.max - Rate(h, clock.Ts(), c.window);
            var finished := Finished(h, c.max, remaining, ResetTime(h, clock.Ts()), c.window,
                                     c.skipFailed, c.external, clock, faults, next);
            && OutcomeOf(c, s'.threads[t], h, clock.Ts(), next) == finished.0
            && Leaves(store, s'.store, k, Some(finished.1))
  {
    DecodeEncode(h);
  }

  /** What it ends with is what `Served` says: it has ended, has no lock left, and is answered and
      leaves an entry accordingly. */
  ghost predicate EndsServed(c: Config, s: State, s': State, t: Tid, k: Key, clock: Clock, faults: Faults,
                             next: NextResult)
    requires c.window > 0
  {
    var found := Decode(Live(s.store, k, clock.load));
    var served := Served(found, c.max, c.window, c.skipFailed, c.external, clock, faults, next);
    && t in s'.threads && s'.threads[t].pc == Ended && s'.owner == s.owner
    && OutcomeOf(c, s'.threads[t], Hit(found, clock.Ts(), c.window), clock.Ts(), next) == served.0
    && Leaves(s.store, s'.store, k, served.1)
  }

  /** A request that was let through, and `s'` after its second section. */
  lemma LetThrough(c: Config, s: State, s1: State, s': State, t: Tid, k: Key, clock: Clock, faults: Faults,
                   next: NextResult)
    requires c.window > 0 && FirstLeaves(c, s, s1, t, k, clock, faults) && t in s1.threads && s1.threads[t].pc.InNext?
    requires Decode(Live(s.store, k, clock.load)).exp <= clock.Ts() + c.window < WORD64
    requires t in s'.threads && SecondLeaves(c, s1.store, s', t, clock, faults, next.status)
    requires var th := s1.threads[t].(pc := Ended, answer := Some(next.status), second := s'.threads[t].second);
             StandsAt(c, s', t, th, s.owner)
    ensures EndsServed(c, s, s', t, k, clock, faults, next)
  {
    var found := Decode(Live(s.store, k, clock.load));
    RolledWindow(found, clock.Ts(), c.window);
    SecondIsFinished(c, s1.store, s', t, Hit(found, clock.Ts(), c.window), clock, faults, next);
    assert s1.store - {k} == s.store - {k};
  }

  /** One that was not, and `s'` some time later. */
  lemma StopsThere(c: Config, s: State, s1: State, s': State, t: Tid, k: Key, clock: Clock, faults: Faults,
                   next: NextResult)
    requires c.window > 0 && FirstLeaves(c, s, s1, t, k, clock, faults) && t in s1.threads && s1.threads[t].pc.Ended?
    requires s'.threads == s1.threads && s'.store == s1.store && s'.owner == s1.owner
    ensures EndsServed(c, s, s', t, k, clock, faults, next)
  {
    assert s1.store - {k} == s.store - {k};
  }

  /** So a request alone is served as RateLimiter says, whatever fails and whenever it reads the clock. */
  lemma AloneIsServed(c: Config, s: State, t: Tid, k: Key, clock: Clock, faults: Faults, next: NextResult)
    requires c.window > 0 && c.slotOf(k) !in s.owner
    requires Decode(Live(s.store, k, clock.load)).exp <= clock.Ts() + c.window < WORD64
    ensures EndsServed(c, s, Alone(c, s, t, k, clock, faults, next.status), t, k, clock, faults, next)
  {
    var s1 := FirstSection(c, s, t, k, clock, faults);
    var s' := Alone(c, s, t, k, clock, faults, next.status);
    FirstAlone(c, s, t, k, clock, faults);
    if s1.threads[t].pc.InNext? {
      SecondAlone(c, s1, t, s1.threads[t], s.owner, clock, faults, next.status);
      LetThrough(c, s, s1, s', t, k, clock, faults, next);
    } else {
      EndedAlone(c, s1, t, clock, faults, next.status);
      StopsThere(c, s, s1, s', t, k, clock, faults, next);
    }
  }

  lemma EndedAlone(c: Config, s: State, t: Tid, clock: Clock, faults: Faults, status: nat)
    requires c.window > 0 && t in s.threads && s.threads[t].pc.Ended?
    ensures SecondSection(c, s, t, clock, faults, status) == s.(clock := clock.save2)
  {
    EndedStays(c, s, t, clock.save, false, status);
    SecondStays(c, s.(clock := clock.save), t, clock, faults);
  }
}
