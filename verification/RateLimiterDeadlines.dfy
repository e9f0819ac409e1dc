/**
 What the time-to-live given to `save` (middleware/rate_limit.go:150) is worth: with an external
 storage that drops an entry at its deadline, to the tick, and refunds off.

 The middleware reads whole seconds (line 131), the deadline is an exact moment. So an entry can
 still be found when, by the seconds, a whole idle window has passed: after a slow request,
 and also within one last second after quick ones. This says exactly when.
 */
module RateLimiterDeadlines {
  import opened MachineWords
  import opened Wrappers
  import opened RateLimiterEntry
  import opened RateLimiterWindows
  import opened RateLimiter
  import opened RateLimiterThreads

  // ----- requests that are served within a second

  predicate InHand(th: Thread, k: Key) {
    th.key == k && (th.pc.Loaded? || th.pc.Stamped?)
  }

  /** Some request for `k` has loaded the entry and not saved it yet. */
  ghost predicate Busy(s: State, k: Key) {
    exists t :: t in s.threads && InHand(s.threads[t], k)
  }

  predicate NewSecond(c: Config, s: State, a: Action) {
    a.Tick? && Ticked(c, s).clock.second != s.clock.second
  }

  /** No second begins while a request for `k` has the entry in hand: each of them loads, reads
      the clock and saves within the same second. */
  ghost predicate Prompt(c: Config, actions: seq<Action>, k: Key)
    requires c.window > 0
  {
    actions == []
    || var n := |actions| - 1;
       && Prompt(c, actions[..n], k)
       && (NewSecond(c, Execute(c, actions[..n]), actions[n]) ==> !Busy(Execute(c, actions[..n]), k))
  }

  // ----- runs that open a window late

  /** Some run leads here, if `prompt` one that is prompt for `k`. */
  ghost predicate Reachable(c: Config, s: State, k: Key, prompt: bool)
    requires c.window > 0
  {
    exists actions :: s == Execute(c, actions) && (prompt ==> Prompt(c, actions, k))
  }

  lemma ReachableStep(c: Config, s: State, a: Action, k: Key, prompt: bool)
    requires c.window > 0 && Reachable(c, s, k, prompt)
    requires prompt && NewSecond(c, s, a) ==> !Busy(s, k)
    ensures Reachable(c, Perform(c, s, a), k, prompt)
  {
    var actions :| s == Execute(c, actions) && (prompt ==> Prompt(c, actions, k));
    assert (actions + [a])[..|actions|] == actions;
    assert Perform(c, s, a) == Execute(c, actions + [a]);
  }

  /** Time passes; in a prompt run only while nobody has the entry in hand. */
  lemma {:induction false} ReachableLater(c: Config, s: State, t: Time, k: Key, prompt: bool)
    requires ValidConfig(c) && Reachable(c, s, k, prompt) && (prompt ==> !Busy(s, k))
    requires s.clock.part < c.ticks && t.part < c.ticks && t.second + c.window < WORD64
    requires s.clock == t || Before(s.clock, t)
    ensures Reachable(c, s.(clock := t), k, prompt)
    decreases t.second, t.part
  {
    if s.clock == t {
      assert s.(clock := t) == s;
    } else {
      var before := if t.part > 0 then Time(t.second, t.part - 1) else Time(t.second - 1, c.ticks - 1);
      ReachableLater(c, s, before, k, prompt);
      assert Ticked(c, s.(clock := before)) == s.(clock := t);
      ReachableStep(c, s.(clock := before), Tick, k, prompt);
    }
  }

  /** A new request comes in, takes its free lock and loads. */
  lemma Arrives(c: Config, s: State, t: Tid, k: Key, prompt: bool) returns (s': State)
    requires c.window > 0 && Reachable(c, s, k, prompt) && t !in s.threads && c.slotOf(k) !in s.owner
    ensures Reachable(c, s', k, prompt)
    ensures var live := Live(s.store, k, s.clock);
            var th := Thread(k, Loaded(Decode(live), live != [], s.clock), None, NotYet, false, None);
            s' == s.(threads := s.threads[t := th], owner := s.owner[c.slotOf(k) := t])
  {
    var s1 := Perform(c, s, Spawn(t, k));
    ReachableStep(c, s, Spawn(t, k), k, prompt);
    var s2 := Locks(c, s1, t, k, prompt);
    var holding := Thread(k, Holding, None, NotYet, false, None);
    assert s2 == s.(threads := s.threads[t := holding], owner := s.owner[c.slotOf(k) := t]);
    s' := Perform(c, s2, Advance(t, false, 200));
    ReachableStep(c, s2, Advance(t, false, 200), k, prompt);
  }

  lemma Locks(c: Config, s: State, t: Tid, k: Key, prompt: bool) returns (s': State)
    requires c.window > 0 && Reachable(c, s, k, prompt) && c.slotOf(k) !in s.owner
    requires t in s.threads && s.threads[t] == Thread(k, Arrived, None, NotYet, false, None)
    ensures Reachable(c, s', k, prompt)
    ensures s' == s.(threads := s.threads[t := s.threads[t].(pc := Holding)], owner := s.owner[c.slotOf(k) := t])
  {
    s' := Perform(c, s, Advance(t, false, 200));
    ReachableStep(c, s, Advance(t, false, 200), k, prompt);
  }

  /** It reads the clock and saves. */
  lemma StampsAndSaves(c: Config, s: State, t: Tid, k: Key, prompt: bool,
                       stored: Entry, kept: bool, at: Time, e: Entry, saved: Saved)
    returns (s': State)
    requires c.window > 0 && Reachable(c, s, k, prompt)
    requires t in s.threads && s.threads[t].key == k && s.threads[t].pc == Loaded(stored, kept, at)
    requires e == Hit(stored, s.clock.second, c.window)
    requires saved == Saved(Encode(e), Deadline(c.external, s.clock, ResetTime(e, s.clock.second) + c.window))
    ensures Reachable(c, s', k, prompt)
    ensures && s'.store == s.store[k := saved]
            && s'.history == s.history[k := History(s, k) + [HitOp(Arrival(s.clock.second, kept), t, at, s.clock)]]
            && s'.clock == s.clock && s'.owner == s.owner
            && s'.threads.Keys == s.threads.Keys
            && (forall u :: u in s.threads && u != t ==> s'.threads[u] == s.threads[u])
            && s'.threads[t].key == k && s'.threads[t].pc.Counted?
  {
    var s1 := Perform(c, s, Advance(t, false, 200));
    ReachableStep(c, s, Advance(t, false, 200), k, prompt);
    assert s1 == Goto(s, t, Stamped(e, Arrival(s.clock.second, kept), at));
    s' := Perform(c, s1, Advance(t, false, 200));
    ReachableStep(c, s1, Advance(t, false, 200), k, prompt);
  }

  /** It lets go of its lock. */
  lemma Unlocks(c: Config, s: State, t: Tid, k: Key, prompt: bool) returns (s': State)
    requires c.window > 0 && Reachable(c, s, k, prompt) && t in s.threads && s.threads[t].pc.Counted?
    ensures Reachable(c, s', k, prompt) && s'.store == s.store && s'.history == s.history && s'.clock == s.clock
    ensures s'.threads.Keys == s.threads.Keys && s'.owner == s.owner - {c.slotOf(s.threads[t].key)}
    ensures !InHand(s'.threads[t], k)
  {
    s' := Perform(c, s, Advance(t, false, 200));
    ReachableStep(c, s, Advance(t, false, 200), k, prompt);
  }

  /** The state after one request alone, at `now` in the first second. */
  ghost predicate AfterOne(c: Config, s: State, k: Key, now: Time) {
    && s.clock == now && s.owner == map[] && s.threads.Keys == {0} && !Busy(s, k)
    && k in s.store && s.store[k] == Saved(Encode(Entry(1, 0, c.window)), Some(Time(2 * c.window, now.part)))
    && History(s, k) == [HitOp(Arrival(0, false), 0, now, now)]
  }

  lemma Start(c: Config, k: Key, part: nat, prompt: bool)
    requires ValidConfig(c) && part < c.ticks
    ensures Reachable(c, INITIAL.(clock := Time(0, part)), k, prompt)
  {
    assert INITIAL == Execute(c, []) && Prompt(c, [], k);
    ReachableLater(c, INITIAL, Time(0, part), k, prompt);
  }

  lemma FirstHit(c: Config, k: Key, part: nat, prompt: bool) returns (s: State)
    requires ValidConfig(c) && c.external && part < c.ticks
    ensures Reachable(c, s, k, prompt) && AfterOne(c, s, k, Time(0, part))
  {
    var e, saved := FirstEntry(c, part);
    Start(c, k, part, prompt);
    var s1 := Arrives(c, INITIAL.(clock := Time(0, part)), 0, k, prompt);
    var s2 := StampsAndSaves(c, s1, 0, k, prompt, NO_ENTRY, false, Time(0, part), e, saved);
    s := Unlocks(c, s2, 0, k, prompt);
    assert History(s1, k) == [];
    assert s.owner == map[];
    NobodyElse(s, k);
  }

  lemma NobodyElse(s: State, k: Key)
    requires s.threads.Keys == {0} && !InHand(s.threads[0], k)
    ensures !Busy(s, k)
  {
    assert forall u :: u in s.threads ==> u == 0;
  }

  lemma FirstEntry(c: Config, part: nat) returns (e: Entry, saved: Saved)
    requires c.window > 0 && c.external
    ensures e == Entry(1, 0, c.window) == Hit(NO_ENTRY, 0, c.window)
    ensures saved == Saved(Encode(e), Deadline(c.external, Time(0, part), ResetTime(e, 0) + c.window))
    ensures saved == Saved(Encode(Entry(1, 0, c.window)), Some(Time(2 * c.window, part)))
  {
    e := Entry(1, 0, c.window);
    saved := Saved(Encode(e), Some(Time(2 * c.window, part)));
  }

  /** The second request's window was opened late: its carry-over is a hit although none was logged
      in the window before. */
  ghost predicate CarriesStaleHit(c: Config, s: State, k: Key) {
    var run := RunOf(History(s, k));
    && k in s.store && |run| == 2 && OpenedLate(run, 2, c.window)
    && var e := Decode(s.store[k].value);
       e.prevHits == 1 && Logged(run, 2, e.exp - 2 * c.window, e.exp - c.window) == 0
  }

  lemma SecondHit(c: Config, k: Key, prompt: bool, s0: State, s1: State, first: Time, at: Time) returns (s: State)
    requires ValidConfig(c) && c.external && Reachable(c, s1, k, prompt)
    requires first.second == 0 && AfterOne(c, s0, k, first)
    requires s1.store == s0.store && s1.history == s0.history && s1.clock.second == 2 * c.window
    requires 1 in s1.threads && s1.threads[1].key == k && s1.threads[1].pc == Loaded(Entry(1, 0, c.window), true, at)
    ensures Reachable(c, s, k, prompt) && CarriesStaleHit(c, s, k)
  {
    var w, late := c.window, Entry(1, 1, 3 * c.window);
    var saved := Saved(Encode(late), Deadline(c.external, s1.clock, ResetTime(late, s1.clock.second) + w));
    s := StampsAndSaves(c, s1, 1, k, prompt, Entry(1, 0, w), true, at, late, saved);
    DecodeEncode(late);
    var ops := [HitOp(Arrival(0, false), 0, first, first), HitOp(Arrival(2 * w, true), 1, at, s1.clock)];
    assert History(s, k) == ops;
    LateRun(RunOf(ops), w);
  }

  lemma LateRun(run: seq<Arrival>, w: nat)
    requires w > 0 && |run| == 2 && run[0] == Arrival(0, false) && run[1] == Arrival(2 * w, true)
    ensures OpenedLate(run, 2, w) && Logged(run, 2, w, 2 * w) == 0
  {
    assert After(run, 1, w) == Entry(1, 0, w) by { assert After(run, 0, w) == NO_ENTRY; }
    CountNone(2, Between(run, w, 2 * w));
  }

  /** For every window length, and however fine the clock, there is a run in which an entry is
      loaded just before its deadline and the clock read at the deadline, and the window opened late. */
  lemma LateDespiteDeadline(c: Config, k: Key) returns (s: State)
    requires ValidConfig(c) && c.external
    ensures Reachable(c, s, k, false) && CarriesStaleHit(c, s, k)
  {
    var s0 := FirstHit(c, k, 0, false);
    var load := Time(2 * c.window - 1, c.ticks - 1);
    ReachableLater(c, s0, load, k, false);
    DecodeEncode(Entry(1, 0, c.window));
    var s1 := Arrives(c, s0.(clock := load), 1, k, false);
    var s2 := s1.(clock := Time(2 * c.window, 0));
    assert Ticked(c, s1) == s2;
    ReachableStep(c, s1, Tick, k, false);
    s := SecondHit(c, k, false, s0, s2, Time(0, 0), load);
  }

  /** On a clock finer than seconds there is also one in which every request loads, reads the clock
      and saves at one and the same moment: the first late in its second, the other early in
      the second of the deadline. */
  lemma LateThoughPrompt(c: Config, k: Key) returns (s: State)
    requires ValidConfig(c) && c.external && c.ticks > 1
    ensures Reachable(c, s, k, true) && CarriesStaleHit(c, s, k)
  {
    var s0 := FirstHit(c, k, 1, true);
    var load := Time(2 * c.window, 0);
    ReachableLater(c, s0, load, k, true);
    DecodeEncode(Entry(1, 0, c.window));
    var s1 := Arrives(c, s0.(clock := load), 1, k, true);
    s := SecondHit(c, k, true, s0, s1, Time(0, 1), load);
  }

  // ----- exactly when an entry is still found

  predicate AllHits(ops: seq<Op>) {
    forall i :: 0 <= i < |ops| ==> ops[i].HitOp?
  }

  /** The deadline of the entry stored by the `n`-th save. */
  function DueAt(ops: seq<Op>, n: nat, window: nat): Time
    requires 0 < n <= |ops| && ops[n - 1].HitOp?
  {
    Later(ops[n - 1].saved, ResetTime(Serial(ops, n, window), ops[n - 1].arrival.ts) + window)
  }

  predicate KeptAsDue(ops: seq<Op>, n: nat, at: Time, kept: bool, window: nat)
    requires n <= |ops| && AllHits(ops)
  {
    kept <==> n > 0 && Before(at, DueAt(ops, n, window))
  }

  function LoadedAt(pc: Pc): Time
    requires pc.Loaded? || pc.Stamped?
  {
    pc.at
  }

  function FoundIt(pc: Pc): bool
    requires pc.Loaded? || pc.Stamped?
  {
    if pc.Loaded? then pc.kept else pc.arrival.kept
  }

  /** Whoever loads for `k` finds the entry exactly until it is due. */
  ghost predicate OnTime(c: Config, s: State, k: Key) {
    var ops := History(s, k);
    && AllHits(ops)
    && (k in s.store <==> ops != [])
    && (k in s.store ==> s.store[k].value != [] && s.store[k].deadline == Some(DueAt(ops, |ops|, c.window)))
    && (forall t :: t in s.threads && InHand(s.threads[t], k) ==> OnTimeThread(c, s, t))
    && AllKeptAsDue(ops, c.window)
  }

  ghost predicate OnTimeThread(c: Config, s: State, t: Tid)
    requires t in s.threads && AllHits(History(s, s.threads[t].key))
  {
    var th := s.threads[t];
    var ops := History(s, th.key);
    InHand(th, th.key) ==> KeptAsDue(ops, |ops|, LoadedAt(th.pc), FoundIt(th.pc), c.window)
  }

  /** A step that leaves `k` as it is and gives nobody its entry. */
  lemma OnTimeStays(c: Config, s: State, s': State, k: Key)
    requires OnTime(c, s, k)
    requires SameKey(s, s', k)
    requires forall t :: t in s'.threads && InHand(s'.threads[t], k) ==>
                           && t in s.threads && InHand(s.threads[t], k)
                           && LoadedAt(s'.threads[t].pc) == LoadedAt(s.threads[t].pc)
                           && FoundIt(s'.threads[t].pc) == FoundIt(s.threads[t].pc)
    ensures OnTime(c, s', k)
  {
    forall t | t in s'.threads && InHand(s'.threads[t], k) ensures OnTimeThread(c, s', t) {
      assert OnTimeThread(c, s, t);
    }
  }

  /** Only the holder of its lock has the entry of a key in hand. */
  predicate HasItAlone(s: State, t: Tid, k: Key) {
    forall u :: u in s.threads && u != t ==> !InHand(s.threads[u], k)
  }

  lemma HolderHasItAlone(c: Config, s: State, t: Tid)
    requires ValidConfig(c) && Inv(c, s) && t in s.threads && Holds(s.threads[t].pc)
    ensures HasItAlone(s, t, s.threads[t].key)
  {
    forall u | u in s.threads && u != t ensures !InHand(s.threads[u], s.threads[t].key) {
      if InHand(s.threads[u], s.threads[t].key) { WriterIsAlone(c, s, t, u); }
    }
  }

  lemma OnTimeLoad(c: Config, s: State, t: Tid, fault: bool, status: nat, k: Key)
    requires c.window > 0 && OnTime(c, s, k) && HasItAlone(s, t, k)
    requires t in s.threads && s.threads[t].key == k && s.threads[t].pc.Holding?
    ensures OnTime(c, Step(c, s, t, fault, status), k)
  {
    var s' := Step(c, s, t, fault, status);
    assert HasItAlone(s', t, k);
    assert History(s', k) == History(s, k);
    assert OnTimeThread(c, s', t);
  }

  lemma OnTimeSave(c: Config, s: State, t: Tid, k: Key)
    requires c.window > 0 && c.external && OnTime(c, s, k) && HasItAlone(s, t, k)
    requires t in s.threads && s.threads[t].key == k && s.threads[t].pc.Stamped?
    requires s.threads[t].pc.entry == Hit(Found(Current(c, s, k), s.threads[t].pc.arrival),
             s.threads[t].pc.arrival.ts, c.window)
    ensures OnTime(c, SaveHit(c, s, t, s.threads[t].pc.entry, s.threads[t].pc.arrival, s.threads[t].pc.at), k)
  {
    var pc := s.threads[t].pc;
    var s' := SaveHit(c, s, t, pc.entry, pc.arrival, pc.at);
    var op := HitOp(pc.arrival, t, pc.at, s.clock);
    assert History(s', k) == History(s, k) + [op];
    assert OnTimeThread(c, s, t);
    assert HasItAlone(s', t, k) && !InHand(s'.threads[t], k);
    OnTimeSaved(c, s, s', k, op, pc.entry);
  }

  lemma OnTimeSaved(c: Config, s: State, s': State, k: Key, op: Op, e: Entry)
    requires c.external && OnTime(c, s, k) && op.HitOp? && op.saved == s.clock
    requires History(s', k) == History(s, k) + [op] && k in s'.store
    requires e == Apply(Current(c, s, k), op, c.window)
    requires s'.store[k].value != []
    requires s'.store[k].deadline == Some(Later(s.clock, ResetTime(e, op.arrival.ts) + c.window))
    requires KeptAsDue(History(s, k), |History(s, k)|, op.loaded, op.arrival.kept, c.window)
    requires !Busy(s', k)
    ensures OnTime(c, s', k)
  {
    SerialSnoc(History(s, k), op, c.window);
    KeptAsDueSnoc(History(s, k), op, c.window);
  }

  ghost predicate AllKeptAsDue(ops: seq<Op>, window: nat)
    requires AllHits(ops)
  {
    forall i :: 0 <= i < |ops| ==> KeptAsDue(ops, i, ops[i].loaded, ops[i].arrival.kept, window)
  }

  lemma KeptAsDueSnoc(ops: seq<Op>, op: Op, window: nat)
    requires AllHits(ops) && AllKeptAsDue(ops, window)
    requires op.HitOp? && KeptAsDue(ops, |ops|, op.loaded, op.arrival.kept, window)
    ensures AllHits(ops + [op]) && AllKeptAsDue(ops + [op], window)
  {
    var ops' := ops + [op];
    forall i | 0 <= i < |ops'| ensures KeptAsDue(ops', i, ops'[i].loaded, ops'[i].arrival.kept, window) {
      SerialPrefix(ops, op, i, window);
      assert i < |ops| ==> KeptAsDue(ops, i, ops[i].loaded, ops[i].arrival.kept, window);
    }
  }

  /** A step of `t` touches no other request. */
  ghost predicate OnlyOf(s: State, s': State, t: Tid)
    requires t in s.threads
  {
    && s'.clock == s.clock
    && t in s'.threads && s'.threads[t].key == s.threads[t].key
    && forall u :: u in s'.threads && u != t ==> u in s.threads && s'.threads[u] == s.threads[u]
  }

  predicate SameKey(s: State, s': State, k: Key) {
    && History(s', k) == History(s, k)
    && (k in s'.store <==> k in s.store) && (k in s.store ==> s'.store[k] == s.store[k])
  }

  lemma StepOnlyOf(c: Config, s: State, t: Tid, fault: bool, status: nat)
    requires c.window > 0 && t in s.threads
    ensures OnlyOf(s, Step(c, s, t, fault, status), t)
  {
    match s.threads[t].pc
    case Stamped(_, _, _) =>
    case LoadedAgain(_) =>
    case _ =>
  }

  lemma StepOtherKey(c: Config, s: State, t: Tid, fault: bool, status: nat, k: Key)
    requires c.window > 0 && t in s.threads && s.threads[t].key != k
    ensures SameKey(s, Step(c, s, t, fault, status), k)
  {
    match s.threads[t].pc
    case Stamped(_, _, _) =>
    case LoadedAgain(_) =>
    case _ =>
  }

  lemma OnTimeOtherKey(c: Config, s: State, s': State, t: Tid, k: Key)
    requires OnTime(c, s, k) && t in s.threads && s.threads[t].key != k && OnlyOf(s, s', t) && SameKey(s, s', k)
    ensures OnTime(c, s', k)
  {
    OnTimeStays(c, s, s', k);
  }

  /** Steps that neither load nor save. */
  lemma OnTimeElsewhere(c: Config, s: State, t: Tid, fault: bool, status: nat, k: Key)
    requires c.window > 0 && c.external && OnTime(c, s, k)
    requires t in s.threads && s.threads[t].key == k
    requires !(s.threads[t].pc.Holding? || s.threads[t].pc.LoadedAgain? || (s.threads[t].pc.Stamped? && !fault))
    ensures OnTime(c, Step(c, s, t, fault, status), k)
  {
    var s' := Step(c, s, t, fault, status);
    StepOnlyOf(c, s, t, fault, status);
    ElsewhereStays(c, s, t, fault, status);
    OnTimeHere(c, s, s', t, k);
  }

  lemma ElsewhereStays(c: Config, s: State, t: Tid, fault: bool, status: nat)
    requires c.window > 0 && c.external && t in s.threads
    requires !(s.threads[t].pc.Holding? || s.threads[t].pc.LoadedAgain? || (s.threads[t].pc.Stamped? && !fault))
    ensures KeepsAll(s, Step(c, s, t, fault, status), t)
  {
    match s.threads[t].pc
    case Arrived => AcquireKeepsAll(c, s, t, Holding);
    case Returning => AcquireKeepsAll(c, s, t, HoldingAgain);
    case Counted(_) => ReleaseKeepsAll(c, s, t, fault, status);
    case Releasing => ReleaseKeepsAll(c, s, t, fault, status);
    case Aborting => ReleaseKeepsAll(c, s, t, fault, status);
    case _ =>
  }

  /** Nothing stored, and nothing new in hand. */
  ghost predicate KeepsAll(s: State, s': State, t: Tid) {
    && t in s.threads && t in s'.threads
    && s'.history == s.history && s'.store == s.store && SameInHand(s.threads[t].pc, s'.threads[t].pc)
  }

  lemma AcquireKeepsAll(c: Config, s: State, t: Tid, pc: Pc)
    requires t in s.threads && !pc.Loaded? && !pc.Stamped?
    ensures KeepsAll(s, Acquire(c, s, t, pc), t)
  {
  }

  lemma ReleaseKeepsAll(c: Config, s: State, t: Tid, fault: bool, status: nat)
    requires c.window > 0 && t in s.threads
    requires s.threads[t].pc.Counted? || s.threads[t].pc.Releasing? || s.threads[t].pc.Aborting?
    ensures KeepsAll(s, Step(c, s, t, fault, status), t)
  {
  }

  /** If it has an entry in hand, it had it before. */
  predicate SameInHand(pc: Pc, pc': Pc) {
    pc'.Loaded? || pc'.Stamped? ==>
      (pc.Loaded? || pc.Stamped?) && LoadedAt(pc') == LoadedAt(pc) && FoundIt(pc') == FoundIt(pc)
  }

  lemma OnTimeHere(c: Config, s: State, s': State, t: Tid, k: Key)
    requires OnTime(c, s, k) && t in s.threads && OnlyOf(s, s', t) && KeepsAll(s, s', t)
    ensures OnTime(c, s', k)
  {
    OnTimeStays(c, s, s', k);
  }

  lemma OnTimeAdvance(c: Config, s: State, t: Tid, fault: bool, status: nat, k: Key)
    requires ValidConfig(c) && Inv(c, s) && c.external && !c.skipFailed && OnTime(c, s, k)
    requires t in s.threads
    ensures OnTime(c, Step(c, s, t, fault, status), k)
  {
    var th := s.threads[t];
    assert ThreadInv(c, s, t);
    if th.key != k {
      StepOnlyOf(c, s, t, fault, status);
      StepOtherKey(c, s, t, fault, status, k);
      OnTimeOtherKey(c, s, Step(c, s, t, fault, status), t, k);
    } else if th.pc.Holding? {
      HolderHasItAlone(c, s, t);
      OnTimeLoad(c, s, t, fault, status, k);
    } else if th.pc.Stamped? && !fault {
      HolderHasItAlone(c, s, t);
      OnTimeSave(c, s, t, k);
    } else {
      OnTimeElsewhere(c, s, t, fault, status, k);
    }
  }

  lemma {:induction false} AlwaysOnTime(c: Config, actions: seq<Action>, k: Key)
    requires ValidConfig(c) && c.external && !c.skipFailed
    ensures OnTime(c, Execute(c, actions), k)
  {
    if actions == [] {
    } else {
      var n := |actions| - 1;
      var before := Execute(c, actions[..n]);
      AlwaysInv(c, actions[..n]);
      AlwaysOnTime(c, actions[..n], k);
      match actions[n]
      case Advance(t, fault, status) => if t in before.threads { OnTimeAdvance(c, before, t, fault, status, k); }
      case a => OnTimeMeanwhile(c, before, a, k);
    }
  }

  lemma OnTimeMeanwhile(c: Config, s: State, a: Action, k: Key)
    requires c.window > 0 && OnTime(c, s, k) && !a.Advance?
    ensures OnTime(c, Perform(c, s, a), k)
  {
    OnTimeStays(c, s, Perform(c, s, a), k);
  }

  /** In every interleaving a request is late if and only if it loaded the entry before its
      deadline and read the clock a whole window after its end. */
  lemma LateExactly(c: Config, actions: seq<Action>, k: Key, i: nat)
    requires ValidConfig(c) && c.external && !c.skipFailed
    requires 0 < i < |History(Execute(c, actions), k)|
    ensures var ops := History(Execute(c, actions), k);
            && AllHits(ops)
            && (LateAt(RunOf(ops), i, c.window) <==>
                  Before(ops[i].loaded, DueAt(ops, i, c.window))
                  && Serial(ops, i, c.window).exp + c.window <= ops[i].arrival.ts)
  {
    var ops := History(Execute(c, actions), k);
    AlwaysOnTime(c, actions, k);
    assert KeptAsDue(ops, i, ops[i].loaded, ops[i].arrival.kept, c.window);
    SerialIsRun(ops, i, c.window);
  }

  // ----- if requests are prompt

  /** Loaded, stamped and saved within one second. */
  predicate OneSecond(op: Op) {
    op.HitOp? && op.loaded.second == op.arrival.ts == op.saved.second
  }

  ghost predicate SameSecond(s: State, k: Key) {
    && (forall i :: 0 <= i < |History(s, k)| ==> OneSecond(History(s, k)[i]))
    && (forall t :: t in s.threads && InHand(s.threads[t], k) ==> SameSecondThread(s, t))
  }

  predicate SameSecondThread(s: State, t: Tid)
    requires t in s.threads
  {
    var pc := s.threads[t].pc;
    pc.Loaded? || pc.Stamped? ==>
      LoadedAt(pc).second == s.clock.second && (pc.Stamped? ==> pc.arrival.ts == s.clock.second)
  }

  lemma SameSecondStays(s: State, s': State, k: Key)
    requires SameSecond(s, k) && History(s', k) == History(s, k)
    requires Busy(s', k) ==> s'.clock.second == s.clock.second
    requires forall t :: t in s'.threads && InHand(s'.threads[t], k) ==>
                           t in s.threads && InHand(s.threads[t], k) && s'.threads[t].pc == s.threads[t].pc
    ensures SameSecond(s', k)
  {
    forall t | t in s'.threads && InHand(s'.threads[t], k) ensures SameSecondThread(s', t) {
      assert SameSecondThread(s, t);
    }
  }

  lemma SameSecondAdvance(c: Config, s: State, t: Tid, fault: bool, status: nat, k: Key)
    requires c.window > 0 && !c.skipFailed && SameSecond(s, k)
    requires t in s.threads && StageInv(c, s.threads[t])
    ensures SameSecond(Step(c, s, t, fault, status), k)
  {
    var s' := Step(c, s, t, fault, status);
    StepOnlyOf(c, s, t, fault, status);
    if InHand(s.threads[t], k) { assert SameSecondThread(s, t); }
    forall u | u in s'.threads && InHand(s'.threads[u], k) ensures SameSecondThread(s', u) {
      if u != t { assert SameSecondThread(s, u); }
    }
    HistoryGrows(c, s, t, fault, status, k);
  }

  /** A step adds at most the hit of a stamped request. */
  lemma HistoryGrows(c: Config, s: State, t: Tid, fault: bool, status: nat, k: Key)
    requires c.window > 0 && !c.skipFailed && t in s.threads && StageInv(c, s.threads[t])
    ensures var s', pc := Step(c, s, t, fault, status), s.threads[t].pc;
            || History(s', k) == History(s, k)
            || (&& InHand(s.threads[t], k) && pc.Stamped?
                && History(s', k) == History(s, k) + [HitOp(pc.arrival, t, pc.at, s.clock)])
  {
  }

  lemma {:induction false} PromptIsSameSecond(c: Config, actions: seq<Action>, k: Key)
    requires ValidConfig(c) && !c.skipFailed && Prompt(c, actions, k)
    ensures SameSecond(Execute(c, actions), k)
  {
    if actions == [] {
    } else {
      var n := |actions| - 1;
      var before := Execute(c, actions[..n]);
      AlwaysInv(c, actions[..n]);
      PromptIsSameSecond(c, actions[..n], k);
      match actions[n]
      case Advance(t, fault, status) =>
        if t in before.threads {
          assert ThreadInv(c, before, t);
          SameSecondAdvance(c, before, t, fault, status, k);
        }
      case _ => SameSecondStays(before, Execute(c, actions), k);
    }
  }

  /** The load falls into the second in which the deadline lies, and before it. That needs an entry
      saved some way into its second. */
  predicate InGrace(ops: seq<Op>, i: nat, window: nat)
    requires 0 < i < |ops| && AllHits(ops)
  {
    ops[i].loaded.second == Serial(ops, i, window).exp + window && ops[i].loaded.part < ops[i - 1].saved.part
  }

  /** Then being late is exactly that. */
  lemma PromptLateExactly(c: Config, s: State, k: Key, i: nat)
    requires ValidConfig(c) && Inv(c, s) && !c.skipFailed && OnTime(c, s, k) && SameSecond(s, k)
    requires 0 < i < |History(s, k)|
    ensures LateAt(RunOf(History(s, k)), i, c.window) <==> InGrace(History(s, k), i, c.window)
  {
    var ops := History(s, k);
    assert KeptAsDue(ops, i, ops[i].loaded, ops[i].arrival.kept, c.window);
    assert OneSecond(ops[i]) && OneSecond(ops[i - 1]);
    HistoryIsFaithfulRun(c, s, k);
    SerialIsRun(ops, i, c.window);
    WindowStep(RunOf(ops), i - 1, c.window);
  }

  predicate GraceInto(ops: seq<Op>, i: nat, w: nat, window: nat)
    requires i < |ops| && AllHits(ops)
  {
    0 < i && InGrace(ops, i, window) && SavedInto(ops, i, window) == w
  }

  /** No request of the current window loaded in such a moment. */
  ghost predicate NoGrace(c: Config, s: State, k: Key) {
    var ops := History(s, k);
    && AllHits(ops)
    && !SomeGraceInto(ops, Current(c, s, k).exp, c.window)
  }

  ghost predicate SomeGraceInto(ops: seq<Op>, w: nat, window: nat)
    requires AllHits(ops)
  {
    exists i :: 0 <= i < |ops| && GraceInto(ops, i, w, window)
  }

  /** In every interleaving in which each request for `k` loads, reads the clock and saves within
      one second, the stored counters are the request log if and only if no request of the current
      window loaded in the second of the deadline and before it. Nothing is asked of
      requests for other keys. */
  lemma PromptCountersAreTheLog(c: Config, actions: seq<Action>, k: Key)
    requires ValidConfig(c) && c.external && !c.skipFailed && Prompt(c, actions, k)
    requires k in Execute(c, actions).store
    requires NeverWraps(RunOf(History(Execute(c, actions), k)), c.window)
    ensures StoredIsTheLog(c, Execute(c, actions), k) <==> NoGrace(c, Execute(c, actions), k)
  {
    AlwaysInv(c, actions);
    AlwaysOnTime(c, actions, k);
    PromptIsSameSecond(c, actions, k);
    PromptInState(c, Execute(c, actions), k);
  }

  lemma PromptInState(c: Config, s: State, k: Key)
    requires ValidConfig(c) && Inv(c, s) && !c.skipFailed && OnTime(c, s, k) && SameSecond(s, k) && k in s.store
    requires NeverWraps(RunOf(History(s, k)), c.window)
    ensures StoredIsTheLog(c, s, k) <==> NoGrace(c, s, k)
  {
    var run := RunOf(History(s, k));
    StoredIsAfter(c, s, k);
    HistoryIsFaithfulRun(c, s, k);
    CountersAreTheLog(run, |run|, c.window);
    NoGraceExactly(c, s, k);
  }

  lemma GraceExactly(c: Config, s: State, k: Key, i: nat, w: nat)
    requires ValidConfig(c) && Inv(c, s) && !c.skipFailed && OnTime(c, s, k) && SameSecond(s, k)
    requires i < |History(s, k)|
    ensures LateInto(RunOf(History(s, k)), i, w, c.window) <==> GraceInto(History(s, k), i, w, c.window)
  {
    if i > 0 { PromptLateExactly(c, s, k, i); }
    SerialIsRun(History(s, k), i + 1, c.window);
  }

  lemma NoGraceExactly(c: Config, s: State, k: Key)
    requires ValidConfig(c) && Inv(c, s) && !c.skipFailed && OnTime(c, s, k) && SameSecond(s, k) && History(s, k) != []
    ensures OpenedLate(RunOf(History(s, k)), |History(s, k)|, c.window) <==> !NoGrace(c, s, k)
  {
    var ops := History(s, k);
    HistoryIsFaithfulRun(c, s, k);
    SerialIsRun(ops, |ops|, c.window);
    LateOpener(RunOf(ops), |ops|, c.window);
    SomeGraceExactly(c, s, k, Current(c, s, k).exp);
  }

  lemma SomeGraceExactly(c: Config, s: State, k: Key, w: nat)
    requires ValidConfig(c) && Inv(c, s) && !c.skipFailed && OnTime(c, s, k) && SameSecond(s, k)
    ensures SomeLateInto(RunOf(History(s, k)), |History(s, k)|, w, c.window) <==>
            SomeGraceInto(History(s, k), w, c.window)
  {
    var ops := History(s, k);
    forall i | 0 <= i < |ops| ensures LateInto(RunOf(ops), i, w, c.window) <==> GraceInto(ops, i, w, c.window) {
      GraceExactly(c, s, k, i, w);
    }
  }
}
