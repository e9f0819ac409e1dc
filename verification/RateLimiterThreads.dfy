/**
 Any number of requests through one rate limiter at the same time (middleware/rate_limit.go:108-208).

 A request is a thread that advances one atomic step at a time: taking a lock, one storage
 access, one clock reading, releasing a lock, `Next`. An execution is any list of actions;
 an action that is not possible (a lock that is taken, say) changes nothing. So a statement
 about `Execute` for all lists of actions is one about all interleavings.
 */
module RateLimiterThreads {
  import opened MachineWords
  import opened Wrappers
  import opened RateLimiterEntry
  import opened RateLimiterWindows
  import opened RateLimiter

  /** `slotOf` is the checksum of the key, cut to the number of locks; the clock of the machine
      and that of the storage tick `ticks` times a second, however many that is. */
  datatype Config = Config(
    max: nat,
    window: nat,
    skipFailed: bool,
    external: bool,
    ticks: nat,
    slotOf: Key -> nat)

  ghost predicate ValidConfig(c: Config) {
    0 < c.window < WORD32 && 0 < c.ticks && forall k :: c.slotOf(k) < LOCK_COUNT
  }

  type Tid = nat

  /** Where a request stands; what is in the working copy of the entry at that point, and when it was loaded. */
  datatype Pc =
    | Arrived                                         // before the first Lock
    | Holding                                         // before the first load
    | Loaded(found: Entry, kept: bool, at: Time)      // before the clock is read
    | Stamped(entry: Entry, arrival: Arrival, at: Time) // before the first save
    | Counted(admitted: bool)                         // before the first Unlock
    | InNext
    | Returning                                       // before the second Lock
    | HoldingAgain                                    // before the second load
    | LoadedAgain(found: Entry)                       // before the second save
    | Releasing                                       // before the second Unlock
    | Aborting                                        // a storage access failed; before Unlock
    | Ended

  /** How the second locked section went: the position of the refund in the history of the key;
      the entry had no hit to give back after `seen` saves, or was forgotten; a storage access failed. */
  datatype GiveBack = NotYet | Refunded(at: nat) | NoneLeft(seen: nat) | Faulted

  /** `hit` is the position of the request's own hit in the history of its key; `forwarded` says
      that it reached `Next`, `answer` is the status `Next` left. */
  datatype Thread = Thread(
    key: Key,
    pc: Pc,
    hit: Option<nat>,
    second: GiveBack,
    forwarded: bool,
    answer: Option<nat>)

  /** One save, in the order in which saves happened: a hit, or a hit given back. Of a hit also when
      its entry was loaded and when it was saved. */
  datatype Op = HitOp(arrival: Arrival, tid: Tid, loaded: Time, saved: Time) | RefundOp(tid: Tid)

  datatype State = State(
    clock: Time,
    store: map<Key, Saved>,
    owner: map<nat, Tid>,
    threads: map<Tid, Thread>,
    history: map<Key, seq<Op>>)

  datatype Action =
    | Tick
    | Spawn(tid: Tid, key: Key)
    | Advance(tid: Tid, fault: bool, status: nat)

  const INITIAL := State(Time(0, 0), map[], map[], map[], map[])

  function History(s: State, k: Key): seq<Op> {
    if k in s.history then s.history[k] else []
  }

  predicate Holds(pc: Pc) {
    || pc.Holding? || pc.Loaded? || pc.Stamped? || pc.Counted?
    || pc.HoldingAgain? || pc.LoadedAgain? || pc.Releasing? || pc.Aborting?
  }

  // ----- the steps

  function Goto(s: State, t: Tid, pc: Pc): State
    requires t in s.threads
  {
    s.(threads := s.threads[t := s.threads[t].(pc := pc)])
  }

  function Acquire(c: Config, s: State, t: Tid, pc: Pc): State
    requires t in s.threads
  {
    var slot := c.slotOf(s.threads[t].key);
    if slot in s.owner then s else Goto(s, t, pc).(owner := s.owner[slot := t])
  }

  function Release(c: Config, s: State, t: Tid, pc: Pc): State
    requires t in s.threads
  {
    Goto(s, t, pc).(owner := s.owner - {c.slotOf(s.threads[t].key)})
  }

  /** A save: the storage and the history of the key change together. */
  function Write(c: Config, s: State, k: Key, e: Entry, ttl: nat, op: Op): State {
    s.(store := s.store[k := Saved(Encode(e), Deadline(c.external, s.clock, ttl))],
       history := s.history[k := History(s, k) + [op]])
  }

  function SaveHit(c: Config, s: State, t: Tid, e: Entry, a: Arrival, at: Time): State
    requires t in s.threads && c.window > 0
  {
    var th := s.threads[t];
    var saved := Write(c, s, th.key, e, ResetTime(e, a.ts) + c.window, HitOp(a, t, at, s.clock));
    var admitted := Rate(e, a.ts, c.window) <= c.max;
    saved.(threads := s.threads[t := th.(pc := Counted(admitted), hit := Some(|History(s, th.key)|))])
  }

  function SaveRefund(c: Config, s: State, t: Tid, e: Entry): State
    requires t in s.threads
  {
    var th := s.threads[t];
    var saved := Write(c, s, th.key, Refund(e), c.window, RefundOp(t));
    saved.(threads := s.threads[t := th.(pc := Releasing, second := Refunded(|History(s, th.key)|))])
  }

  /** The second locked section ends without a save. */
  function KeepHit(s: State, t: Tid, pc: Pc, outcome: GiveBack): State
    requires t in s.threads
  {
    s.(threads := s.threads[t := s.threads[t].(pc := pc, second := outcome)])
  }

  function Step(c: Config, s: State, t: Tid, fault: bool, status: nat): State
    requires t in s.threads && c.window > 0
  {
    var th := s.threads[t];
    var live := Live(s.store, th.key, s.clock);
    var fails := c.external && fault;
    match th.pc
    case Arrived => Acquire(c, s, t, Holding)
    case Holding => Goto(s, t, if fails then Aborting else Loaded(Decode(live), live != [], s.clock))
    case Loaded(found, kept, at) =>
      Goto(s, t, Stamped(Hit(found, s.clock.second, c.window), Arrival(s.clock.second, kept), at))
    case Stamped(e, a, at) => if fails then Goto(s, t, Aborting) else SaveHit(c, s, t, e, a, at)
    case Counted(admitted) =>
      var released := Release(c, s, t, if admitted then InNext else Ended);
      released.(threads := released.threads[t := released.threads[t].(forwarded := admitted)])
    case InNext =>
      var pc := if c.skipFailed && status >= 400 then Returning else Ended;
      s.(threads := s.threads[t := th.(pc := pc, answer := Some(status))])
    case Returning => Acquire(c, s, t, HoldingAgain)
    case HoldingAgain =>
      if fails then KeepHit(s, t, Aborting, Faulted) else Goto(s, t, LoadedAgain(Decode(live)))
    case LoadedAgain(found) =>
      if found.currHits == 0 then KeepHit(s, t, Releasing, NoneLeft(|History(s, th.key)|))
      else if fails then KeepHit(s, t, Aborting, Faulted)
      else SaveRefund(c, s, t, found)
    case Releasing => Release(c, s, t, Ended)
    case Aborting => Release(c, s, t, Ended)
    case Ended => s
  }

  function NextTime(c: Config, now: Time): Time {
    if now.part + 1 < c.ticks then Time(now.second, now.part + 1) else Time(now.second + 1, 0)
  }

  /** The clock stops one window before 64 bits are used up. */
  function Ticked(c: Config, s: State): State {
    var next := NextTime(c, s.clock);
    if next.second + c.window < WORD64 then s.(clock := next) else s
  }

  function Perform(c: Config, s: State, a: Action): State
    requires c.window > 0
  {
    match a
    case Tick => Ticked(c, s)
    case Spawn(t, k) =>
      if t in s.threads then s else s.(threads := s.threads[t := Thread(k, Arrived, None, NotYet, false, None)])
    case Advance(t, fault, status) => if t in s.threads then Step(c, s, t, fault, status) else s
  }

  function Execute(c: Config, actions: seq<Action>): State
    requires c.window > 0
  {
    if actions == [] then INITIAL
    else Perform(c, Execute(c, actions[..|actions| - 1]), actions[|actions| - 1])
  }

  // ----- one after the other

  function Apply(e: Entry, op: Op, window: nat): Entry {
    match op
    case HitOp(a, _, _, _) => Hit(Found(e, a), a.ts, window)
    case RefundOp(_) => Refund(e)
  }

  /** The entry after the first `n` saves of a history, done one after the other. */
  function Serial(ops: seq<Op>, n: nat, window: nat): Entry
    requires n <= |ops|
  {
    if n == 0 then NO_ENTRY else Apply(Serial(ops, n - 1, window), ops[n - 1], window)
  }

  lemma {:induction false} SerialPrefix(ops: seq<Op>, op: Op, n: nat, window: nat)
    requires n <= |ops|
    ensures Serial(ops + [op], n, window) == Serial(ops, n, window)
  {
    if n == 0 {
    } else {
      SerialPrefix(ops, op, n - 1, window);
    }
  }

  lemma SerialSnoc(ops: seq<Op>, op: Op, window: nat)
    ensures Serial(ops + [op], |ops| + 1, window) == Apply(Serial(ops, |ops|, window), op, window)
  {
    SerialPrefix(ops, op, |ops|, window);
  }

  function Current(c: Config, s: State, k: Key): Entry {
    Serial(History(s, k), |History(s, k)|, c.window)
  }

  // ----- the invariant

  /** How long after the end of its window an entry is still stored at least. A refund saves with
      a time-to-live of one window only, so with refunds on it may be gone right after. */
  function Slack(c: Config): nat {
    if c.skipFailed then 0 else c.window
  }

  /** Only an external storage forgets, and only an entry whose window is over. */
  predicate MayForget(c: Config, e: Entry, now: nat) {
    c.external && e.exp + Slack(c) <= now
  }

  /** The entry stored for a key is the serial application of its history. */
  ghost predicate KeyInv(c: Config, s: State, k: Key) {
    var ops, e := History(s, k), Current(c, s, k);
    && (k in s.store <==> ops != [])
    && (k in s.store ==>
          && s.store[k].value == Encode(e)
          && 0 < e.exp <= s.clock.second + c.window
          && (s.store[k].deadline.Some? ==> MayForget(c, e, s.store[k].deadline.value.second)))
    && forall i :: 0 <= i < |ops| ==> OpInv(c, s, k, i)
  }

  /** Each save of a history belongs to exactly one request, and is what the code may save there. */
  ghost predicate OpInv(c: Config, s: State, k: Key, i: nat)
    requires i < |History(s, k)|
  {
    var ops := History(s, k);
    match ops[i]
    case HitOp(a, t, _, _) =>
      && t in s.threads && s.threads[t].key == k && s.threads[t].hit == Some(i)
      && a.ts <= s.clock.second
      && (i > 0 && !a.kept ==> MayForget(c, Serial(ops, i, c.window), a.ts))
      && (forall j :: 0 <= j < i && ops[j].HitOp? ==> ops[j].arrival.ts <= a.ts)
    case RefundOp(t) =>
      && t in s.threads && s.threads[t].key == k && s.threads[t].second == Refunded(i)
      && c.skipFailed && Serial(ops, i, c.window).currHits > 0
  }

  predicate AdmittedOp(c: Config, ops: seq<Op>, i: nat)
    requires i < |ops| && c.window > 0
  {
    ops[i].HitOp? && Rate(Serial(ops, i + 1, c.window), ops[i].arrival.ts, c.window) <= c.max
  }

  predicate FailedInNext(th: Thread) {
    th.forwarded && th.answer.Some? && th.answer.value >= 400
  }

  /** What a request in the middle of a locked section has in hand is up to date. */
  ghost predicate InHandInv(c: Config, s: State, th: Thread)
    requires c.window > 0
  {
    var ops, e := History(s, th.key), Current(c, s, th.key);
    && (th.pc.Loaded? ==>
          && th.pc.found == Found(e, Arrival(0, th.pc.kept))
          && (ops != [] && !th.pc.kept ==> MayForget(c, e, s.clock.second)))
    && (th.pc.Stamped? ==>
          && th.pc.entry == Hit(Found(e, th.pc.arrival), th.pc.arrival.ts, c.window)
          && 0 < th.pc.entry.exp <= s.clock.second + c.window
          && th.pc.arrival.ts < th.pc.entry.exp
          && th.pc.arrival.ts <= s.clock.second
          && (ops != [] && !th.pc.arrival.kept ==> MayForget(c, e, th.pc.arrival.ts))
          && (forall j :: 0 <= j < |ops| && ops[j].HitOp? ==> ops[j].arrival.ts <= th.pc.arrival.ts))
    && (th.pc.LoadedAgain? ==>
          && ops != []
          && (th.pc.found == e || (th.pc.found == NO_ENTRY && MayForget(c, e, s.clock.second))))
  }

  /** What a request has behind it: its saves, whether it was let through, how it gave its hit back. */
  ghost predicate PastInv(c: Config, s: State, t: Tid)
    requires t in s.threads && c.window > 0
  {
    var th := s.threads[t];
    var ops := History(s, th.key);
    && (th.hit.Some? ==> th.hit.value < |ops| && ops[th.hit.value].HitOp? && ops[th.hit.value].tid == t)
    && (th.forwarded ==> th.hit.Some?)
    && (th.hit.Some? && !th.pc.Counted? ==> (th.forwarded <==> AdmittedOp(c, ops, th.hit.value)))
    && (th.pc.Counted? ==> th.hit.Some? && (th.pc.admitted <==> AdmittedOp(c, ops, th.hit.value)))
    && (th.second != NotYet ==> FailedInNext(th) && c.skipFailed)
    && (th.second.Refunded? ==>
          th.hit.value < th.second.at < |ops| && ops[th.second.at] == RefundOp(t))
    && (th.second.NoneLeft? ==>
          && th.hit.value < th.second.seen <= |ops|
          && NothingToReturn(c, s, ops, th.second.seen))
    && (th.second.Faulted? ==> c.external)
  }

  /** After `seen` saves the entry counted no hit, or could be forgotten by now. */
  ghost predicate NothingToReturn(c: Config, s: State, ops: seq<Op>, seen: nat)
    requires seen <= |ops|
  {
    var e := Serial(ops, seen, c.window);
    e.currHits == 0 || MayForget(c, e, s.clock.second)
  }

  /** What goes with where it stands. */
  predicate StageInv(c: Config, th: Thread) {
    && (th.pc.Arrived? || th.pc.Holding? || th.pc.Loaded? || th.pc.Stamped? ==> th.hit == None)
    && (th.pc.Counted? || th.hit == None ==> !th.forwarded && th.answer == None)
    && (th.pc.InNext? ==> th.forwarded && th.answer == None)
    && (th.pc.Returning? || th.pc.HoldingAgain? || th.pc.LoadedAgain? ==> FailedInNext(th) && c.skipFailed)
    && (th.second != NotYet ==> th.pc.Releasing? || th.pc.Aborting? || th.pc.Ended?)
    && (th.pc.Releasing? || th.pc.Aborting? || th.pc.Ended? ==>
          (FailedInNext(th) && c.skipFailed ==> th.second != NotYet) && (th.forwarded ==> th.answer.Some?))
  }

  ghost predicate HasLock(c: Config, s: State, t: Tid)
    requires t in s.threads
  {
    var slot := c.slotOf(s.threads[t].key);
    slot in s.owner && s.owner[slot] == t
  }

  ghost predicate ThreadInv(c: Config, s: State, t: Tid)
    requires t in s.threads && c.window > 0
  {
    && (Holds(s.threads[t].pc) ==> HasLock(c, s, t))
    && InHandInv(c, s, s.threads[t])
    && PastInv(c, s, t)
    && StageInv(c, s.threads[t])
  }

  ghost predicate LockInv(c: Config, s: State) {
    forall slot :: slot in s.owner ==>
      && slot < LOCK_COUNT
      && s.owner[slot] in s.threads
      && Holds(s.threads[s.owner[slot]].pc)
      && c.slotOf(s.threads[s.owner[slot]].key) == slot
  }

  ghost predicate Inv(c: Config, s: State)
    requires c.window > 0
  {
    && s.clock.second + c.window < WORD64
    && LockInv(c, s)
    && (forall k :: KeyInv(c, s, k))
    && (forall t :: t in s.threads ==> ThreadInv(c, s, t))
  }

  // ----- every step keeps it

  /** The request, its lock and the history of its key are as before, and time has not gone back. */
  ghost predicate Undisturbed(c: Config, s: State, s': State, u: Tid) {
    && u in s.threads && u in s'.threads && s'.threads[u] == s.threads[u]
    && History(s', s.threads[u].key) == History(s, s.threads[u].key)
    && s.clock.second <= s'.clock.second
    && (Holds(s.threads[u].pc) && HasLock(c, s, u) ==> HasLock(c, s', u))
  }

  lemma ThreadInvStays(c: Config, s: State, s': State, u: Tid)
    requires c.window > 0 && Undisturbed(c, s, s', u) && ThreadInv(c, s, u)
    ensures ThreadInv(c, s', u)
  {
  }

  /** The request's own saves are still the same. */
  predicate SameSaves(th: Thread, th': Thread) {
    th'.key == th.key && th'.hit == th.hit && (th.second.Refunded? ==> th'.second == th.second)
  }

  /** Nothing saved, no request gone, and time not gone back. */
  ghost predicate NothingSaved(s: State, s': State) {
    && s'.store == s.store && s'.history == s.history && s.clock.second <= s'.clock.second
    && forall u :: u in s.threads ==> u in s'.threads && SameSaves(s.threads[u], s'.threads[u])
  }

  /** Then the history of every key stays good. */
  lemma KeyInvStays(c: Config, s: State, s': State, k: Key)
    requires KeyInv(c, s, k) && NothingSaved(s, s')
    ensures KeyInv(c, s', k)
  {
    assert History(s', k) == History(s, k);
    forall i | 0 <= i < |History(s', k)| ensures OpInv(c, s', k, i) {
      assert OpInv(c, s, k, i);
    }
  }

  /** A step of `t` that stores nothing. */
  ghost predicate Quiet(s: State, s': State, t: Tid) {
    && t in s.threads && t in s'.threads
    && s'.store == s.store && s'.history == s.history && s'.clock == s.clock
    && s'.threads == s.threads[t := s'.threads[t]]
    && SameSaves(s.threads[t], s'.threads[t])
  }

  /** A step of `t` leaves the locks of all other requests alone. */
  ghost predicate OthersKeepLocks(c: Config, s: State, s': State, t: Tid) {
    forall u :: u in s.threads && u in s'.threads && u != t && Holds(s.threads[u].pc) ==> KeepsLock(c, s, s', u)
  }

  ghost predicate KeepsLock(c: Config, s: State, s': State, u: Tid)
    requires u in s.threads && u in s'.threads
  {
    s'.threads[u].key == s.threads[u].key && HasLock(c, s, u) ==> HasLock(c, s', u)
  }

  lemma QuietKeepsInv(c: Config, s: State, s': State, t: Tid)
    requires ValidConfig(c) && Inv(c, s) && Quiet(s, s', t)
    requires OthersKeepLocks(c, s, s', t) && LockInv(c, s') && ThreadInv(c, s', t)
    ensures Inv(c, s')
  {
    forall k ensures KeyInv(c, s', k) {
      assert KeyInv(c, s, k);
      KeyInvStays(c, s, s', k);
    }
    forall u | u in s'.threads ensures ThreadInv(c, s', u) {
      if u != t {
        assert Holds(s.threads[u].pc) ==> KeepsLock(c, s, s', u);
        assert ThreadInv(c, s, u);
        ThreadInvStays(c, s, s', u);
      }
    }
  }

  /** Only the holder of the lock of its slot stores anything for a key, so whatever another
      request in a locked section has in hand concerns a different key. */
  lemma WriterIsAlone(c: Config, s: State, t: Tid, u: Tid)
    requires ValidConfig(c) && Inv(c, s)
    requires t in s.threads && u in s.threads && Holds(s.threads[t].pc) && Holds(s.threads[u].pc)
    requires c.slotOf(s.threads[t].key) == c.slotOf(s.threads[u].key)
    ensures t == u
  {
    assert ThreadInv(c, s, t) && ThreadInv(c, s, u);
  }

  /** `s'` is `s` after the lock holder `t` saved `e` with operation `op` for its key. */
  ghost predicate Saves(c: Config, s: State, s': State, t: Tid, e: Entry, ttl: nat, op: Op) {
    && t in s.threads && Holds(s.threads[t].pc)
    && s'.threads.Keys == s.threads.Keys
    && s'.clock == s.clock && s'.owner == s.owner
    && s'.threads == s.threads[t := s'.threads[t]]
    && s'.threads[t].key == s.threads[t].key
    && Holds(s'.threads[t].pc)
    && var w := Write(c, s, s.threads[t].key, e, ttl, op);
       s'.store == w.store && s'.history == w.history
  }

  /** One more save of its key leaves what a request outside the locked sections has behind it. */
  lemma PastInvStays(c: Config, s: State, s': State, u: Tid, op: Op)
    requires c.window > 0 && u in s.threads && u in s'.threads && s'.threads[u] == s.threads[u]
    requires History(s', s.threads[u].key) == History(s, s.threads[u].key) + [op] && s'.clock == s.clock
    requires PastInv(c, s, u)
    ensures PastInv(c, s', u)
  {
    var th := s.threads[u];
    var ops := History(s, th.key);
    if th.hit.Some? {
      SerialPrefix(ops, op, th.hit.value + 1, c.window);
    }
    if th.second.NoneLeft? {
      SerialPrefix(ops, op, th.second.seen, c.window);
    }
  }

  lemma SaveKeepsOthers(c: Config, s: State, s': State, t: Tid, e: Entry, ttl: nat, op: Op, u: Tid)
    requires ValidConfig(c) && Inv(c, s) && Saves(c, s, s', t, e, ttl, op)
    requires u in s.threads && u != t
    ensures ThreadInv(c, s', u)
  {
    assert ThreadInv(c, s, u);
    if s.threads[u].key == s.threads[t].key {
      if Holds(s.threads[u].pc) { WriterIsAlone(c, s, t, u); }
      PastInvStays(c, s, s', u, op);
    } else {
      ThreadInvStays(c, s, s', u);
    }
  }

  lemma SaveKeepsOtherKeys(c: Config, s: State, s': State, t: Tid, e: Entry, ttl: nat, op: Op, k: Key)
    requires ValidConfig(c) && Inv(c, s) && Saves(c, s, s', t, e, ttl, op)
    requires k != s.threads[t].key
    ensures KeyInv(c, s', k)
  {
    assert KeyInv(c, s, k);
    assert History(s', k) == History(s, k);
    forall i | 0 <= i < |History(s', k)| ensures OpInv(c, s', k, i) {
      assert OpInv(c, s, k, i);
    }
  }

  /** The earlier saves of the key are as before, and the stored entry is the new serial one. */
  lemma SaveKeepsOwnKey(c: Config, s: State, s': State, t: Tid, e: Entry, ttl: nat, op: Op)
    requires ValidConfig(c) && Saves(c, s, s', t, e, ttl, op) && KeyInv(c, s, s.threads[t].key)
    requires e == Apply(Current(c, s, s.threads[t].key), op, c.window)
    requires 0 < e.exp <= s.clock.second + c.window
    requires e.exp + Slack(c) <= s.clock.second + ttl
    requires s'.threads[t].hit == s.threads[t].hit || s.threads[t].hit == None
    requires s'.threads[t].second == s.threads[t].second || !s.threads[t].second.Refunded?
    requires OpInv(c, s', s.threads[t].key, |History(s, s.threads[t].key)|)
    ensures KeyInv(c, s', s.threads[t].key)
    ensures Current(c, s', s.threads[t].key) == e
  {
    var k := s.threads[t].key;
    var ops, ops' := History(s, k), History(s', k);
    assert ops' == ops + [op];
    SerialSnoc(ops, op, c.window);
    forall i | 0 <= i < |ops'| ensures OpInv(c, s', k, i) {
      if i < |ops| {
        assert OpInv(c, s, k, i);
        SerialPrefix(ops, op, i, c.window);
      }
    }
  }

  lemma SaveKeepsInv(c: Config, s: State, s': State, t: Tid, e: Entry, ttl: nat, op: Op)
    requires ValidConfig(c) && Inv(c, s) && Saves(c, s, s', t, e, ttl, op)
    requires KeyInv(c, s', s.threads[t].key) && ThreadInv(c, s', t)
    ensures Inv(c, s')
  {
    forall k ensures KeyInv(c, s', k) {
      if k != s.threads[t].key {
        SaveKeepsOtherKeys(c, s, s', t, e, ttl, op, k);
      }
    }
    forall u | u in s'.threads ensures ThreadInv(c, s', u) {
      if u != t {
        SaveKeepsOthers(c, s, s', t, e, ttl, op, u);
      }
    }
  }

  // ----- the steps one by one

  lemma AcquireKeepsInv(c: Config, s: State, t: Tid, pc: Pc)
    requires ValidConfig(c) && Inv(c, s) && t in s.threads
    requires (s.threads[t].pc.Arrived? && pc.Holding?) || (s.threads[t].pc.Returning? && pc.HoldingAgain?)
    ensures Inv(c, Acquire(c, s, t, pc))
  {
    assert ThreadInv(c, s, t);
    if c.slotOf(s.threads[t].key) !in s.owner {
      AcquiredLocks(c, s, t, pc);
      QuietKeepsInv(c, s, Acquire(c, s, t, pc), t);
    }
  }

  lemma AcquiredLocks(c: Config, s: State, t: Tid, pc: Pc)
    requires ValidConfig(c) && t in s.threads && ThreadInv(c, s, t) && LockInv(c, s)
    requires c.slotOf(s.threads[t].key) !in s.owner
    requires (s.threads[t].pc.Arrived? && pc.Holding?) || (s.threads[t].pc.Returning? && pc.HoldingAgain?)
    ensures var s' := Acquire(c, s, t, pc);
            t in s'.threads && ThreadInv(c, s', t) && LockInv(c, s') && OthersKeepLocks(c, s, s', t)
  {
  }

  /** The lock that is let go is needed by nobody else. */
  lemma ReleaseKeepsLocks(c: Config, s: State, s': State, t: Tid)
    requires ValidConfig(c) && Inv(c, s) && t in s.threads && Holds(s.threads[t].pc)
    requires Quiet(s, s', t) && !Holds(s'.threads[t].pc)
    requires s'.owner == s.owner - {c.slotOf(s.threads[t].key)}
    ensures OthersKeepLocks(c, s, s', t) && LockInv(c, s')
  {
    assert ThreadInv(c, s, t);
    forall u | u in s.threads && u in s'.threads && u != t && Holds(s.threads[u].pc) ensures KeepsLock(c, s, s', u) {
      if c.slotOf(s.threads[u].key) == c.slotOf(s.threads[t].key) { WriterIsAlone(c, s, t, u); }
    }
  }

  lemma ReleaseKeepsInv(c: Config, s: State, s': State, t: Tid)
    requires ValidConfig(c) && Inv(c, s) && t in s.threads && Holds(s.threads[t].pc)
    requires Quiet(s, s', t) && !Holds(s'.threads[t].pc)
    requires s'.owner == s.owner - {c.slotOf(s.threads[t].key)}
    requires ThreadInv(c, s', t)
    ensures Inv(c, s')
  {
    ReleaseKeepsLocks(c, s, s', t);
    QuietKeepsInv(c, s, s', t);
  }

  lemma ReleaseStepKeepsInv(c: Config, s: State, t: Tid, fault: bool, status: nat)
    requires ValidConfig(c) && Inv(c, s) && t in s.threads
    requires s.threads[t].pc.Counted? || s.threads[t].pc.Releasing? || s.threads[t].pc.Aborting?
    ensures Inv(c, Step(c, s, t, fault, status))
  {
    assert ThreadInv(c, s, t);
    ReleasedThreadInv(c, s, t, fault, status);
    ReleaseKeepsInv(c, s, Step(c, s, t, fault, status), t);
  }

  lemma ReleasedThreadInv(c: Config, s: State, t: Tid, fault: bool, status: nat)
    requires c.window > 0 && t in s.threads && ThreadInv(c, s, t)
    requires s.threads[t].pc.Counted? || s.threads[t].pc.Releasing? || s.threads[t].pc.Aborting?
    ensures var s' := Step(c, s, t, fault, status);
            t in s'.threads && ThreadInv(c, s', t) && !Holds(s'.threads[t].pc)
  {
    match s.threads[t].pc
    case Counted(_) =>
    case _ =>
  }

  /** What a load finds: the current entry, or nothing if there is none or it was forgotten. */
  lemma LoadFinds(c: Config, s: State, k: Key)
    requires ValidConfig(c) && Inv(c, s)
    ensures var live, e := Live(s.store, k, s.clock), Current(c, s, k);
            && Decode(live) == Found(e, Arrival(0, live != []))
            && (live != [] ==> History(s, k) != [])
            && (History(s, k) != [] && live == [] ==> MayForget(c, e, s.clock.second))
  {
    assert KeyInv(c, s, k);
    if k in s.store {
      DecodeEncode(Current(c, s, k));
    }
  }

  /** A step of `t` that changes nothing but where `t` stands, inside a locked section. */
  lemma StayKeepsInv(c: Config, s: State, s': State, t: Tid)
    requires ValidConfig(c) && Inv(c, s) && Quiet(s, s', t) && s'.owner == s.owner
    requires Holds(s.threads[t].pc) && Holds(s'.threads[t].pc)
    requires InHandInv(c, s', s'.threads[t]) && PastInv(c, s', t) && StageInv(c, s'.threads[t])
    ensures Inv(c, s')
  {
    assert ThreadInv(c, s, t);
    QuietKeepsInv(c, s, s', t);
  }

  lemma LoadKeepsInv(c: Config, s: State, t: Tid, fault: bool, status: nat)
    requires ValidConfig(c) && Inv(c, s) && t in s.threads
    requires s.threads[t].pc.Holding? || s.threads[t].pc.HoldingAgain?
    ensures Inv(c, Step(c, s, t, fault, status))
  {
    assert ThreadInv(c, s, t);
    LoadFinds(c, s, s.threads[t].key);
    StayKeepsInv(c, s, Step(c, s, t, fault, status), t);
  }

  lemma StampKeepsInv(c: Config, s: State, t: Tid, fault: bool, status: nat)
    requires ValidConfig(c) && Inv(c, s) && t in s.threads && s.threads[t].pc.Loaded?
    ensures Inv(c, Step(c, s, t, fault, status))
  {
    var th := s.threads[t];
    var ops := History(s, th.key);
    assert ThreadInv(c, s, t);
    assert KeyInv(c, s, th.key);
    RolledWindow(th.pc.found, s.clock.second, c.window);
    forall j | 0 <= j < |ops| && ops[j].HitOp? ensures ops[j].arrival.ts <= s.clock.second {
      assert OpInv(c, s, th.key, j);
    }
    StayKeepsInv(c, s, Step(c, s, t, fault, status), t);
  }

  lemma SaveHitKeepsInv(c: Config, s: State, t: Tid)
    requires ValidConfig(c) && Inv(c, s) && t in s.threads && s.threads[t].pc.Stamped?
    ensures Inv(c, SaveHit(c, s, t, s.threads[t].pc.entry, s.threads[t].pc.arrival, s.threads[t].pc.at))
  {
    var th := s.threads[t];
    var e, a := th.pc.entry, th.pc.arrival;
    var s' := SaveHit(c, s, t, e, a, th.pc.at);
    var op, ttl := HitOp(a, t, th.pc.at, s.clock), ResetTime(e, a.ts) + c.window;
    var ops := History(s, th.key);
    assert ThreadInv(c, s, t);
    assert Saves(c, s, s', t, e, ttl, op);
    assert History(s', th.key) == ops + [op];
    SerialPrefix(ops, op, |ops|, c.window);
    assert KeyInv(c, s, th.key);
    SaveKeepsOwnKey(c, s, s', t, e, ttl, op);
    SavedThreadInv(c, s, t);
    SaveKeepsInv(c, s, s', t, e, ttl, op);
  }

  lemma SavedThreadInv(c: Config, s: State, t: Tid)
    requires c.window > 0 && t in s.threads && s.threads[t].pc.Stamped? && ThreadInv(c, s, t)
    requires s.threads[t].pc.entry == Hit(Found(Current(c, s, s.threads[t].key), s.threads[t].pc.arrival),
                                          s.threads[t].pc.arrival.ts, c.window)
    ensures ThreadInv(c, SaveHit(c, s, t, s.threads[t].pc.entry, s.threads[t].pc.arrival, s.threads[t].pc.at), t)
  {
    var th := s.threads[t];
    var s' := SaveHit(c, s, t, th.pc.entry, th.pc.arrival, th.pc.at);
    var ops, op := History(s, th.key), HitOp(th.pc.arrival, t, th.pc.at, s.clock);
    assert History(s', th.key) == ops + [op];
    SerialSnoc(ops, op, c.window);
  }

  lemma SaveRefundKeepsInv(c: Config, s: State, t: Tid)
    requires ValidConfig(c) && Inv(c, s) && t in s.threads
    requires s.threads[t].pc.LoadedAgain? && s.threads[t].pc.found.currHits > 0
    ensures Inv(c, SaveRefund(c, s, t, s.threads[t].pc.found))
  {
    var th := s.threads[t];
    var found := th.pc.found;
    var s' := SaveRefund(c, s, t, found);
    var op := RefundOp(t);
    var ops := History(s, th.key);
    assert ThreadInv(c, s, t);
    assert Saves(c, s, s', t, Refund(found), c.window, op);
    assert History(s', th.key) == ops + [op];
    SerialPrefix(ops, op, |ops|, c.window);
    SerialPrefix(ops, op, th.hit.value + 1, c.window);
    assert KeyInv(c, s, th.key);
    SaveKeepsOwnKey(c, s, s', t, Refund(found), c.window, op);
    SaveKeepsInv(c, s, s', t, Refund(found), c.window, op);
  }

  /** The steps of the two locked sections that may save or give up. */
  lemma SavingStepKeepsInv(c: Config, s: State, t: Tid, fault: bool, status: nat)
    requires ValidConfig(c) && Inv(c, s) && t in s.threads
    requires s.threads[t].pc.Stamped? || s.threads[t].pc.LoadedAgain?
    ensures Inv(c, Step(c, s, t, fault, status))
  {
    assert ThreadInv(c, s, t);
    match s.threads[t].pc
    case Stamped(_, _, _) =>
      if c.external && fault { StayKeepsInv(c, s, Goto(s, t, Aborting), t); } else { SaveHitKeepsInv(c, s, t); }
    case LoadedAgain(found) =>
      if found.currHits == 0 || (c.external && fault) {
        StayKeepsInv(c, s, Step(c, s, t, fault, status), t);
      } else {
        SaveRefundKeepsInv(c, s, t);
      }
  }

  lemma AnswerKeepsInv(c: Config, s: State, t: Tid, fault: bool, status: nat)
    requires ValidConfig(c) && Inv(c, s) && t in s.threads && s.threads[t].pc.InNext?
    ensures Inv(c, Step(c, s, t, fault, status))
  {
    assert ThreadInv(c, s, t);
    QuietKeepsInv(c, s, Step(c, s, t, fault, status), t);
  }

  lemma StepKeepsInv(c: Config, s: State, t: Tid, fault: bool, status: nat)
    requires ValidConfig(c) && Inv(c, s) && t in s.threads
    ensures Inv(c, Step(c, s, t, fault, status))
  {
    match s.threads[t].pc
    case Arrived => AcquireKeepsInv(c, s, t, Holding);
    case Returning => AcquireKeepsInv(c, s, t, HoldingAgain);
    case Holding => LoadKeepsInv(c, s, t, fault, status);
    case HoldingAgain => LoadKeepsInv(c, s, t, fault, status);
    case Loaded(_, _, _) => StampKeepsInv(c, s, t, fault, status);
    case Stamped(_, _, _) => SavingStepKeepsInv(c, s, t, fault, status);
    case LoadedAgain(_) => SavingStepKeepsInv(c, s, t, fault, status);
    case Counted(_) => ReleaseStepKeepsInv(c, s, t, fault, status);
    case Releasing => ReleaseStepKeepsInv(c, s, t, fault, status);
    case Aborting => ReleaseStepKeepsInv(c, s, t, fault, status);
    case InNext => AnswerKeepsInv(c, s, t, fault, status);
    case Ended =>
  }

  /** Steps that only let time pass or a request arrive. */
  lemma QuietWorldKeepsInv(c: Config, s: State, s': State)
    requires ValidConfig(c) && Inv(c, s) && NothingSaved(s, s') && s'.owner == s.owner
    requires s'.clock.second + c.window < WORD64
    requires forall u :: u in s.threads ==> s'.threads[u] == s.threads[u]
    requires forall u :: u in s'.threads && u !in s.threads ==> ThreadInv(c, s', u)
    ensures Inv(c, s')
  {
    forall k ensures KeyInv(c, s', k) {
      assert KeyInv(c, s, k);
      KeyInvStays(c, s, s', k);
    }
    forall u | u in s'.threads ensures ThreadInv(c, s', u) {
      if u in s.threads {
        assert ThreadInv(c, s, u);
        ThreadInvStays(c, s, s', u);
      }
    }
  }

  /** The invariant holds after every list of actions, that is in every interleaving. */
  lemma {:induction false} AlwaysInv(c: Config, actions: seq<Action>)
    requires ValidConfig(c)
    ensures Inv(c, Execute(c, actions))
  {
    if actions == [] {
    } else {
      var before := Execute(c, actions[..|actions| - 1]);
      AlwaysInv(c, actions[..|actions| - 1]);
      PerformKeepsInv(c, before, actions[|actions| - 1]);
    }
  }

  lemma PerformKeepsInv(c: Config, s: State, a: Action)
    requires ValidConfig(c) && Inv(c, s)
    ensures Inv(c, Perform(c, s, a))
  {
    match a
    case Advance(t, fault, status) => if t in s.threads { StepKeepsInv(c, s, t, fault, status); }
    case Tick => QuietWorldKeepsInv(c, s, Ticked(c, s));
    case Spawn(t, k) => SpawnKeepsInv(c, s, t, k);
  }

  lemma SpawnKeepsInv(c: Config, s: State, t: Tid, k: Key)
    requires ValidConfig(c) && Inv(c, s)
    ensures Inv(c, Perform(c, s, Spawn(t, k)))
  {
    var s' := Perform(c, s, Spawn(t, k));
    if t !in s.threads {
      assert ThreadInv(c, s', t);
    }
    QuietWorldKeepsInv(c, s, s');
  }

  // ----- what it means

  /** No update is lost: after any interleaving the entry stored for a key is what its saved
      hits and refunds give when done one after the other in lock order. A save starts afresh
      only if it is the first one or the storage was free to forget the entry before it. */
  lemma Serializable(c: Config, actions: seq<Action>, k: Key)
    requires ValidConfig(c)
    ensures var s := Execute(c, actions);
            var ops := History(s, k);
            && (k in s.store <==> ops != [])
            && (k in s.store ==> Decode(s.store[k].value) == Serial(ops, |ops|, c.window))
            && (forall i :: 0 < i < |ops| && ops[i].HitOp? && !ops[i].arrival.kept ==>
                  MayForget(c, Serial(ops, i, c.window), ops[i].arrival.ts))
  {
    var s := Execute(c, actions);
    var ops := History(s, k);
    AlwaysInv(c, actions);
    assert KeyInv(c, s, k);
    DecodeEncode(Current(c, s, k));
    forall i | 0 < i < |ops| && ops[i].HitOp? && !ops[i].arrival.kept
      ensures MayForget(c, Serial(ops, i, c.window), ops[i].arrival.ts)
    {
      assert OpInv(c, s, k, i);
    }
  }

  /** A save in the history of `k` is the hit or the refund of a request for `k`. */
  predicate OpOwned(s: State, k: Key, i: nat)
    requires i < |History(s, k)|
  {
    var op := History(s, k)[i];
    && op.tid in s.threads && s.threads[op.tid].key == k
    && if op.HitOp? then s.threads[op.tid].hit == Some(i) else s.threads[op.tid].second == Refunded(i)
  }

  /** The hit of a request is where it says, and a request that was let through has one. */
  predicate HitOwned(s: State, t: Tid)
    requires t in s.threads
  {
    var th := s.threads[t];
    var ops := History(s, th.key);
    && (th.forwarded ==> th.hit.Some?)
    && (th.hit.Some? ==> th.hit.value < |ops| && ops[th.hit.value].HitOp? && ops[th.hit.value].tid == t)
  }

  /** So every save belongs to one request, and each request saves its hit at most once, and
      exactly once if it is let through. What it gives back is told by `FailedGiveBack`. */
  lemma SavesAreOwned(c: Config, actions: seq<Action>, k: Key)
    requires ValidConfig(c)
    ensures var s := Execute(c, actions);
            && (forall i :: 0 <= i < |History(s, k)| ==> OpOwned(s, k, i))
            && (forall t :: t in s.threads ==> HitOwned(s, t))
  {
    var s := Execute(c, actions);
    AlwaysInv(c, actions);
    assert KeyInv(c, s, k);
    forall i | 0 <= i < |History(s, k)| ensures OpOwned(s, k, i) {
      assert OpInv(c, s, k, i);
    }
    forall t | t in s.threads ensures HitOwned(s, t) {
      assert ThreadInv(c, s, t);
    }
  }

  /** What became of the hit of a request that was let through and failed, once it has ended: it
      was given back exactly once, after it was saved; or there was nothing left to give back, the
      counter being zero or the entry free to be forgotten; or the storage failed. Of any
      other request nothing is given back. */
  ghost predicate GivenBack(c: Config, s: State, t: Tid)
    requires t in s.threads
  {
    var th := s.threads[t];
    var ops := History(s, th.key);
    && (c.skipFailed && FailedInNext(th) && th.pc.Ended? ==> th.second != NotYet)
    && (th.second != NotYet ==> c.skipFailed && FailedInNext(th) && th.hit.Some?)
    && match th.second
       case NotYet => true
       case Refunded(at) => th.hit.value < at < |ops| && ops[at] == RefundOp(t)
       case NoneLeft(seen) => th.hit.value < seen <= |ops| && NothingToReturn(c, s, ops, seen)
       case Faulted => c.external
  }

  lemma FailedGiveBack(c: Config, actions: seq<Action>, t: Tid)
    requires ValidConfig(c) && t in Execute(c, actions).threads
    ensures GivenBack(c, Execute(c, actions), t)
  {
    AlwaysInv(c, actions);
    assert ThreadInv(c, Execute(c, actions), t);
  }

  /** The save that opened the window current after `n` saves. */
  function OpenedBy(ops: seq<Op>, n: nat, window: nat): nat
    requires n <= |ops|
  {
    if n == 0 then 0
    else if Serial(ops, n, window).exp != Serial(ops, n - 1, window).exp then n - 1
    else OpenedBy(ops, n - 1, window)
  }

  ghost function IsHit(ops: seq<Op>, from: nat): nat -> bool {
    (i: nat) => from <= i < |ops| && ops[i].HitOp?
  }

  ghost function IsRefund(ops: seq<Op>, from: nat): nat -> bool {
    (i: nat) => from <= i < |ops| && ops[i].RefundOp?
  }

  /** A refund is saved only when there is a hit to give back, and a forgotten entry is one
      whose window is over. */
  ghost predicate WellFormed(c: Config, ops: seq<Op>) {
    forall i :: 0 <= i < |ops| ==> WellFormedAt(c, ops, i)
  }

  predicate WellFormedAt(c: Config, ops: seq<Op>, i: nat)
    requires i < |ops|
  {
    if ops[i].RefundOp? then Serial(ops, i, c.window).currHits > 0
    else ops[i].arrival.kept || Serial(ops, i, c.window).exp <= ops[i].arrival.ts
  }

  lemma HistoryWellFormed(c: Config, s: State, k: Key)
    requires ValidConfig(c) && Inv(c, s)
    ensures WellFormed(c, History(s, k))
  {
    assert KeyInv(c, s, k);
    forall i | 0 <= i < |History(s, k)| ensures WellFormedAt(c, History(s, k), i) {
      assert OpInv(c, s, k, i);
    }
  }

  lemma {:induction false} OpenedByBefore(ops: seq<Op>, n: nat, window: nat)
    requires 0 < n <= |ops|
    ensures OpenedBy(ops, n, window) < n
  {
    if n <= 1 {
    } else {
      OpenedByBefore(ops, n - 1, window);
    }
  }

  lemma {:induction false} ExpPositive(c: Config, ops: seq<Op>, n: nat)
    requires c.window > 0 && 0 < n <= |ops| && WellFormed(c, ops)
    ensures Serial(ops, n, c.window).exp > 0
  {
    if n <= 1 {
    } else {
      ExpPositive(c, ops, n - 1);
    }
    assert WellFormedAt(c, ops, n - 1);
  }

  /** What one save does to the counter: it opens a window with one hit, or adds one, or takes
      one off, which is then there to be taken. */
  lemma CounterStep(c: Config, ops: seq<Op>, n: nat)
    requires c.window > 0 && 0 < n <= |ops| && WellFormed(c, ops)
    ensures var e0, e, op := Serial(ops, n - 1, c.window), Serial(ops, n, c.window), ops[n - 1];
            if e.exp != e0.exp then op.HitOp? && e.currHits == 1
            else if op.HitOp? then n > 1 && e.currHits == (e0.currHits + 1) % WORD32
            else n > 1 && e.currHits == e0.currHits - 1
  {
    if n > 1 { ExpPositive(c, ops, n - 1); }
    assert WellFormedAt(c, ops, n - 1);
    match ops[n - 1]
    case HitOp(a, _, _, _) => RolledExp(Found(Serial(ops, n - 1, c.window), a), a.ts, c.window);
    case RefundOp(_) =>
  }

  /** The counter is `hits` less `refunds`: exactly while the hits fit a uint32, else modulo 2^32. */
  predicate Balanced(currHits: nat, hits: nat, refunds: nat) {
    && (currHits + refunds) % WORD32 == hits % WORD32
    && (hits < WORD32 ==> currHits == hits - refunds)
  }

  lemma BalancedStep(currHits: nat, hits: nat, refunds: nat)
    requires Balanced(currHits, hits, refunds) && currHits < WORD32
    ensures Balanced((currHits + 1) % WORD32, hits + 1, refunds)
    ensures currHits > 0 ==> Balanced(currHits - 1, hits, refunds + 1)
  {
    WrapStep(currHits + refunds);
    WrapStep(hits);
    if currHits + 1 == WORD32 {
      assert (currHits + 1 + refunds) % WORD32 == refunds % WORD32;
    }
  }

  /** The hit counter is the hits saved in the current window less those given back. */
  lemma {:induction false} HitsConserved(c: Config, ops: seq<Op>, n: nat)
    requires c.window > 0 && n <= |ops| && WellFormed(c, ops)
    ensures var o := OpenedBy(ops, n, c.window);
            Balanced(Serial(ops, n, c.window).currHits, Count(n, IsHit(ops, o)), Count(n, IsRefund(ops, o)))
  {
    if n == 0 {
    } else {
      var o := OpenedBy(ops, n, c.window);
      CounterStep(c, ops, n);
      OpenedByBefore(ops, n, c.window);
      assert IsHit(ops, o)(n - 1) == ops[n - 1].HitOp? && IsRefund(ops, o)(n - 1) == ops[n - 1].RefundOp?;
      if o == n - 1 {
        CountNone(n - 1, IsHit(ops, o));
        CountNone(n - 1, IsRefund(ops, o));
        OpenedHere(ops, n, c.window);
      } else {
        HitsConserved(c, ops, n - 1);
        var hits, refunds := Count(n - 1, IsHit(ops, o)), Count(n - 1, IsRefund(ops, o));
        BalancedStep(Serial(ops, n - 1, c.window).currHits, hits, refunds);
      }
    }
  }

  lemma OpenedHere(ops: seq<Op>, n: nat, window: nat)
    requires 0 < n <= |ops|
    ensures OpenedBy(ops, n, window) == n - 1 ==> n == 1 || Serial(ops, n, window).exp != Serial(ops, n - 1, window).exp
  {
    if n > 1 { OpenedByBefore(ops, n - 1, window); }
  }

  lemma RolledExp(e: Entry, ts: nat, window: nat)
    requires window > 0
    ensures var r := Rolled(e, ts, window);
            && ts < r.exp
            && (r.exp == e.exp ==> r == e)
            && (r.exp != e.exp && e.exp > 0 ==> r.currHits == 0)
  {
  }

  /** `HitsConserved` for any key after any interleaving: exact while fewer than 2^32 hits were
      saved in the current window, and never below zero. */
  lemma CounterIsHitsLessRefunds(c: Config, actions: seq<Action>, k: Key)
    requires ValidConfig(c) && k in Execute(c, actions).store
    ensures var s := Execute(c, actions);
            var ops := History(s, k);
            var o := OpenedBy(ops, |ops|, c.window);
            Balanced(Decode(s.store[k].value).currHits, Count(|ops|, IsHit(ops, o)), Count(|ops|, IsRefund(ops, o)))
  {
    var s := Execute(c, actions);
    AlwaysInv(c, actions);
    CounterInState(c, s, k);
  }

  lemma CounterInState(c: Config, s: State, k: Key)
    requires ValidConfig(c) && Inv(c, s) && k in s.store
    ensures var ops := History(s, k);
            var o := OpenedBy(ops, |ops|, c.window);
            Balanced(Decode(s.store[k].value).currHits, Count(|ops|, IsHit(ops, o)), Count(|ops|, IsRefund(ops, o)))
  {
    HistoryWellFormed(c, s, k);
    assert KeyInv(c, s, k);
    DecodeEncode(Current(c, s, k));
    HitsConserved(c, History(s, k), |History(s, k)|);
  }

  // ----- locks

  /** After any interleaving a request owns the lock of its slot exactly while it is in a locked
      section, and no other lock; in particular none while `Next` runs or after it ended. */
  lemma LocksHeldExactly(c: Config, actions: seq<Action>, t: Tid)
    requires ValidConfig(c) && t in Execute(c, actions).threads
    ensures var s := Execute(c, actions);
            forall slot :: (slot in s.owner && s.owner[slot] == t) <==>
                           (Holds(s.threads[t].pc) && slot == c.slotOf(s.threads[t].key))
  {
    AlwaysInv(c, actions);
    assert ThreadInv(c, Execute(c, actions), t);
  }

  function StepsToUnlock(pc: Pc): nat {
    match pc
    case Holding => 4
    case Loaded(_, _, _) => 3
    case Stamped(_, _, _) => 2
    case HoldingAgain => 3
    case LoadedAgain(_) => 2
    case _ => 1
  }

  /** A lock that is held is released by its holder after at most four of the holder's own
      steps, whatever fails meanwhile, and released once. */
  lemma HolderReleases(c: Config, s: State, t: Tid, fault: bool, status: nat)
    requires c.window > 0 && t in s.threads && Holds(s.threads[t].pc)
    ensures var s' := Step(c, s, t, fault, status);
            var pc, pc' := s.threads[t].pc, s'.threads[t].pc;
            if StepsToUnlock(pc) > 1 then
              (Holds(pc') && StepsToUnlock(pc') < StepsToUnlock(pc) && s'.owner == s.owner)
            else
              (!Holds(pc') && s'.owner == s.owner - {c.slotOf(s.threads[t].key)})
  {
    match s.threads[t].pc
    case Holding =>
    case Loaded(_, _, _) =>
    case Stamped(_, _, _) =>
    case Counted(_) =>
    case HoldingAgain =>
    case LoadedAgain(_) =>
    case Releasing =>
    case Aborting =>
  }

  /** Waiting for a lock that is taken. */
  predicate Blocked(c: Config, s: State, t: Tid)
    requires t in s.threads
  {
    (s.threads[t].pc.Arrived? || s.threads[t].pc.Returning?) && c.slotOf(s.threads[t].key) in s.owner
  }

  /** A request that has not ended and is not blocked moves on at its next step, whatever fails. */
  lemma UnblockedMoves(c: Config, s: State, t: Tid, fault: bool, status: nat)
    requires c.window > 0 && t in s.threads && !s.threads[t].pc.Ended? && !Blocked(c, s, t)
    ensures Step(c, s, t, fault, status).threads[t].pc != s.threads[t].pc
  {
    match s.threads[t].pc
    case Stamped(_, _, _) =>
    case LoadedAgain(_) =>
    case _ =>
  }

  /** No deadlock: while some request has not ended, some request that has not ended is not blocked. */
  lemma SomeoneCanMove(c: Config, actions: seq<Action>, t: Tid)
    requires ValidConfig(c)
    requires t in Execute(c, actions).threads && !Execute(c, actions).threads[t].pc.Ended?
    ensures var s := Execute(c, actions);
            exists u :: u in s.threads && !s.threads[u].pc.Ended? && !Blocked(c, s, u)
  {
    var s := Execute(c, actions);
    AlwaysInv(c, actions);
    if Blocked(c, s, t) {
      var u := s.owner[c.slotOf(s.threads[t].key)];
      assert u in s.threads && Holds(s.threads[u].pc);
    }
  }

  // ----- the limit holds for all requests together

  function ArrivalOf(op: Op): Arrival {
    if op.HitOp? then op.arrival else Arrival(0, false)
  }

  function RunOf(ops: seq<Op>): (run: seq<Arrival>)
    ensures |run| == |ops|
    ensures forall i :: 0 <= i < |ops| ==> run[i] == ArrivalOf(ops[i])
  {
    seq(|ops|, i requires 0 <= i < |ops| => ArrivalOf(ops[i]))
  }

  lemma {:induction false} SerialIsRun(ops: seq<Op>, n: nat, window: nat)
    requires n <= |ops| && forall i :: 0 <= i < |ops| ==> ops[i].HitOp?
    ensures Serial(ops, n, window) == After(RunOf(ops), n, window)
  {
    if n == 0 {
    } else {
      SerialIsRun(ops, n - 1, window);
    }
  }

  /** With refunds off the history of a key is a run as studied in RateLimiterWindows. */
  lemma HistoryIsFaithfulRun(c: Config, s: State, k: Key)
    requires ValidConfig(c) && Inv(c, s) && !c.skipFailed
    ensures forall i :: 0 <= i < |History(s, k)| ==> History(s, k)[i].HitOp?
    ensures Faithful(RunOf(History(s, k)), c.window)
  {
    var ops := History(s, k);
    assert KeyInv(c, s, k);
    forall i | 0 <= i < |ops| ensures ops[i].HitOp? && OpInv(c, s, k, i) {
      assert OpInv(c, s, k, i);
    }
    forall i | 0 < i < |ops| ensures FaithfulAt(RunOf(ops), i, c.window) {
      SerialIsRun(ops, i, c.window);
      assert OpInv(c, s, k, i);
    }
  }

  /** With refunds off the stored entry is the one after the last request of that run. */
  lemma StoredIsAfter(c: Config, s: State, k: Key)
    requires ValidConfig(c) && Inv(c, s) && !c.skipFailed
    ensures var run := RunOf(History(s, k));
            && (k in s.store <==> run != [])
            && (k in s.store ==> Decode(s.store[k].value) == After(run, |run|, c.window))
  {
    HistoryIsFaithfulRun(c, s, k);
    SerialIsRun(History(s, k), |History(s, k)|, c.window);
    assert KeyInv(c, s, k);
    DecodeEncode(Current(c, s, k));
  }

  /** The requests for key `k` handed to `Next` whose hit is at a position of its history satisfying `p`. */
  ghost function ForwardedWith(s: State, k: Key, p: nat -> bool): set<Tid> {
    set t | t in s.threads && WasForwarded(s, t, k, p)
  }

  predicate WasForwarded(s: State, t: Tid, k: Key, p: nat -> bool)
    requires t in s.threads
  {
    var th := s.threads[t];
    th.key == k && th.forwarded && (th.hit.Some? ==> p(th.hit.value))
  }

  /** Those whose hit is stamped in `[lo, hi)`. */
  ghost function ForwardedIn(s: State, k: Key, lo: nat, hi: nat): set<Tid> {
    ForwardedWith(s, k, Between(RunOf(History(s, k)), lo, hi))
  }

  /** Those whose hit falls into the window ending at `w`. */
  ghost function ForwardedInto(c: Config, s: State, k: Key, w: nat): set<Tid> {
    ForwardedWith(s, k, HitInto(History(s, k), w, c.window))
  }

  /** The end of the window that was the current one once the `i`-th save was made. */
  function SavedInto(ops: seq<Op>, i: nat, window: nat): nat
    requires i < |ops|
  {
    Serial(ops, i + 1, window).exp
  }

  /** The hits, and the refunds, saved while the window ending at `w` was the current one. */
  ghost function HitInto(ops: seq<Op>, w: nat, window: nat): nat -> bool {
    (i: nat) => i < |ops| && ops[i].HitOp? && SavedInto(ops, i, window) == w
  }

  ghost function RefundInto(ops: seq<Op>, w: nat, window: nat): nat -> bool {
    (i: nat) => i < |ops| && ops[i].RefundOp? && SavedInto(ops, i, window) == w
  }

  ghost function AdmittedHitInto(c: Config, ops: seq<Op>, w: nat): nat -> bool
    requires c.window > 0
  {
    (i: nat) => i < |ops| && AdmittedOp(c, ops, i) && SavedInto(ops, i, c.window) == w
  }

  /** A set of requests whose own saves are below `n` and satisfy `p` is no larger than the number
      of such positions. */
  lemma {:induction false} PositionsCounted(ts: set<Tid>, position: map<Tid, nat>, ops: seq<Op>, n: nat, p: nat -> bool)
    requires n <= |ops| && ts <= position.Keys
    requires forall t <- ts :: position[t] < n && p(position[t]) && ops[position[t]].tid == t
    ensures |ts| <= Count(n, p)
  {
    if n == 0 {
      assert forall t <- ts :: false;
      assert ts == {};
    } else if ops[n - 1].tid in ts && position[ops[n - 1].tid] == n - 1 {
      PositionsCounted(ts - {ops[n - 1].tid}, position, ops, n - 1, p);
    } else {
      PositionsCounted(ts, position, ops, n - 1, p);
    }
  }

  lemma ForwardedIsAdmitted(c: Config, s: State, t: Tid, k: Key, p: nat -> bool)
    requires ValidConfig(c) && Inv(c, s)
    requires t in s.threads && WasForwarded(s, t, k, p)
    ensures s.threads[t].hit.Some?
    ensures var i, ops := s.threads[t].hit.value, History(s, k);
            i < |ops| && ops[i].tid == t && AdmittedOp(c, ops, i) && p(i)
  {
    assert ThreadInv(c, s, t);
  }

  /** No more requests are handed to `Next` than saved hits are admitted. */
  lemma ForwardedCounted(c: Config, s: State, k: Key, p: nat -> bool, q: nat -> bool)
    requires ValidConfig(c) && Inv(c, s)
    requires forall i: nat :: i < |History(s, k)| && p(i) && AdmittedOp(c, History(s, k), i) ==> q(i)
    ensures |ForwardedWith(s, k, p)| <= Count(|History(s, k)|, q)
  {
    var ops, ts := History(s, k), ForwardedWith(s, k, p);
    forall t | t in ts ensures s.threads[t].hit.Some? {
      ForwardedIsAdmitted(c, s, t, k, p);
    }
    var position := map t | t in ts :: s.threads[t].hit.value;
    forall t | t in ts ensures position[t] < |ops| && q(position[t]) && ops[position[t]].tid == t {
      ForwardedIsAdmitted(c, s, t, k, p);
    }
    PositionsCounted(ts, position, ops, |ops|, q);
  }

  lemma ForwardedInCounted(c: Config, s: State, k: Key, lo: nat, hi: nat)
    requires ValidConfig(c) && Inv(c, s) && !c.skipFailed
    ensures |ForwardedIn(s, k, lo, hi)|
            <= Count(|History(s, k)|, AdmittedBetween(RunOf(History(s, k)), lo, hi, c.window, c.max))
  {
    var ops := History(s, k);
    var run := RunOf(ops);
    var q := AdmittedBetween(run, lo, hi, c.window, c.max);
    HistoryIsFaithfulRun(c, s, k);
    forall i: nat | i < |ops| && Between(run, lo, hi)(i) && AdmittedOp(c, ops, i) ensures q(i) {
      SerialIsRun(ops, i + 1, c.window);
    }
    ForwardedCounted(c, s, k, Between(run, lo, hi), q);
  }

  /** In every interleaving of any number of requests, with refunds off, at most twice the
      limit of a key's requests stamped in any `window` consecutive seconds are handed to `Next`. */
  lemma ForwardedAtMostTwice(c: Config, actions: seq<Action>, k: Key, a: nat)
    requires ValidConfig(c) && !c.skipFailed
    requires NeverWraps(RunOf(History(Execute(c, actions), k)), c.window)
    ensures |ForwardedIn(Execute(c, actions), k, a, a + c.window)| <= 2 * c.max
  {
    AlwaysInv(c, actions);
    ForwardedInState(c, Execute(c, actions), k, a);
  }

  lemma ForwardedInState(c: Config, s: State, k: Key, a: nat)
    requires ValidConfig(c) && !c.skipFailed && Inv(c, s)
    requires NeverWraps(RunOf(History(s, k)), c.window)
    ensures |ForwardedIn(s, k, a, a + c.window)| <= 2 * c.max
  {
    ForwardedInCounted(c, s, k, a, a + c.window);
    HistoryIsFaithfulRun(c, s, k);
    AdmittedPerInterval(RunOf(History(s, k)), a, c.window, c.max);
  }

  /** The end of the window only moves on. */
  lemma ExpStep(c: Config, ops: seq<Op>, n: nat)
    requires c.window > 0 && 0 < n <= |ops| && WellFormed(c, ops)
    ensures Serial(ops, n - 1, c.window).exp <= Serial(ops, n, c.window).exp
    ensures n == 1 ==> 0 < Serial(ops, n, c.window).exp
  {
    assert WellFormedAt(c, ops, n - 1);
  }

  /** The saves made in the window current after `n` saves are exactly those from its opening on. */
  lemma {:induction false} OpenedWindow(c: Config, ops: seq<Op>, n: nat)
    requires c.window > 0 && 0 < n <= |ops| && WellFormed(c, ops)
    ensures var o, w := OpenedBy(ops, n, c.window), Serial(ops, n, c.window).exp;
            forall i :: 0 <= i < n ==>
              SavedInto(ops, i, c.window) <= w && (SavedInto(ops, i, c.window) == w <==> o <= i)
  {
    ExpStep(c, ops, n);
    OpenedByBefore(ops, n, c.window);
    if n <= 1 {
    } else {
      OpenedWindow(c, ops, n - 1);
    }
  }

  /** So they may be counted either way, and admitted hits are among them. */
  lemma HitsSinceOpened(c: Config, ops: seq<Op>, n: nat)
    requires c.window > 0 && 0 < n <= |ops| && WellFormed(c, ops)
    ensures var o, w := OpenedBy(ops, n, c.window), Serial(ops, n, c.window).exp;
            && Count(n, AdmittedHitInto(c, ops, w)) <= Count(n, IsHit(ops, o)) <= Count(n, HitInto(ops, w, c.window))
            && Count(n, IsRefund(ops, o)) <= Count(n, RefundInto(ops, w, c.window))
  {
    var o, w := OpenedBy(ops, n, c.window), Serial(ops, n, c.window).exp;
    OpenedWindow(c, ops, n);
    CountWeaker(n, IsHit(ops, o), HitInto(ops, w, c.window));
    CountWeaker(n, AdmittedHitInto(c, ops, w), IsHit(ops, o));
    CountWeaker(n, IsRefund(ops, o), RefundInto(ops, w, c.window));
  }

  lemma RateIsNoLess(e: Entry, ts: nat, window: nat)
    requires window > 0
    ensures e.currHits <= Rate(e, ts, window)
  {
  }

  /** Admitted hits of one window are at most the limit and what was given back in it. */
  lemma {:induction false} AdmittedWithRefunds(c: Config, ops: seq<Op>, n: nat, w: nat)
    requires c.window > 0 && n <= |ops| && WellFormed(c, ops)
    requires Count(n, HitInto(ops, w, c.window)) < WORD32
    ensures Count(n, AdmittedHitInto(c, ops, w)) <= c.max + Count(n, RefundInto(ops, w, c.window))
  {
    if n == 0 {
    } else {
      if AdmittedHitInto(c, ops, w)(n - 1) {
        HitsSinceOpened(c, ops, n);
        HitsConserved(c, ops, n);
        RateIsNoLess(Serial(ops, n, c.window), ops[n - 1].arrival.ts, c.window);
      } else {
        AdmittedWithRefunds(c, ops, n - 1, w);
      }
    }
  }

  /** In every interleaving, refunds on or off: of the requests whose hits fall into one window
      at most the limit are handed to `Next`, and one more for every hit given back in that window. */
  lemma ForwardedPerWindow(c: Config, actions: seq<Action>, k: Key, w: nat)
    requires ValidConfig(c)
    requires Count(|History(Execute(c, actions), k)|, HitInto(History(Execute(c, actions), k), w, c.window)) < WORD32
    ensures var s := Execute(c, actions);
            var refunds := Count(|History(s, k)|, RefundInto(History(s, k), w, c.window));
            && |ForwardedInto(c, s, k, w)| <= c.max + refunds
            && (!c.skipFailed ==> refunds == 0)
  {
    AlwaysInv(c, actions);
    ForwardedIntoState(c, Execute(c, actions), k, w);
  }

  lemma ForwardedIntoState(c: Config, s: State, k: Key, w: nat)
    requires ValidConfig(c) && Inv(c, s)
    requires Count(|History(s, k)|, HitInto(History(s, k), w, c.window)) < WORD32
    ensures var refunds := Count(|History(s, k)|, RefundInto(History(s, k), w, c.window));
            && |ForwardedInto(c, s, k, w)| <= c.max + refunds
            && (!c.skipFailed ==> refunds == 0)
  {
    var ops := History(s, k);
    HistoryWellFormed(c, s, k);
    ForwardedCounted(c, s, k, HitInto(ops, w, c.window), AdmittedHitInto(c, ops, w));
    AdmittedWithRefunds(c, ops, |ops|, w);
    if !c.skipFailed {
      HistoryIsFaithfulRun(c, s, k);
      CountNone(|ops|, RefundInto(ops, w, c.window));
    }
  }

  /** What the weighting is for, in every interleaving: of the requests stamped in `window`
      consecutive seconds in which a window ends, those handed to `Next` after its end, plus
      the weighted share of those before, stay within the limit. */
  lemma ForwardedAcrossBoundary(c: Config, actions: seq<Action>, k: Key, a: nat, j: nat)
    requires ValidConfig(c) && !c.skipFailed && BoundaryInside(c, Execute(c, actions), k, a, j)
    ensures WithinAcross(c, Execute(c, actions), k, a, Boundary(c, Execute(c, actions), k, j))
  {
    AlwaysInv(c, actions);
    ForwardedAcrossState(c, Execute(c, actions), k, a, j);
  }

  /** The end of the window that the `j`-th saved hit fell into. */
  function Boundary(c: Config, s: State, k: Key, j: nat): nat
    requires j < |History(s, k)|
  {
    Window(RunOf(History(s, k)), j, c.window)
  }

  /** That window ends less than a window's length after `a`; hits do not wrap. */
  ghost predicate BoundaryInside(c: Config, s: State, k: Key, a: nat, j: nat) {
    && NeverWraps(RunOf(History(s, k)), c.window)
    && j < |History(s, k)| && a < Boundary(c, s, k, j) < a + c.window
  }

  ghost predicate WithinAcross(c: Config, s: State, k: Key, a: nat, b: nat)
    requires c.window > 0 && a <= b
  {
    Scaled(|ForwardedIn(s, k, a, b)|, b - a + 1, c.window) + |ForwardedIn(s, k, b, a + c.window)| <= c.max
  }

  lemma ForwardedAcrossState(c: Config, s: State, k: Key, a: nat, j: nat)
    requires ValidConfig(c) && !c.skipFailed && Inv(c, s) && BoundaryInside(c, s, k, a, j)
    ensures WithinAcross(c, s, k, a, Boundary(c, s, k, j))
  {
    var run, b := RunOf(History(s, k)), Boundary(c, s, k, j);
    var before := Count(|run|, AdmittedBetween(run, a, b, c.window, c.max));
    var after := Count(|run|, AdmittedBetween(run, b, a + c.window, c.window, c.max));
    ForwardedInCounted(c, s, k, a, b);
    ForwardedInCounted(c, s, k, b, a + c.window);
    CountsAcross(c, s, k, a, j);
    ScaledWithin(|ForwardedIn(s, k, a, b)|, before, |ForwardedIn(s, k, b, a + c.window)|, after, b - a + 1, c.window,
        c.max);
  }

  lemma CountsAcross(c: Config, s: State, k: Key, a: nat, j: nat)
    requires ValidConfig(c) && !c.skipFailed && Inv(c, s) && BoundaryInside(c, s, k, a, j)
    ensures var run, b := RunOf(History(s, k)), Boundary(c, s, k, j);
            Scaled(Count(|run|, AdmittedBetween(run, a, b, c.window, c.max)), b - a + 1, c.window)
            + Count(|run|, AdmittedBetween(run, b, a + c.window, c.window, c.max)) <= c.max
  {
    HistoryIsFaithfulRun(c, s, k);
    AdmittedAcrossBoundary(RunOf(History(s, k)), a, j, |History(s, k)|, c.window, c.max);
  }

  lemma ScaledWithin(a: nat, a': nat, b: nat, b': nat, weight: nat, d: nat, max: nat)
    requires a <= a' && b <= b' && d > 0 && Scaled(a', weight, d) + b' <= max
    ensures Scaled(a, weight, d) + b <= max
  {
    ScaledMonotone(a, a', weight, weight, d);
  }

  /** In every interleaving, refunds on or off: of a request whose hit was saved and whose lock is
      free again, it is decided whether it is let through, and it is if and only if the weighted
      estimate with the counters it left behind is within the limit. */
  lemma ForwardedExactly(c: Config, actions: seq<Action>, t: Tid)
    requires ValidConfig(c) && t in Execute(c, actions).threads
    ensures LetThroughIfWithin(c, Execute(c, actions), t)
  {
    AlwaysInv(c, actions);
    LetThroughInState(c, Execute(c, actions), t);
  }

  ghost predicate LetThroughIfWithin(c: Config, s: State, t: Tid)
    requires t in s.threads && c.window > 0
  {
    var th := s.threads[t];
    var ops := History(s, th.key);
    th.hit.Some? && !th.pc.Counted? ==>
      && th.hit.value < |ops| && ops[th.hit.value].HitOp?
      && (th.forwarded <==> WithinLimit(c, Serial(ops, th.hit.value + 1, c.window), ops[th.hit.value].arrival.ts))
  }

  lemma LetThroughInState(c: Config, s: State, t: Tid)
    requires ValidConfig(c) && Inv(c, s) && t in s.threads
    ensures LetThroughIfWithin(c, s, t)
  {
    assert ThreadInv(c, s, t);
    if s.threads[t].hit.Some? { HitWithinLimit(c, s, t); }
  }

  ghost predicate WithinLimit(c: Config, e: Entry, ts: nat)
    requires c.window > 0
  {
    e.prevHits * (e.exp - ts) / c.window + e.currHits <= c.max
  }

  lemma HitWithinLimit(c: Config, s: State, t: Tid)
    requires c.window > 0 && t in s.threads && PastInv(c, s, t) && s.threads[t].hit.Some?
    ensures var ops, i := History(s, s.threads[t].key), s.threads[t].hit.value;
            AdmittedOp(c, ops, i) <==> WithinLimit(c, Serial(ops, i + 1, c.window), ops[i].arrival.ts)
  {
    var ops, i := History(s, s.threads[t].key), s.threads[t].hit.value;
    HitInWindow(ops, i, c.window);
    RateFormula(Serial(ops, i + 1, c.window), ops[i].arrival.ts, c.window);
  }

  lemma HitInWindow(ops: seq<Op>, i: nat, window: nat)
    requires window > 0 && i < |ops| && ops[i].HitOp?
    ensures ops[i].arrival.ts < Serial(ops, i + 1, window).exp
  {
    RolledExp(Found(Serial(ops, i, window), ops[i].arrival), ops[i].arrival.ts, window);
  }

  /** With refunds off, and its window not opened late, exactly if the request log says so. */
  lemma ForwardedByLog(c: Config, actions: seq<Action>, t: Tid)
    requires ValidConfig(c) && !c.skipFailed && t in Execute(c, actions).threads
    requires Decided(c, Execute(c, actions), t)
    ensures var s := Execute(c, actions);
            s.threads[t].forwarded <==>
            WithinByLog(RunOf(History(s, s.threads[t].key)), s.threads[t].hit.value, c.window, c.max)
  {
    AlwaysInv(c, actions);
    ForwardedByLogInState(c, Execute(c, actions), t);
  }

  /** Its hit is saved, its lock is free again, its window was not opened late and hits do not wrap. */
  ghost predicate Decided(c: Config, s: State, t: Tid)
    requires t in s.threads
  {
    var th := s.threads[t];
    var run := RunOf(History(s, th.key));
    && th.hit.Some? && !th.pc.Counted? && th.hit.value < |run|
    && NeverWraps(run, c.window) && !OpenedLate(run, th.hit.value + 1, c.window)
  }

  lemma ForwardedByLogInState(c: Config, s: State, t: Tid)
    requires ValidConfig(c) && !c.skipFailed && Inv(c, s) && t in s.threads && Decided(c, s, t)
    ensures s.threads[t].forwarded <==>
            WithinByLog(RunOf(History(s, s.threads[t].key)), s.threads[t].hit.value, c.window, c.max)
  {
    var ops, i := History(s, s.threads[t].key), s.threads[t].hit.value;
    assert ThreadInv(c, s, t);
    HistoryIsFaithfulRun(c, s, s.threads[t].key);
    SerialIsRun(ops, i + 1, c.window);
    AdmittedExactly(RunOf(ops), i, c.window, c.max);
  }

  /** The counters stored for `k` are what was logged. */
  ghost predicate StoredIsTheLog(c: Config, s: State, k: Key)
    requires k in s.store
  {
    IsTheLog(Decode(s.store[k].value), RunOf(History(s, k)), |History(s, k)|, c.window)
  }

  /** In every interleaving the stored counters are the request log if and only if the current
      window was not opened late. */
  lemma StoredIsTheLogIff(c: Config, actions: seq<Action>, k: Key)
    requires ValidConfig(c) && !c.skipFailed && k in Execute(c, actions).store
    requires NeverWraps(RunOf(History(Execute(c, actions), k)), c.window)
    ensures var s := Execute(c, actions);
            StoredIsTheLog(c, s, k) <==> !OpenedLate(RunOf(History(s, k)), |History(s, k)|, c.window)
  {
    var run := RunOf(History(Execute(c, actions), k));
    AlwaysInv(c, actions);
    StoredIsAfter(c, Execute(c, actions), k);
    HistoryIsFaithfulRun(c, Execute(c, actions), k);
    CountersAreTheLog(run, |run|, c.window);
  }
}
