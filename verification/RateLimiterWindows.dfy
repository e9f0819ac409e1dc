/**
 What the counters mean over a whole run of requests for one key, refunds off
 (middleware/rate_limit.go:130-175, 259-281).

 A run is the list of its requests in lock order. Each carries its timestamp and whether
 the storage still returned the entry saved by the request before it. The only thing
 assumed of the storage is that it does not forget an entry before the time-to-live given
 to `save` is over (`Faithful`): the in-memory cache never forgets, an external one may
 forget at the deadline or any time later.
 */
module RateLimiterWindows {
  import opened MachineWords
  import opened RateLimiterEntry

  datatype Arrival = Arrival(ts: nat, kept: bool)

  function Found(stored: Entry, a: Arrival): Entry {
    if a.kept then stored else NO_ENTRY
  }

  /** The stored entry after the first `n` requests. */
  function After(run: seq<Arrival>, n: nat, expiration: nat): Entry
    requires n <= |run|
  {
    if n == 0 then NO_ENTRY
    else Hit(Found(After(run, n - 1, expiration), run[n - 1]), run[n - 1].ts, expiration)
  }

  ghost predicate Sorted(run: seq<Arrival>) {
    forall i, j :: 0 <= i <= j < |run| ==> run[i].ts <= run[j].ts
  }

  /** Line 150 gives an entry saved at `ts` the time-to-live `(exp - ts) + expiration`. */
  ghost predicate Faithful(run: seq<Arrival>, expiration: nat) {
    && Sorted(run)
    && forall i :: 0 < i < |run| ==> FaithfulAt(run, i, expiration)
  }

  predicate FaithfulAt(run: seq<Arrival>, i: nat, expiration: nat)
    requires i < |run|
  {
    !run[i].kept ==> After(run, i, expiration).exp + expiration <= run[i].ts
  }

  /** The window request `i` falls into, named by its end. */
  function Window(run: seq<Arrival>, i: nat, expiration: nat): nat
    requires i < |run|
  {
    After(run, i + 1, expiration).exp
  }

  predicate Admitted(run: seq<Arrival>, i: nat, expiration: nat, max: nat)
    requires i < |run| && expiration > 0
  {
    Rate(After(run, i + 1, expiration), run[i].ts, expiration) <= max
  }

  // ----- counting requests

  /** How many of the indices below `n` satisfy `p`. */
  ghost function Count(n: nat, p: nat -> bool): nat {
    if n == 0 then 0 else Count(n - 1, p) + if p(n - 1) then 1 else 0
  }

  lemma {:induction false} CountCovered(n: nat, p: nat -> bool, q: nat -> bool, r: nat -> bool)
    requires forall i: nat :: i < n && p(i) ==> q(i) || r(i)
    ensures Count(n, p) <= Count(n, q) + Count(n, r)
  {
    if n == 0 {
    } else {
      CountCovered(n - 1, p, q, r);
    }
  }

  lemma {:induction false} CountNone(n: nat, p: nat -> bool)
    requires forall i: nat :: i < n ==> !p(i)
    ensures Count(n, p) == 0
  {
    if n == 0 {
    } else {
      CountNone(n - 1, p);
    }
  }

  lemma {:induction false} CountWeaker(n: nat, p: nat -> bool, q: nat -> bool)
    requires forall i: nat :: i < n && p(i) ==> q(i)
    ensures Count(n, p) <= Count(n, q)
  {
    if n == 0 {
    } else {
      CountWeaker(n - 1, p, q);
    }
  }

  ghost function Between(run: seq<Arrival>, lo: int, hi: int): nat -> bool {
    (i: nat) => i < |run| && lo <= run[i].ts < hi
  }

  /** How many of the first `n` logged requests have a timestamp in `[lo, hi)`. */
  ghost function Logged(run: seq<Arrival>, n: nat, lo: int, hi: int): nat {
    Count(n, Between(run, lo, hi))
  }

  // ----- windows

  /** Every request falls into a window of length `expiration` that contains its timestamp;
      its window is the current one or starts no earlier than the current one ends. */
  lemma {:induction false} WindowStep(run: seq<Arrival>, i: nat, expiration: nat)
    requires expiration > 0 && i < |run| && Faithful(run, expiration)
    ensures run[i].ts < Window(run, i, expiration) <= run[i].ts + expiration
    ensures i > 0 ==>
              var w, w' := Window(run, i - 1, expiration), Window(run, i, expiration);
              if run[i].ts < w then w' == w else w + expiration <= w'
    ensures i > 0 && run[i].ts < Window(run, i - 1, expiration) ==>
              run[i].kept && After(run, i + 1, expiration).prevHits == After(run, i, expiration).prevHits
  {
    if i == 0 {
    } else {
      assert FaithfulAt(run, i, expiration);
      WindowStep(run, i - 1, expiration);
    }
    var found := Found(After(run, i, expiration), run[i]);
    RolledWindow(found, run[i].ts, expiration);
  }

  lemma {:induction false} WindowsOrdered(run: seq<Arrival>, i: nat, j: nat, expiration: nat)
    requires expiration > 0 && i <= j < |run| && Faithful(run, expiration)
    ensures var w, w' := Window(run, i, expiration), Window(run, j, expiration);
            w == w' || w + expiration <= w'
    decreases j - i
  {
    if i == j {
    } else {
      WindowsOrdered(run, i, j - 1, expiration);
      WindowStep(run, j, expiration);
    }
  }

  /** Two windows of a run are the same one or do not overlap. */
  lemma WindowsDisjoint(run: seq<Arrival>, i: nat, j: nat, expiration: nat)
    requires expiration > 0 && i < |run| && j < |run| && Faithful(run, expiration)
    ensures var w, w' := Window(run, i, expiration), Window(run, j, expiration);
            w == w' || w + expiration <= w' || w' + expiration <= w
  {
    if i <= j {
      WindowsOrdered(run, i, j, expiration);
    } else {
      WindowsOrdered(run, j, i, expiration);
    }
  }

  // ----- the counters are the log

  lemma WrapStep(c: nat)
    ensures (c % WORD32 + 1) % WORD32 == (c + 1) % WORD32
  {
  }

  /** After every saved hit `currHits` is the number of logged hits in the current window,
      as a uint32. */
  lemma {:induction false} CurrentIsLogged(run: seq<Arrival>, n: nat, expiration: nat)
    requires expiration > 0 && 0 < n <= |run| && Faithful(run, expiration)
    ensures var e := After(run, n, expiration);
            e.currHits == Logged(run, n, e.exp - expiration, e.exp) % WORD32
  {
    var e := After(run, n, expiration);
    var last := run[n - 1].ts;
    var p := Between(run, e.exp - expiration, e.exp);
    WindowStep(run, n - 1, expiration);
    assert p(n - 1);
    var c := Count(n - 1, p);
    assert Logged(run, n, e.exp - expiration, e.exp) == c + 1;
    if n > 1 {
      WindowStep(run, n - 2, expiration);
    }
    if n > 1 && last < Window(run, n - 2, expiration) {
      CurrentIsLogged(run, n - 1, expiration);
      WrapStep(c);
    } else {
      CountNone(n - 1, p);
    }
  }

  /** The window holding request `n - 1` was opened by the `elapsed >= expiration` branch:
      the storage still had the entry although a whole idle window had passed. */
  predicate OpenedLate(run: seq<Arrival>, n: nat, expiration: nat)
    requires n <= |run|
  {
    if n <= 1 then false
    else
      var e, a := After(run, n - 1, expiration), run[n - 1];
      if a.kept && e.exp <= a.ts then a.ts >= e.exp + expiration
      else a.kept && OpenedLate(run, n - 1, expiration)
  }

  /** How one request that is not the first changes the end of the window and the carry-over. */
  lemma EntryStep(run: seq<Arrival>, n: nat, expiration: nat)
    requires expiration > 0 && 1 < n <= |run| && Faithful(run, expiration)
    ensures var e0, e, a := After(run, n - 1, expiration), After(run, n, expiration), run[n - 1];
            && run[n - 2].ts < e0.exp
            && e.exp - expiration <= a.ts < e.exp
            && (a.ts < e0.exp ==> a.kept && e.exp == e0.exp && e.prevHits == e0.prevHits)
            && (e0.exp <= a.ts < e0.exp + expiration ==>
                  a.kept && e.exp == e0.exp + expiration && e.prevHits == e0.currHits)
            && (e0.exp + expiration <= a.ts ==>
                  e.exp == a.ts + expiration && e.prevHits == if a.kept then e0.currHits else 0)
  {
    assert FaithfulAt(run, n - 1, expiration);
    WindowStep(run, n - 2, expiration);
    WindowStep(run, n - 1, expiration);
  }

  /** Unless the current window was opened late, `prevHits` is the number of logged hits in
      the window before it. */
  lemma {:induction false} PreviousIsLogged(run: seq<Arrival>, n: nat, expiration: nat)
    requires expiration > 0 && 0 < n <= |run| && Faithful(run, expiration)
    requires !OpenedLate(run, n, expiration)
    ensures var e := After(run, n, expiration);
            e.prevHits == Logged(run, n, e.exp - 2 * expiration, e.exp - expiration) % WORD32
  {
    var e, last := After(run, n, expiration), run[n - 1].ts;
    var lo, hi := e.exp - 2 * expiration, e.exp - expiration;
    var p := Between(run, lo, hi);
    WindowStep(run, n - 1, expiration);
    assert !p(n - 1);
    assert Logged(run, n, lo, hi) == Logged(run, n - 1, lo, hi);
    if n <= 1 {
    } else {
      var e0 := After(run, n - 1, expiration);
      EntryStep(run, n, expiration);
      if last < e0.exp {
        PreviousIsLogged(run, n - 1, expiration);
      } else if last < e0.exp + expiration {
        CurrentIsLogged(run, n - 1, expiration);
        assert lo == e0.exp - expiration && hi == e0.exp;
      } else {
        CountNone(n - 1, p);
      }
    }
  }

  /** If it was opened late nothing was logged in the window before it, and `prevHits` holds
      the hits of an older window. */
  lemma {:induction false} PreviousIsStale(run: seq<Arrival>, n: nat, expiration: nat)
    requires expiration > 0 && 0 < n <= |run| && Faithful(run, expiration)
    requires OpenedLate(run, n, expiration)
    ensures var e := After(run, n, expiration);
            && Logged(run, n, e.exp - 2 * expiration, e.exp - expiration) == 0
            && exists m :: 0 < m < n && IsStale(run, m, n, expiration)
  {
    var e, last := After(run, n, expiration), run[n - 1].ts;
    var lo, hi := e.exp - 2 * expiration, e.exp - expiration;
    var p := Between(run, lo, hi);
    var e0 := After(run, n - 1, expiration);
    EntryStep(run, n, expiration);
    assert !p(n - 1);
    assert Logged(run, n, lo, hi) == Logged(run, n - 1, lo, hi);
    if last < e0.exp {
      PreviousIsStale(run, n - 1, expiration);
      var m :| 0 < m < n - 1 && IsStale(run, m, n - 1, expiration);
      assert IsStale(run, m, n, expiration);
    } else {
      assert IsStale(run, n - 1, n, expiration);
      CountNone(n - 1, p);
    }
  }

  /** The carry-over after `n` requests is what was counted after `m`, in a window that
      ended before the previous one began or just as it did. */
  ghost predicate IsStale(run: seq<Arrival>, m: nat, n: nat, expiration: nat)
    requires m <= n <= |run|
  {
    var e0, e := After(run, m, expiration), After(run, n, expiration);
    e0.exp <= e.exp - 2 * expiration && e.prevHits == e0.currHits
  }

  // ----- how many requests are admitted

  /** Fewer than 2^32 requests arrive in the window ending at `w`. */
  ghost predicate NoWrap(run: seq<Arrival>, w: int, expiration: nat) {
    Logged(run, |run|, w - expiration, w) < WORD32
  }

  ghost predicate NeverWraps(run: seq<Arrival>, expiration: nat) {
    forall w: int :: NoWrap(run, w, expiration)
  }

  ghost function AdmittedInto(run: seq<Arrival>, w: nat, expiration: nat, max: nat): nat -> bool
    requires expiration > 0
  {
    (i: nat) => i < |run| && Window(run, i, expiration) == w && Admitted(run, i, expiration, max)
  }

  lemma {:induction false} CountGrows(m: nat, n: nat, p: nat -> bool)
    requires m <= n
    ensures Count(m, p) <= Count(n, p)
  {
    if m == n {
    } else {
      CountGrows(m, n - 1, p);
    }
  }

  lemma LoggedFits(run: seq<Arrival>, n: nat, w: int, expiration: nat)
    requires n <= |run| && NeverWraps(run, expiration)
    ensures var hits := Logged(run, n, w - expiration, w);
            hits < WORD32 && hits % WORD32 == hits
  {
    assert NoWrap(run, w, expiration);
    CountGrows(n, |run|, Between(run, w - expiration, w));
  }

  /** While hits do not wrap, `prevHits` is the log of the previous window if and only if the
      current window was not opened by the `elapsed >= expiration` branch. */
  lemma PreviousExactIff(run: seq<Arrival>, n: nat, expiration: nat)
    requires expiration > 0 && 0 < n <= |run| && Faithful(run, expiration) && NeverWraps(run, expiration)
    ensures var e := After(run, n, expiration);
            e.prevHits == Logged(run, n, e.exp - 2 * expiration, e.exp - expiration)
            <==> !OpenedLate(run, n, expiration)
  {
    if OpenedLate(run, n, expiration) {
      StaleNotZero(run, n, expiration);
    } else {
      PreviousExact(run, n, expiration);
    }
  }

  lemma PreviousExact(run: seq<Arrival>, n: nat, expiration: nat)
    requires expiration > 0 && 0 < n <= |run| && Faithful(run, expiration) && NeverWraps(run, expiration)
    requires !OpenedLate(run, n, expiration)
    ensures var e := After(run, n, expiration);
            e.prevHits == Logged(run, n, e.exp - 2 * expiration, e.exp - expiration)
  {
    var w := After(run, n, expiration).exp - expiration;
    PreviousIsLogged(run, n, expiration);
    LoggedFits(run, n, w, expiration);
    assert Between(run, w - expiration, w) == Between(run, w + expiration - 2 * expiration, w);
  }

  lemma StaleNotZero(run: seq<Arrival>, n: nat, expiration: nat)
    requires expiration > 0 && 0 < n <= |run| && Faithful(run, expiration) && NeverWraps(run, expiration)
    requires OpenedLate(run, n, expiration)
    ensures var e := After(run, n, expiration);
            e.prevHits > 0 && Logged(run, n, e.exp - 2 * expiration, e.exp - expiration) == 0
  {
    PreviousIsStale(run, n, expiration);
    var m :| 0 < m < n && IsStale(run, m, n, expiration);
    CurrentNotZero(run, m, expiration);
  }

  lemma CurrentNotZero(run: seq<Arrival>, n: nat, expiration: nat)
    requires expiration > 0 && 0 < n <= |run| && Faithful(run, expiration) && NeverWraps(run, expiration)
    ensures After(run, n, expiration).currHits > 0
  {
    var exp := After(run, n, expiration).exp;
    CurrentIsLogged(run, n, expiration);
    WindowStep(run, n - 1, expiration);
    LoggedFits(run, n, exp, expiration);
    assert Between(run, exp - expiration, exp)(n - 1);
  }

  /** Both counters of an entry are what was logged in its window and in the one before. */
  ghost predicate IsTheLog(e: Entry, run: seq<Arrival>, n: nat, expiration: nat) {
    && e.currHits == Logged(run, n, e.exp - expiration, e.exp)
    && e.prevHits == Logged(run, n, e.exp - 2 * expiration, e.exp - expiration)
  }

  /** The counters refine the request log if and only if the window was not opened late. */
  lemma CountersAreTheLog(run: seq<Arrival>, n: nat, expiration: nat)
    requires expiration > 0 && 0 < n <= |run| && Faithful(run, expiration) && NeverWraps(run, expiration)
    ensures IsTheLog(After(run, n, expiration), run, n, expiration) <==> !OpenedLate(run, n, expiration)
  {
    PreviousExactIff(run, n, expiration);
    CurrentExact(run, n, expiration);
  }

  /** Request `i` still found the entry a whole window after that entry's window had ended. */
  predicate LateAt(run: seq<Arrival>, i: nat, expiration: nat)
    requires i < |run|
  {
    0 < i && run[i].kept && After(run, i, expiration).exp + expiration <= run[i].ts
  }

  /** A request after the end of the window before falls into a later window than all before it. */
  lemma EarlierWindows(run: seq<Arrival>, n: nat, expiration: nat)
    requires expiration > 0 && 0 < n < |run| && Faithful(run, expiration)
    requires run[n].ts >= After(run, n, expiration).exp
    ensures forall i :: 0 <= i < n ==> Window(run, i, expiration) < Window(run, n, expiration)
  {
    WindowStep(run, n, expiration);
    forall i | 0 <= i < n ensures Window(run, i, expiration) < Window(run, n, expiration) {
      WindowsOrdered(run, i, n - 1, expiration);
    }
  }

  /** It did, and fell into the window ending at `w`. */
  predicate LateInto(run: seq<Arrival>, i: nat, w: nat, expiration: nat)
    requires i < |run|
  {
    LateAt(run, i, expiration) && Window(run, i, expiration) == w
  }

  ghost predicate SomeLateInto(run: seq<Arrival>, n: nat, w: nat, expiration: nat)
    requires n <= |run|
  {
    exists i :: 0 <= i < n && LateInto(run, i, w, expiration)
  }

  /** A window was opened late if and only if some request that fell into it was late. */
  lemma {:induction false} LateOpener(run: seq<Arrival>, n: nat, expiration: nat)
    requires expiration > 0 && 0 < n <= |run| && Faithful(run, expiration)
    ensures OpenedLate(run, n, expiration) <==> SomeLateInto(run, n, Window(run, n - 1, expiration), expiration)
  {
    if n == 1 {
    } else {
      EntryStep(run, n, expiration);
      var w := Window(run, n - 1, expiration);
      if run[n - 1].ts < After(run, n - 1, expiration).exp {
        LateOpener(run, n - 1, expiration);
        assert !LateInto(run, n - 1, w, expiration);
      } else {
        EarlierWindows(run, n - 1, expiration);
        assert LateInto(run, n - 1, w, expiration) <==> OpenedLate(run, n, expiration);
      }
      LateIntoSnoc(run, n, w, expiration);
    }
  }

  lemma LateIntoSnoc(run: seq<Arrival>, n: nat, w: nat, expiration: nat)
    requires 0 < n <= |run|
    ensures SomeLateInto(run, n, w, expiration) <==>
            SomeLateInto(run, n - 1, w, expiration) || LateInto(run, n - 1, w, expiration)
  {
  }

  /** The in-memory cache has no time-to-live: ten-second windows, one request at 0 and one at
      25 carry the first hit over although nothing happened in the window before. */
  lemma IdleCacheCarriesOldHits()
    ensures var run := [Arrival(0, true), Arrival(25, true)];
            && Faithful(run, 10)
            && After(run, 2, 10) == Entry(1, 1, 35)
            && Logged(run, 2, 15, 25) == 0
  {
    var run := [Arrival(0, true), Arrival(25, true)];
    assert After(run, 1, 10) == Entry(1, 0, 10);
    CountNone(2, Between(run, 15, 25));
  }

  /** An admitted request is preceded by fewer than `max` others in its window. */
  lemma AdmittedEarly(run: seq<Arrival>, i: nat, expiration: nat, max: nat)
    requires expiration > 0 && i < |run| && Faithful(run, expiration) && NeverWraps(run, expiration)
    requires Admitted(run, i, expiration, max)
    ensures var w := Window(run, i, expiration);
            Logged(run, i + 1, w - expiration, w) <= max
  {
    var w := Window(run, i, expiration);
    var hits := Logged(run, i + 1, w - expiration, w);
    WindowStep(run, i, expiration);
    LoggedFits(run, i + 1, w, expiration);
    CurrentIsLogged(run, i + 1, expiration);
    RateBounds(After(run, i + 1, expiration), run[i].ts, expiration);
  }

  /** At most `max` requests are admitted into any one window. */
  lemma {:induction false} AdmittedPerWindow(run: seq<Arrival>, n: nat, w: nat, expiration: nat, max: nat)
    requires expiration > 0 && n <= |run| && Faithful(run, expiration) && NeverWraps(run, expiration)
    ensures Count(n, AdmittedInto(run, w, expiration, max)) <= max
  {
    var p := AdmittedInto(run, w, expiration, max);
    if n == 0 {
    } else {
      if p(n - 1) {
        forall i: nat | i < n && p(i) ensures Between(run, w - expiration, w)(i) {
          WindowStep(run, i, expiration);
        }
        CountWeaker(n, p, Between(run, w - expiration, w));
        AdmittedEarly(run, n - 1, expiration, max);
      } else {
        AdmittedPerWindow(run, n - 1, w, expiration, max);
      }
    }
  }

  /** Any `expiration` consecutive seconds overlap at most two windows of a run. */
  lemma NoThirdWindow(run: seq<Arrival>, i: nat, j: nat, k: nat, a: nat, expiration: nat)
    requires expiration > 0 && Faithful(run, expiration)
    requires i < |run| && j < |run| && k < |run|
    requires forall m <- [i, j, k] :: a <= run[m].ts < a + expiration
    requires Window(run, i, expiration) != Window(run, j, expiration)
    ensures Window(run, k, expiration) in {Window(run, i, expiration), Window(run, j, expiration)}
  {
    assert forall m <- [i, j, k] :: m == i || m == j || m == k;
    assert i in [i, j, k] && j in [i, j, k] && k in [i, j, k];
    WindowStep(run, i, expiration);
    WindowStep(run, j, expiration);
    WindowStep(run, k, expiration);
    WindowsDisjoint(run, i, j, expiration);
    WindowsDisjoint(run, i, k, expiration);
    WindowsDisjoint(run, j, k, expiration);
  }

  ghost function AdmittedBetween(run: seq<Arrival>, lo: int, hi: int, expiration: nat, max: nat): nat -> bool
    requires expiration > 0
  {
    (i: nat) => i < |run| && lo <= run[i].ts < hi && Admitted(run, i, expiration, max)
  }

  /** Any `expiration` consecutive seconds admit at most twice the limit. */
  lemma AdmittedPerInterval(run: seq<Arrival>, a: nat, expiration: nat, max: nat)
    requires expiration > 0 && Faithful(run, expiration) && NeverWraps(run, expiration)
    ensures Count(|run|, AdmittedBetween(run, a, a + expiration, expiration, max)) <= 2 * max
  {
    var n, p := |run|, AdmittedBetween(run, a, a + expiration, expiration, max);
    if i: nat :| i < n && p(i) {
      var w := Window(run, i, expiration);
      var w' := w;
      if j: nat :| j < n && p(j) && Window(run, j, expiration) != w {
        w' := Window(run, j, expiration);
        forall k: nat | k < n && p(k) ensures Window(run, k, expiration) in {w, w'} {
          NoThirdWindow(run, i, j, k, a, expiration);
        }
      }
      CountCovered(n, p, AdmittedInto(run, w, expiration, max), AdmittedInto(run, w', expiration, max));
      AdmittedPerWindow(run, n, w, expiration, max);
      AdmittedPerWindow(run, n, w', expiration, max);
    } else {
      CountNone(n, p);
    }
  }

  /** Requests in the `expiration` seconds after a window open the adjacent one, and on time. */
  lemma {:induction false} AdjacentWindow(run: seq<Arrival>, j: nat, k: nat, expiration: nat)
    requires expiration > 0 && Faithful(run, expiration) && j < k < |run|
    requires run[k].ts < Window(run, j, expiration) + expiration
    ensures var b := Window(run, j, expiration);
            if run[k].ts < b then Window(run, k, expiration) == b
            else Window(run, k, expiration) == b + expiration && !OpenedLate(run, k + 1, expiration)
  {
    EntryStep(run, k + 1, expiration);
    if j == k - 1 {
    } else {
      AdjacentWindow(run, j, k - 1, expiration);
    }
  }

  /** The carry-over used for a request in the adjacent window covers all hits of window `b`. */
  lemma CarryOverCovers(run: seq<Arrival>, j: nat, i: nat, expiration: nat)
    requires expiration > 0 && Faithful(run, expiration) && NeverWraps(run, expiration)
    requires j < i < |run|
    requires Window(run, j, expiration) <= run[i].ts < Window(run, j, expiration) + expiration
    ensures var b, e := Window(run, j, expiration), After(run, i + 1, expiration);
            && e.exp == b + expiration
            && e.prevHits == Logged(run, |run|, b - expiration, b)
            && e.currHits == Logged(run, i + 1, b, b + expiration)
  {
    AdjacentWindow(run, j, i, expiration);
    PreviousComplete(run, i, expiration);
    CurrentExact(run, i + 1, expiration);
  }

  /** All hits of the window before the one of request `i` were logged before it. */
  lemma PreviousComplete(run: seq<Arrival>, i: nat, expiration: nat)
    requires expiration > 0 && Faithful(run, expiration) && NeverWraps(run, expiration)
    requires i < |run| && !OpenedLate(run, i + 1, expiration)
    ensures var e := After(run, i + 1, expiration);
            e.prevHits == Logged(run, |run|, e.exp - 2 * expiration, e.exp - expiration)
  {
    var e := After(run, i + 1, expiration);
    WindowStep(run, i, expiration);
    PreviousExact(run, i + 1, expiration);
    CountStops(i + 1, |run|, Between(run, e.exp - 2 * expiration, e.exp - expiration));
  }

  lemma CurrentExact(run: seq<Arrival>, n: nat, expiration: nat)
    requires expiration > 0 && 0 < n <= |run| && Faithful(run, expiration) && NeverWraps(run, expiration)
    ensures var e := After(run, n, expiration);
            e.currHits == Logged(run, n, e.exp - expiration, e.exp)
  {
    CurrentIsLogged(run, n, expiration);
    LoggedFits(run, n, After(run, n, expiration).exp, expiration);
  }

  lemma {:induction false} CountStops(m: nat, n: nat, p: nat -> bool)
    requires m <= n && forall i: nat :: m <= i < n ==> !p(i)
    ensures Count(n, p) == Count(m, p)
  {
    if m == n {
    } else {
      CountStops(m, n - 1, p);
    }
  }

  /** An admitted request after boundary `b` was weighed against everything admitted in the
      seconds before it. */
  lemma AdmittedAfterBoundary(run: seq<Arrival>, a: nat, j: nat, i: nat, expiration: nat, max: nat)
    requires expiration > 0 && Faithful(run, expiration) && NeverWraps(run, expiration)
    requires j < |run| && i < |run|
    requires a < Window(run, j, expiration) <= run[i].ts < a + expiration && Admitted(run, i, expiration, max)
    ensures var b := Window(run, j, expiration);
            Scaled(Count(|run|, AdmittedBetween(run, a, b, expiration, max)), b - a + 1, expiration)
            + Count(i + 1, AdmittedBetween(run, b, a + expiration, expiration, max)) <= max
  {
    var b, e := Window(run, j, expiration), After(run, i + 1, expiration);
    var before := Count(|run|, AdmittedBetween(run, a, b, expiration, max));
    CountersCover(run, a, j, i, expiration, max);
    ScaledMonotone(before, e.prevHits, b - a + 1, e.exp - run[i].ts, expiration);
  }

  lemma CountersCover(run: seq<Arrival>, a: nat, j: nat, i: nat, expiration: nat, max: nat)
    requires expiration > 0 && Faithful(run, expiration) && NeverWraps(run, expiration)
    requires j < |run| && i < |run| && a < Window(run, j, expiration) <= run[i].ts < a + expiration
    ensures var b, e := Window(run, j, expiration), After(run, i + 1, expiration);
            && Count(|run|, AdmittedBetween(run, a, b, expiration, max)) <= e.prevHits
            && Count(i + 1, AdmittedBetween(run, b, a + expiration, expiration, max)) <= e.currHits
            && b - a + 1 <= e.exp - run[i].ts
  {
    var b := Window(run, j, expiration);
    WindowStep(run, j, expiration);
    assert j < i;
    CarryOverCovers(run, j, i, expiration);
    CountWeaker(|run|, AdmittedBetween(run, a, b, expiration, max), Between(run, b - expiration, b));
    CountWeaker(i + 1, AdmittedBetween(run, b, a + expiration, expiration, max), Between(run, b, b + expiration));
  }

  /** What the weighted carry-over is for. Take any `expiration` consecutive seconds from `a`
      on and a window that ends inside them, at `b`: the requests admitted from `b` on, plus
      the weighted share of those admitted before, stay within the limit. */
  lemma {:induction false} AdmittedAcrossBoundary(run: seq<Arrival>, a: nat, j: nat, n: nat, expiration: nat, max: nat)
    requires expiration > 0 && Faithful(run, expiration) && NeverWraps(run, expiration)
    requires j < |run| && n <= |run|
    requires a < Window(run, j, expiration) < a + expiration
    ensures var b := Window(run, j, expiration);
            Scaled(Count(|run|, AdmittedBetween(run, a, b, expiration, max)), b - a + 1, expiration)
            + Count(n, AdmittedBetween(run, b, a + expiration, expiration, max)) <= max
  {
    var b := Window(run, j, expiration);
    if n == 0 {
      var before := AdmittedBetween(run, a, b, expiration, max);
      forall i: nat | i < |run| && before(i) ensures AdmittedInto(run, b, expiration, max)(i) {
        WindowStep(run, i, expiration);
        WindowsDisjoint(run, i, j, expiration);
      }
      CountWeaker(|run|, before, AdmittedInto(run, b, expiration, max));
      AdmittedPerWindow(run, |run|, b, expiration, max);
      ScaledMonotone(Count(|run|, before), max, b - a + 1, expiration, expiration);
      DivCancels(max, expiration);
    } else if AdmittedBetween(run, b, a + expiration, expiration, max)(n - 1) {
      AdmittedAfterBoundary(run, a, j, n - 1, expiration, max);
    } else {
      AdmittedAcrossBoundary(run, a, j, n - 1, expiration, max);
    }
  }

  // ----- exactly who is admitted

  /** Reading the log only: the hits of the window before, weighted by the share of the request's
      own window that is left and rounded down, plus the hits of that window so far, its own
      included, are within the limit. */
  ghost predicate WithinByLog(run: seq<Arrival>, i: nat, expiration: nat, max: nat)
    requires i < |run| && expiration > 0
  {
    var w := Window(run, i, expiration);
    var before := Logged(run, i, w - 2 * expiration, w - expiration);
    var soFar := Logged(run, i + 1, w - expiration, w);
    before * (w - run[i].ts) / expiration + soFar <= max
  }

  /** A request whose window was not opened late is admitted if and only if the log says so. */
  lemma AdmittedExactly(run: seq<Arrival>, i: nat, expiration: nat, max: nat)
    requires expiration > 0 && i < |run| && Faithful(run, expiration) && NeverWraps(run, expiration)
    requires !OpenedLate(run, i + 1, expiration)
    ensures Admitted(run, i, expiration, max) <==> WithinByLog(run, i, expiration, max)
  {
    var e := After(run, i + 1, expiration);
    WindowStep(run, i, expiration);
    PreviousExact(run, i + 1, expiration);
    CurrentExact(run, i + 1, expiration);
    assert !Between(run, e.exp - 2 * expiration, e.exp - expiration)(i);
    RateFormula(e, run[i].ts, expiration);
  }
}
