/**
 The rate limiter middleware run by one request at a time (middleware/rate_limit.go).
 RateLimiterThreads lets many requests interleave.

 Clock readings, storage failures, the checksum of the key and what `Next` did are inputs.
 */
module RateLimiter {
  import opened MachineWords
  import opened Wrappers
  import opened RateLimiterEntry

  type Key = string

  const LOCK_COUNT: nat := 16

  /** Nanoseconds. */
  const SECOND: nat := 1_000_000_000

  /** A moment: whole seconds, which is all the middleware reads off the clock, and the part of
      the next second that has passed, in units of any size. */
  datatype Time = Time(second: nat, part: nat)

  predicate Before(a: Time, b: Time) {
    a.second < b.second || (a.second == b.second && a.part < b.part)
  }

  function Later(t: Time, seconds: nat): Time {
    Time(t.second + seconds, t.part)
  }

  datatype Saved = Saved(value: seq<byte>, deadline: Option<Time>)

  /** What reading a key returns at time `now`; a missing or forgotten key reads as no bytes. */
  function Live(entries: map<Key, Saved>, key: Key, now: Time): seq<byte> {
    if key in entries && (entries[key].deadline.Some? ==> Before(now, entries[key].deadline.value))
    then entries[key].value
    else []
  }

  /** An external storage honours the time-to-live and may fail; the in-memory cache does neither. */
  class Storage {
    const external: bool
    var entries: map<Key, Saved>

    constructor (external: bool)
      ensures this.external == external && entries == map[]
    {
      this.external := external;
      entries := map[];
    }

    method Get(key: Key, now: Time, fails: bool) returns (r: Result<seq<byte>, ()>)
      ensures r == if external && fails then Err(()) else Ok(Live(entries, key, now))
    {
      if external && fails {
        return Err(());
      }
      return Ok(Live(entries, key, now));
    }

    method Set(key: Key, value: seq<byte>, ttl: nat, now: Time, fails: bool) returns (ok: bool)
      modifies this
      ensures ok == !(external && fails)
      ensures entries == if ok then old(entries)[key := Saved(value, Deadline(external, now, ttl))] else old(entries)
    {
      ok := !(external && fails);
      if ok {
        entries := entries[key := Saved(value, Deadline(external, now, ttl))];
      }
    }
  }

  /** The time-to-live runs from the very moment of the save. */
  function Deadline(external: bool, now: Time, ttl: nat): Option<Time> {
    if external then Some(Later(now, ttl)) else None
  }

  /** The working copy of one entry (rateLimiterItem). */
  class Item {
    const storage: Storage
    const key: Key
    var currHits: uint32
    var prevHits: uint32
    var exp: uint64

    constructor (storage: Storage, key: Key)
      ensures this.storage == storage && this.key == key && Value() == NO_ENTRY
    {
      this.storage := storage;
      this.key := key;
      currHits, prevHits, exp := 0, 0, 0;
    }

    function Value(): Entry
      reads this
    {
      Entry(currHits, prevHits, exp)
    }

    /** Writes the entry into a 16-byte buffer; reading it back gives the entry. */
    method EncodeInto(dst: array<byte>)
      requires dst.Length == 16
      modifies dst
      ensures dst[..] == Encode(Value()) && Decode(dst[..]) == Value()
    {
      PutUint(dst, 0, 4, currHits);
      PutUint(dst, 4, 4, prevHits);
      PutUint(dst, 8, 8, exp);
      assert dst[..] == ToBytes(currHits, 4) + ToBytes(prevHits, 4) + ToBytes(exp, 8);
      DecodeEncode(Value());
    }

    method DecodeFrom(src: seq<byte>)
      modifies this
      ensures Value() == Decode(src)
      ensures |src| != 16 ==> currHits == 0 && prevHits == 0 && exp == 0
    {
      if |src| == 16 {
        WordFits(src[..4]);
        WordFits(src[4..8]);
        EncodeDecode(src);
        currHits := FromBytes(src[..4]);
        prevHits := FromBytes(src[4..8]);
        exp := FromBytes(src[8..]);
      } else {
        currHits, prevHits, exp := 0, 0, 0;
      }
    }

    method Load(now: Time, fails: bool) returns (ok: bool)
      modifies this
      ensures ok == !(storage.external && fails)
      ensures Value() == if ok then Decode(Live(storage.entries, key, now)) else old(Value())
    {
      var e := storage.Get(key, now, fails);
      ok := e.Ok?;
      if ok {
        DecodeFrom(e.value);
      }
    }

    method Save(ttl: nat, now: Time, fails: bool) returns (ok: bool)
      modifies storage
      ensures ok == !(storage.external && fails)
      ensures storage.entries ==
              if ok then old(storage.entries)[key := Saved(Encode(Value()), Deadline(storage.external, now, ttl))]
              else old(storage.entries)
    {
      var buf := new byte[16];
      EncodeInto(buf);
      ok := storage.Set(key, buf[..], ttl, now, fails);
    }

    method SetExpiration(ts: uint64, expiration: uint64)
      requires ts + expiration < WORD64
      modifies this
      ensures Value() == Rolled(old(Value()), ts, expiration)
    {
      if exp == 0 {
        exp := ts + expiration;
      } else if ts >= exp {
        prevHits := currHits;
        currHits := 0;
        var elapsed: uint64 := ts - exp;
        if elapsed >= expiration {
          exp := ts + expiration;
        } else {
          exp := ts + expiration - elapsed;
        }
      }
    }
  }

  /** binary.LittleEndian.PutUint32 and PutUint64. */
  method PutUint(dst: array<byte>, ofs: nat, width: nat, v: nat)
    requires ofs + width <= dst.Length
    modifies dst
    ensures dst[..] == old(dst[..ofs]) + ToBytes(v, width) + old(dst[ofs + width..])
  {
    var bytes := ToBytes(v, width);
    forall i | 0 <= i < width {
      dst[ofs + i] := bytes[i];
    }
  }

  /** When one request loads, reads the clock and saves, and loads and saves again. */
  datatype Clock = Clock(load: Time, stamp: Time, save: Time, load2: Time, save2: Time) {
    /** The timestamp the middleware goes by. */
    function Ts(): nat {
      stamp.second
    }
  }

  datatype Faults = Faults(load: bool, save: bool, load2: bool, save2: bool)

  datatype NextResult = NextResult(status: nat, failed: bool)

  datatype Outcome =
    | StorageError
    | TooManyRequests(retryAfter: nat)
    | Forwarded(limit: nat, remaining: int, reset: nat, failed: bool)

  class RateLimiter {
    const max: nat
    const expiration: uint64
    const skipFailedRequests: bool
    const storage: Storage
    const locks: array<bool>

    /** `window` is the configured duration in nanoseconds. One below a second, but not zero or
        less, leaves a limiter that cannot be used: every request would divide by zero. */
    constructor (max: int, window: int, skipFailedRequests: bool, storage: Storage)
      requires window < WORD32 * SECOND
      ensures this.max == (if max <= 0 then 10 else max)
      ensures this.expiration == (if window > 0 then window / SECOND else 60)
      ensures this.skipFailedRequests == skipFailedRequests && this.storage == storage
      ensures fresh(locks) && forall i :: 0 <= i < LOCK_COUNT ==> i < locks.Length && !locks[i]
      ensures Valid() <==> !(0 < window < SECOND)
    {
      this.max := if max <= 0 then 10 else max;
      this.expiration := if window > 0 then window / SECOND else 60;
      this.skipFailedRequests := skipFailedRequests;
      this.storage := storage;
      this.locks := new bool[LOCK_COUNT](_ => false);
    }

    predicate Valid() {
      locks.Length == LOCK_COUNT && 0 < expiration < WORD32
    }

    method Lock(slot: nat)
      requires Valid() && slot < LOCK_COUNT && !locks[slot]
      modifies locks
      ensures locks[..] == old(locks[..])[slot := true]
    {
      locks[slot] := true;
    }

    method Unlock(slot: nat)
      requires Valid() && slot < LOCK_COUNT && locks[slot]
      modifies locks
      ensures locks[..] == old(locks[..])[slot := false]
    {
      locks[slot] := false;
    }

    /** The first locked section: on any storage error nothing is stored and the lock is free
        again; otherwise the stored entry is the found one with this hit added. */
    method CountHit(entry: Item, slot: nat, t: Clock, faults: Faults) returns (ok: bool, remaining: int, resetTime: nat)
      requires Valid() && slot < LOCK_COUNT && !locks[slot]
      requires entry.storage == storage
      requires t.Ts() + expiration < WORD64
      requires Timely(t.Ts())
      modifies entry, storage, locks
      ensures locks[..] == old(locks[..])
      ensures ok == !(storage.external && (faults.load || faults.save))
      ensures !ok ==> storage.entries == old(storage.entries)
      ensures ok ==>
                var h := Hit(Decode(old(Live(storage.entries, entry.key, t.load))), t.Ts(), expiration);
                && resetTime == h.exp - t.Ts()
                && remaining == max - Rate(h, t.Ts(), expiration)
                && remaining == max - (h.prevHits * (h.exp - t.Ts()) / expiration + h.currHits)
                && storage.entries == old(storage.entries)[entry.key :=
                                        Saved(Encode(h), Deadline(storage.external, t.save, resetTime + expiration))]
    {
      Lock(slot);
      remaining, resetTime := 0, 0;
      ok := entry.Load(t.load, faults.load);
      if !ok {
        Unlock(slot);
        return;
      }
      RolledWindow(entry.Value(), t.Ts(), expiration);
      entry.SetExpiration(t.Ts(), expiration);
      entry.currHits := (entry.currHits + 1) % WORD32;
      resetTime := 0;
      if t.Ts() < entry.exp {
        resetTime := entry.exp - t.Ts();
      }
      RateFits(entry.Value(), t.Ts(), expiration);
      RateFormula(entry.Value(), t.Ts(), expiration);
      remaining := max - (Scaled(entry.prevHits, resetTime, expiration) + entry.currHits);
      ok := entry.Save(resetTime + expiration, t.save, faults.save);
      Unlock(slot);
    }

    /** The second locked section, after a failed request: gives the hit back if one is left. */
    method ReturnHit(entry: Item, slot: nat, t: Clock, faults: Faults) returns (ok: bool, refunded: bool)
      requires Valid() && slot < LOCK_COUNT && !locks[slot]
      requires entry.storage == storage
      modifies entry, storage, locks
      ensures locks[..] == old(locks[..])
      ensures var e := Decode(old(Live(storage.entries, entry.key, t.load2)));
              && ok == !(storage.external && (faults.load2 || (e.currHits > 0 && faults.save2)))
              && refunded == (!(storage.external && faults.load2) && e.currHits > 0)
              && storage.entries ==
                 if ok && refunded then
                   old(storage.entries)[entry.key :=
                     Saved(Encode(Refund(e)), Deadline(storage.external, t.save2, expiration))]
                 else old(storage.entries)
    {
      Lock(slot);
      refunded := false;
      ok := entry.Load(t.load2, faults.load2);
      if ok && entry.currHits > 0 {
        entry.currHits := entry.currHits - 1;
        refunded := true;
        ok := entry.Save(expiration, t.save2, faults.save2);
      }
      Unlock(slot);
    }

    /** No stored window ends later than one full window from now: the clock never ran backwards. */
    ghost predicate Timely(now: nat)
      reads storage
    {
      TimelyEntries(storage.entries, now + expiration)
    }

    /** What follows `Next`, for a request whose hit left `h` stored. */
    method AfterNext(entry: Item, slot: nat, t: Clock, faults: Faults, next: NextResult,
                     remaining: int, resetTime: nat, ghost h: Entry)
      returns (r: Outcome, ghost stored: Entry)
      requires Valid() && slot < LOCK_COUNT && !locks[slot]
      requires entry.storage == storage && Fits(h)
      requires entry.key in storage.entries
      requires storage.entries[entry.key] ==
               Saved(Encode(h), Deadline(storage.external, t.save, resetTime + expiration))
      modifies entry, storage, locks
      ensures locks[..] == old(locks[..])
      ensures storage.entries - {entry.key} == old(storage.entries) - {entry.key} && entry.key in storage.entries
      ensures storage.entries[entry.key].value == Encode(stored) && stored.exp == h.exp
      ensures (r, stored) == Finished(h, max, remaining, resetTime, expiration, skipFailedRequests,
                                      storage.external, t, faults, next)
    {
      var left := remaining;
      stored := h;
      DecodeEncode(h);
      if skipFailedRequests && next.status >= 400 {
        var ok, refunded := ReturnHit(entry, slot, t, faults);
        if refunded {
          left := left + 1;
        }
        if !ok {
          return StorageError, stored;
        }
        stored := if refunded then Refund(h) else h;
      }
      return Forwarded(max, left, resetTime, next.failed), stored;
    }

    /** Both locked sections, with `Next` between them. */
    method Serve(key: Key, slot: nat, t: Clock, faults: Faults, next: NextResult)
      returns (r: Outcome, ghost stored: Option<Entry>)
      requires Valid() && slot < LOCK_COUNT && !locks[slot]
      requires t.Ts() + expiration < WORD64 && Timely(t.Ts())
      modifies storage, locks
      ensures locks[..] == old(locks[..])
      ensures var found := Decode(old(Live(storage.entries, key, t.load)));
              (r, stored) == Served(found, max, expiration, skipFailedRequests, storage.external, t, faults, next)
      ensures Leaves(old(storage.entries), storage.entries, key, stored)
      ensures stored.Some? ==> Fits(stored.value) && stored.value.exp <= t.Ts() + expiration
    {
      var entry := new Item(storage, key);
      ghost var h := Hit(Decode(Live(storage.entries, key, t.load)), t.Ts(), expiration);
      HitFits(storage.entries, key, t, expiration);
      stored := None;
      var ok, remaining, resetTime := CountHit(entry, slot, t, faults);
      if !ok {
        r := StorageError;
      } else if remaining < 0 {
        stored := Some(h);
        r := TooManyRequests(resetTime);
      } else {
        ghost var e;
        r, e := AfterNext(entry, slot, t, faults, next, remaining, resetTime, h);
        stored := Some(e);
      }
    }

    /** One whole request. Every lock is as before on every path, none is held between the two
        locked sections, where `Next` runs, and no other key is touched. */
    method Handle(key: Key, checksum: uint32, t: Clock, faults: Faults, next: NextResult) returns (r: Outcome)
      requires Valid() && !locks[checksum % LOCK_COUNT]
      requires t.Ts() + expiration < WORD64 && Timely(t.Ts())
      modifies storage, locks
      ensures locks[..] == old(locks[..])
      ensures Timely(t.Ts())
      ensures var found := Decode(old(Live(storage.entries, key, t.load)));
              var served := Served(found, max, expiration, skipFailedRequests, storage.external, t, faults, next);
              r == served.0 && Leaves(old(storage.entries), storage.entries, key, served.1)
      ensures !(storage.external && (faults.load || faults.save)) ==>
                var h := Hit(Decode(old(Live(storage.entries, key, t.load))), t.Ts(), expiration);
                var estimate := h.prevHits * (h.exp - t.Ts()) / expiration + h.currHits;
                && (r.TooManyRequests? <==> estimate > max)
                && (r.Forwarded? ==> r.limit == max && r.reset == h.exp - t.Ts() && r.failed == next.failed)
                && (r.Forwarded? && !(skipFailedRequests && next.status >= 400) ==> r.remaining == max - estimate)
    {
      ghost var before := storage.entries;
      HitFits(before, key, t, expiration);
      ghost var stored;
      r, stored := Serve(key, checksum % LOCK_COUNT, t, faults, next);
      ServedExactly(Decode(Live(before, key, t.load)), max, expiration, skipFailedRequests, storage.external,
                    t, faults, next);
      StaysTimely(before, storage.entries, key, stored, t.Ts() + expiration);
    }
  }

  /** What `before` becomes when one request for `key` stores this, or nothing. */
  ghost predicate Leaves(before: map<Key, Saved>, after: map<Key, Saved>, key: Key, stored: Option<Entry>) {
    match stored
    case None => after == before
    case Some(e) => after - {key} == before - {key} && key in after && after[key].value == Encode(e)
  }

  ghost predicate TimelyEntries(entries: map<Key, Saved>, latest: nat) {
    forall k :: k in entries ==> Decode(entries[k].value).exp <= latest
  }

  lemma HitFits(entries: map<Key, Saved>, key: Key, t: Clock, expiration: nat)
    requires 0 < expiration && t.Ts() + expiration < WORD64 && TimelyEntries(entries, t.Ts() + expiration)
    ensures var h := Hit(Decode(Live(entries, key, t.load)), t.Ts(), expiration);
            && Decode(Live(entries, key, t.load)).exp <= t.Ts() + expiration
            && t.Ts() < h.exp <= t.Ts() + expiration && Fits(h)
  {
    RolledWindow(Decode(Live(entries, key, t.load)), t.Ts(), expiration);
  }

  /** Storing an entry whose window ends in time keeps them all timely. */
  lemma StaysTimely(before: map<Key, Saved>, after: map<Key, Saved>, key: Key, stored: Option<Entry>, latest: nat)
    requires TimelyEntries(before, latest) && Leaves(before, after, key, stored)
    requires stored.Some? ==> Fits(stored.value) && stored.value.exp <= latest
    ensures TimelyEntries(after, latest)
  {
    if stored.Some? { DecodeEncode(stored.value); }
    forall k | k in after ensures Decode(after[k].value).exp <= latest {
      if k != key {
        assert k in after - {key};
      }
    }
  }

  /** The response to an admitted request whose hit left `h` stored, and the entry it leaves. */
  function Finished(h: Entry, max: nat, remaining: int, reset: nat, expiration: nat, skipFailed: bool, external: bool,
                    t: Clock, faults: Faults, next: NextResult): (Outcome, Entry)
  {
    var forgotten := external && !Before(t.load2, Later(t.save, reset + expiration));
    if !(skipFailed && next.status >= 400) then
      (Forwarded(max, remaining, reset, next.failed), h)
    else if external && faults.load2 then
      (StorageError, h)
    else if forgotten || h.currHits == 0 then
      (Forwarded(max, remaining, reset, next.failed), h)
    else if external && faults.save2 then
      (StorageError, h)
    else
      (Forwarded(max, remaining + 1, reset, next.failed), Refund(h))
  }

  /** The response to one request and the entry it leaves behind, if it stores any. */
  function Served(found: Entry, max: nat, expiration: nat, skipFailed: bool, external: bool,
                  t: Clock, faults: Faults, next: NextResult): (Outcome, Option<Entry>)
    requires expiration > 0
  {
    var h := Hit(found, t.Ts(), expiration);
    var reset := ResetTime(h, t.Ts());
    var remaining := max - Rate(h, t.Ts(), expiration);
    if external && (faults.load || faults.save) then
      (StorageError, None)
    else if remaining < 0 then
      (TooManyRequests(reset), Some(h))
    else
      var (response, stored) := Finished(h, max, remaining, reset, expiration, skipFailed, external, t, faults, next);
      (response, Some(stored))
  }

  /** The same in all cases, in terms of the hit alone: what the client is told, and what is stored. */
  lemma ServedExactly(found: Entry, max: nat, expiration: nat, skipFailed: bool, external: bool,
                      t: Clock, faults: Faults, next: NextResult)
    requires 0 < expiration && found.exp <= t.Ts() + expiration
    ensures var h := Hit(found, t.Ts(), expiration);
            var estimate := h.prevHits * (h.exp - t.Ts()) / expiration + h.currHits;
            var unsaved := external && (faults.load || faults.save);
            var again := skipFailed && next.status >= 400;
            var due := Time(t.save.second + (h.exp - t.Ts()) + expiration, t.save.part);
            var left := h.currHits > 0
                        && (external ==> t.load2.second < due.second
                                         || (t.load2.second == due.second && t.load2.part < due.part));
            var (response, stored) := Served(found, max, expiration, skipFailed, external, t, faults, next);
            && (response == StorageError <==>
                  unsaved || (estimate <= max && again && external && (faults.load2 || (left && faults.save2))))
            && (response.TooManyRequests? <==> !unsaved && estimate > max)
            && (response.TooManyRequests? ==> response.retryAfter == h.exp - t.Ts())
            && (response.Forwarded? ==>
                  var back := if again && left then 1 else 0;
                  response == Forwarded(max, max - estimate + back, h.exp - t.Ts(), next.failed))
            && stored == if unsaved then None
                         else if response.Forwarded? && again && left then Some(h.(currHits := h.currHits - 1))
                         else Some(h)
  {
    RolledWindow(found, t.Ts(), expiration);
    RateFormula(Hit(found, t.Ts(), expiration), t.Ts(), expiration);
  }

  /** One failed request whose hit is given back leaves the counters it would have found had it
      only rolled the window over, and reports the headroom from before its own hit. */
  lemma RefundUndoesHit(found: Entry, max: nat, expiration: nat, external: bool, t: Clock, next: NextResult)
    requires 0 < expiration && found.exp <= t.Ts() + expiration
    requires next.status >= 400 && found.currHits + 1 < WORD32
    requires Before(t.load2, Later(t.save, expiration))
    requires Rate(Hit(found, t.Ts(), expiration), t.Ts(), expiration) <= max
    ensures var rolled := Rolled(found, t.Ts(), expiration);
            Served(found, max, expiration, true, external, t, Faults(false, false, false, false), next)
            == (Forwarded(max, max - Rate(rolled, t.Ts(), expiration), rolled.exp - t.Ts(), next.failed), Some(rolled))
  {
    var rolled, h := Rolled(found, t.Ts(), expiration), Hit(found, t.Ts(), expiration);
    RolledWindow(found, t.Ts(), expiration);
    assert h.currHits == rolled.currHits + 1;
    assert Refund(h) == rolled;
    assert Rate(h, t.Ts(), expiration) == Rate(rolled, t.Ts(), expiration) + 1;
  }

  /** One of several requests served one after the other: whether the storage still returned the
      entry saved by the one before, and how `Next` answered. */
  datatype Visit = Visit(t: Clock, kept: bool, next: NextResult)

  function FoundBy(visits: seq<Visit>, n: nat, max: nat, expiration: nat, external: bool): Entry
    requires n < |visits| && expiration > 0
    decreases n, 1
  {
    if visits[n].kept then StoredAfter(visits, n, max, expiration, external) else NO_ENTRY
  }

  function ServedAt(visits: seq<Visit>, n: nat, max: nat, expiration: nat, external: bool): (Outcome, Option<Entry>)
    requires n < |visits| && expiration > 0
    decreases n, 2
  {
    Served(FoundBy(visits, n, max, expiration, external), max, expiration, true, external,
           visits[n].t, Faults(false, false, false, false), visits[n].next)
  }

  function StoredAfter(visits: seq<Visit>, n: nat, max: nat, expiration: nat, external: bool): Entry
    requires n <= |visits| && expiration > 0
    decreases n, 0
  {
    if n == 0 then NO_ENTRY
    else
      var (_, stored) := ServedAt(visits, n - 1, max, expiration, external);
      if stored.Some? then stored.value else FoundBy(visits, n - 1, max, expiration, external)
  }

  /** What skipping failed requests is for: however many requests of a key fail, one after the
      other, none of them is rejected, each is told that the whole limit remains, and nothing
      is left counted. `Next` takes less than a window, so that the entry is still there. */
  lemma {:induction false} FailuresAreFree(visits: seq<Visit>, n: nat, max: nat, expiration: nat, external: bool)
    requires 0 < expiration && 0 < max && n < |visits|
    requires forall i :: 0 <= i < |visits| ==>
               visits[i].next.status >= 400 && Before(visits[i].t.load2, Later(visits[i].t.save, expiration))
    requires forall i, j :: 0 <= i <= j < |visits| ==> visits[i].t.Ts() <= visits[j].t.Ts()
    ensures var (response, stored) := ServedAt(visits, n, max, expiration, external);
            && response.Forwarded? && response.remaining == max && response.failed == visits[n].next.failed
            && stored.Some? && stored.value.currHits == 0 && stored.value.prevHits == 0
            && stored.value.exp <= visits[n].t.Ts() + expiration
  {
    var before := StoredAfter(visits, n, max, expiration, external);
    if n > 0 {
      FailuresAreFree(visits, n - 1, max, expiration, external);
      assert before == ServedAt(visits, n - 1, max, expiration, external).1.value;
    } else {
      assert before == NO_ENTRY;
    }
    OneFailureIsFree(FoundBy(visits, n, max, expiration, external), visits[n], max, expiration, external);
  }

  lemma OneFailureIsFree(found: Entry, visit: Visit, max: nat, expiration: nat, external: bool)
    requires 0 < expiration && 0 < max && visit.next.status >= 400
    requires Before(visit.t.load2, Later(visit.t.save, expiration))
    requires found.currHits == 0 && found.prevHits == 0 && found.exp <= visit.t.Ts() + expiration
    ensures var (response, stored) := Served(found, max, expiration, true, external, visit.t,
                                             Faults(false, false, false, false), visit.next);
            && response.Forwarded? && response.remaining == max && response.failed == visit.next.failed
            && stored.Some? && stored.value.currHits == 0 && stored.value.prevHits == 0
            && stored.value.exp <= visit.t.Ts() + expiration
  {
    var ts := visit.t.Ts();
    RolledWindow(found, ts, expiration);
    NothingCounted(Rolled(found, ts, expiration), ts, expiration);
    NothingCounted(Hit(found, ts, expiration), ts, expiration);
    RefundUndoesHit(found, max, expiration, external, visit.t, visit.next);
  }

  lemma NothingCounted(e: Entry, ts: nat, expiration: nat)
    requires 0 < expiration && e.prevHits == 0
    ensures Rate(e, ts, expiration) == e.currHits
  {
    assert 0 * ResetTime(e, ts) == 0;
  }
}
