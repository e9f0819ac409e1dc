/**
 The counters the rate limiter keeps for one key (middleware/rate_limit.go): how a
 window is rolled over, how a hit and a refund change them, and their 16-byte encoding.

 Machine words are subset types of `nat`, so every wrap-around is written out and every
 operation that must not wrap is proved not to.
 */
module RateLimiterEntry {
  import opened Division
  import opened MachineWords

  /** `exp` is the end of the current window; 0 means "no window yet". */
  datatype Entry = Entry(currHits: uint32, prevHits: uint32, exp: nat)

  const NO_ENTRY := Entry(0, 0, 0)

  // ----- windows, hits and refunds

  function Rolled(e: Entry, ts: nat, expiration: nat): Entry {
    if e.exp == 0 then
      e.(exp := ts + expiration)
    else if ts < e.exp then
      e
    else
      var elapsed := ts - e.exp;
      Entry(0, e.currHits, if elapsed >= expiration then ts + expiration else ts + expiration - elapsed)
  }

  /** The entry stored by one request at time `ts`; the hit counter is a uint32 and wraps. */
  function Hit(e: Entry, ts: nat, expiration: nat): Entry {
    var r := Rolled(e, ts, expiration);
    r.(currHits := (r.currHits + 1) % WORD32)
  }

  /** The entry stored when a failed request gives its hit back; nothing to give back leaves it alone. */
  function Refund(e: Entry): Entry {
    if e.currHits > 0 then e.(currHits := e.currHits - 1) else e
  }

  function ResetTime(e: Entry, ts: nat): nat {
    if ts < e.exp then e.exp - ts else 0
  }

  /** `a * b / d`, rounded down. */
  function Scaled(a: nat, b: nat, d: nat): nat
    requires d > 0
  {
    var product: nat := a * b;
    product / d
  }

  /** The weighted estimate compared with the limit. */
  function Rate(e: Entry, ts: nat, expiration: nat): nat
    requires expiration > 0
  {
    Scaled(e.prevHits, ResetTime(e, ts), expiration) + e.currHits
  }

  /** The window a request falls into contains its timestamp and is `expiration` seconds long,
      whatever was stored before. */
  lemma RolledWindow(e: Entry, ts: nat, expiration: nat)
    requires expiration > 0
    requires e.exp <= ts + expiration
    ensures var r := Rolled(e, ts, expiration);
            && ts < r.exp <= ts + expiration
            && 1 <= ResetTime(r, ts) <= expiration
            && (r.exp == e.exp || e.exp == 0 || e.exp + expiration <= r.exp)
  {
  }

  /** Which window that is, and what it carries: a key without one starts now; within a window
      nothing changes; in the window length after it the adjacent one follows; later one starts
      now. The hits of the window left behind are carried over whole. */
  lemma RolledExactly(e: Entry, ts: nat, expiration: nat)
    requires expiration > 0
    ensures var r := Rolled(e, ts, expiration);
            && (e.exp == 0 ==> r == Entry(e.currHits, e.prevHits, ts + expiration))
            && (0 < e.exp && ts < e.exp ==> r == e)
            && (0 < e.exp <= ts < e.exp + expiration ==> r == Entry(0, e.currHits, e.exp + expiration))
            && (0 < e.exp && e.exp + expiration <= ts ==> r == Entry(0, e.currHits, ts + expiration))
  {
  }

  /** Within a window the carry-over of the previous one never exceeds it and only decays. */
  lemma CarryOverDecays(prev: nat, exp: nat, early: nat, late: nat, expiration: nat)
    requires expiration > 0
    requires early <= late < exp <= early + expiration
    ensures Scaled(prev, exp - late, expiration) <= Scaled(prev, exp - early, expiration) <= prev
  {
    ScaledMonotone(prev, prev, exp - late, exp - early, expiration);
    ScaledMonotone(prev, prev, exp - early, expiration, expiration);
    DivCancels(prev, expiration);
  }

  lemma ScaledMonotone(a: nat, a': nat, b: nat, b': nat, d: nat)
    requires a <= a' && b <= b' && d > 0
    ensures Scaled(a, b, d) <= Scaled(a', b', d)
  {
    MulMonotone(a, b, b');
    MulMonotone(b', a, a');
    DivMonotone(a * b, a' * b', d);
  }

  lemma DivCancels(a: nat, d: nat)
    requires d > 0
    ensures Scaled(a, d, d) == a
  {
    var q, r := a * d / d, a * d % d;
    assert a * d == d * q + r;
    if q < a {
      MulMonotone(d, q + 1, a);
    } else if q > a {
      MulMonotone(d, a + 1, q);
    }
  }

  lemma ProductBound(a: nat, b: nat, m: nat)
    requires a <= m && b <= m
    ensures a * b <= m * m
  {
    MulMonotone(a, b, m);
    MulMonotone(m, a, m);
  }

  /** The estimate counts every hit of this window and at most every hit of the previous one. */
  lemma RateBounds(e: Entry, ts: nat, expiration: nat)
    requires expiration > 0
    requires ts < e.exp <= ts + expiration
    ensures e.currHits <= Rate(e, ts, expiration) <= e.prevHits + e.currHits
  {
    CarryOverDecays(e.prevHits, e.exp, ts, ts, expiration);
  }

  lemma RateFormula(e: Entry, ts: nat, expiration: nat)
    requires expiration > 0 && ts < e.exp
    ensures Rate(e, ts, expiration) == e.prevHits * (e.exp - ts) / expiration + e.currHits
  {
  }

  /** The estimate is the current hits and the previous ones weighted by the share of the window
      that is left, rounded down. */
  lemma RateIsWeighted(e: Entry, ts: nat, expiration: nat)
    requires expiration > 0 && ts < e.exp
    ensures e.currHits <= Rate(e, ts, expiration)
    ensures var carried := Rate(e, ts, expiration) - e.currHits;
            && carried * expiration <= e.prevHits * (e.exp - ts) < (carried + 1) * expiration
            && carried == e.prevHits * (e.exp - ts) / expiration
  {
    FloorDivision(e.prevHits * (e.exp - ts), expiration);
  }

  lemma FloorDivision(a: nat, d: nat)
    requires d > 0
    ensures a / d * d <= a < (a / d + 1) * d
  {
    assert a == d * (a / d) + a % d;
  }

  /** The product in the estimate fits a uint64 when windows are shorter than 2^32 seconds. */
  lemma RateFits(e: Entry, ts: nat, expiration: nat)
    requires 0 < expiration < WORD32
    requires ts < e.exp <= ts + expiration
    ensures e.prevHits * ResetTime(e, ts) < WORD64
  {
    ProductBound(e.prevHits, ResetTime(e, ts), WORD32 - 1);
  }

  // ----- little-endian encoding

  function Power256(n: nat): (p: nat)
    ensures p > 0
  {
    if n == 0 then 1 else 256 * Power256(n - 1)
  }

  /** The `n` low-order bytes of `v`, least significant first. */
  function ToBytes(v: nat, n: nat): (bs: seq<byte>)
    ensures |bs| == n
  {
    if n == 0 then [] else [v % 256] + ToBytes(v / 256, n - 1)
  }

  function FromBytes(bs: seq<byte>): nat {
    if bs == [] then 0 else bs[0] + 256 * FromBytes(bs[1..])
  }

  lemma {:induction false} FromToBytes(v: nat, n: nat)
    requires v < Power256(n)
    ensures FromBytes(ToBytes(v, n)) == v
  {
    if n == 0 {
    } else {
      assert ToBytes(v, n)[1..] == ToBytes(v / 256, n - 1);
      FromToBytes(v / 256, n - 1);
    }
  }

  lemma {:induction false} ToFromBytes(bs: seq<byte>)
    ensures FromBytes(bs) < Power256(|bs|)
    ensures ToBytes(FromBytes(bs), |bs|) == bs
  {
    if bs == [] {
    } else {
      ToFromBytes(bs[1..]);
      var high := FromBytes(bs[1..]);
      assert (bs[0] + 256 * high) / 256 == high && (bs[0] + 256 * high) % 256 == bs[0];
    }
  }

  lemma WordSizes()
    ensures Power256(4) == WORD32 && Power256(8) == WORD64
  {
    assert Power256(1) == 256;
    assert Power256(2) == 0x1_0000;
    assert Power256(3) == 0x100_0000;
    assert Power256(4) == 0x1_0000_0000;
    assert Power256(5) == 0x100_0000_0000;
    assert Power256(6) == 0x1_0000_0000_0000;
    assert Power256(7) == 0x100_0000_0000_0000;
  }

  ghost predicate Fits(e: Entry) {
    e.exp < WORD64
  }

  function Encode(e: Entry): (bs: seq<byte>)
    ensures |bs| == 16
  {
    ToBytes(e.currHits, 4) + ToBytes(e.prevHits, 4) + ToBytes(e.exp, 8)
  }

  function Decode(bs: seq<byte>): Entry {
    if |bs| == 16 then
      WordFits(bs[..4]);
      WordFits(bs[4..8]);
      Entry(FromBytes(bs[..4]), FromBytes(bs[4..8]), FromBytes(bs[8..]))
    else
      NO_ENTRY
  }

  lemma WordFits(bs: seq<byte>)
    requires |bs| == 4
    ensures FromBytes(bs) < WORD32
  {
    ToFromBytes(bs);
    WordSizes();
  }

  lemma DecodeEncode(e: Entry)
    requires Fits(e)
    ensures Decode(Encode(e)) == e
  {
    WordSizes();
    var a, b, c := ToBytes(e.currHits, 4), ToBytes(e.prevHits, 4), ToBytes(e.exp, 8);
    assert Encode(e)[..4] == a && Encode(e)[4..8] == b && Encode(e)[8..] == c;
    FromToBytes(e.currHits, 4);
    FromToBytes(e.prevHits, 4);
    FromToBytes(e.exp, 8);
  }

  lemma {:induction false} ToBytesAt(v: nat, n: nat, i: nat)
    requires i < n
    ensures ToBytes(v, n)[i] == v / Power256(i) % 256
  {
    if i == 0 {
    } else {
      ToBytesAt(v / 256, n - 1, i - 1);
      DivideTwice(v, 256, Power256(i - 1));
    }
  }

  /** The layout: current hits in bytes 0 to 3, previous hits in 4 to 7, end of the window in
      8 to 15, each with its least significant byte first. */
  lemma EncodeLayout(e: Entry, i: nat)
    ensures i < 4 ==> Encode(e)[i] == e.currHits / Power256(i) % 256
    ensures i < 4 ==> Encode(e)[4 + i] == e.prevHits / Power256(i) % 256
    ensures i < 8 ==> Encode(e)[8 + i] == e.exp / Power256(i) % 256
  {
    if i < 4 {
      ToBytesAt(e.currHits, 4, i);
      ToBytesAt(e.prevHits, 4, i);
    }
    if i < 8 {
      ToBytesAt(e.exp, 8, i);
    }
  }

  lemma EncodeDecode(bs: seq<byte>)
    requires |bs| == 16
    ensures Fits(Decode(bs)) && Encode(Decode(bs)) == bs
  {
    WordSizes();
    ToFromBytes(bs[..4]);
    ToFromBytes(bs[4..8]);
    ToFromBytes(bs[8..]);
  }
}
