/** The decimal printer (middleware/helpers.go:7-22). Bytes are modelled as characters. */
module Decimal {
  import opened Division
  import opened MachineWords

  predicate IsDigit(c: char) {
    '0' <= c <= '9'
  }

  predicate AllDigits(s: string) {
    forall i :: 0 <= i < |s| ==> IsDigit(s[i])
  }

  function DigitChar(d: nat): (c: char)
    requires d < 10
    ensures IsDigit(c) && DigitValue(c) == d
  {
    ('0' as int + d) as char
  }

  function DigitValue(c: char): nat
    requires IsDigit(c)
  {
    c as int - '0' as int
  }

  /** The shortest decimal numeral of `n`. */
  function Numeral(n: nat): (s: string)
    ensures |s| > 0 && AllDigits(s)
    ensures s[0] == '0' ==> n == 0
  {
    if n < 10 then [DigitChar(n)] else Numeral(n / 10) + [DigitChar(n % 10)]
  }

  function Parse(s: string): nat
    requires AllDigits(s)
  {
    if s == "" then 0 else 10 * Parse(s[..|s| - 1]) + DigitValue(s[|s| - 1])
  }

  lemma {:induction false} ParseNumeral(n: nat)
    ensures Parse(Numeral(n)) == n
  {
    if n < 10 {
      assert Parse("") == 0;
    } else {
      ParseNumeral(n / 10);
      assert Numeral(n)[..|Numeral(n)| - 1] == Numeral(n / 10);
    }
  }

  function Power10(k: nat): (p: nat)
    ensures p > 0
  {
    if k == 0 then 1 else 10 * Power10(k - 1)
  }

  lemma LastDigit(n: nat)
    ensures Numeral(n)[|Numeral(n)| - 1] == "0123456789"[n % 10]
  {
    assert forall d :: 0 <= d < 10 ==> "0123456789"[d] == DigitChar(d);
  }

  /** Digit by digit, counted from the right. */
  lemma {:induction false} NumeralDigits(n: nat, i: nat)
    requires i < |Numeral(n)|
    ensures Numeral(n)[|Numeral(n)| - 1 - i] == "0123456789"[n / Power10(i) % 10]
  {
    if i == 0 {
      LastDigit(n);
      assert n / Power10(0) == n;
    } else {
      NumeralStep(n);
      Front(Numeral(n / 10), DigitChar(n % 10), Numeral(n), i);
      NumeralDigits(n / 10, i - 1);
      TenTimes(n, i);
    }
  }

  lemma NumeralStep(n: nat)
    requires n >= 10
    ensures Numeral(n) == Numeral(n / 10) + [DigitChar(n % 10)]
  {
  }

  lemma Front(s: string, c: char, t: string, i: nat)
    requires t == s + [c] && 0 < i < |t|
    ensures i <= |s| && t[|t| - 1 - i] == s[|s| - i]
  {
  }

  lemma TenTimes(n: nat, i: nat)
    requires i > 0
    ensures n / 10 / Power10(i - 1) == n / Power10(i)
  {
    DivideTwice(n, 10, Power10(i - 1));
  }

  lemma {:induction false} ParseBelow(s: string)
    requires AllDigits(s)
    ensures Parse(s) < Power10(|s|)
  {
    if s == "" {
    } else {
      ParseBelow(s[..|s| - 1]);
    }
  }

  lemma {:induction false} NumeralLength(n: nat, k: nat)
    requires n < Power10(k) && k > 0
    ensures |Numeral(n)| <= k
  {
    if n >= 10 {
      assert k > 1;
      NumeralLength(n / 10, k - 1);
    }
  }

  /** No numeral of `n` is shorter. */
  lemma NumeralShortest(s: string)
    requires AllDigits(s) && s != ""
    ensures |Numeral(Parse(s))| <= |s|
  {
    ParseBelow(s);
    NumeralLength(Parse(s), |s|);
  }

  lemma TwentyDigits(n: uint64)
    ensures |Numeral(n)| <= 20
  {
    assert Power10(10) == 10000000000;
    assert Power10(15) == 1000000000000000;
    assert Power10(20) == 100000000000000000000;
    NumeralLength(n, 20);
  }

  function Min(a: nat, b: nat): nat {
    if a <= b then a else b
  }

  /** Go's copy into `dst[at:]`. */
  method Copy(dst: array<char>, at: nat, src: string)
    requires at <= dst.Length
    modifies dst
    ensures var m := Min(|src|, dst.Length - at);
            dst[..] == old(dst[..at]) + src[..m] + old(dst[at + m..])
  {
    var m := Min(|src|, dst.Length - at);
    forall i | 0 <= i < m {
      dst[at + i] := src[i];
    }
  }

  /** Fills the 24-byte scratch buffer from its end; the numeral begins at the index given back. */
  method FillFromEnd(buf: array<char>, n0: uint64) returns (ofs: nat)
    requires buf.Length == 24
    modifies buf
    ensures 4 <= ofs < 24 && buf[ofs..] == Numeral(n0)
  {
    TwentyDigits(n0);
    var n, q := n0, 0;
    ofs := 24;
    while n >= 10
      invariant 4 < ofs <= 24 && 24 - ofs + |Numeral(n)| == |Numeral(n0)|
      invariant Numeral(n0) == Numeral(n) + buf[ofs..]
      decreases n
    {
      ghost var right := buf[ofs..];
      q := n / 10;
      ofs := ofs - 1;
      buf[ofs] := DigitChar(n - q * 10);
      assert buf[ofs..] == [buf[ofs]] + right;
      n := q;
    }
    ghost var right := buf[ofs..];
    ofs := ofs - 1;
    buf[ofs] := DigitChar(n);
    assert buf[ofs..] == [buf[ofs]] + right;
  }

  /** Writes the numeral of `n` at `at`, cut off at the end of `dst`, and gives its length. */
  method FastUint2Bytes(dst: array<char>, at: nat, n: uint64) returns (len: nat)
    requires at <= dst.Length
    modifies dst
    ensures len == |Numeral(n)| <= 20
    ensures var m := Min(len, dst.Length - at);
            dst[..] == old(dst[..at]) + Numeral(n)[..m] + old(dst[at + m..])
  {
    var buf := new char[24];
    var ofs := FillFromEnd(buf, n);
    Copy(dst, at, buf[ofs..]);
    len := 24 - ofs;
  }
}
