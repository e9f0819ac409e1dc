/** Euclidean division of natural numbers. */
module Division {

  lemma MulMonotone(a: nat, b: nat, c: nat)
    requires b <= c
    ensures a * b <= a * c
  {
  }

  lemma DivMonotone(a: nat, b: nat, d: nat)
    requires d > 0 && a <= b
    ensures a / d <= b / d
  {
    if a / d > b / d {
      MulMonotone(d, b / d + 1, a / d);
    }
  }

  lemma QuotientIs(a: nat, d: nat, q: nat, r: nat)
    requires d > 0 && a == d * q + r && r < d
    ensures a / d == q
  {
    var q', r' := a / d, a % d;
    assert a == d * q' + r';
    if q' < q {
      MulMonotone(d, q' + 1, q);
    } else if q < q' {
      MulMonotone(d, q + 1, q');
    }
  }

  lemma DivideTwice(v: nat, c: nat, d: nat)
    requires c > 0 && d > 0
    ensures c * d > 0 && v / c / d == v / (c * d)
  {
    var a := v / c;
    FromParts(v, c, a, v % c, d, a / d, a % d);
  }

  lemma FromParts(v: nat, c: nat, a: nat, r: nat, d: nat, q: nat, r': nat)
    requires v == c * a + r && a == d * q + r' && r < c && r' < d
    ensures c * d > 0 && v / (c * d) == q
  {
    Regroup(c, d, q, r', r);
    MulMonotone(c, r' + 1, d);
    assert c * (r' + 1) == c * r' + c;
    QuotientIs(v, c * d, q, c * r' + r);
  }

  lemma Regroup(c: nat, d: nat, q: nat, r': nat, r: nat)
    ensures c * (d * q + r') + r == (c * d) * q + (c * r' + r)
  {
    assert c * (d * q) == (c * d) * q;
  }
}
