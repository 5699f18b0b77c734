/** Signs and bounds of quotients of reals. */
module Ratios {

  lemma SignProduct(x: real, a: real)
    requires a > 0.0
    ensures x <= 0.0 ==> x * a <= 0.0
    ensures x >= 0.0 ==> x * a >= 0.0
  {
  }

  lemma QuotientSign(x: real, a: real)
    requires a > 0.0
    ensures x / a < 0.0 <==> x < 0.0
    ensures x / a > 0.0 <==> x > 0.0
    ensures x / a * a == x
  {
    var q := x / a;
    assert q * a == x;
    SignProduct(q, a);
  }

  lemma QuotientAboveMinusOne(x: real, a: real)
    requires a > 0.0 && x > -a
    ensures x / a > -1.0
  {
    var q := x / a;
    assert q * a == x;
    SignProduct(q + 1.0, a);
    assert (q + 1.0) * a == q * a + a;
  }

  lemma QuotientBelowOne(x: real, a: real)
    requires a > 0.0 && x < a
    ensures x / a < 1.0
  {
    var q := x / a;
    assert q * a == x;
    SignProduct(q - 1.0, a);
    assert (q - 1.0) * a == q * a - a;
  }

  lemma QuotientAgainst(x: real, a: real, v: real)
    requires a > 0.0
    ensures x / a <= v <==> x <= v * a
    ensures x / a >= v <==> x >= v * a
  {
    var q := x / a;
    assert q * a == x;
    var d := q - v;
    assert d * a == q * a - v * a;
    QuotientSign(d * a, a);
    Cancels(d, a);
  }

  lemma Cancels(d: real, a: real)
    requires a > 0.0
    ensures d * a / a == d
  {
  }

  lemma LessOne(x: real, a: real)
    requires a > 0.0
    ensures x / a - 1.0 == (x - a) / a
  {
    var y, u := x / a, (x - a) / a;
    assert y * a == x && u * a == x - a;
    assert (u - (y - 1.0)) * a == u * a - (y * a - a);
    ZeroProduct(u - (y - 1.0), a);
  }

  lemma OneLess(x: real, a: real)
    requires a > 0.0
    ensures 1.0 - x / a == (a - x) / a
  {
    var y, u := x / a, (a - x) / a;
    assert y * a == x && u * a == a - x;
    assert (u - (1.0 - y)) * a == u * a - (a - y * a);
    ZeroProduct(u - (1.0 - y), a);
  }

  lemma ZeroProduct(d: real, a: real)
    requires a > 0.0 && d * a == 0.0
    ensures d == 0.0
  {
  }

  lemma RatioBound(x: real, p: real, bound: real)
    requires p > 0.0 && x / p <= bound
    ensures x <= bound * p
  {
    var q := x / p;
    assert q * p == x;
    SignProduct(bound - q, p);
    assert (bound - q) * p == bound * p - q * p;
  }

  lemma LooserBound(tight: real, loose: real, p: real)
    requires tight <= loose && p > 0.0
    ensures tight * p <= loose * p
  {
    SignProduct(loose - tight, p);
    assert (loose - tight) * p == loose * p - tight * p;
  }
}
