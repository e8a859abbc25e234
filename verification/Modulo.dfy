/** Division with remainder, where the divisor is a variable. */
module Modulo {

  lemma MultipleBounds(d: int, p: int)
    requires p > 0
    ensures d >= 1 ==> d * p >= p
    ensures d <= -1 ==> d * p <= -p
  {
  }

  lemma ModIs(v: int, p: nat, h: int, r: nat)
    requires r < p && v == h * p + r
    ensures v % p == r && v / p == h
  {
    var q, m := v / p, v % p;
    assert v == q * p + m;
    assert (h - q) * p == h * p - q * p == m - r;
    MultipleBounds(h - q, p);
  }

  lemma DivNat(x: nat, p: nat)
    requires p > 0
    ensures x / p >= 0
  {
    assert x == x / p * p + x % p;
    MultipleBounds(x / p, p);
  }
}
