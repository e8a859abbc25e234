/** 32-bit words as vectors of bits, bit 0 being the least significant, with the operators of C
    on uint32. */
module Words {
  import opened Modulo

  type Word = w: seq<bool> | |w| == 32 witness seq(32, i => false)

  function Zero(): Word {
    seq(32, i => false)
  }

  /** `w << k`; bits shifted out are lost. */
  function Shl(w: Word, k: nat): (r: Word)
    ensures forall i | 0 <= i < 32 :: r[i] == (i >= k && w[i - k])
  {
    seq(32, i requires 0 <= i < 32 => i >= k && w[i - k])
  }

  /** `w >> k` */
  function Shr(w: Word, k: nat): (r: Word)
    ensures forall i | 0 <= i < 32 :: r[i] == (i + k < 32 && w[i + k])
  {
    seq(32, i requires 0 <= i < 32 => i + k < 32 && w[i + k])
  }

  function Or(a: Word, b: Word): (r: Word)
    ensures forall i | 0 <= i < 32 :: r[i] == (a[i] || b[i])
  {
    seq(32, i requires 0 <= i < 32 => a[i] || b[i])
  }

  function And(a: Word, b: Word): (r: Word)
    ensures forall i | 0 <= i < 32 :: r[i] == (a[i] && b[i])
  {
    seq(32, i requires 0 <= i < 32 => a[i] && b[i])
  }

  function Xor(a: Word, b: Word): (r: Word)
    ensures forall i | 0 <= i < 32 :: r[i] == (a[i] != b[i])
  {
    seq(32, i requires 0 <= i < 32 => a[i] != b[i])
  }

  function Not(a: Word): (r: Word)
    ensures forall i | 0 <= i < 32 :: r[i] == !a[i]
  {
    seq(32, i requires 0 <= i < 32 => !a[i])
  }

  /** `(uint32)(1ULL << k) - 1`: the k low bits. */
  function Mask(k: nat): (r: Word)
    ensures forall i | 0 <= i < 32 :: r[i] == (i < k)
  {
    seq(32, i requires 0 <= i < 32 => i < k)
  }

  // ----- words and numbers

  function Pow2(n: nat): (r: nat)
    ensures r >= 1
  {
    if n == 0 then 1 else 2 * Pow2(n - 1)
  }

  lemma {:induction false} Pow2Add(a: nat, b: nat)
    ensures Pow2(a + b) == Pow2(a) * Pow2(b)
  {
    if b > 0 {
      Pow2Add(a, b - 1);
      assert Pow2(a + b) == 2 * (Pow2(a) * Pow2(b - 1));
    }
  }

  lemma {:induction false} Pow2Monotone(a: nat, b: nat)
    requires a <= b
    ensures Pow2(a) <= Pow2(b)
  {
    if a < b {
      Pow2Monotone(a, b - 1);
    }
  }

  /** The value of the n low bits. */
  function Value(w: seq<bool>, n: nat): (v: nat)
    requires n <= |w|
    ensures v < Pow2(n)
  {
    if n == 0 then 0 else Value(w, n - 1) + if w[n - 1] then Pow2(n - 1) else 0
  }

  /** The word of a number below 2^32. */
  function ToWord(v: nat): (w: Word) {
    seq(32, i requires 0 <= i < 32 => v / Pow2(i) % 2 == 1)
  }

  lemma HalfMod(v: nat, p: nat)
    requires p > 0
    ensures v % (2 * p) == v % p + if v / p % 2 == 1 then p else 0
  {
    var q, r := v / p, v % p;
    var h, b := q / 2, q % 2;
    assert v == (2 * h + b) * p + r == h * (2 * p) + (b * p + r);
    assert b * p == if b == 1 then p else 0;
    ModIs(v, 2 * p, h, b * p + r);
  }

  lemma {:induction false} ToWordValue(v: nat, n: nat)
    requires n <= 32
    ensures Value(ToWord(v), n) == v % Pow2(n)
  {
    if n > 0 {
      ToWordValue(v, n - 1);
      HalfMod(v, Pow2(n - 1));
    }
  }

  lemma SmallMod(v: nat, p: nat)
    requires v < p
    ensures v % p == v && v / p == 0
  {
  }

  /** Bits above the width of a number are zero. */
  lemma ToWordHigh(v: nat, n: nat, i: nat)
    requires v < Pow2(n) && n <= i < 32
    ensures !ToWord(v)[i]
  {
    Pow2Monotone(n, i);
    SmallMod(v, Pow2(i));
  }

  lemma {:induction false} ValueExt(a: seq<bool>, b: seq<bool>, n: nat)
    requires n <= |a| && n <= |b| && forall i | 0 <= i < n :: a[i] == b[i]
    ensures Value(a, n) == Value(b, n)
  {
    if n > 0 {
      ValueExt(a, b, n - 1);
    }
  }

  // ----- shifts of numbers

  /** `x << k`, for numbers that stay within their width. */
  function LeftShift(x: nat, k: nat): nat {
    x * Pow2(k)
  }

  /** `x >> k` */
  function RightShift(x: nat, k: nat): nat {
    DivNat(x, Pow2(k));
    x / Pow2(k)
  }

  /** `x & ((1 << k) - 1)` */
  function LowBits(x: nat, k: nat): (r: nat)
    ensures r < Pow2(k)
  {
    x % Pow2(k)
  }

  lemma Parts(x: nat, k: nat)
    ensures x == LeftShift(RightShift(x, k), k) + LowBits(x, k)
  {
  }

  lemma PartsUnique(x: nat, k: nat, high: nat, low: nat)
    requires low < Pow2(k) && x == LeftShift(high, k) + low
    ensures RightShift(x, k) == high && LowBits(x, k) == low
  {
    ModIs(x, Pow2(k), high, low);
  }

  lemma LeftShiftAdd(x: nat, y: nat, k: nat)
    ensures LeftShift(x + y, k) == LeftShift(x, k) + LeftShift(y, k)
  {
  }

  lemma LeftShiftTwice(x: nat, a: nat, b: nat)
    ensures LeftShift(LeftShift(x, a), b) == LeftShift(x, a + b)
  {
    Pow2Add(a, b);
    assert x * Pow2(a) * Pow2(b) == x * (Pow2(a) * Pow2(b));
  }

  lemma LeftShiftMonotone(x: nat, y: nat, k: nat)
    ensures x < y ==> LeftShift(x, k) + Pow2(k) <= LeftShift(y, k)
    ensures x <= y ==> LeftShift(x, k) <= LeftShift(y, k)
  {
    assert y * Pow2(k) == x * Pow2(k) + (y - x) * Pow2(k);
    MultipleBounds(y - x, Pow2(k));
  }

  /** A low part of a bits under a part below 2^b: together below 2^(a + b). */
  lemma JoinBound(high: nat, low: nat, a: nat, b: nat)
    requires low < Pow2(a) && high < Pow2(b)
    ensures LeftShift(high, a) + low < Pow2(a + b)
  {
    Pow2Add(a, b);
    LeftShiftMonotone(high, Pow2(b), a);
  }

  lemma RightShiftRange(x: nat, k: nat, lo: nat, hi: nat)
    ensures LeftShift(lo, k) <= x <==> lo <= RightShift(x, k)
    ensures x < LeftShift(hi, k) <==> RightShift(x, k) < hi
  {
    Parts(x, k);
    var a := RightShift(x, k);
    LeftShiftMonotone(lo, a, k);
    LeftShiftMonotone(a, lo, k);
    LeftShiftMonotone(a, hi, k);
    LeftShiftMonotone(hi, a, k);
  }

  lemma RightShiftMonotone(x: nat, y: nat, k: nat)
    requires x <= y
    ensures RightShift(x, k) <= RightShift(y, k)
  {
    RightShiftRange(x, k, 0, RightShift(y, k) + 1);
    RightShiftRange(y, k, 0, RightShift(y, k) + 1);
  }

  lemma RightShiftBound(x: nat, a: nat, b: nat)
    requires x < Pow2(a + b)
    ensures RightShift(x, a) < Pow2(b)
  {
    Pow2Add(a, b);
    assert Pow2(a) * Pow2(b) == LeftShift(Pow2(b), a);
    RightShiftRange(x, a, 0, Pow2(b));
  }

  lemma RightShiftTwice(x: nat, a: nat, b: nat)
    ensures RightShift(x, a + b) == RightShift(RightShift(x, a), b)
    ensures LowBits(x, a + b) == LeftShift(LowBits(RightShift(x, a), b), a) + LowBits(x, a)
  {
    var y, r := RightShift(x, a), LowBits(x, a);
    var h, s := RightShift(y, b), LowBits(y, b);
    Parts(x, a);
    Parts(y, b);
    JoinBound(s, r, a, b);
    hide LeftShift, RightShift, LowBits;
    LeftShiftAdd(LeftShift(h, b), s, a);
    LeftShiftTwice(h, b, a);
    PartsUnique(x, a + b, h, LeftShift(s, a) + r);
  }
}
