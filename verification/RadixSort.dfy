/** The radix sort of fingerprints, and the removal of duplicates that follows it. */
module RadixSort {
  import opened Words

  const MATRIX_ROWS := 4
  const MATRIX_COLS := 256

  /** Byte j of a little-endian uint32. */
  function Digit(u: nat, j: nat): (c: nat)
    ensures c < MATRIX_COLS
  {
    assert Pow2(8) == 256;
    LowBits(RightShift(u, 8 * j), 8)
  }

  /** The elements with the given digit, in their order. */
  function OfDigit(s: seq<nat>, j: nat, c: nat): seq<nat> {
    if s == [] then []
    else OfDigit(s[..|s| - 1], j, c) + (if Digit(s[|s| - 1], j) == c then [s[|s| - 1]] else [])
  }

  /** The elements with a digit below c, grouped by digit and in their order within a group. */
  function ByDigit(s: seq<nat>, j: nat, c: nat): seq<nat> {
    if c == 0 then [] else ByDigit(s, j, c - 1) + OfDigit(s, j, c - 1)
  }

  ghost predicate Sorted(s: seq<nat>) {
    forall i, k | 0 <= i < k < |s| :: s[i] <= s[k]
  }

  /** Sorted by the low bits. */
  ghost predicate SortedBelow(s: seq<nat>, bits: nat) {
    forall i, k | 0 <= i < k < |s| :: LowBits(s[i], bits) <= LowBits(s[k], bits)
  }

  // ----- grouping by a digit

  lemma {:induction false} OfDigitElements(s: seq<nat>, j: nat, c: nat)
    ensures forall k | 0 <= k < |OfDigit(s, j, c)| :: OfDigit(s, j, c)[k] in s && Digit(OfDigit(s, j, c)[k], j) == c
  {
    hide Digit;
    if s != [] {
      OfDigitElements(s[..|s| - 1], j, c);
    }
  }

  lemma {:induction false} ByDigitElements(s: seq<nat>, j: nat, c: nat)
    ensures forall k | 0 <= k < |ByDigit(s, j, c)| :: Digit(ByDigit(s, j, c)[k], j) < c
  {
    hide Digit;
    if c > 0 {
      ByDigitElements(s, j, c - 1);
      OfDigitElements(s, j, c - 1);
    }
  }

  /** Grouping is stable. */
  lemma {:induction false} OfDigitSorted(s: seq<nat>, j: nat, c: nat, bits: nat)
    requires SortedBelow(s, bits)
    ensures SortedBelow(OfDigit(s, j, c), bits)
  {
    hide Digit, LowBits;
    if s != [] {
      var n := |s| - 1;
      OfDigitSorted(s[..n], j, c, bits);
      OfDigitElements(s[..n], j, c);
      var before := OfDigit(s[..n], j, c);
      forall k | 0 <= k < |before| ensures LowBits(before[k], bits) <= LowBits(s[n], bits) {
        var i :| 0 <= i < n && s[..n][i] == before[k];
      }
    }
  }

  lemma DigitOrder(u: nat, v: nat, j: nat)
    requires Digit(u, j) < Digit(v, j) || (Digit(u, j) == Digit(v, j) && LowBits(u, 8 * j) <= LowBits(v, 8 * j))
    ensures LowBits(u, 8 * (j + 1)) <= LowBits(v, 8 * (j + 1))
  {
    hide LowBits, LeftShift, RightShift, Pow2;
    RightShiftTwice(u, 8 * j, 8);
    RightShiftTwice(v, 8 * j, 8);
    LeftShiftMonotone(Digit(u, j), Digit(v, j), 8 * j);
  }

  lemma GroupsInOrder(a: seq<nat>, b: seq<nat>, j: nat, c: nat)
    requires SortedBelow(a, 8 * (j + 1)) && SortedBelow(b, 8 * j)
    requires forall i | 0 <= i < |a| :: Digit(a[i], j) < c
    requires forall k | 0 <= k < |b| :: Digit(b[k], j) == c
    ensures SortedBelow(a + b, 8 * (j + 1))
  {
    hide Digit, LowBits;
    var r := a + b;
    forall i, k | 0 <= i < k < |r| ensures LowBits(r[i], 8 * (j + 1)) <= LowBits(r[k], 8 * (j + 1)) {
      if k >= |a| {
        DigitOrder(r[i], r[k], j);
      }
    }
  }

  /** One more digit is sorted. */
  lemma {:induction false} ByDigitSorted(s: seq<nat>, j: nat, c: nat)
    requires SortedBelow(s, 8 * j)
    ensures SortedBelow(ByDigit(s, j, c), 8 * (j + 1))
  {
    hide Digit, LowBits, OfDigit;
    if c > 0 {
      ByDigitSorted(s, j, c - 1);
      ByDigitElements(s, j, c - 1);
      OfDigitElements(s, j, c - 1);
      OfDigitSorted(s, j, c - 1, 8 * j);
      hide SortedBelow;
      GroupsInOrder(ByDigit(s, j, c - 1), OfDigit(s, j, c - 1), j, c - 1);
    }
  }

  // ----- grouping permutes

  lemma OfDigitSnoc(s: seq<nat>, x: nat, j: nat, c: nat)
    ensures OfDigit(s + [x], j, c) == OfDigit(s, j, c) + if Digit(x, j) == c then [x] else []
  {
    assert (s + [x])[..|s + [x]| - 1] == s;
  }

  lemma {:induction false} ByDigitSnoc(s: seq<nat>, x: nat, j: nat, c: nat)
    ensures multiset(ByDigit(s + [x], j, c))
         == multiset(ByDigit(s, j, c)) + if Digit(x, j) < c then multiset{x} else multiset{}
  {
    hide Digit;
    if c > 0 {
      ByDigitSnoc(s, x, j, c - 1);
      OfDigitSnoc(s, x, j, c - 1);
    }
  }

  lemma {:induction false} ByDigitNothing(j: nat, c: nat)
    ensures ByDigit([], j, c) == []
  {
    if c > 0 {
      ByDigitNothing(j, c - 1);
    }
  }

  lemma {:induction false} ByDigitPermutes(s: seq<nat>, j: nat)
    ensures multiset(ByDigit(s, j, MATRIX_COLS)) == multiset(s)
    ensures |ByDigit(s, j, MATRIX_COLS)| == |s|
  {
    if s == [] {
      ByDigitNothing(j, MATRIX_COLS);
    } else {
      var n := |s| - 1;
      assert s == s[..n] + [s[n]];
      ByDigitPermutes(s[..n], j);
      ByDigitSnoc(s[..n], s[n], j, MATRIX_COLS);
      hide ByDigit, Digit;
      assert multiset(s) == multiset(s[..n]) + multiset{s[n]};
    }
    assert |multiset(ByDigit(s, j, MATRIX_COLS))| == |multiset(s)|;
  }

  lemma {:induction false} OfDigitCount(s: seq<nat>, j: nat, c: nat, x: nat)
    ensures multiset(OfDigit(s, j, c))[x] == if Digit(x, j) == c then multiset(s)[x] else 0
  {
    hide Digit;
    if s != [] {
      OfDigitCount(s[..|s| - 1], j, c, x);
      assert s == s[..|s| - 1] + [s[|s| - 1]];
    }
  }

  lemma OfDigitPermutes(s: seq<nat>, t: seq<nat>, j: nat, c: nat)
    requires multiset(s) == multiset(t)
    ensures |OfDigit(s, j, c)| == |OfDigit(t, j, c)|
  {
    hide Digit, OfDigit;
    var a, b := OfDigit(s, j, c), OfDigit(t, j, c);
    var ma: multiset<nat>, mb: multiset<nat> := multiset(a), multiset(b);
    forall x: nat ensures ma[x] == mb[x] {
      OfDigitCount(s, j, c, x);
      OfDigitCount(t, j, c, x);
    }
    assert ma == mb;
    assert |ma| == |mb|;
  }

  /** The histogram is the same for all permutations. */
  lemma {:induction false} StartsPermute(s: seq<nat>, t: seq<nat>, j: nat, c: nat)
    requires multiset(s) == multiset(t)
    ensures |ByDigit(s, j, c)| == |ByDigit(t, j, c)|
  {
    hide OfDigit;
    if c > 0 {
      StartsPermute(s, t, j, c - 1);
      OfDigitPermutes(s, t, j, c - 1);
    }
  }

  lemma {:induction false} StartsMonotone(s: seq<nat>, j: nat, c: nat, d: nat)
    requires c <= d
    ensures |ByDigit(s, j, c)| <= |ByDigit(s, j, d)|
  {
    if c < d {
      StartsMonotone(s, j, c, d - 1);
    }
  }

  lemma {:induction false} OfDigitPrefix(s: seq<nat>, i: nat, j: nat, c: nat)
    requires i <= |s|
    ensures |OfDigit(s[..i], j, c)| <= |OfDigit(s, j, c)|
    ensures i < |s| && Digit(s[i], j) == c ==> |OfDigit(s[..i], j, c)| < |OfDigit(s, j, c)|
  {
    hide Digit;
    if i == |s| {
      assert s[..i] == s;
    } else {
      var n := |s| - 1;
      assert s[..n][..i] == s[..i];
      OfDigitPrefix(s[..n], i, j, c);
    }
  }

  // ----- one pass

  function Start(s: seq<nat>, j: nat, c: nat): nat {
    |ByDigit(s, j, c)|
  }

  /** The groups are filled with the first i elements of the source. */
  ghost predicate Scattered(src: seq<nat>, i: nat, dst: seq<nat>, j: nat, next: seq<nat>) {
    && i <= |src| <= |dst| && |next| == MATRIX_COLS
    && forall c | 0 <= c < MATRIX_COLS :: GroupFilled(src, i, dst, j, c, next[c])
  }

  ghost predicate GroupFilled(src: seq<nat>, i: nat, dst: seq<nat>, j: nat, c: nat, next: nat)
    requires i <= |src| <= |dst|
  {
    && next == Start(src, j, c) + |OfDigit(src[..i], j, c)|
    && next <= Start(src, j, c + 1) <= |src|
    && dst[Start(src, j, c)..next] == OfDigit(src[..i], j, c)
  }

  lemma StartsInRange(src: seq<nat>, i: nat, j: nat, c: nat)
    requires i <= |src| && c < MATRIX_COLS
    ensures Start(src, j, c) + |OfDigit(src[..i], j, c)| <= Start(src, j, c + 1) <= |src|
    ensures i < |src| && Digit(src[i], j) == c ==>
              Start(src, j, c) + |OfDigit(src[..i], j, c)| < Start(src, j, c + 1)
  {
    OfDigitPrefix(src, i, j, c);
    StartsMonotone(src, j, c + 1, MATRIX_COLS);
    ByDigitPermutes(src, j);
    assert Start(src, j, c + 1) == Start(src, j, c) + |OfDigit(src, j, c)|;
  }

  lemma ScatterStart(src: seq<nat>, dst: seq<nat>, j: nat, next: seq<nat>)
    requires |src| <= |dst| && |next| == MATRIX_COLS
    requires forall c | 0 <= c < MATRIX_COLS :: next[c] == Start(src, j, c)
    ensures Scattered(src, 0, dst, j, next)
  {
    forall c | 0 <= c < MATRIX_COLS ensures GroupFilled(src, 0, dst, j, c, next[c]) {
      StartsInRange(src, 0, j, c);
    }
  }

  lemma ScatterStep(src: seq<nat>, i: nat, dst: seq<nat>, j: nat, next: seq<nat>)
    requires i < |src| && Scattered(src, i, dst, j, next)
    ensures var c := Digit(src[i], j);
            next[c] < |src|
            && Scattered(src, i + 1, dst[next[c] := src[i]], j, next[c := next[c] + 1])
  {
    hide Digit, Start, OfDigit;
    var c := Digit(src[i], j);
    assert GroupFilled(src, i, dst, j, c, next[c]);
    StartsInRange(src, i, j, c);
    assert src[..i + 1] == src[..i] + [src[i]];
    var dst', next' := dst[next[c] := src[i]], next[c := next[c] + 1];
    forall d | 0 <= d < MATRIX_COLS ensures GroupFilled(src, i + 1, dst', j, d, next'[d]) {
      OfDigitSnoc(src[..i], src[i], j, d);
      assert GroupFilled(src, i, dst, j, d, next[d]);
      StartsApart(src, j, c, d);
      var s := Start(src, j, d);
      if d == c {
        assert dst'[s..next'[c]] == dst[s..next[c]] + [src[i]];
      } else {
        assert dst'[s..next[d]] == dst[s..next[d]];
      }
    }
  }

  lemma StartsApart(src: seq<nat>, j: nat, c: nat, d: nat)
    ensures c < d ==> Start(src, j, c + 1) <= Start(src, j, d)
    ensures d < c ==> Start(src, j, d + 1) <= Start(src, j, c)
  {
    if c < d {
      StartsMonotone(src, j, c + 1, d);
    } else if d < c {
      StartsMonotone(src, j, d + 1, c);
    }
  }

  lemma {:induction false} ScatterDone(src: seq<nat>, dst: seq<nat>, j: nat, next: seq<nat>, c: nat)
    requires Scattered(src, |src|, dst, j, next) && c <= MATRIX_COLS
    ensures Start(src, j, c) <= |src| && dst[..Start(src, j, c)] == ByDigit(src, j, c)
  {
    hide OfDigit, Digit;
    if c > 0 {
      ScatterDone(src, dst, j, next, c - 1);
      assert GroupFilled(src, |src|, dst, j, c - 1, next[c - 1]);
      assert src[..|src|] == src;
      var a, b := Start(src, j, c - 1), Start(src, j, c);
      assert dst[..b] == dst[..a] + dst[a..b];
    }
  }

  lemma GroupsFillAll(src: seq<nat>, j: nat)
    ensures Start(src, j, MATRIX_COLS) == |src|
  {
    ByDigitPermutes(src, j);
  }

  // ----- RadixSort

  ghost function Row(m: array2<nat>, j: nat): (r: seq<nat>)
    requires j < m.Length0 && m.Length1 == MATRIX_COLS
    reads m
    ensures |r| == MATRIX_COLS && forall c | 0 <= c < MATRIX_COLS :: r[c] == m[j, c]
  {
    seq(MATRIX_COLS, c requires 0 <= c < MATRIX_COLS reads m => m[j, c])
  }

  ghost predicate Matrix(m: array2<nat>) {
    m.Length0 == MATRIX_ROWS && m.Length1 == MATRIX_COLS
  }

  method Histograms(data: array<nat>, m: array2<nat>, count: nat, rounds: nat)
    requires Matrix(m) && count <= data.Length && rounds <= MATRIX_ROWS
    requires forall j, c | 0 <= j < MATRIX_ROWS && 0 <= c < MATRIX_COLS :: m[j, c] == 0
    modifies m
    ensures forall j, c | 0 <= j < rounds && 0 <= c < MATRIX_COLS :: m[j, c] == |OfDigit(data[..count], j, c)|
  {
    hide Digit;
    var i := 0;
    while i < count
      invariant 0 <= i <= count
      invariant forall j, c | 0 <= j < rounds && 0 <= c < MATRIX_COLS :: m[j, c] == |OfDigit(data[..i], j, c)|
    {
      var u := data[i];
      assert data[..i + 1] == data[..i] + [u];
      var j := 0;
      while j < rounds
        invariant 0 <= j <= rounds
        invariant forall k, c | 0 <= k < rounds && 0 <= c < MATRIX_COLS ::
          m[k, c] == |OfDigit(if k < j then data[..i + 1] else data[..i], k, c)|
      {
        forall c | 0 <= c < MATRIX_COLS
          ensures |OfDigit(data[..i + 1], j, c)|
               == |OfDigit(data[..i], j, c)| + if Digit(u, j) == c then 1 else 0
        {
          OfDigitSnoc(data[..i], u, j, c);
        }
        var d := Digit(u, j);
        m[j, d] := m[j, d] + 1;
        j := j + 1;
      }
      i := i + 1;
    }
  }

  method RowToIndices(m: array2<nat>, j: nat, ghost s: seq<nat>)
    requires Matrix(m) && j < MATRIX_ROWS
    requires forall c | 0 <= c < MATRIX_COLS :: m[j, c] == |OfDigit(s, j, c)|
    modifies m
    ensures forall c | 0 <= c < MATRIX_COLS :: m[j, c] == Start(s, j, c) <= |s|
    ensures forall k, c | 0 <= k < MATRIX_ROWS && k != j && 0 <= c < MATRIX_COLS :: m[k, c] == old(m[k, c])
  {
    hide OfDigit, Start;
    StartOfFirst(s, j);
    var n, i := 0, 0;
    while i < MATRIX_COLS
      invariant 0 <= i <= MATRIX_COLS && n == Start(s, j, i)
      invariant forall c | 0 <= c < i :: m[j, c] == Start(s, j, c) <= |s|
      invariant forall c | i <= c < MATRIX_COLS :: m[j, c] == |OfDigit(s, j, c)|
      invariant forall k, c | 0 <= k < MATRIX_ROWS && k != j && 0 <= c < MATRIX_COLS :: m[k, c] == old(m[k, c])
    {
      StartOfNext(s, j, i);
      var size := m[j, i];
      m[j, i] := n;
      n := n + size;
      i := i + 1;
    }
  }

  lemma StartOfFirst(s: seq<nat>, j: nat)
    ensures Start(s, j, 0) == 0
  {
  }

  lemma StartOfNext(s: seq<nat>, j: nat, c: nat)
    requires c < MATRIX_COLS
    ensures Start(s, j, c + 1) == Start(s, j, c) + |OfDigit(s, j, c)|
    ensures Start(s, j, c) <= |s|
  {
    StartsMonotone(s, j, c, MATRIX_COLS);
    ByDigitPermutes(s, j);
  }

  method ToIndices(m: array2<nat>, rounds: nat, ghost s: seq<nat>)
    requires Matrix(m) && rounds <= MATRIX_ROWS
    requires forall j, c | 0 <= j < rounds && 0 <= c < MATRIX_COLS :: m[j, c] == |OfDigit(s, j, c)|
    modifies m
    ensures forall j, c | 0 <= j < rounds && 0 <= c < MATRIX_COLS :: m[j, c] == Start(s, j, c) <= |s|
  {
    hide OfDigit, Start;
    var j := 0;
    while j < rounds
      invariant 0 <= j <= rounds
      invariant forall k, c | 0 <= k < j && 0 <= c < MATRIX_COLS :: m[k, c] == Start(s, k, c) <= |s|
      invariant forall k, c | j <= k < rounds && 0 <= c < MATRIX_COLS :: m[k, c] == |OfDigit(s, k, c)|
    {
      RowToIndices(m, j, s);
      j := j + 1;
    }
  }

  /** One pass moves the elements from one buffer to the other, grouped by a digit.  No element
      of the index matrix reaches `count` while it is used. */
  method Pass(src: array<nat>, dst: array<nat>, m: array2<nat>, count: nat, j: nat)
    requires Matrix(m) && src != dst && count <= src.Length && count <= dst.Length && j < MATRIX_ROWS
    requires forall c | 0 <= c < MATRIX_COLS :: m[j, c] == Start(src[..count], j, c)
    modifies dst, m
    ensures dst[..count] == ByDigit(src[..count], j, MATRIX_COLS)
    ensures forall k, c | 0 <= k < MATRIX_ROWS && k != j && 0 <= c < MATRIX_COLS :: m[k, c] == old(m[k, c])
  {
    hide Scattered, Start, Digit;
    ghost var s := src[..count];
    ScatterStart(s, dst[..], j, Row(m, j));
    var i := 0;
    while i < count
      invariant 0 <= i <= count
      invariant Scattered(s, i, dst[..], j, Row(m, j))
      invariant forall k, c | 0 <= k < MATRIX_ROWS && k != j && 0 <= c < MATRIX_COLS :: m[k, c] == old(m[k, c])
    {
      ghost var before, next := dst[..], Row(m, j);
      var u := src[i];
      var c := Digit(u, j);
      ScatterStep(s, i, before, j, next);
      dst[m[j, c]] := u;
      m[j, c] := m[j, c] + 1;
      assert dst[..] == before[next[c] := u] && Row(m, j) == next[c := next[c] + 1];
      i := i + 1;
    }
    ScatterDone(s, dst[..], j, Row(m, j), MATRIX_COLS);
    GroupsFillAll(s, j);
    assert dst[..][..count] == dst[..count];
  }

  function Rounds(fpSize: nat): nat {
    ((if fpSize == 0 then 1 else fpSize) + 7) / 8
  }

  /** Returns whichever buffer the sorted elements end in. */
  method Sort(data: array<nat>, m: array2<nat>, temp: array<nat>, count: nat, fpSize: nat)
    returns (result: array<nat>)
    requires Matrix(m) && data != temp && count <= data.Length && count <= temp.Length && fpSize <= 32
    requires forall j, c | 0 <= j < MATRIX_ROWS && 0 <= c < MATRIX_COLS :: m[j, c] == 0
    requires forall i | 0 <= i < count :: data[i] < Pow2(8 * Rounds(fpSize))
    modifies data, m, temp
    ensures result == data || result == temp
    ensures Sorted(result[..count])
    ensures multiset(result[..count]) == multiset(old(data[..count]))
  {
    hide Start, OfDigit, ByDigit, Pow2, Rounds, SortedBelow, LowBits;
    var rounds := Rounds(fpSize);
    ghost var s := data[..count];
    assert rounds <= MATRIX_ROWS by { RoundsBound(fpSize); }
    Histograms(data, m, count, rounds);
    ToIndices(m, rounds, s);
    var dst, src := temp, data;
    NothingBelow(s);
    var j := 0;
    while j < rounds
      invariant 0 <= j <= rounds
      invariant (src == data && dst == temp) || (src == temp && dst == data)
      invariant multiset(src[..count]) == multiset(s)
      invariant SortedBelow(src[..count], 8 * j)
      invariant forall k, c | j <= k < rounds && 0 <= c < MATRIX_COLS :: m[k, c] == Start(s, k, c)
    {
      ghost var t := src[..count];
      forall c | 0 <= c < MATRIX_COLS ensures m[j, c] == Start(t, j, c) {
        StartIsHistogram(s, t, j, c);
      }
      Pass(src, dst, m, count, j);
      ByDigitSorted(t, j, MATRIX_COLS);
      ByDigitPermutes(t, j);
      src, dst := dst, src;
      j := j + 1;
    }
    result := src;
    SortedAltogether(result[..count], s, 8 * rounds);
  }

  lemma RoundsBound(fpSize: nat)
    requires fpSize <= 32
    ensures 1 <= Rounds(fpSize) <= MATRIX_ROWS && fpSize <= 8 * Rounds(fpSize)
  {
  }

  lemma NothingBelow(s: seq<nat>)
    ensures SortedBelow(s, 8 * 0)
  {
    assert Pow2(0) == 1;
  }

  lemma StartIsHistogram(s: seq<nat>, t: seq<nat>, j: nat, c: nat)
    requires multiset(s) == multiset(t)
    ensures Start(s, j, c) == Start(t, j, c)
  {
    StartsPermute(s, t, j, c);
  }

  lemma SortedAltogether(r: seq<nat>, s: seq<nat>, bits: nat)
    requires SortedBelow(r, bits) && multiset(r) == multiset(s)
    requires forall i | 0 <= i < |s| :: s[i] < Pow2(bits)
    ensures Sorted(r)
  {
    forall i | 0 <= i < |r| ensures LowBits(r[i], bits) == r[i] {
      assert r[i] in multiset(r);
      assert r[i] in s;
      SmallMod(r[i], Pow2(bits));
    }
  }

  // ----- removal of duplicates

  ghost predicate StrictlySorted(s: seq<nat>) {
    forall i, k | 0 <= i < k < |s| :: s[i] < s[k]
  }

  ghost predicate SameElements(s: seq<nat>, t: seq<nat>) {
    forall x :: x in s <==> x in t
  }

  lemma SameWithOneMore(a: seq<nat>, b: seq<nat>, x: nat)
    requires SameElements(a, b)
    ensures SameElements(a + [x], b + [x])
    ensures x in a ==> SameElements(a, b + [x])
  {
  }

  lemma Neighbours(s: seq<nat>, i: nat)
    requires Sorted(s) && i < |s|
    ensures i > 0 ==> s[i - 1] <= s[i]
  {
  }

  /** The loop that keeps one of each fingerprint, in place. */
  method Dedup(fps: array<nat>, count: nat) returns (unique: nat)
    requires count <= fps.Length && Sorted(fps[..count])
    modifies fps
    ensures unique <= count && (count > 0 ==> unique > 0)
    ensures StrictlySorted(fps[..unique])
    ensures SameElements(fps[..unique], old(fps[..count]))
  {
    ghost var s := fps[..count];
    var dst, src := 0, 0;
    unique := count;
    assert SameElements(fps[..0], s[..0]);
    hide SameElements, Sorted;
    while src != count
      invariant 0 <= dst <= src <= count && unique == count - (src - dst)
      invariant src > 0 ==> dst > 0 && fps[dst - 1] == s[src - 1]
      invariant forall k | src <= k < count :: fps[k] == s[k]
      invariant forall i, k | 0 <= i < k < dst :: fps[i] < fps[k]
      invariant SameElements(fps[..dst], s[..src])
      decreases count - src
    {
      ghost var before := fps[..dst];
      fps[dst] := fps[src];
      assert s[..src + 1] == s[..src] + [s[src]];
      assert fps[..dst + 1] == before + [s[src]];
      assert fps[..dst] == before;
      Neighbours(s, src);
      SameWithOneMore(before, s[..src], s[src]);
      if dst == 0 || fps[dst] != fps[dst - 1] {
        dst := dst + 1;
      } else {
        assert s[src] == before[dst - 1];
        unique := unique - 1;
      }
      src := src + 1;
    }
    assert s[..count] == s;
  }
}
