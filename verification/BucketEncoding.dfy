/** The unary encoding of bucket sizes in a filter block: a zero bit for each remainder, and a
    one bit at the end of each bucket. */
module BucketEncoding {

  function Sum(counts: seq<nat>): nat {
    if counts == [] then 0 else Sum(counts[..|counts| - 1]) + counts[|counts| - 1]
  }

  function Repeat<T>(x: T, n: nat): (r: seq<T>)
    ensures |r| == n && forall i | 0 <= i < n :: r[i] == x
  {
    seq(n, i => x)
  }

  function Encode(counts: seq<nat>): (bits: seq<bool>)
    ensures |bits| == Sum(counts) + |counts|
    ensures counts != [] ==> bits != [] && bits[|bits| - 1]
  {
    if counts == [] then []
    else Encode(counts[..|counts| - 1]) + Repeat(false, counts[|counts| - 1]) + [true]
  }

  /** The position of the bit that ends bucket b. */
  function EndOf(counts: seq<nat>, b: nat): nat
    requires b < |counts|
  {
    Sum(counts[..b + 1]) + b
  }

  /** The number of ones among the first t bits. */
  function Ones(bits: seq<bool>, t: nat): nat
    requires t <= |bits|
  {
    if t == 0 then 0 else Ones(bits, t - 1) + if bits[t - 1] then 1 else 0
  }

  lemma {:induction false} OnesMonotone(bits: seq<bool>, s: nat, t: nat)
    requires s <= t <= |bits|
    ensures Ones(bits, s) <= Ones(bits, t)
  {
    if s < t {
      OnesMonotone(bits, s, t - 1);
    }
  }

  lemma {:induction false} NoOnes(bits: seq<bool>, s: nat, t: nat)
    requires s <= t <= |bits| && forall i | s <= i < t :: !bits[i]
    ensures Ones(bits, s) == Ones(bits, t)
  {
    if s < t {
      NoOnes(bits, s, t - 1);
    }
  }

  lemma {:induction false} OnesPrefix(a: seq<bool>, b: seq<bool>, t: nat)
    requires t <= |a| && t <= |b| && forall i | 0 <= i < t :: a[i] == b[i]
    ensures Ones(a, t) == Ones(b, t)
  {
    if t > 0 {
      OnesPrefix(a, b, t - 1);
    }
  }

  lemma {:induction false} SumSplit(counts: seq<nat>, b: nat)
    requires b <= |counts|
    ensures Sum(counts[..b]) <= Sum(counts)
  {
    if b == |counts| {
      assert counts[..b] == counts;
    } else {
      assert counts[..|counts| - 1][..b] == counts[..b];
      SumSplit(counts[..|counts| - 1], b);
    }
  }

  lemma SumNext(counts: seq<nat>, b: nat)
    requires b < |counts|
    ensures Sum(counts[..b + 1]) == Sum(counts[..b]) + counts[b]
  {
    assert counts[..b + 1][..b] == counts[..b];
  }

  lemma EncodeUnfolds(counts: seq<nat>)
    requires counts != []
    ensures var n := |counts| - 1;
            Encode(counts) == Encode(counts[..n]) + (Repeat(false, counts[n]) + [true])
  {
  }

  lemma BitsOfParts(bits: seq<bool>, front: seq<bool>, zeros: nat)
    requires front + (Repeat(false, zeros) + [true]) <= bits
    ensures front <= bits
    ensures forall i | |front| <= i < |front| + zeros :: !bits[i]
    ensures |front| + zeros < |bits| && bits[|front| + zeros]
  {
    var all := front + (Repeat(false, zeros) + [true]);
    assert forall i | 0 <= i < |all| :: bits[i] == all[i];
  }

  lemma EncodeParts(counts: seq<nat>, bits: seq<bool>)
    requires counts != [] && Encode(counts) <= bits
    ensures var n := |counts| - 1;
            var p := |Encode(counts[..n])|;
            && Encode(counts[..n]) <= bits && p + counts[n] + 1 == |Encode(counts)| <= |bits|
            && (forall i | p <= i < p + counts[n] :: !bits[i])
            && bits[p + counts[n]]
  {
    hide Encode, Sum;
    var n := |counts| - 1;
    EncodeUnfolds(counts);
    BitsOfParts(bits, Encode(counts[..n]), counts[n]);
  }

  /** Bit EndOf(b) is the one that is preceded by b ones. */
  lemma {:induction false} EndIsOne(counts: seq<nat>, bits: seq<bool>, b: nat)
    requires Encode(counts) <= bits && b < |counts|
    ensures EndOf(counts, b) < |Encode(counts)| && bits[EndOf(counts, b)] && Ones(bits, EndOf(counts, b)) == b
  {
    var n := |counts| - 1;
    EncodeParts(counts, bits);
    SumSplit(counts, b + 1);
    SumNext(counts, n);
    assert counts[..n + 1] == counts;
    hide Encode, Sum;
    if b < n {
      EndIsOne(counts[..n], bits, b);
      assert counts[..n][..b + 1] == counts[..b + 1];
    } else {
      var p := |Encode(counts[..n])|;
      if n > 0 {
        EndIsOne(counts[..n], bits, n - 1);
        assert counts[..n][..n] == counts[..n];
        assert Ones(bits, p) == n;
      }
      hide Ones;
      NoOnes(bits, p, p + counts[n]);
    }
  }

  lemma NoCounts(counts: seq<nat>)
    ensures Sum(counts[..0]) == 0
  {
  }

  lemma EndOfIs(counts: seq<nat>)
    ensures forall b | 0 <= b < |counts| :: EndOf(counts, b) == Sum(counts[..b + 1]) + b
  {
  }

  lemma FirstOnes(bits: seq<bool>)
    ensures Ones(bits, 0) == 0
  {
  }

  lemma OnesGrow(bits: seq<bool>, p: nat, q: nat)
    requires p < q <= |bits| && bits[p]
    ensures Ones(bits, p) < Ones(bits, q)
  {
    OnesMonotone(bits, p + 1, q);
  }

  lemma NthOne(bits: seq<bool>, p: nat, q: nat)
    requires p < |bits| && q < |bits| && bits[p] && bits[q] && Ones(bits, p) == Ones(bits, q)
    ensures p == q
  {
    hide Ones;
    if p < q {
      OnesGrow(bits, p, q);
    } else if q < p {
      OnesGrow(bits, q, p);
    }
  }

  /** A one that is preceded by b ones ends bucket b. */
  lemma EndIsUnique(counts: seq<nat>, bits: seq<bool>, b: nat, p: nat)
    requires Encode(counts) <= bits && b < |counts|
    requires p < |bits| && bits[p] && Ones(bits, p) == b
    ensures p == EndOf(counts, b)
  {
    hide Ones, Encode, EndOf;
    EndIsOne(counts, bits, b);
    NthOne(bits, p, EndOf(counts, b));
  }

  /** There are b ones up to a position exactly if it lies in bucket b. */
  lemma OnesBound(counts: seq<nat>, bits: seq<bool>, b: nat, t: nat)
    requires Encode(counts) <= bits && b < |counts| && t <= |bits|
    ensures Ones(bits, t) <= b <==> t <= EndOf(counts, b)
  {
    EndIsOne(counts, bits, b);
    var e := EndOf(counts, b);
    assert Ones(bits, e + 1) == b + 1;
    hide Ones, Encode, EndOf;
    if t <= e {
      OnesMonotone(bits, t, e);
    } else {
      OnesMonotone(bits, e + 1, t);
    }
  }

  // ----- words

  predicate IsZero(word: seq<bool>) {
    forall i | 0 <= i < |word| :: !word[i]
  }

  /** `__builtin_ffs(word) - 1` */
  function LowestOne(word: seq<bool>): (i: nat)
    requires !IsZero(word)
    ensures i < |word| && word[i] && forall k | 0 <= k < i :: !word[k]
  {
    if word[0] then 0 else
      assert !IsZero(word[1..]) by {
        var k :| 0 <= k < |word| && word[k];
        assert word[1..][k - 1];
      }
      1 + LowestOne(word[1..])
  }

  /** `word & (word - 1)` */
  function ClearLowest(word: seq<bool>): (r: seq<bool>)
    requires !IsZero(word)
    ensures |r| == |word|
  {
    word[LowestOne(word) := false]
  }

  /** What is left of the word of `bits` at `base` when the bits in front of `from` are cleared. */
  ghost predicate Cleared(bits: seq<bool>, base: nat, word: seq<bool>, from: nat) {
    && base + |word| <= |bits| && from <= |word|
    && forall i | 0 <= i < |word| :: word[i] == (i >= from && bits[base + i])
  }

  /** The lowest one of what is left is the next one of the bits. */
  lemma NextOne(bits: seq<bool>, base: nat, word: seq<bool>, from: nat)
    requires Cleared(bits, base, word, from)
    ensures IsZero(word) ==> Ones(bits, base + |word|) == Ones(bits, base + from)
    ensures !IsZero(word) ==>
      var p := LowestOne(word);
      && from <= p && bits[base + p] && Ones(bits, base + p) == Ones(bits, base + from)
      && Cleared(bits, base, ClearLowest(word), p + 1)
      && Ones(bits, base + p + 1) == Ones(bits, base + from) + 1
  {
    if IsZero(word) {
      forall i | base + from <= i < base + |word| ensures !bits[i] {
        assert !word[i - base];
      }
      NoOnes(bits, base + from, base + |word|);
    } else {
      var p := LowestOne(word);
      assert from <= p && bits[base + p];
      forall i | base + from <= i < base + p ensures !bits[i] {
        assert !word[i - base];
      }
      NoOnes(bits, base + from, base + p);
    }
  }

  lemma {:induction false} PopCount(bits: seq<bool>, base: nat, n: nat)
    requires base + n <= |bits|
    ensures Ones(bits, base + n) == Ones(bits, base) + Ones(bits[base..base + n], n)
  {
    if n > 0 {
      PopCount(bits, base, n - 1);
      OnesPrefix(bits[base..base + n], bits[base..base + n - 1], n - 1);
    }
  }

  /** Memory that starts with the encoding and can be read in words of 32 and 64 bits. */
  ghost predicate Encodes(bits: seq<bool>, counts: seq<nat>) {
    counts != [] && Encode(counts) <= bits && |bits| % 64 == 0
  }

  lemma WholeWord(bits: seq<bool>, base: nat, width: nat)
    requires base + width <= |bits|
    ensures Cleared(bits, base, bits[base..base + width], 0)
  {
  }

  function WordAt(bits: seq<bool>, word: nat): seq<bool>
    requires 32 * word + 32 <= |bits|
  {
    bits[32 * word..32 * word + 32]
  }

  /** Skips empty words, as in `while (encoding_word == 0)`. */
  method NextNonzero(bits: seq<bool>, word: nat, encodingWord: seq<bool>, ghost from: nat,
                     ghost counts: seq<nat>, ghost b: nat)
    returns (word': nat, bitOffset: nat)
    requires Encodes(bits, counts) && b < |counts|
    requires |encodingWord| == 32 && 32 * word + 32 <= |bits| && from <= 32
    requires Cleared(bits, 32 * word, encodingWord, from) && Ones(bits, 32 * word + from) == b
    ensures 32 * word' + bitOffset == EndOf(counts, b)
  {
    hide Ones, Encode, Cleared, EndOf, Sum;
    EndIsOne(counts, bits, b);
    word' := word;
    var w := encodingWord;
    ghost var f := from;
    while IsZero(w)
      invariant |w| == 32 && 32 * word' + 32 <= |bits| && f <= 32
      invariant Cleared(bits, 32 * word', w, f) && Ones(bits, 32 * word' + f) == b
      decreases |bits| - 32 * word'
    {
      NextOne(bits, 32 * word', w, f);
      OnesBound(counts, bits, b, 32 * word' + 32);
      word' := word' + 1;
      w := WordAt(bits, word');
      f := 0;
      WholeWord(bits, 32 * word', 32);
    }
    NextOne(bits, 32 * word', w, f);
    bitOffset := LowestOne(w);
    EndIsUnique(counts, bits, b, 32 * word' + bitOffset);
  }

  /** Skips whole words by their population count, up to the one that holds the n-th one. */
  method SkipWords(bits: seq<bool>, len: nat, n: nat, ghost counts: seq<nat>)
    returns (word: nat, bucket: nat)
    requires Encodes(bits, counts) && 0 < n < |counts| && |Encode(counts)| <= 8 * len
    ensures 32 * word + 32 <= |bits|
    ensures bucket == Ones(bits, 32 * word) < n <= Ones(bits, 32 * word + 32)
  {
    hide Ones, Encode, EndOf;
    EndIsOne(counts, bits, n - 1);
    FirstOnes(bits);
    word, bucket := 0, 0;
    var bucketPop := Ones(WordAt(bits, word), 32);
    PopCount(bits, 0, 32);
    while 4 * word < len && bucket + bucketPop < n
      invariant 32 * word + 32 <= |bits|
      invariant bucket == Ones(bits, 32 * word) < n
      invariant bucket + bucketPop == Ones(bits, 32 * word + 32)
      decreases |bits| - 32 * word
    {
      OnesBound(counts, bits, n - 1, 32 * word + 32);
      bucket := bucket + bucketPop;
      word := word + 1;
      bucketPop := Ones(WordAt(bits, word), 32);
      PopCount(bits, 32 * word, 32);
    }
    OnesBound(counts, bits, n - 1, 32 * word + 32);
    OnesBound(counts, bits, n - 1, 32 * word);
  }

  /** Clears the ones in front of the n-th one. */
  method ClearUntil(bits: seq<bool>, word: nat, bucket: nat, n: nat)
    returns (encodingWord: seq<bool>, ghost from: nat)
    requires 32 * word + 32 <= |bits|
    requires bucket == Ones(bits, 32 * word) < n <= Ones(bits, 32 * word + 32)
    ensures |encodingWord| == 32 && from <= 32 && Cleared(bits, 32 * word, encodingWord, from)
    ensures Ones(bits, 32 * word + from) == n - 1 && !IsZero(encodingWord)
  {
    hide Ones, Cleared, IsZero;
    encodingWord := WordAt(bits, word);
    WholeWord(bits, 32 * word, 32);
    from := 0;
    var b := bucket;
    while b < n - 1
      invariant |encodingWord| == 32 && from <= 32 && Cleared(bits, 32 * word, encodingWord, from)
      invariant b == Ones(bits, 32 * word + from) <= n - 1
    {
      NextOne(bits, 32 * word, encodingWord, from);
      from := LowestOne(encodingWord) + 1;
      encodingWord := ClearLowest(encodingWord);
      b := b + 1;
    }
    NextOne(bits, 32 * word, encodingWord, from);
  }

  /** routing_get_bucket_bounds: the prefix sums on both sides of a bucket. */
  method GetBucketBounds(bits: seq<bool>, len: nat, bucketOffset: nat, ghost counts: seq<nat>)
    returns (start: nat, end: nat)
    requires Encodes(bits, counts) && bucketOffset < |counts| && |Encode(counts)| <= 8 * len
    ensures start == Sum(counts[..bucketOffset]) && end == Sum(counts[..bucketOffset + 1])
  {
    hide Ones, Encode, Cleared, IsZero, Sum, EndOf;
    NoCounts(counts);
    EndOfIs(counts);
    EndIsOne(counts, bits, bucketOffset);
    var word: nat, bitOffset: nat := 0, 0;
    if bucketOffset == 0 {
      start := 0;
      WholeWord(bits, 0, 32);
      FirstOnes(bits);
      word, bitOffset := NextNonzero(bits, 0, WordAt(bits, 0), 0, counts, 0);
      end := 32 * word + bitOffset;
    } else {
      EndIsOne(counts, bits, bucketOffset - 1);
      var bucket;
      word, bucket := SkipWords(bits, len, bucketOffset, counts);
      var encodingWord;
      ghost var from;
      encodingWord, from := ClearUntil(bits, word, bucket, bucketOffset);
      NextOne(bits, 32 * word, encodingWord, from);
      bitOffset := LowestOne(encodingWord);
      EndIsUnique(counts, bits, bucketOffset - 1, 32 * word + bitOffset);
      start := 32 * word + bitOffset - bucketOffset + 1;
      encodingWord := ClearLowest(encodingWord);
      word, bitOffset := NextNonzero(bits, word, encodingWord, bitOffset + 1, counts, bucketOffset);
      end := 32 * word + bitOffset - bucketOffset;
    }
  }

  /** routing_get_bucket_counts: the encoding round-trips. */
  method GetBucketCounts(bits: seq<bool>, indexSize: nat, ghost counts: seq<nat>) returns (count: seq<nat>)
    requires Encodes(bits, counts) && indexSize == |counts|
    ensures count == counts
  {
    hide Ones, Encode, Cleared, IsZero, Sum, EndOf;
    NoCounts(counts);
    EndOfIs(counts);
    EndIsOne(counts, bits, 0);
    FirstOnes(bits);
    WholeWord(bits, 0, 64);
    count := [];
    var start: nat := 0;
    ghost var base: nat := 0;
    var cursor: nat := 1;
    var word := bits[0..64];
    while |count| < indexSize
      invariant |count| <= indexSize && count == counts[..|count|]
      invariant cursor >= 1 && base == 64 * (cursor - 1) && base + 64 <= |bits|
      invariant |word| == 64 && start <= 64 && Cleared(bits, base, word, start)
      invariant Ones(bits, base + start) == |count|
      invariant base + start == Sum(counts[..|count|]) + |count|
      decreases indexSize - |count|
    {
      var i := |count|;
      var size: nat := 0;
      EndIsOne(counts, bits, i);
      SumNext(counts, i);
      while IsZero(word)
        invariant cursor >= 1 && base == 64 * (cursor - 1) && base + 64 <= |bits|
        invariant |word| == 64 && start <= 64 && Cleared(bits, base, word, start)
        invariant Ones(bits, base + start) == i
        invariant base + start == Sum(counts[..i]) + i + size
        decreases |bits| - base
      {
        NextOne(bits, base, word, start);
        OnesBound(counts, bits, i, base + 64);
        size := size + 64 - start;
        start := 0;
        word := bits[64 * cursor..64 * cursor + 64];
        cursor := cursor + 1;
        base := base + 64;
        WholeWord(bits, base, 64);
      }
      NextOne(bits, base, word, start);
      var end := LowestOne(word);
      EndIsUnique(counts, bits, i, base + end);
      word := ClearLowest(word);
      size := size + end - start;
      start := end + 1;
      assert counts[..i + 1] == counts[..i] + [counts[i]];
      count := count + [size];
    }
    assert counts[..indexSize] == counts;
  }

  // ----- writing the encoding

  /** The buffer holds the encoding of the buckets so far, the last of which is still open, and
      only ones behind it. */
  ghost predicate Written(buffer: seq<bool>, counts: seq<nat>) {
    && counts != [] && Encode(counts) <= buffer
    && forall i | |Encode(counts)| <= i < |buffer| :: buffer[i]
  }

  lemma WriteFirst(buffer: seq<bool>)
    requires buffer != [] && forall i | 0 <= i < |buffer| :: buffer[i]
    ensures Written(buffer, [0]) && |Encode([0])| == 1
  {
    assert [0][..0] == [];
    assert Encode([0]) == [] + Repeat(false, 0) + [true] == [true];
  }

  /** Skipping to a later bucket leaves the ones of the buckets in between. */
  lemma {:induction false} WriteSkip(buffer: seq<bool>, counts: seq<nat>, d: nat)
    requires Written(buffer, counts) && |Encode(counts)| + d <= |buffer|
    ensures Written(buffer, counts + Repeat(0, d))
    ensures |Encode(counts + Repeat(0, d))| == |Encode(counts)| + d
    ensures Sum(counts + Repeat(0, d)) == Sum(counts)
  {
    if d == 0 {
      assert counts + Repeat(0, 0) == counts;
    } else {
      WriteSkip(buffer, counts, d - 1);
      var before, after := counts + Repeat(0, d - 1), counts + Repeat(0, d);
      assert after == before + [0] && after[..|after| - 1] == before;
      EncodeUnfolds(after);
      assert Sum(after) == Sum(before) + 0;
      hide Encode, Sum;
      assert Encode(after) == Encode(before) + (Repeat(false, 0) + [true]) == Encode(before) + [true];
    }
  }

  /** Unsetting the bit that ends the open bucket adds a remainder to it. */
  lemma WriteItem(buffer: seq<bool>, counts: seq<nat>)
    requires Written(buffer, counts) && |Encode(counts)| < |buffer|
    ensures var n := |counts| - 1;
            var bit := |Encode(counts)| - 1;
            var counts' := counts[n := counts[n] + 1];
            && Written(buffer[bit := false], counts')
            && |Encode(counts')| == bit + 2 && Sum(counts') == Sum(counts) + 1
  {
    var n := |counts| - 1;
    var bit := |Encode(counts)| - 1;
    var counts' := counts[n := counts[n] + 1];
    assert counts'[..n] == counts[..n];
    assert Repeat(false, counts[n] + 1) == Repeat(false, counts[n]) + [false];
    assert Encode(counts') == Encode(counts)[..bit] + [false, true];
  }
}
