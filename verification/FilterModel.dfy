/** The layout of a routing filter: a quotient filter of (fingerprint, value) pairs, cut into one
    block for each index. */
module FilterModel {
  import opened Words
  import PackedArray
  import opened BucketEncoding

  /** `logIndexSize` is at least 1: with 0 a filter of one fingerprint could need a shift by 32. */
  datatype Config = Config(fingerprintSize: nat, logIndexSize: nat) {
    ghost predicate Valid() {
      1 <= logIndexSize && fingerprintSize <= 32
    }

    function IndexSize(): nat {
      Pow2(logIndexSize)
    }
  }

  /** What a routing_hdr and the remainders behind it hold.  The bits that follow the encoding are
      whatever the page holds there. */
  datatype Block = Block(numRemainders: nat, encoding: seq<bool>, remainders: seq<Word>)

  /** `blocks` is empty for the null filter, whose address is 0. */
  datatype Filter = Filter(blocks: seq<Block>, numFingerprints: nat, valueSize: nat)

  const NULL_FILTER := Filter([], 0, 0)

  /** `31 - clz(n)`: the position of the highest one. */
  function Log2(n: nat): (l: nat)
    requires n > 0
    ensures Pow2(l) <= n < Pow2(l + 1)
  {
    if n == 1 then 0 else Log2(n / 2) + 1
  }

  lemma {:induction false} Log2Monotone(m: nat, n: nat)
    requires 0 < m <= n
    ensures Log2(m) <= Log2(n)
  {
    if Log2(m) > Log2(n) {
      Pow2Monotone(Log2(n) + 1, Log2(m));
    }
  }

  function LogBuckets(cfg: Config, numFingerprints: nat): nat
    requires numFingerprints > 0
  {
    var l := Log2(numFingerprints);
    if l < cfg.logIndexSize then cfg.logIndexSize else l
  }

  /** The sizes that a filter is laid out with: the remainder, and the remainder with the value. */
  datatype Layout = Layout(valueSize: nat, remainderSize: nat, logIndexSize: nat, logNumIndices: nat) {
    function ItemSize(): nat {
      remainderSize + valueSize
    }

    function IndexSize(): nat {
      Pow2(logIndexSize)
    }

    function NumIndices(): nat {
      Pow2(logNumIndices)
    }
  }

  /** A filter of this many fingerprints can be laid out. */
  ghost predicate Fits(cfg: Config, numFingerprints: nat, valueSize: nat) {
    && cfg.Valid() && numFingerprints > 0
    && LogBuckets(cfg, numFingerprints) <= cfg.fingerprintSize
    && cfg.fingerprintSize + valueSize <= 32
  }

  function LayoutOf(cfg: Config, numFingerprints: nat, valueSize: nat): Layout
    requires Fits(cfg, numFingerprints, valueSize)
  {
    var logNumBuckets := LogBuckets(cfg, numFingerprints);
    Layout(valueSize, cfg.fingerprintSize - logNumBuckets, cfg.logIndexSize, logNumBuckets - cfg.logIndexSize)
  }

  /** The fingerprint of a key: the upper bits of its hash. */
  function Fingerprint(cfg: Config, hash: nat): nat
    requires cfg.Valid()
  {
    RightShift(hash, 32 - cfg.fingerprintSize)
  }

  // ----- what a block holds

  ghost predicate InGroup(counts: seq<nat>, c: int, p: int) {
    0 <= c < |counts| && Sum(counts[..c]) <= p < Sum(counts[..c + 1])
  }

  /** The elements, in order, fall into groups of the given sizes; an element belongs to the group
      with the number of its upper part. */
  ghost predicate Grouped(items: seq<nat>, counts: seq<nat>, shift: nat, base: nat) {
    && Sum(counts) == |items|
    && forall c, p | InGroup(counts, c, p) && 0 <= p < |items| :: RightShift(items[p], shift) == base + c
  }

  lemma {:induction false} SomeGroup(counts: seq<nat>, p: nat) returns (c: nat)
    requires p < Sum(counts)
    ensures InGroup(counts, c, p)
  {
    var n := |counts| - 1;
    assert counts[..n + 1] == counts;
    if p >= Sum(counts[..n]) {
      c := n;
    } else {
      c := SomeGroup(counts[..n], p);
      assert counts[..n][..c] == counts[..c] && counts[..n][..c + 1] == counts[..c + 1];
    }
  }

  lemma GroupPrefix(counts: seq<nat>, more: seq<nat>, c: nat, p: nat)
    requires c < |counts|
    ensures InGroup(counts + more, c, p) <==> InGroup(counts, c, p)
  {
    assert (counts + more)[..c] == counts[..c] && (counts + more)[..c + 1] == counts[..c + 1];
  }

  lemma GroupedSkip(items: seq<nat>, counts: seq<nat>, d: nat, shift: nat, base: nat)
    requires Grouped(items, counts, shift, base) && Sum(counts + Repeat(0, d)) == Sum(counts)
    ensures Grouped(items, counts + Repeat(0, d), shift, base)
  {
    hide RightShift;
    var all := counts + Repeat(0, d);
    forall c, p | InGroup(all, c, p) && 0 <= p < |items| ensures RightShift(items[p], shift) == base + c {
      if c < |counts| {
        GroupPrefix(counts, Repeat(0, d), c, p);
      } else {
        SumNext(all, c);
      }
    }
  }

  lemma GroupedItem(items: seq<nat>, counts: seq<nat>, x: nat, shift: nat, base: nat)
    requires Grouped(items, counts, shift, base) && counts != []
    requires RightShift(x, shift) == base + |counts| - 1
    requires Sum(counts[|counts| - 1 := counts[|counts| - 1] + 1]) == Sum(counts) + 1
    ensures Grouped(items + [x], counts[|counts| - 1 := counts[|counts| - 1] + 1], shift, base)
  {
    hide RightShift;
    var n := |counts| - 1;
    var counts' := counts[n := counts[n] + 1];
    forall c, p | InGroup(counts', c, p) && 0 <= p < |items + [x]|
      ensures RightShift((items + [x])[p], shift) == base + c
    {
      assert counts'[..c] == counts[..c];
      if c < n {
        assert counts'[..c + 1] == counts[..c + 1];
        SumSplit(counts, c + 1);
        assert InGroup(counts, c, p);
      } else {
        assert counts[..n + 1] == counts;
        if p < |items| {
          assert InGroup(counts, c, p);
        }
      }
    }
  }

  /** Which elements a block holds; auxiliary. */
  datatype BlockContents = BlockContents(items: seq<nat>, counts: seq<nat>)

  predicate Ascending(s: seq<nat>) {
    forall i, k | 0 <= i < k < |s| :: s[i] <= s[k]
  }

  /** An item is a fingerprint followed by its value.  The upper part, the number of its bucket,
      is encoded; the lower part is stored. */
  ghost predicate BlockHolds(l: Layout, index: nat, block: Block, b: BlockContents) {
    && Ascending(b.items)
    && |b.counts| == l.IndexSize()
    && Grouped(b.items, b.counts, l.ItemSize(), LeftShift(index, l.logIndexSize))
    && block.numRemainders == |b.items|
    && Encodes(block.encoding, b.counts)
    && block.remainders != []
    && forall p | 0 <= p < |b.items| :: RemainderAt(l, block.remainders, p, b.items[p])
  }

  /** An item of size 0 is always there: it stands for the remainder 0. */
  ghost predicate RemainderAt(l: Layout, remainders: seq<Word>, p: nat, item: nat) {
    PackedArray.Holds(remainders, p, l.ItemSize(), ToWord(LowBits(item, l.ItemSize())))
  }

  ghost predicate FilterHolds(cfg: Config, f: Filter, contents: seq<BlockContents>) {
    && Fits(cfg, f.numFingerprints, f.valueSize)
    && var l := LayoutOf(cfg, f.numFingerprints, f.valueSize);
       && |f.blocks| == |contents| == l.NumIndices()
       && forall i | 0 <= i < |contents| :: BlockHolds(l, i, f.blocks[i], contents[i])
  }

  ghost predicate InContents(contents: seq<BlockContents>, x: nat) {
    exists i | 0 <= i < |contents| :: x in contents[i].items
  }

  /** The set of pairs that the filter represents. */
  ghost predicate InFilter(f: Filter, contents: seq<BlockContents>, fp: nat, value: nat) {
    value < Pow2(f.valueSize) && InContents(contents, LeftShift(fp, f.valueSize) + value)
  }

  /** Bucket, remainder and value of an item. */
  lemma ItemParts(fp: nat, value: nat, remainderSize: nat, valueSize: nat)
    requires value < Pow2(valueSize)
    ensures var x := LeftShift(fp, valueSize) + value;
            && RightShift(x, valueSize) == fp && LowBits(x, valueSize) == value
            && RightShift(x, remainderSize + valueSize) == RightShift(fp, remainderSize)
            && LowBits(x, remainderSize + valueSize) == LeftShift(LowBits(fp, remainderSize), valueSize) + value
  {
    hide LeftShift, RightShift, LowBits, Pow2;
    var x := LeftShift(fp, valueSize) + value;
    PartsUnique(x, valueSize, fp, value);
    var b, r := RightShift(fp, remainderSize), LowBits(fp, remainderSize);
    Parts(fp, remainderSize);
    LeftShiftAdd(LeftShift(b, remainderSize), r, valueSize);
    LeftShiftTwice(b, remainderSize, valueSize);
    JoinBound(r, value, valueSize, remainderSize);
    PartsUnique(x, remainderSize + valueSize, b, LeftShift(r, valueSize) + value);
  }
}
