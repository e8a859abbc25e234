/** Looking fingerprints up in a routing filter. */
module RoutingFilter {
  import opened Words
  import PackedArray
  import opened BucketEncoding
  import opened FilterModel

  // ----- routing_filter_lookup

  /** Bucket and index of a fingerprint are in range. */
  lemma FingerprintInRange(cfg: Config, l: Layout, fp: nat, value: nat)
    requires cfg.fingerprintSize == l.remainderSize + l.logIndexSize + l.logNumIndices
    requires fp < Pow2(cfg.fingerprintSize) && value < Pow2(l.valueSize)
    ensures var bucket := RightShift(fp, l.remainderSize);
            var x := LeftShift(fp, l.valueSize) + value;
            && RightShift(x, l.ItemSize()) == bucket
            && RightShift(x, l.ItemSize() + l.logIndexSize) == RightShift(bucket, l.logIndexSize) < l.NumIndices()
  {
    hide Pow2, RightShift, LeftShift;
    ItemParts(fp, value, l.remainderSize, l.valueSize);
    RightShiftTwice(LeftShift(fp, l.valueSize) + value, l.ItemSize(), l.logIndexSize);
    RightShiftTwice(fp, l.remainderSize, l.logIndexSize);
    RightShiftBound(fp, l.remainderSize + l.logIndexSize, l.logNumIndices);
  }

  /** In its bucket, an item has a fingerprint and a value exactly if its stored part says so. */
  lemma ItemMatches(fp: nat, item: nat, remainderSize: nat, valueSize: nat, v: nat)
    requires RightShift(item, remainderSize + valueSize) == RightShift(fp, remainderSize)
    requires v < Pow2(valueSize)
    ensures var r := LowBits(item, remainderSize + valueSize);
            item == LeftShift(fp, valueSize) + v
            <==> RightShift(r, valueSize) == LowBits(fp, remainderSize) && LowBits(r, valueSize) == v
  {
    hide Pow2, RightShift, LeftShift, LowBits;
    var n := remainderSize + valueSize;
    var r, s := LowBits(item, n), LowBits(fp, remainderSize);
    ItemParts(fp, v, remainderSize, valueSize);
    Parts(item, n);
    Parts(LeftShift(fp, valueSize) + v, n);
    Parts(r, valueSize);
    if r == LeftShift(s, valueSize) + v {
      PartsUnique(r, valueSize, s, v);
    }
  }

  /** All items with a fingerprint are in one bucket of one block. */
  lemma OnlyInItsBucket(l: Layout, i: nat, block: Block, b: BlockContents, p: nat, bucket: nat)
    requires BlockHolds(l, i, block, b) && p < |b.items|
    requires RightShift(b.items[p], l.ItemSize()) == bucket
    ensures i == RightShift(bucket, l.logIndexSize)
    ensures InGroup(b.counts, LowBits(bucket, l.logIndexSize), p)
  {
    var c := SomeGroup(b.counts, p);
    hide RightShift, LeftShift, LowBits;
    assert RightShift(b.items[p], l.ItemSize()) == LeftShift(i, l.logIndexSize) + c;
    PartsUnique(bucket, l.logIndexSize, i, c);
  }

  /** routing_filter_lookup: the values stored with the fingerprint of a key, given by its hash. */
  method Lookup(cfg: Config, filter: Filter, hash: nat, ghost contents: seq<BlockContents>)
    returns (found: set<nat>)
    requires cfg.Valid() && hash < Pow2(32)
    requires if filter.blocks == [] then contents == [] else FilterHolds(cfg, filter, contents)
    ensures forall v: nat :: v in found <==> InFilter(filter, contents, Fingerprint(cfg, hash), v)
  {
    found := {};
    if filter.blocks == [] {
      return;
    }
    var fp := Fingerprint(cfg, hash);
    hide Pow2, Sum, RightShift, LeftShift, LowBits;
    RightShiftBound(hash, 32 - cfg.fingerprintSize, cfg.fingerprintSize);
    var l := LayoutOf(cfg, filter.numFingerprints, filter.valueSize);
    FingerprintInRange(cfg, l, fp, 0);
    var bucket := RightShift(LeftShift(fp, l.valueSize), l.ItemSize());
    var bucketOff := LowBits(bucket, l.logIndexSize);
    var index := RightShift(LeftShift(fp, l.valueSize), l.ItemSize() + l.logIndexSize);
    var remainder := LowBits(fp, l.remainderSize);
    var block := filter.blocks[index];
    ghost var b := contents[index];
    BlockFacts(cfg, filter, contents, index);
    hide FilterHolds, InFilter, BlockHolds, Fits, LayoutOf;
    var encodingSize := (block.numRemainders + l.IndexSize() - 1) / 8 + 4;
    var start, end := GetBucketBounds(block.encoding, encodingSize + 2, bucketOff, b.counts);
    PartsOf(RightShift(fp, l.remainderSize), l.logIndexSize, index, bucketOff);
    found := SearchBucket(l, index, block, start, end, fp, remainder, b, bucketOff);
    forall v: nat ensures v in found <==> InFilter(filter, contents, fp, v) {
      FoundExactly(cfg, filter, contents, l, index, start, end, fp, v, bucketOff);
    }
  }

  lemma PartsOf(x: nat, k: nat, high: nat, low: nat)
    requires high == RightShift(x, k) && low == LowBits(x, k)
    ensures x == LeftShift(high, k) + low
  {
    Parts(x, k);
  }

  lemma BlockFacts(cfg: Config, filter: Filter, contents: seq<BlockContents>, index: nat)
    requires FilterHolds(cfg, filter, contents) && index < |contents|
    ensures var l := LayoutOf(cfg, filter.numFingerprints, filter.valueSize);
            var block, b := filter.blocks[index], contents[index];
            && BlockHolds(l, index, block, b)
            && |b.counts| == l.IndexSize() && Encodes(block.encoding, b.counts)
            && |Encode(b.counts)| == block.numRemainders + l.IndexSize()
            && l.ItemSize() <= 32
  {
  }

  ghost predicate AmongItems(items: seq<nat>, start: nat, end: nat, x: nat) {
    exists p | start <= p < end && p < |items| :: items[p] == x
  }

  lemma FoundExactly(cfg: Config, filter: Filter, contents: seq<BlockContents>, l: Layout, index: nat,
                     start: nat, end: nat, fp: nat, v: nat, bucketOff: nat)
    requires FilterHolds(cfg, filter, contents)
    requires l == LayoutOf(cfg, filter.numFingerprints, filter.valueSize)
    requires index == RightShift(RightShift(fp, l.remainderSize), l.logIndexSize) < |contents|
    requires bucketOff == LowBits(RightShift(fp, l.remainderSize), l.logIndexSize)
    requires var b := contents[index];
             && |b.counts| == l.IndexSize()
             && start == Sum(b.counts[..bucketOff]) && end == Sum(b.counts[..bucketOff + 1])
    ensures InFilter(filter, contents, fp, v)
       <==> v < Pow2(l.valueSize) && AmongItems(contents[index].items, start, end, LeftShift(fp, l.valueSize) + v)
  {
    hide Sum, RightShift, LeftShift, LowBits, Pow2, Encode;
    var x := LeftShift(fp, l.valueSize) + v;
    if v < Pow2(l.valueSize) && InContents(contents, x) {
      var i :| 0 <= i < |contents| && x in contents[i].items;
      var p :| 0 <= p < |contents[i].items| && contents[i].items[p] == x;
      ItemParts(fp, v, l.remainderSize, l.valueSize);
      BlockFacts(cfg, filter, contents, i);
      hide BlockHolds, FilterHolds;
      OnlyInItsBucket(l, i, filter.blocks[i], contents[i], p, RightShift(fp, l.remainderSize));
    }
  }

  /** The loop over a bucket, from its last item to its first. */
  method SearchBucket(l: Layout, index: nat, block: Block, start: nat, end: nat, fp: nat, remainder: nat,
                      ghost b: BlockContents, ghost c: nat)
    returns (found: set<nat>)
    requires BlockHolds(l, index, block, b) && l.ItemSize() <= 32
    requires c < |b.counts| && start == Sum(b.counts[..c]) && end == Sum(b.counts[..c + 1])
    requires RightShift(fp, l.remainderSize) == LeftShift(index, l.logIndexSize) + c && remainder == LowBits(fp, l.remainderSize)
    ensures forall v: nat :: v in found <==>
              v < Pow2(l.valueSize) && AmongItems(b.items, start, end, LeftShift(fp, l.valueSize) + v)
  {
    SumNext(b.counts, c);
    SumSplit(b.counts, c + 1);
    hide Pow2, Sum, RightShift, LeftShift, LowBits;
    found := {};
    var i := 0;
    while i < end - start
      invariant 0 <= i <= end - start
      invariant forall v: nat :: v in found <==>
        v < Pow2(l.valueSize) && AmongItems(b.items, end - i, end, LeftShift(fp, l.valueSize) + v)
    {
      var pos := end - i - 1;
      var item := b.items[pos];
      assert InGroup(b.counts, c, pos);
      assert RightShift(item, l.ItemSize()) == LeftShift(index, l.logIndexSize) + c;
      assert RemainderAt(l, block.remainders, pos, item);
      hide BlockHolds;
      var r := StoredPart(l, block.remainders, pos, item);
      ghost var before := found;
      if RightShift(r, l.valueSize) == remainder {
        found := found + {LowBits(r, l.valueSize)};
      }
      forall v: nat
        ensures v in found <==>
          v < Pow2(l.valueSize) && AmongItems(b.items, pos, end, LeftShift(fp, l.valueSize) + v)
      {
        if v < Pow2(l.valueSize) {
          ItemMatches(fp, item, l.remainderSize, l.valueSize, v);
        }
        assert v in before <==>
          v < Pow2(l.valueSize) && AmongItems(b.items, pos + 1, end, LeftShift(fp, l.valueSize) + v);
        AmongNext(b.items, pos, end, LeftShift(fp, l.valueSize) + v);
      }
      i := i + 1;
    }
  }

  lemma AmongNext(items: seq<nat>, pos: nat, end: nat, x: nat)
    requires pos < end && pos < |items|
    ensures AmongItems(items, pos, end, x) <==> items[pos] == x || AmongItems(items, pos + 1, end, x)
  {
  }

  /** routing_filter_get_remainder_and_value */
  method StoredPart(l: Layout, remainders: seq<Word>, pos: nat, ghost item: nat) returns (r: nat)
    requires RemainderAt(l, remainders, pos, item) && l.ItemSize() <= 32 && remainders != []
    ensures r == LowBits(item, l.ItemSize())
  {
    var word := PackedArray.Get(remainders, pos, l.ItemSize());
    PackedArray.HoldsUnique(remainders, pos, l.ItemSize(), word, ToWord(LowBits(item, l.ItemSize())));
    Pow2Monotone(l.ItemSize(), 32);
    ToWordValue(LowBits(item, l.ItemSize()), 32);
    SmallMod(LowBits(item, l.ItemSize()), Pow2(32));
    r := Value(word, 32);
  }
}
