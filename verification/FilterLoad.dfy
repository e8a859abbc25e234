/** Loading the blocks of an old filter, one after the other, into the buffer that they share. */
module FilterLoad {
  import opened Words
  import PackedArray
  import opened BucketEncoding
  import opened FilterModel

  // ----- `|` on uint32

  function BitOr(a: nat, b: nat): nat {
    if a == 0 then b
    else if b == 0 then a
    else 2 * BitOr(a / 2, b / 2) + if a % 2 == 1 || b % 2 == 1 then 1 else 0
  }

  /** An or of disjoint bits is a sum. */
  lemma {:induction false} OrDisjoint(low: nat, high: nat, k: nat)
    requires low < Pow2(k)
    ensures BitOr(low, LeftShift(high, k)) == low + LeftShift(high, k)
  {
    if low != 0 && high != 0 {
      var x := LeftShift(high, k - 1);
      assert LeftShift(high, k) == 2 * x by {
        assert high * (2 * Pow2(k - 1)) == 2 * (high * Pow2(k - 1));
      }
      LeftShiftMonotone(0, high, k - 1);
      OrDisjoint(low / 2, high, k - 1);
    }
  }

  // ----- what is loaded

  /** An item after its value got more bits. */
  function Widened(item: nat, oldValueSize: nat, valueSize: nat): nat {
    LeftShift(RightShift(item, oldValueSize), valueSize) + LowBits(item, oldValueSize)
  }

  /** The same on uint32: bits that are shifted out are lost. */
  function WidenedWord(item: nat, oldValueSize: nat, valueSize: nat): nat {
    LeftShift(RightShift(item, oldValueSize), valueSize) % Pow2(32) + LowBits(item, oldValueSize)
  }

  lemma WidenedSame(item: nat, valueSize: nat)
    ensures Widened(item, valueSize, valueSize) == item
  {
    Parts(item, valueSize);
  }

  /** What the buffer holds for an item after its block was loaded.  PackedArray_unpack has no case
      for items of no stored bits and leaves the buffer as it is; the bucket is or-ed into `stale`. */
  function LoadedItem(l: Layout, valueSize: nat, stale: nat, item: nat): nat {
    var size := l.ItemSize();
    var part := if size == 0 then stale else LowBits(item, size);
    var whole := BitOr(part, LeftShift(RightShift(item, size), size));
    if l.valueSize == valueSize then whole else WidenedWord(whole, l.valueSize, valueSize)
  }

  /** What the buffer holds at a position after some blocks; it was allocated with zeros. */
  ghost function Cell(l: Layout, valueSize: nat, contents: seq<BlockContents>, p: nat): nat {
    if contents == [] then 0
    else
      var n := |contents| - 1;
      var stale := Cell(l, valueSize, contents[..n], p);
      if p < |contents[n].items| then LoadedItem(l, valueSize, stale, contents[n].items[p]) else stale
  }

  /** What is loaded for the last of some blocks. */
  ghost function Loaded(l: Layout, valueSize: nat, contents: seq<BlockContents>): (r: seq<nat>)
    requires contents != []
    ensures |r| == |contents[|contents| - 1].items|
  {
    seq(|contents[|contents| - 1].items|, p requires 0 <= p => Cell(l, valueSize, contents, p))
  }

  function Elements(s: seq<nat>): set<nat> {
    set x | x in s
  }

  /** All that is loaded. */
  ghost function AllLoaded(l: Layout, valueSize: nat, contents: seq<BlockContents>): set<nat> {
    if contents == [] then {}
    else AllLoaded(l, valueSize, contents[..|contents| - 1]) + Elements(Loaded(l, valueSize, contents))
  }

  /** The same, each as often as it is there. */
  ghost function BagLoaded(l: Layout, valueSize: nat, contents: seq<BlockContents>): multiset<nat> {
    if contents == [] then multiset{}
    else BagLoaded(l, valueSize, contents[..|contents| - 1]) + multiset(Loaded(l, valueSize, contents))
  }

  lemma {:induction false} BagIsLoaded(l: Layout, valueSize: nat, contents: seq<BlockContents>, x: nat)
    ensures x in BagLoaded(l, valueSize, contents) <==> x in AllLoaded(l, valueSize, contents)
  {
    hide Loaded;
    if contents != [] {
      BagIsLoaded(l, valueSize, contents[..|contents| - 1], x);
    }
  }

  // ----- the code

  /** Unpacks a block: the stored parts of its items, if they have any. */
  method UnpackParts(l: Layout, ghost index: nat, block: Block, buffer: array<nat>, ghost b: BlockContents)
    requires BlockHolds(l, index, block, b) && l.ItemSize() <= 32 && block.numRemainders != 0
    requires |b.items| <= buffer.Length
    modifies buffer
    ensures forall p | 0 <= p < |b.items| ::
              buffer[p] == if l.ItemSize() == 0 then old(buffer[p]) else LowBits(b.items[p], l.ItemSize())
    ensures forall p | |b.items| <= p < buffer.Length :: buffer[p] == old(buffer[p])
  {
    var size, count := l.ItemSize(), block.numRemainders;
    if size == 0 {
      return;
    }
    hide Pow2, Encode, Grouped, LowBits;
    assert RemainderAt(l, block.remainders, count - 1, b.items[count - 1]);
    PackedArray.FirstBitNext(count - 1, size);
    var words := PackedArray.Unpack(block.remainders, 0, count, size);
    var p := 0;
    while p < count
      invariant 0 <= p <= count
      invariant forall k | 0 <= k < p :: buffer[k] == LowBits(b.items[k], size)
      invariant forall k | count <= k < buffer.Length :: buffer[k] == old(buffer[k])
    {
      assert PackedArray.Holds(block.remainders, 0 + p, size, words[p]);
      assert RemainderAt(l, block.remainders, p, b.items[p]);
      PackedArray.HoldsUnique(block.remainders, p, size, words[p], ToWord(LowBits(b.items[p], size)));
      StoredValue(b.items[p], size);
      buffer[p] := Value(words[p], 32);
      p := p + 1;
    }
  }

  lemma StoredValue(item: nat, size: nat)
    requires size <= 32
    ensures Value(ToWord(LowBits(item, size)), 32) == LowBits(item, size)
  {
    var v := LowBits(item, size);
    Pow2Monotone(size, 32);
    ToWordValue(v, 32);
    SmallMod(v, Pow2(32));
  }

  /** Puts the bucket of each item back above its stored part. */
  method AddBuckets(l: Layout, index: nat, buffer: array<nat>, counts: seq<nat>, ghost items: seq<nat>)
    requires |items| <= buffer.Length && |counts| == l.IndexSize()
    requires Grouped(items, counts, l.ItemSize(), LeftShift(index, l.logIndexSize))
    modifies buffer
    ensures forall p | 0 <= p < |items| ::
              buffer[p] == BitOr(old(buffer[p]), LeftShift(RightShift(items[p], l.ItemSize()), l.ItemSize()))
    ensures forall p | |items| <= p < buffer.Length :: buffer[p] == old(buffer[p])
  {
    hide Pow2, RightShift, LeftShift, BitOr, Sum;
    assert Sum(counts[..0]) == 0 by { SumNothing(counts); }
    var size := l.ItemSize();
    var bucketStart := LeftShift(index, l.logIndexSize);
    var fpNo, bucketOff: nat := 0, 0;
    while bucketOff < |counts|
      invariant bucketOff <= |counts| && fpNo == Sum(counts[..bucketOff]) <= |items|
      invariant forall p | 0 <= p < fpNo :: buffer[p] == BitOr(old(buffer[p]), LeftShift(RightShift(items[p], size), size))
      invariant forall p | fpNo <= p < buffer.Length :: buffer[p] == old(buffer[p])
    {
      var bucket := bucketStart + bucketOff;
      SumNext(counts, bucketOff);
      SumSplit(counts, bucketOff + 1);
      var i := 0;
      while i < counts[bucketOff]
        invariant 0 <= i <= counts[bucketOff] && fpNo == Sum(counts[..bucketOff]) + i <= |items|
        invariant forall p | 0 <= p < fpNo :: buffer[p] == BitOr(old(buffer[p]), LeftShift(RightShift(items[p], size), size))
        invariant forall p | fpNo <= p < buffer.Length :: buffer[p] == old(buffer[p])
      {
        assert InGroup(counts, bucketOff, fpNo);
        buffer[fpNo] := BitOr(buffer[fpNo], LeftShift(bucket, size));
        fpNo := fpNo + 1;
        i := i + 1;
      }
      bucketOff := bucketOff + 1;
    }
    assert counts[..|counts|] == counts;
  }

  lemma SumNothing(counts: seq<nat>)
    ensures Sum(counts[..0]) == 0
  {
  }

  /** Makes room for a longer value. */
  method Widen(buffer: array<nat>, count: nat, oldValueSize: nat, valueSize: nat)
    requires oldValueSize <= valueSize <= 32 && count <= buffer.Length
    modifies buffer
    ensures forall p | 0 <= p < count :: buffer[p] == WidenedWord(old(buffer[p]), oldValueSize, valueSize)
    ensures forall p | count <= p < buffer.Length :: buffer[p] == old(buffer[p])
  {
    hide Pow2, RightShift, LeftShift, LowBits;
    var i := 0;
    while i < count
      invariant 0 <= i <= count
      invariant forall p | 0 <= p < i :: buffer[p] == WidenedWord(old(buffer[p]), oldValueSize, valueSize)
      invariant forall p | i <= p < buffer.Length :: buffer[p] == old(buffer[p])
    {
      Parts(buffer[i], oldValueSize);
      LeftShiftTwice(RightShift(buffer[i], oldValueSize), oldValueSize, valueSize - oldValueSize);
      var oldValue := LowBits(buffer[i], oldValueSize);
      buffer[i] := buffer[i] - oldValue;
      buffer[i] := LeftShift(buffer[i], valueSize - oldValueSize) % Pow2(32);
      buffer[i] := buffer[i] + oldValue; // `|=`: the low bits are zero
      i := i + 1;
    }
  }

  /** All items of one block of the old filter, in the width of the new one, as far as the buffer
      lets them be. */
  method LoadOld(l: Layout, index: nat, block: Block, valueSize: nat, buffer: array<nat>, ghost b: BlockContents)
    requires BlockHolds(l, index, block, b) && l.ItemSize() <= 32 && l.valueSize <= valueSize <= 32
    requires |b.items| <= buffer.Length
    modifies buffer
    ensures forall p | 0 <= p < |b.items| :: buffer[p] == LoadedItem(l, valueSize, old(buffer[p]), b.items[p])
    ensures forall p | |b.items| <= p < buffer.Length :: buffer[p] == old(buffer[p])
  {
    hide Pow2, RightShift, LeftShift, LowBits, Grouped, Encodes, WidenedWord, RemainderAt, BitOr;
    var counts := GetBucketCounts(block.encoding, l.IndexSize(), b.counts);
    if block.numRemainders == 0 {
      return;
    }
    UnpackParts(l, index, block, buffer, b);
    AddBuckets(l, index, buffer, counts, b.items);
    if l.valueSize != valueSize {
      Widen(buffer, block.numRemainders, l.valueSize, valueSize);
    }
  }

  // ----- when all is loaded as it was

  lemma LoadedExact(l: Layout, valueSize: nat, stale: nat, item: nat, bits: nat)
    requires l.ItemSize() > 0 || stale == 0
    requires item < Pow2(bits + l.valueSize) && bits + valueSize <= 32
    ensures LoadedItem(l, valueSize, stale, item) == Widened(item, l.valueSize, valueSize)
  {
    var size := l.ItemSize();
    var high, low := RightShift(item, size), if size == 0 then 0 else LowBits(item, size);
    Parts(item, size);
    OrDisjoint(low, high, size);
    WidenedSame(item, valueSize);
    var fp := RightShift(item, l.valueSize);
    RightShiftBound(item, l.valueSize, bits);
    JoinBound(fp, 0, valueSize, bits);
    Pow2Monotone(bits + valueSize, 32);
    SmallMod(LeftShift(fp, valueSize), Pow2(32));
  }
}
