/** routing_filter_add: a new filter from an old one and the fingerprints of new keys, which all
    get the same value. */
module FilterAdd {
  import opened Words
  import RadixSort
  import opened BucketEncoding
  import opened FilterModel
  import opened FilterBlock
  import opened FilterLoad

  // ----- the new fingerprints

  /** The item of a new key. */
  function NewItem(cfg: Config, valueSize: nat, hash: nat, value: nat): nat
    requires cfg.Valid()
  {
    LeftShift(Fingerprint(cfg, hash), valueSize) + value
  }

  function NewItems(cfg: Config, valueSize: nat, hashes: seq<nat>, value: nat): (r: seq<nat>)
    requires cfg.Valid()
    ensures |r| == |hashes| && forall i | 0 <= i < |r| :: r[i] == NewItem(cfg, valueSize, hashes[i], value)
  {
    seq(|hashes|, i requires 0 <= i < |hashes| => NewItem(cfg, valueSize, hashes[i], value))
  }

  /** Cuts the hashes to fingerprints, in place. */
  method CutHashes(cfg: Config, hashes: array<nat>)
    requires cfg.Valid() && forall i | 0 <= i < hashes.Length :: hashes[i] < Pow2(32)
    modifies hashes
    ensures forall i | 0 <= i < hashes.Length ::
              hashes[i] == Fingerprint(cfg, old(hashes[i])) < Pow2(cfg.fingerprintSize)
  {
    hide Pow2, RightShift;
    var i := 0;
    while i < hashes.Length
      invariant 0 <= i <= hashes.Length
      invariant forall k | 0 <= k < i :: hashes[k] == Fingerprint(cfg, old(hashes[k])) < Pow2(cfg.fingerprintSize)
      invariant forall k | i <= k < hashes.Length :: hashes[k] == old(hashes[k])
    {
      RightShiftBound(hashes[i], 32 - cfg.fingerprintSize, cfg.fingerprintSize);
      hashes[i] := RightShift(hashes[i], 32 - cfg.fingerprintSize);
      i := i + 1;
    }
  }

  /** Puts the value below each fingerprint, in place. */
  method AppendValue(fps: array<nat>, count: nat, valueSize: nat, value: nat)
    requires count <= fps.Length && RadixSort.Sorted(fps[..count])
    modifies fps
    ensures RadixSort.Sorted(fps[..count])
    ensures forall k | 0 <= k < count :: fps[k] == LeftShift(old(fps[k]), valueSize) + value
  {
    hide LeftShift;
    var i := 0;
    while i < count
      invariant 0 <= i <= count
      invariant forall k | 0 <= k < i :: fps[k] == LeftShift(old(fps[k]), valueSize) + value
      invariant forall k | i <= k < fps.Length :: fps[k] == old(fps[k])
    {
      fps[i] := LeftShift(fps[i], valueSize);
      fps[i] := fps[i] + value; // `|=`: the low bits are zero
      i := i + 1;
    }
    forall i, k | 0 <= i < k < count ensures fps[i] <= fps[k] {
      assert old(fps[..count])[i] <= old(fps[..count])[k];
      LeftShiftMonotone(old(fps[i]), old(fps[k]), valueSize);
    }
  }

  /** The new items: sorted, and one for each fingerprint. */
  method PrepareNew(cfg: Config, valueSize: nat, hashes: array<nat>, value: nat)
    returns (fps: array<nat>, unique: nat)
    requires cfg.Valid() && forall i | 0 <= i < hashes.Length :: hashes[i] < Pow2(32)
    modifies hashes
    ensures unique <= fps.Length && unique <= hashes.Length
    ensures RadixSort.StrictlySorted(fps[..unique])
    ensures RadixSort.SameElements(fps[..unique], NewItems(cfg, valueSize, old(hashes[..]), value))
  {
    hide Pow2, RightShift, LeftShift, RadixSort.Sorted, RadixSort.SameElements;
    ghost var given := hashes[..];
    var count := hashes.Length;
    CutHashes(cfg, hashes);
    ghost var cut := hashes[..];
    var matrix := new nat[RadixSort.MATRIX_ROWS, RadixSort.MATRIX_COLS]((i, j) => 0);
    var temp := new nat[count];
    assert hashes[..count] == cut;
    RadixSort.RoundsBound(cfg.fingerprintSize);
    Pow2Monotone(cfg.fingerprintSize, 8 * RadixSort.Rounds(cfg.fingerprintSize));
    fps := RadixSort.Sort(hashes, matrix, temp, count, cfg.fingerprintSize);
    ghost var sorted := fps[..count];
    AppendValue(fps, count, valueSize, value);
    ghost var appended := fps[..count];
    unique := RadixSort.Dedup(fps, count);
    SameItems(cfg, valueSize, given, value, cut, sorted, appended);
    SameTransitive(fps[..unique], appended, NewItems(cfg, valueSize, given, value));
  }

  lemma SameTransitive(a: seq<nat>, b: seq<nat>, c: seq<nat>)
    requires RadixSort.SameElements(a, b) && RadixSort.SameElements(b, c)
    ensures RadixSort.SameElements(a, c)
  {
  }

  lemma SameItems(cfg: Config, valueSize: nat, hashes: seq<nat>, value: nat, cut: seq<nat>, sorted: seq<nat>,
                  appended: seq<nat>)
    requires cfg.Valid()
    requires |cut| == |hashes| && forall i | 0 <= i < |cut| :: cut[i] == Fingerprint(cfg, hashes[i])
    requires multiset(sorted) == multiset(cut)
    requires |appended| == |sorted|
    requires forall i | 0 <= i < |sorted| :: appended[i] == LeftShift(sorted[i], valueSize) + value
    ensures RadixSort.SameElements(appended, NewItems(cfg, valueSize, hashes, value))
  {
    hide Fingerprint, LeftShift;
    var all := NewItems(cfg, valueSize, hashes, value);
    forall x | x in appended ensures x in all {
      var i :| 0 <= i < |appended| && appended[i] == x;
      assert sorted[i] in multiset(sorted);
      var k :| 0 <= k < |cut| && cut[k] == sorted[i];
      assert all[k] == x;
    }
    forall x | x in all ensures x in appended {
      var k :| 0 <= k < |all| && all[k] == x;
      assert cut[k] in multiset(cut);
      var i :| 0 <= i < |sorted| && sorted[i] == cut[k];
      assert appended[i] == x;
    }
  }

  /** The number of new items of each index. */
  method CountIndices(fps: seq<nat>, shift: nat, numIndices: nat) returns (indexCount: seq<nat>)
    requires Ascending(fps) && numIndices > 0
    requires forall i | 0 <= i < |fps| :: RightShift(fps[i], shift) < numIndices
    ensures |indexCount| == numIndices && Grouped(fps, indexCount, shift, 0)
  {
    hide RightShift, Sum;
    indexCount := [];
    var fpNo := 0;
    GroupedNothing(fps[..0], indexCount, shift);
    while |indexCount| < numIndices
      invariant |indexCount| <= numIndices && 0 <= fpNo <= |fps|
      invariant Grouped(fps[..fpNo], indexCount, shift, 0)
      invariant forall k | fpNo <= k < |fps| :: |indexCount| <= RightShift(fps[k], shift)
      invariant fpNo < |fps| ==> |indexCount| < numIndices
    {
      hide Grouped;
      var indexNo := |indexCount|;
      var indexStart := fpNo;
      GroupedEmpty(fps[..fpNo], indexCount, shift);
      assert indexCount + [fpNo - indexStart] == indexCount + [0];
      while fpNo < |fps| && RightShift(fps[fpNo], shift) == indexNo
        invariant indexStart <= fpNo <= |fps|
        invariant Grouped(fps[..fpNo], indexCount + [fpNo - indexStart], shift, 0)
      {
        GroupedNext(fps[..fpNo], indexCount, fpNo - indexStart, fps[fpNo], shift);
        assert fps[..fpNo + 1] == fps[..fpNo] + [fps[fpNo]];
        fpNo := fpNo + 1;
      }
      forall k | fpNo <= k < |fps| ensures indexNo + 1 <= RightShift(fps[k], shift) {
        assert fps[fpNo] <= fps[k];
        RightShiftMonotone(fps[fpNo], fps[k], shift);
      }
      indexCount := indexCount + [fpNo - indexStart];
    }
    assert fps[..fpNo] == fps;
  }

  lemma GroupedNothing(items: seq<nat>, counts: seq<nat>, shift: nat)
    requires items == [] && counts == []
    ensures Grouped(items, counts, shift, 0)
  {
    assert Sum(counts) == 0;
  }

  lemma GroupedEmpty(items: seq<nat>, counts: seq<nat>, shift: nat)
    requires Grouped(items, counts, shift, 0)
    ensures Grouped(items, counts + [0], shift, 0)
  {
    assert (counts + [0])[..|counts + [0]| - 1] == counts;
    assert Sum(counts + [0]) == Sum(counts);
    assert counts + Repeat(0, 1) == counts + [0];
    GroupedSkip(items, counts, 1, shift, 0);
  }

  lemma GroupedNext(items: seq<nat>, counts: seq<nat>, last: nat, x: nat, shift: nat)
    requires Grouped(items, counts + [last], shift, 0) && RightShift(x, shift) == |counts|
    ensures Grouped(items + [x], counts + [last + 1], shift, 0)
  {
    hide RightShift, Grouped;
    var all := counts + [last];
    assert all[..|all| - 1] == counts;
    var next := counts + [last + 1];
    assert next[..|next| - 1] == counts;
    assert all[|all| - 1 := all[|all| - 1] + 1] == next;
    GroupedItem(items, all, x, shift, 0);
  }

  // ----- the indices that one index of the old filter becomes

  function AllItems(contents: seq<BlockContents>): set<nat> {
    if contents == [] then {}
    else AllItems(contents[..|contents| - 1]) + Elements(contents[|contents| - 1].items)
  }

  /** All items, each as often as it is there. */
  function Bag(contents: seq<BlockContents>): multiset<nat> {
    if contents == [] then multiset{}
    else Bag(contents[..|contents| - 1]) + multiset(contents[|contents| - 1].items)
  }

  lemma {:induction false} BagIsAll(contents: seq<BlockContents>, x: nat)
    ensures x in Bag(contents) <==> x in AllItems(contents)
  {
    if contents != [] {
      BagIsAll(contents[..|contents| - 1], x);
    }
  }

  ghost predicate Built(l: Layout, blocks: seq<Block>, contents: seq<BlockContents>) {
    |blocks| == |contents| && forall i | 0 <= i < |blocks| :: BlockHolds(l, i, blocks[i], contents[i])
  }

  lemma BuiltNext(l: Layout, blocks: seq<Block>, contents: seq<BlockContents>, block: Block, b: BlockContents)
    requires Built(l, blocks, contents) && BlockHolds(l, |blocks|, block, b)
    ensures Built(l, blocks + [block], contents + [b])
    ensures Bag(contents + [b]) == Bag(contents) + multiset(b.items)
  {
    hide BlockHolds;
    assert (contents + [b])[..|contents + [b]| - 1] == contents;
  }

  /** The buckets of an index. */
  lemma BucketsOfIndex(x: nat, size: nat, logIndexSize: nat, index: nat)
    ensures RightShift(x, size + logIndexSize) == index
       <==> LeftShift(index, logIndexSize) <= RightShift(x, size) < LeftShift(index, logIndexSize) + Pow2(logIndexSize)
  {
    RightShiftTwice(x, size, logIndexSize);
    var b := RightShift(x, size);
    RightShiftRange(b, logIndexSize, index, index + 1);
    LeftShiftAdd(index, 1, logIndexSize);
    assert LeftShift(1, logIndexSize) == Pow2(logIndexSize);
  }

  ghost predicate InIndex(l: Layout, s: seq<nat>, index: nat) {
    forall q | 0 <= q < |s| ::
      LeftShift(index, l.logIndexSize) <= RightShift(s[q], l.ItemSize())
      < LeftShift(index, l.logIndexSize) + l.IndexSize()
  }

  lemma NewSlice(l: Layout, fps: seq<nat>, indexCount: seq<nat>, index: nat, from: nat)
    requires Ascending(fps) && Grouped(fps, indexCount, l.ItemSize() + l.logIndexSize, 0) && index < |indexCount|
    requires from == Sum(indexCount[..index])
    ensures from + indexCount[index] == Sum(indexCount[..index + 1]) <= |fps|
    ensures Ascending(fps[from..from + indexCount[index]])
    ensures InIndex(l, fps[from..from + indexCount[index]], index)
  {
    SumNext(indexCount, index);
    SumSplit(indexCount, index + 1);
    hide RightShift, LeftShift, Pow2, Sum;
    var to := from + indexCount[index];
    SliceAscends(fps, from, to);
    hide Ascending;
    var slice := fps[from..to];
    forall q | 0 <= q < |slice|
      ensures LeftShift(index, l.logIndexSize) <= RightShift(slice[q], l.ItemSize())
              < LeftShift(index, l.logIndexSize) + l.IndexSize()
    {
      assert InGroup(indexCount, index, from + q) && slice[q] == fps[from + q];
      BucketsOfIndex(slice[q], l.ItemSize(), l.logIndexSize, index);
    }
  }

  lemma SliceAscends(s: seq<nat>, from: nat, to: nat)
    requires Ascending(s) && from <= to <= |s|
    ensures Ascending(s[from..to])
  {
    var slice := s[from..to];
    assert forall q | 0 <= q < |slice| :: slice[q] == s[from + q];
  }

  lemma TakenItems(items: seq<nat>, a: seq<nat>, i: nat, i': nat, b: seq<nat>, j: nat, j': nat, j0: nat)
    requires i <= i' <= |a| && j0 <= j <= j' <= |b|
    requires multiset(items) == multiset(a[i..i']) + multiset(b[j..j'])
    ensures multiset(a[..i]) + multiset(b[j0..j]) + multiset(items) == multiset(a[..i']) + multiset(b[j0..j'])
  {
    assert a[..i'] == a[..i] + a[i..i'];
    assert b[j0..j'] == b[j0..j] + b[j..j'];
  }

  method MergeOldIndex(l: Layout, d: nat, o: nat, oldSrc: seq<nat>, fps: seq<nat>, indexCount: seq<nat>,
                       fpNo0: nat, buffer: array<bool>, blocks0: seq<Block>, ghost contents0: seq<BlockContents>)
    returns (blocks: seq<Block>, fpNo: nat, ghost contents: seq<BlockContents>)
    requires l.ItemSize() <= 32 && Ascending(oldSrc) && Ascending(fps)
    requires Built(l, blocks0, contents0) && |blocks0| == |contents0| == LeftShift(o, d)
    requires LeftShift(o + 1, d) <= |indexCount|
    requires Grouped(fps, indexCount, l.ItemSize() + l.logIndexSize, 0)
    requires fpNo0 == Sum(indexCount[..|blocks0|])
    requires forall p | 0 <= p < |oldSrc| ::
               LeftShift(o, d + l.logIndexSize) <= RightShift(oldSrc[p], l.ItemSize())
               < LeftShift(o + 1, d + l.logIndexSize)
    requires AllOnes(buffer[..]) && buffer.Length % 64 == 0
    requires |oldSrc| + |fps| + l.IndexSize() + 64 <= buffer.Length
    modifies buffer
    ensures AllOnes(buffer[..])
    ensures Built(l, blocks, contents) && |blocks| == |contents| == LeftShift(o + 1, d)
    ensures fpNo0 <= fpNo == Sum(indexCount[..|blocks|]) <= |fps|
    ensures Bag(contents) == Bag(contents0) + (multiset(oldSrc) + multiset(fps[fpNo0..fpNo]))
  {
    hide RightShift, LeftShift, Pow2, Sum, Ascending, Grouped, Built, Bag, AllOnes, BlockHolds;
    blocks, contents, fpNo := blocks0, contents0, fpNo0;
    var oldAdded := 0;
    LeftShiftTwice(o, d, l.logIndexSize);
    LeftShiftMonotone(o, o + 1, d);
    SlicesFit(fps, indexCount, l.ItemSize() + l.logIndexSize, |blocks0|);
    NoElements(oldSrc, fps, fpNo0);
    while |blocks| < LeftShift(o + 1, d)
      invariant |blocks| <= LeftShift(o + 1, d) && |contents| == |blocks| && Built(l, blocks, contents)
      invariant 0 <= oldAdded <= |oldSrc| && AllOnes(buffer[..])
      invariant fpNo0 <= fpNo == Sum(indexCount[..|blocks|]) <= |fps|
      invariant oldAdded < |oldSrc| ==>
        LeftShift(|blocks|, l.logIndexSize) <= RightShift(oldSrc[oldAdded], l.ItemSize())
      invariant Bag(contents) == Bag(contents0) + (multiset(oldSrc[..oldAdded]) + multiset(fps[fpNo0..fpNo]))
      decreases LeftShift(o + 1, d) - |blocks|
    {
      var indexNo := |blocks|;
      NewSlice(l, fps, indexCount, indexNo, fpNo);
      RemainingAfter(oldSrc, oldAdded, l.ItemSize(), LeftShift(indexNo, l.logIndexSize));
      var newSrc := fps[fpNo..fpNo + indexCount[indexNo]];
      var oldTo, block;
      ghost var b;
      oldTo, block, b := MergeIndex(l, indexNo, buffer, oldSrc, oldAdded, newSrc);
      BuiltNext(l, blocks, contents, block, b);
      TakenItems(b.items, oldSrc, oldAdded, oldTo, fps, fpNo, fpNo + indexCount[indexNo], fpNo0);
      NextBase(indexNo, l.logIndexSize);
      blocks, contents := blocks + [block], contents + [b];
      fpNo := fpNo + indexCount[indexNo];
      oldAdded := oldTo;
    }
    LeftShiftTwice(o + 1, d, l.logIndexSize);
    assert oldSrc[..oldAdded] == oldSrc;
  }

  lemma NoElements(a: seq<nat>, b: seq<nat>, j: nat)
    requires j <= |b|
    ensures multiset(a[..0]) + multiset(b[j..j]) == multiset{}
  {
  }

  lemma SlicesFit(fps: seq<nat>, indexCount: seq<nat>, shift: nat, i: nat)
    requires Grouped(fps, indexCount, shift, 0) && i <= |indexCount|
    ensures Sum(indexCount[..i]) <= |fps|
  {
    SumSplit(indexCount, i);
  }

  lemma NextBase(index: nat, k: nat)
    ensures LeftShift(index + 1, k) == LeftShift(index, k) + Pow2(k)
  {
  }

  lemma RemainingAfter(s: seq<nat>, from: nat, size: nat, bucket: nat)
    requires Ascending(s)
    requires from < |s| ==> bucket <= RightShift(s[from], size)
    ensures forall p | from <= p < |s| :: bucket <= RightShift(s[p], size)
  {
    forall p | from <= p < |s| ensures bucket <= RightShift(s[p], size) {
      assert p > from ==> s[from] <= s[p];
      RightShiftMonotone(s[from], s[p], size);
    }
  }

  // ----- routing_filter_add

  lemma WidenedParts(item: nat, oldValueSize: nat, valueSize: nat, remainderSize: nat, d: nat)
    requires oldValueSize <= valueSize
    ensures var w := Widened(item, oldValueSize, valueSize);
            && RightShift(w, valueSize) == RightShift(item, oldValueSize)
            && LowBits(w, valueSize) == LowBits(item, oldValueSize)
            && RightShift(RightShift(w, remainderSize + valueSize), d)
               == RightShift(item, (remainderSize + d) + oldValueSize)
  {
    Pow2Monotone(oldValueSize, valueSize);
    var fp, v := RightShift(item, oldValueSize), LowBits(item, oldValueSize);
    Parts(item, oldValueSize);
    hide Pow2, RightShift, LeftShift, LowBits;
    ItemParts(fp, v, remainderSize, valueSize);
    ItemParts(fp, v, remainderSize + d, oldValueSize);
    RightShiftTwice(fp, remainderSize, d);
  }

  lemma WidenedMonotone(x: nat, y: nat, oldValueSize: nat, valueSize: nat)
    requires x <= y && oldValueSize <= valueSize
    ensures Widened(x, oldValueSize, valueSize) <= Widened(y, oldValueSize, valueSize)
  {
    Pow2Monotone(oldValueSize, valueSize);
    RightShiftMonotone(x, y, oldValueSize);
    Parts(x, oldValueSize);
    Parts(y, oldValueSize);
    LeftShiftMonotone(RightShift(x, oldValueSize), RightShift(y, oldValueSize), valueSize);
  }

  /** The items of an old index, widened, are in order and belong to the indices it becomes. */
  lemma LoadedInRange(ol: Layout, l: Layout, d: nat, o: nat, block: Block, b: BlockContents, oldSrc: seq<nat>)
    requires BlockHolds(ol, o, block, b) && ol.valueSize <= l.valueSize
    requires ol.remainderSize == l.remainderSize + d && ol.logIndexSize == l.logIndexSize
    requires |oldSrc| == |b.items|
    requires forall p | 0 <= p < |oldSrc| :: oldSrc[p] == Widened(b.items[p], ol.valueSize, l.valueSize)
    ensures Ascending(oldSrc)
    ensures forall p | 0 <= p < |oldSrc| ::
              LeftShift(o, d + l.logIndexSize) <= RightShift(oldSrc[p], l.ItemSize())
              < LeftShift(o + 1, d + l.logIndexSize)
  {
    hide Pow2, RightShift, LeftShift, LowBits, Sum, Encodes, Widened;
    forall i, k | 0 <= i < k < |oldSrc| ensures oldSrc[i] <= oldSrc[k] {
      WidenedMonotone(b.items[i], b.items[k], ol.valueSize, l.valueSize);
    }
    forall p | 0 <= p < |oldSrc|
      ensures LeftShift(o, d + l.logIndexSize) <= RightShift(oldSrc[p], l.ItemSize())
              < LeftShift(o + 1, d + l.logIndexSize)
    {
      var c := SomeGroup(b.counts, p);
      var bucket := RightShift(oldSrc[p], l.ItemSize());
      WidenedParts(b.items[p], ol.valueSize, l.valueSize, l.remainderSize, d);
      assert RightShift(bucket, d) == LeftShift(o, l.logIndexSize) + c;
      PartsUnique(RightShift(bucket, d), l.logIndexSize, o, c);
      RightShiftTwice(bucket, d, l.logIndexSize);
      RightShiftRange(bucket, d + l.logIndexSize, o, o + 1);
    }
  }

  function WidenAll(items: set<nat>, oldValueSize: nat, valueSize: nat): set<nat> {
    set y | y in items :: Widened(y, oldValueSize, valueSize)
  }

  lemma WidenUnion(a: set<nat>, b: set<nat>, s: seq<nat>, t: seq<nat>, oldValueSize: nat, valueSize: nat)
    requires b == Elements(s) && |t| == |s|
    requires forall p | 0 <= p < |s| :: t[p] == Widened(s[p], oldValueSize, valueSize)
    ensures WidenAll(a + b, oldValueSize, valueSize) == WidenAll(a, oldValueSize, valueSize) + Elements(t)
  {
    hide Widened;
    forall x | x in Elements(t) ensures x in WidenAll(a + b, oldValueSize, valueSize) {
      var p :| 0 <= p < |t| && t[p] == x;
      assert s[p] in a + b;
    }
    forall x | x in WidenAll(a + b, oldValueSize, valueSize)
      ensures x in WidenAll(a, oldValueSize, valueSize) + Elements(t)
    {
      var y :| y in a + b && Widened(y, oldValueSize, valueSize) == x;
      if y !in a {
        var p :| 0 <= p < |s| && s[p] == y;
        assert t[p] == x;
      }
    }
  }

  lemma AllItemsNext(contents: seq<BlockContents>, o: nat)
    requires o < |contents|
    ensures AllItems(contents[..o + 1]) == AllItems(contents[..o]) + Elements(contents[o].items)
  {
    assert contents[..o + 1][..o] == contents[..o];
  }

  lemma {:induction false} InAllItems(contents: seq<BlockContents>, x: nat)
    ensures InContents(contents, x) <==> x in AllItems(contents)
  {
    if contents != [] {
      var n := |contents| - 1;
      InAllItems(contents[..n], x);
      if InContents(contents, x) && x !in contents[n].items {
        var i :| 0 <= i < |contents| && x in contents[i].items;
        assert x in contents[..n][i].items;
      }
      if InContents(contents[..n], x) {
        var i :| 0 <= i < n && x in contents[..n][i].items;
        assert x in contents[i].items;
      }
    }
  }

  function MaxRemainders(blocks: seq<Block>): (m: nat)
    ensures forall i | 0 <= i < |blocks| :: blocks[i].numRemainders <= m
  {
    if blocks == [] then 0
    else
      var m := MaxRemainders(blocks[..|blocks| - 1]);
      var r := blocks[|blocks| - 1].numRemainders;
      if m < r then r else m
  }

  /** The number of bits of a value: `value == 0 ? 0 : 32 - clz(value)`. */
  function BitLength(value: nat): (n: nat)
    ensures value < Pow2(n)
  {
    if value == 0 then 0 else Log2(value) + 1
  }

  ghost predicate OldFilter(cfg: Config, old': Filter, contents: seq<BlockContents>) {
    if old'.blocks == [] then old' == NULL_FILTER && contents == []
    else FilterHolds(cfg, old', contents)
  }

  // ----- loading and merging

  /** What the merge takes for granted of the old items of an index: they are in order and belong to
      the indices it becomes.  The code has debug assertions for it. */
  predicate Placed(l: Layout, d: nat, o: nat, oldSrc: seq<nat>) {
    && Ascending(oldSrc)
    && forall p | 0 <= p < |oldSrc| ::
         LeftShift(o, d + l.logIndexSize) <= RightShift(oldSrc[p], l.ItemSize()) < LeftShift(o + 1, d + l.logIndexSize)
  }

  ghost predicate AllPlaced(l: Layout, ol: Layout, d: nat, contents: seq<BlockContents>) {
    forall o | 0 <= o < |contents| :: PlacedAt(l, ol, d, contents, o)
  }

  ghost predicate PlacedAt(l: Layout, ol: Layout, d: nat, contents: seq<BlockContents>, o: nat)
    requires o < |contents|
  {
    Placed(l, d, o, Loaded(ol, l.valueSize, contents[..o + 1]))
  }

  function Before(contents: seq<BlockContents>, o: nat): seq<BlockContents> {
    if o <= |contents| then contents[..o] else contents
  }

  lemma BeforeNext(contents: seq<BlockContents>, o: nat, ol: Layout, valueSize: nat)
    requires o < |contents|
    ensures Before(contents, o + 1) == Before(contents, o) + [contents[o]] == contents[..o + 1]
    ensures BagLoaded(ol, valueSize, contents[..o + 1])
         == BagLoaded(ol, valueSize, Before(contents, o)) + multiset(Loaded(ol, valueSize, contents[..o + 1]))
  {
    assert contents[..o + 1][..o] == contents[..o];
  }

  lemma LoadedIs(ol: Layout, valueSize: nat, contents: seq<BlockContents>, o: nat, was: seq<nat>, buffer: seq<nat>)
    requires o < |contents| && |contents[o].items| <= |was| == |buffer|
    requires forall p | 0 <= p < |was| :: was[p] == Cell(ol, valueSize, Before(contents, o), p)
    requires forall p | 0 <= p < |contents[o].items| ::
               buffer[p] == LoadedItem(ol, valueSize, was[p], contents[o].items[p])
    requires forall p | |contents[o].items| <= p < |buffer| :: buffer[p] == was[p]
    ensures forall p | 0 <= p < |buffer| :: buffer[p] == Cell(ol, valueSize, Before(contents, o + 1), p)
    ensures buffer[..|contents[o].items|] == Loaded(ol, valueSize, contents[..o + 1])
  {
    hide LoadedItem;
    assert contents[..o + 1][..o] == contents[..o];
  }

  /** The items of one old index, through the buffer that all of them share. */
  method LoadIndex(l: Layout, ol: Layout, d: nat, old': Filter, ghost oldContents: seq<BlockContents>,
                   oldBuffer: array<nat>, o: nat)
    returns (oldSrc: seq<nat>)
    requires l.ItemSize() <= 32 && o < ol.NumIndices() && oldBuffer.Length == MaxRemainders(old'.blocks)
    requires old'.blocks == [] ==> oldContents == []
    requires old'.blocks != [] ==>
      && ol.valueSize <= l.valueSize && ol.ItemSize() <= 32
      && Built(ol, old'.blocks, oldContents) && |old'.blocks| == ol.NumIndices()
    requires forall p | 0 <= p < oldBuffer.Length :: oldBuffer[p] == Cell(ol, l.valueSize, Before(oldContents, o), p)
    modifies oldBuffer
    ensures forall p | 0 <= p < oldBuffer.Length :: oldBuffer[p] == Cell(ol, l.valueSize, Before(oldContents, o + 1), p)
    ensures |oldSrc| <= oldBuffer.Length
    ensures Placed(l, d, o, oldSrc) <==> (o < |oldContents| ==> PlacedAt(l, ol, d, oldContents, o))
    ensures BagLoaded(ol, l.valueSize, Before(oldContents, o + 1))
         == BagLoaded(ol, l.valueSize, Before(oldContents, o)) + multiset(oldSrc)
  {
    hide RightShift, LeftShift, Pow2, BlockHolds, LoadedItem, Placed, BagLoaded, Loaded, Cell, Before;
    oldSrc := [];
    if old'.blocks != [] {
      LoadedSize(ol, o, old'.blocks[o], oldContents[o]);
      ghost var was := oldBuffer[..];
      LoadOld(ol, o, old'.blocks[o], l.valueSize, oldBuffer, oldContents[o]);
      oldSrc := oldBuffer[..old'.blocks[o].numRemainders];
      LoadedIs(ol, l.valueSize, oldContents, o, was, oldBuffer[..]);
      BeforeNext(oldContents, o, ol, l.valueSize);
    } else {
      NothingLoaded(l, d, o, oldSrc, ol);
    }
  }

  /** All indices, one old index after the other. */
  method MergeAll(l: Layout, ol: Layout, d: nat, old': Filter, ghost oldContents: seq<BlockContents>,
                  fps: seq<nat>, indexCount: seq<nat>)
    returns (ok: bool, blocks: seq<Block>, ghost contents: seq<BlockContents>)
    requires l.ItemSize() <= 32 && Ascending(fps)
    requires |indexCount| == l.NumIndices() && Grouped(fps, indexCount, l.ItemSize() + l.logIndexSize, 0)
    requires l.logNumIndices == ol.logNumIndices + d
    requires old'.blocks == [] ==> ol.logNumIndices == 0 && oldContents == []
    requires old'.blocks != [] ==>
      && ol.valueSize <= l.valueSize && ol.ItemSize() <= 32
      && Built(ol, old'.blocks, oldContents) && |old'.blocks| == ol.NumIndices()
    ensures ok <==> AllPlaced(l, ol, d, oldContents)
    ensures ok ==> Built(l, blocks, contents) && |blocks| == |contents| == l.NumIndices()
    ensures ok ==> Bag(contents) == BagLoaded(ol, l.valueSize, oldContents) + multiset(fps)
  {
    hide RightShift, LeftShift, Pow2, Sum, Ascending, Grouped, Bag, BlockHolds, LoadedItem, Placed,
      BagLoaded, Loaded, Cell, Before;
    var n := 64 * ((MaxRemainders(old'.blocks) + |fps| + l.IndexSize()) / 64 + 2);
    var buffer := new bool[n](i => true);
    var oldBuffer := new nat[MaxRemainders(old'.blocks)](i => 0);
    blocks, contents := [], [];
    var fpNo, o: nat := 0, 0;
    IndexArithmetic(ol.logNumIndices, d, indexCount);
    NothingYet(oldContents, fps, ol, l.valueSize);
    while o < ol.NumIndices()
      invariant o <= ol.NumIndices() && AllOnes(buffer[..])
      invariant Built(l, blocks, contents) && |blocks| == |contents| == LeftShift(o, d) <= |indexCount|
      invariant fpNo == Sum(indexCount[..|blocks|]) <= |fps|
      invariant forall p | 0 <= p < oldBuffer.Length :: oldBuffer[p] == Cell(ol, l.valueSize, Before(oldContents, o), p)
      invariant forall i | 0 <= i < o && i < |oldContents| :: PlacedAt(l, ol, d, oldContents, i)
      invariant Bag(contents) == BagLoaded(ol, l.valueSize, Before(oldContents, o)) + multiset(fps[..fpNo])
    {
      ghost var fpBefore := fpNo;
      var oldSrc := LoadIndex(l, ol, d, old', oldContents, oldBuffer, o);
      if !Placed(l, d, o, oldSrc) {
        ok := false;
        return;
      }
      PlacedIs(l, d, o, oldSrc);
      LeftShiftMonotone(o + 1, ol.NumIndices(), d);
      blocks, fpNo, contents := MergeOldIndex(l, d, o, oldSrc, fps, indexCount, fpNo, buffer, blocks, contents);
      SlicesJoin(fps, fpBefore, fpNo);
      o := o + 1;
    }
    AllTaken(fps, indexCount, l.ItemSize() + l.logIndexSize);
    BeforeAll(oldContents, o);
    assert indexCount[..|blocks|] == indexCount && fps[..fpNo] == fps;
    ok := true;
  }

  lemma PlacedIs(l: Layout, d: nat, o: nat, oldSrc: seq<nat>)
    requires Placed(l, d, o, oldSrc)
    ensures Ascending(oldSrc)
    ensures forall p | 0 <= p < |oldSrc| ::
              LeftShift(o, d + l.logIndexSize) <= RightShift(oldSrc[p], l.ItemSize()) < LeftShift(o + 1, d + l.logIndexSize)
  {
  }

  lemma BeforeAll(contents: seq<BlockContents>, o: nat)
    requires o >= |contents|
    ensures Before(contents, o) == contents
  {
  }

  lemma LoadedSize(l: Layout, index: nat, block: Block, b: BlockContents)
    requires BlockHolds(l, index, block, b)
    ensures |b.items| == block.numRemainders
  {
  }

  lemma NothingLoaded(l: Layout, d: nat, o: nat, oldSrc: seq<nat>, ol: Layout)
    requires oldSrc == []
    ensures Placed(l, d, o, oldSrc) && multiset(oldSrc) == multiset{}
    ensures Before([], o) == Before([], o + 1) == [] && BagLoaded(ol, l.valueSize, []) == multiset{}
  {
  }

  lemma AllTaken(fps: seq<nat>, indexCount: seq<nat>, shift: nat)
    requires Grouped(fps, indexCount, shift, 0)
    ensures Sum(indexCount) == |fps|
  {
  }

  lemma SlicesJoin(fps: seq<nat>, i: nat, j: nat)
    requires i <= j <= |fps|
    ensures multiset(fps[..j]) == multiset(fps[..i]) + multiset(fps[i..j])
  {
    assert fps[..j] == fps[..i] + fps[i..j];
  }

  lemma IndexArithmetic(oldLog: nat, d: nat, indexCount: seq<nat>)
    ensures LeftShift(0, d) == 0 && LeftShift(Pow2(oldLog), d) == Pow2(oldLog + d)
    ensures Sum(indexCount[..0]) == 0 && Pow2(0) == 1
  {
    Pow2Add(oldLog, d);
  }

  lemma NothingYet(oldContents: seq<BlockContents>, fps: seq<nat>, ol: Layout, valueSize: nat)
    ensures multiset(fps[..0]) == multiset{} && Bag([]) == multiset{}
    ensures Before(oldContents, 0) == [] && BagLoaded(ol, valueSize, []) == multiset{}
    ensures forall p: nat :: Cell(ol, valueSize, [], p) == 0
  {
  }

  lemma LayoutFacts(cfg: Config, n: nat, valueSize: nat)
    requires Fits(cfg, n, valueSize)
    ensures var l := LayoutOf(cfg, n, valueSize);
            && l.ItemSize() <= 32 && l.valueSize == valueSize
            && cfg.fingerprintSize == l.remainderSize + l.logIndexSize + l.logNumIndices
            && cfg.Valid() && l.NumIndices() > 0 && cfg.fingerprintSize + valueSize <= 32
  {
  }

  /** A filter of more fingerprints has at least as many indices, and shorter remainders. */
  lemma LayoutGrows(cfg: Config, m: nat, oldValueSize: nat, n: nat, valueSize: nat)
    requires Fits(cfg, m, oldValueSize) && Fits(cfg, n, valueSize) && m <= n
    ensures var ol, l := LayoutOf(cfg, m, oldValueSize), LayoutOf(cfg, n, valueSize);
            && ol.logNumIndices <= l.logNumIndices && ol.logIndexSize == l.logIndexSize
            && ol.remainderSize == l.remainderSize + (l.logNumIndices - ol.logNumIndices)
  {
    Log2Monotone(m, n);
  }

  /** All items of the old filter are loaded as they were, if they have stored bits or are in a single
      block. */
  predicate LoadsRight(l: Layout) {
    l.ItemSize() > 0 || l.NumIndices() == 1
  }

  lemma ItemBelow(l: Layout, i: nat, block: Block, b: BlockContents, p: nat)
    requires BlockHolds(l, i, block, b) && i < l.NumIndices() && p < |b.items|
    ensures b.items[p] < Pow2(l.remainderSize + l.logIndexSize + l.logNumIndices + l.valueSize)
  {
    var c := SomeGroup(b.counts, p);
    assert RightShift(b.items[p], l.ItemSize()) == LeftShift(i, l.logIndexSize) + c;
    Parts(b.items[p], l.ItemSize());
    hide Pow2, RightShift, LeftShift, LowBits;
    JoinBound(i, c, l.logIndexSize, l.logNumIndices);
    JoinBound(LeftShift(i, l.logIndexSize) + c, LowBits(b.items[p], l.ItemSize()), l.ItemSize(), l.logIndexSize + l.logNumIndices);
  }

  lemma LoadedWidened(l: Layout, valueSize: nat, blocks: seq<Block>, contents: seq<BlockContents>, o: nat)
    requires LoadsRight(l) && Built(l, blocks, contents) && |contents| == l.NumIndices() && o < |contents|
    requires l.remainderSize + l.logIndexSize + l.logNumIndices + valueSize <= 32
    ensures var oldSrc := Loaded(l, valueSize, contents[..o + 1]);
            && |oldSrc| == |contents[o].items|
            && forall p | 0 <= p < |oldSrc| :: oldSrc[p] == Widened(contents[o].items[p], l.valueSize, valueSize)
  {
    hide BlockHolds, LoadedItem, Widened, Pow2;
    var upto := contents[..o + 1];
    assert upto[..o] == contents[..o];
    forall p | 0 <= p < |contents[o].items|
      ensures Cell(l, valueSize, upto, p) == Widened(contents[o].items[p], l.valueSize, valueSize)
    {
      ItemBelow(l, o, blocks[o], contents[o], p);
      LoadedExact(l, valueSize, Cell(l, valueSize, contents[..o], p), contents[o].items[p],
                  l.remainderSize + l.logIndexSize + l.logNumIndices);
    }
  }

  lemma {:induction false} AllLoadedExact(l: Layout, valueSize: nat, blocks: seq<Block>, contents: seq<BlockContents>, o: nat)
    requires LoadsRight(l) && Built(l, blocks, contents) && |contents| == l.NumIndices() && o <= |contents|
    requires l.remainderSize + l.logIndexSize + l.logNumIndices + valueSize <= 32
    ensures AllLoaded(l, valueSize, contents[..o]) == WidenAll(AllItems(contents[..o]), l.valueSize, valueSize)
  {
    hide BlockHolds, LoadedItem, Widened, Built, LoadsRight, Loaded, Cell;
    if o > 0 {
      AllLoadedExact(l, valueSize, blocks, contents, o - 1);
      LoadedWidened(l, valueSize, blocks, contents, o - 1);
      AllItemsNext(contents, o - 1);
      assert contents[..o][..o - 1] == contents[..o - 1];
      hide AllItems, WidenAll;
      WidenUnion(AllItems(contents[..o - 1]), Elements(contents[o - 1].items), contents[o - 1].items,
                 Loaded(l, valueSize, contents[..o]), l.valueSize, valueSize);
    }
  }

  /** With such a layout the merge gets what it takes for granted. */
  lemma PlacedExact(l: Layout, ol: Layout, d: nat, blocks: seq<Block>, contents: seq<BlockContents>)
    requires LoadsRight(ol) && Built(ol, blocks, contents) && |contents| == ol.NumIndices()
    requires ol.valueSize <= l.valueSize && ol.remainderSize == l.remainderSize + d && ol.logIndexSize == l.logIndexSize
    requires ol.remainderSize + ol.logIndexSize + ol.logNumIndices + l.valueSize <= 32
    ensures AllPlaced(l, ol, d, contents)
  {
    hide BlockHolds, Widened, LoadsRight, Loaded;
    forall o | 0 <= o < |contents| ensures PlacedAt(l, ol, d, contents, o) {
      LoadedWidened(ol, l.valueSize, blocks, contents, o);
      LoadedInRange(ol, l, d, o, blocks[o], contents[o], Loaded(ol, l.valueSize, contents[..o + 1]));
    }
  }

  /** All that is loaded of the old filter is where the merge expects it. */
  ghost predicate OldPlaced(cfg: Config, old': Filter, oldContents: seq<BlockContents>, numFingerprints: nat, valueSize: nat)
    requires Fits(cfg, numFingerprints, valueSize)
  {
    old'.blocks != [] && Fits(cfg, old'.numFingerprints, old'.valueSize) ==>
      var ol := LayoutOf(cfg, old'.numFingerprints, old'.valueSize);
      var l := LayoutOf(cfg, numFingerprints, valueSize);
      ol.logNumIndices <= l.logNumIndices && AllPlaced(l, ol, l.logNumIndices - ol.logNumIndices, oldContents)
  }

  /** The pairs that come from the old filter. */
  ghost predicate InLoaded(cfg: Config, old': Filter, oldContents: seq<BlockContents>, valueSize: nat, fp: nat, v: nat) {
    && v < Pow2(valueSize) && old'.blocks != [] && Fits(cfg, old'.numFingerprints, old'.valueSize)
    && LeftShift(fp, valueSize) + v
       in AllLoaded(LayoutOf(cfg, old'.numFingerprints, old'.valueSize), valueSize, oldContents)
  }

  /** Old filters that are loaded as they were, whatever they hold. */
  predicate OldLoadsRight(cfg: Config, old': Filter)
    requires old'.blocks != [] ==> Fits(cfg, old'.numFingerprints, old'.valueSize)
  {
    old'.blocks != [] ==> LoadsRight(LayoutOf(cfg, old'.numFingerprints, old'.valueSize))
  }

  /** Their pairs are those that they had. */
  lemma OldIsLoaded(cfg: Config, old': Filter, oldContents: seq<BlockContents>, numFingerprints: nat, valueSize: nat)
    requires OldFilter(cfg, old', oldContents) && OldLoadsRight(cfg, old')
    requires Fits(cfg, numFingerprints, valueSize) && old'.numFingerprints <= numFingerprints
    requires old'.valueSize <= valueSize
    ensures OldPlaced(cfg, old', oldContents, numFingerprints, valueSize)
    ensures forall fp: nat, v: nat ::
              InLoaded(cfg, old', oldContents, valueSize, fp, v) <==> InFilter(old', oldContents, fp, v)
  {
    hide RightShift, LeftShift, LowBits, Pow2, BlockHolds, AllItems, AllLoaded, WidenAll, LoadsRight;
    if old'.blocks != [] {
      hide InContents;
      var ol, l := LayoutOf(cfg, old'.numFingerprints, old'.valueSize), LayoutOf(cfg, numFingerprints, valueSize);
      LayoutFacts(cfg, old'.numFingerprints, old'.valueSize);
      LayoutGrows(cfg, old'.numFingerprints, old'.valueSize, numFingerprints, valueSize);
      PlacedExact(l, ol, l.logNumIndices - ol.logNumIndices, old'.blocks, oldContents);
      assert oldContents[..|oldContents|] == oldContents;
      AllLoadedExact(ol, valueSize, old'.blocks, oldContents, |oldContents|);
      hide Fits, LayoutOf, OldFilter, Built, AllPlaced;
      forall fp: nat, v: nat
        ensures v < Pow2(valueSize) && LeftShift(fp, valueSize) + v in AllLoaded(ol, valueSize, oldContents)
           <==> InFilter(old', oldContents, fp, v)
      {
        Pow2Monotone(old'.valueSize, valueSize);
        InAllItems(oldContents, LeftShift(fp, old'.valueSize) + v);
        if v < Pow2(valueSize) {
          OldExactly(AllItems(oldContents), old'.valueSize, valueSize, fp, v);
        }
      }
    }
  }

  /** The pairs of the old filter and those of the new keys, and no others. */
  ghost predicate IsUnion(cfg: Config, old': Filter, oldContents: seq<BlockContents>, filter: Filter,
                          contents: seq<BlockContents>, hashes: seq<nat>, value: nat)
    requires cfg.Valid()
  {
    forall fp: nat, v: nat :: InFilter(filter, contents, fp, v) <==>
      InFilter(old', oldContents, fp, v) || (v == value && fp in Fingerprints(cfg, hashes))
  }

  /** What the addition makes of an old filter is what it should: everything is loaded where the merge
      expects it, and it is what the old filter holds, but for what the new keys add anyway. */
  ghost predicate AddsExactly(cfg: Config, old': Filter, oldContents: seq<BlockContents>, hashes: seq<nat>, value: nat)
    requires Fits(cfg, |hashes| + old'.numFingerprints, BitLength(value))
  {
    && OldPlaced(cfg, old', oldContents, |hashes| + old'.numFingerprints, BitLength(value))
    && forall fp: nat, v: nat {:trigger InFilter(old', oldContents, fp, v)} ::
         (v == value && fp in Fingerprints(cfg, hashes))
         || (InLoaded(cfg, old', oldContents, BitLength(value), fp, v) <==> InFilter(old', oldContents, fp, v))
  }

  /** What is loaded of the old filter is there as often as it is loaded, and each new pair once more. */
  ghost predicate HoldsEachOnce(cfg: Config, old': Filter, oldContents: seq<BlockContents>, hashes: seq<nat>, value: nat,
                                contents: seq<BlockContents>, news: seq<nat>)
    requires cfg.Valid() && (old'.blocks != [] ==> Fits(cfg, old'.numFingerprints, old'.valueSize))
  {
    && RadixSort.StrictlySorted(news)
    && RadixSort.SameElements(news, NewItems(cfg, BitLength(value), hashes, value))
    && Bag(contents) == multiset(news)
       + if old'.blocks == [] then multiset{}
         else BagLoaded(LayoutOf(cfg, old'.numFingerprints, old'.valueSize), BitLength(value), oldContents)
  }

  lemma EachOnce(cfg: Config, old': Filter, oldContents: seq<BlockContents>, hashes: seq<nat>, value: nat,
                 contents: seq<BlockContents>, news: seq<nat>)
    requires cfg.Valid() && (old'.blocks != [] ==> Fits(cfg, old'.numFingerprints, old'.valueSize))
    requires RadixSort.StrictlySorted(news)
    requires RadixSort.SameElements(news, NewItems(cfg, BitLength(value), hashes, value))
    requires Bag(contents) == multiset(news)
      + if old'.blocks == [] then multiset{}
        else BagLoaded(LayoutOf(cfg, old'.numFingerprints, old'.valueSize), BitLength(value), oldContents)
    ensures HoldsEachOnce(cfg, old', oldContents, hashes, value, contents, news)
  {
  }

  /** routing_filter_add.  The values that are found with a fingerprint are the new value, if it is
      one of the new keys', and what is loaded from the old filter.  That is what the old filter
      holds for every filter of a layout that loads right; see module FilterZeroWidth for the others. */
  method Add(cfg: Config, old': Filter, hashes: array<nat>, value: nat, ghost oldContents: seq<BlockContents>)
    returns (ok: bool, filter: Filter, ghost contents: seq<BlockContents>, ghost news: seq<nat>)
    requires hashes.Length > 0 && forall i | 0 <= i < hashes.Length :: hashes[i] < Pow2(32)
    requires Fits(cfg, hashes.Length + old'.numFingerprints, BitLength(value))
    requires OldFilter(cfg, old', oldContents) && old'.valueSize <= BitLength(value)
    modifies hashes
    ensures ok <==> OldPlaced(cfg, old', oldContents, hashes.Length + old'.numFingerprints, BitLength(value))
    ensures ok ==> FilterHolds(cfg, filter, contents) && filter.blocks != [] && filter.valueSize == BitLength(value)
    ensures ok ==> filter.numFingerprints == hashes.Length + old'.numFingerprints
    ensures ok ==> HoldsEachOnce(cfg, old', oldContents, old(hashes[..]), value, contents, news)
    ensures ok ==> forall fp: nat, v: nat :: InFilter(filter, contents, fp, v) <==>
              InLoaded(cfg, old', oldContents, BitLength(value), fp, v)
              || (v == value && fp in Fingerprints(cfg, old(hashes[..])))
    ensures AddsExactly(cfg, old', oldContents, old(hashes[..]), value)
       <==> ok && IsUnion(cfg, old', oldContents, filter, contents, old(hashes[..]), value)
    ensures OldLoadsRight(cfg, old') ==>
              ok && IsUnion(cfg, old', oldContents, filter, contents, old(hashes[..]), value)
  {
    hide *;
    ghost var given := hashes[..];
    var numFingerprints, valueSize := hashes.Length + old'.numFingerprints, BitLength(value);
    LayoutFacts(cfg, numFingerprints, valueSize);
    var l := LayoutOf(cfg, numFingerprints, valueSize);
    var ol, d := OldLayout(cfg, old', numFingerprints, valueSize, oldContents);
    SamePlaces(cfg, old', oldContents, numFingerprints, valueSize, l, ol, d);
    var fps, unique := PrepareNew(cfg, valueSize, hashes, value);
    NewInRange(cfg, l, given, value, fps[..unique]);
    NewAscending(fps[..unique]);
    var indexCount := CountIndices(fps[..unique], l.ItemSize() + l.logIndexSize, l.NumIndices());
    var blocks;
    ok, blocks, contents := MergeAll(l, ol, d, old', oldContents, fps[..unique], indexCount);
    filter, news := Filter(blocks, numFingerprints, valueSize), fps[..unique];
    if ok {
      BuiltHolds(cfg, filter, contents);
      NothingYet(oldContents, fps[..unique], ol, valueSize);
      EachOnce(cfg, old', oldContents, given, value, contents, news);
      forall fp: nat, v: nat ensures InFilter(filter, contents, fp, v) <==>
        InLoaded(cfg, old', oldContents, valueSize, fp, v) || (v == value && fp in Fingerprints(cfg, given))
      {
        ExactlyThese(cfg, old', oldContents, filter, contents, given, value, fps[..unique], fp, v);
      }
    }
    Exactness(cfg, old', oldContents, filter, contents, given, value, ok);
  }

  lemma NewAscending(fps: seq<nat>)
    requires RadixSort.StrictlySorted(fps)
    ensures Ascending(fps)
  {
  }

  lemma BuiltHolds(cfg: Config, f: Filter, contents: seq<BlockContents>)
    requires Fits(cfg, f.numFingerprints, f.valueSize)
    requires Built(LayoutOf(cfg, f.numFingerprints, f.valueSize), f.blocks, contents)
    requires |f.blocks| == LayoutOf(cfg, f.numFingerprints, f.valueSize).NumIndices()
    ensures FilterHolds(cfg, f, contents) && f.blocks != []
  {
    hide BlockHolds;
  }

  lemma Exactness(cfg: Config, old': Filter, oldContents: seq<BlockContents>, filter: Filter, contents: seq<BlockContents>,
                  hashes: seq<nat>, value: nat, ok: bool)
    requires hashes != [] && Fits(cfg, |hashes| + old'.numFingerprints, BitLength(value))
    requires OldFilter(cfg, old', oldContents) && old'.valueSize <= BitLength(value)
    requires ok <==> OldPlaced(cfg, old', oldContents, |hashes| + old'.numFingerprints, BitLength(value))
    requires ok ==> forall fp: nat, v: nat :: InFilter(filter, contents, fp, v) <==>
               InLoaded(cfg, old', oldContents, BitLength(value), fp, v) || (v == value && fp in Fingerprints(cfg, hashes))
    ensures AddsExactly(cfg, old', oldContents, hashes, value)
       <==> ok && IsUnion(cfg, old', oldContents, filter, contents, hashes, value)
    ensures OldLoadsRight(cfg, old') ==> AddsExactly(cfg, old', oldContents, hashes, value)
  {
    hide OldPlaced, InFilter, InLoaded, Fingerprints, LoadsRight, Fits;
    if OldLoadsRight(cfg, old') {
      OldIsLoaded(cfg, old', oldContents, |hashes| + old'.numFingerprints, BitLength(value));
    }
  }

  lemma SamePlaces(cfg: Config, old': Filter, oldContents: seq<BlockContents>, numFingerprints: nat, valueSize: nat,
                   l: Layout, ol: Layout, d: nat)
    requires Fits(cfg, numFingerprints, valueSize) && l == LayoutOf(cfg, numFingerprints, valueSize)
    requires l.logNumIndices == ol.logNumIndices + d && (old'.blocks == [] ==> oldContents == [])
    requires old'.blocks != [] ==>
      Fits(cfg, old'.numFingerprints, old'.valueSize) && ol == LayoutOf(cfg, old'.numFingerprints, old'.valueSize)
    ensures OldPlaced(cfg, old', oldContents, numFingerprints, valueSize) <==> AllPlaced(l, ol, d, oldContents)
  {
    hide Placed, Loaded;
  }

  /** The layout of the old filter, and how many times its indices are to be doubled. */
  method OldLayout(cfg: Config, old': Filter, numFingerprints: nat, valueSize: nat, ghost oldContents: seq<BlockContents>)
    returns (ol: Layout, d: nat)
    requires Fits(cfg, numFingerprints, valueSize) && old'.numFingerprints <= numFingerprints
    requires OldFilter(cfg, old', oldContents) && old'.valueSize <= valueSize
    ensures var l := LayoutOf(cfg, numFingerprints, valueSize);
            && l.logNumIndices == ol.logNumIndices + d
            && (old'.blocks == [] ==> ol == Layout(0, 0, 0, 0) && oldContents == [])
            && (old'.blocks != [] ==>
                  && Fits(cfg, old'.numFingerprints, old'.valueSize)
                  && ol == LayoutOf(cfg, old'.numFingerprints, old'.valueSize)
                  && ol.remainderSize == l.remainderSize + d && ol.logIndexSize == l.logIndexSize
                  && ol.valueSize == old'.valueSize && ol.ItemSize() <= 32
                  && Built(ol, old'.blocks, oldContents) && |old'.blocks| == ol.NumIndices())
  {
    var l := LayoutOf(cfg, numFingerprints, valueSize);
    if old'.blocks != [] {
      ol := LayoutOf(cfg, old'.numFingerprints, old'.valueSize);
      LayoutFacts(cfg, old'.numFingerprints, old'.valueSize);
      LayoutGrows(cfg, old'.numFingerprints, old'.valueSize, numFingerprints, valueSize);
      d := l.logNumIndices - ol.logNumIndices;
    } else {
      ol := Layout(0, 0, 0, 0);
      d := l.logNumIndices;
    }
  }

  function Fingerprints(cfg: Config, hashes: seq<nat>): set<nat>
    requires cfg.Valid()
  {
    set i | 0 <= i < |hashes| :: Fingerprint(cfg, hashes[i])
  }

  lemma NewInRange(cfg: Config, l: Layout, hashes: seq<nat>, value: nat, fps: seq<nat>)
    requires cfg.Valid() && value < Pow2(l.valueSize)
    requires cfg.fingerprintSize == l.remainderSize + l.logIndexSize + l.logNumIndices
    requires forall i | 0 <= i < |hashes| :: hashes[i] < Pow2(32)
    requires RadixSort.SameElements(fps, NewItems(cfg, l.valueSize, hashes, value))
    ensures forall i | 0 <= i < |fps| :: RightShift(fps[i], l.ItemSize() + l.logIndexSize) < l.NumIndices()
  {
    hide Pow2, RightShift, LeftShift;
    var all := NewItems(cfg, l.valueSize, hashes, value);
    forall i | 0 <= i < |fps| ensures RightShift(fps[i], l.ItemSize() + l.logIndexSize) < l.NumIndices() {
      assert fps[i] in all;
      var k :| 0 <= k < |all| && all[k] == fps[i];
      var fp := Fingerprint(cfg, hashes[k]);
      RightShiftBound(hashes[k], 32 - cfg.fingerprintSize, cfg.fingerprintSize);
      ItemParts(fp, value, l.remainderSize, l.valueSize);
      RightShiftTwice(fps[i], l.ItemSize(), l.logIndexSize);
      RightShiftTwice(fp, l.remainderSize, l.logIndexSize);
      RightShiftBound(fp, l.remainderSize + l.logIndexSize, l.logNumIndices);
    }
  }

  lemma NewExactly(cfg: Config, valueSize: nat, hashes: seq<nat>, value: nat, fps: seq<nat>, fp: nat, v: nat)
    requires cfg.Valid() && value < Pow2(valueSize) && v < Pow2(valueSize)
    requires RadixSort.SameElements(fps, NewItems(cfg, valueSize, hashes, value))
    ensures LeftShift(fp, valueSize) + v in Elements(fps) <==> v == value && fp in Fingerprints(cfg, hashes)
  {
    hide Pow2, RightShift, LeftShift, Fingerprint;
    var all := NewItems(cfg, valueSize, hashes, value);
    var x := LeftShift(fp, valueSize) + v;
    if x in fps {
      var k :| 0 <= k < |all| && all[k] == x;
      PartsUnique(x, valueSize, fp, v);
      PartsUnique(x, valueSize, Fingerprint(cfg, hashes[k]), value);
    }
    if v == value && fp in Fingerprints(cfg, hashes) {
      var k :| 0 <= k < |hashes| && Fingerprint(cfg, hashes[k]) == fp;
      assert all[k] == x;
    }
  }

  lemma OldExactly(items: set<nat>, oldValueSize: nat, valueSize: nat, fp: nat, v: nat)
    requires oldValueSize <= valueSize && v < Pow2(valueSize)
    ensures LeftShift(fp, valueSize) + v in WidenAll(items, oldValueSize, valueSize)
       <==> v < Pow2(oldValueSize) && LeftShift(fp, oldValueSize) + v in items
  {
    hide Pow2, RightShift, LeftShift, LowBits;
    var x := LeftShift(fp, valueSize) + v;
    PartsUnique(x, valueSize, fp, v);
    if x in WidenAll(items, oldValueSize, valueSize) {
      var y :| y in items && Widened(y, oldValueSize, valueSize) == x;
      WidenedParts(y, oldValueSize, valueSize, 0, 0);
      Parts(y, oldValueSize);
    }
    if v < Pow2(oldValueSize) {
      PartsUnique(LeftShift(fp, oldValueSize) + v, oldValueSize, fp, v);
    }
  }

  lemma IsElement(s: seq<nat>, x: nat)
    ensures x in multiset(s) <==> x in Elements(s)
  {
  }

  lemma ExactlyThese(cfg: Config, old': Filter, oldContents: seq<BlockContents>, filter: Filter,
                     contents: seq<BlockContents>, hashes: seq<nat>, value: nat, fps: seq<nat>, fp: nat, v: nat)
    requires cfg.Valid() && filter.valueSize == BitLength(value)
    requires RadixSort.SameElements(fps, NewItems(cfg, filter.valueSize, hashes, value))
    requires old'.blocks != [] ==> Fits(cfg, old'.numFingerprints, old'.valueSize)
    requires Bag(contents) == multiset(fps)
      + if old'.blocks == [] then multiset{}
        else BagLoaded(LayoutOf(cfg, old'.numFingerprints, old'.valueSize), filter.valueSize, oldContents)
    ensures InFilter(filter, contents, fp, v) <==>
              InLoaded(cfg, old', oldContents, filter.valueSize, fp, v) || (v == value && fp in Fingerprints(cfg, hashes))
  {
    hide Pow2, RightShift, LeftShift, Bag, AllItems, Elements, Fingerprints, InContents, Fits, LayoutOf, AllLoaded,
      BagLoaded;
    var x := LeftShift(fp, filter.valueSize) + v;
    InAllItems(contents, x);
    BagIsAll(contents, x);
    if old'.blocks != [] {
      BagIsLoaded(LayoutOf(cfg, old'.numFingerprints, old'.valueSize), filter.valueSize, oldContents, x);
    }
    IsElement(fps, x);
    if v < Pow2(filter.valueSize) {
      NewExactly(cfg, filter.valueSize, hashes, value, fps, fp, v);
    }
  }
}
