/** Writing one block of a new filter: the merge of old and new fingerprints of one index, its
    bucket encoding and its packed remainders. */
module FilterBlock {
  import opened Words
  import PackedArray
  import opened BucketEncoding
  import opened FilterModel

  // ----- writing one block

  ghost predicate AllOnes(buffer: seq<bool>) {
    forall i | 0 <= i < |buffer| :: buffer[i]
  }

  /** The items so far are encoded in the buffer; `headerBit` is the next bit to be written. */
  ghost predicate Encoded(l: Layout, base: nat, buffer: seq<bool>, headerBit: nat, lastBucket: nat,
                          items: seq<nat>, counts: seq<nat>) {
    && Written(buffer, counts)
    && headerBit == |Encode(counts)| - 1
    && lastBucket == base + |counts| - 1
    && |counts| <= l.IndexSize()
    && Grouped(items, counts, l.ItemSize(), base)
  }

  lemma EncodedStart(l: Layout, base: nat, buffer: seq<bool>)
    requires AllOnes(buffer) && buffer != []
    ensures Encoded(l, base, buffer, 0, base, [], [0])
  {
    WriteFirst(buffer);
    assert [0][..0] == [];
  }

  method AddItem(l: Layout, ghost base: nat, buffer: array<bool>, headerBit: nat, lastBucket: nat, x: nat,
                 bucket: nat, ghost items: seq<nat>, ghost counts: seq<nat>)
    returns (headerBit': nat, ghost counts': seq<nat>)
    requires Encoded(l, base, buffer[..], headerBit, lastBucket, items, counts)
    requires bucket == RightShift(x, l.ItemSize()) && lastBucket <= bucket < base + l.IndexSize()
    requires |items| + l.IndexSize() + 1 <= buffer.Length
    modifies buffer
    ensures Encoded(l, base, buffer[..], headerBit', bucket, items + [x], counts')
  {
    hide RightShift, Pow2, Sum, Encode;
    ghost var d := bucket - lastBucket;
    ghost var skipped := counts + Repeat(0, d);
    WriteSkip(buffer[..], counts, d);
    GroupedSkip(items, counts, d, l.ItemSize(), base);
    hide Grouped, Written;
    headerBit' := headerBit + (bucket - lastBucket);
    WriteItem(buffer[..], skipped);
    GroupedItem(items, skipped, x, l.ItemSize(), base);
    ghost var n := |skipped| - 1;
    counts' := skipped[n := skipped[n] + 1];
    ghost var before := buffer[..];
    buffer[headerBit'] := false;
    assert buffer[..] == before[headerBit' := false];
    headerBit' := headerBit' + 1;
  }

  ghost predicate NotAfter(items: seq<nat>, s: seq<nat>, from: nat) {
    forall i, p | 0 <= i < |items| && from <= p < |s| :: items[i] <= s[p]
  }

  /** The items are the elements taken so far, in order, and none of the others comes before. */
  ghost predicate Merged(items: seq<nat>, a: seq<nat>, from: nat, i: nat, b: seq<nat>, j: nat) {
    && from <= i <= |a| && j <= |b|
    && Ascending(items) && NotAfter(items, a, i) && NotAfter(items, b, j)
    && |items| == i - from + j
    && multiset(items) == multiset(a[from..i]) + multiset(b[0..j])
  }

  lemma AppendLeast(items: seq<nat>, x: nat, a: seq<nat>, i: nat, b: seq<nat>, j: nat)
    requires Ascending(items) && Ascending(a) && Ascending(b)
    requires NotAfter(items, a, i) && NotAfter(items, b, j)
    requires i < |a| && x == a[i] && (j < |b| ==> x <= b[j])
    ensures Ascending(items + [x]) && NotAfter(items + [x], a, i + 1) && NotAfter(items + [x], b, j)
    ensures items != [] ==> items[|items| - 1] <= x
  {
  }

  lemma TakeNext(items: seq<nat>, s: seq<nat>, from: nat, p: nat, others: multiset<nat>)
    requires from <= p < |s| && multiset(items) == multiset(s[from..p]) + others
    ensures multiset(items + [s[p]]) == multiset(s[from..p + 1]) + others
  {
    assert s[from..p + 1] == s[from..p] + [s[p]];
  }

  lemma MergedStart(a: seq<nat>, from: nat, b: seq<nat>)
    requires from <= |a|
    ensures Merged([], a, from, from, b, 0)
  {
  }

  lemma MergedRanges(items: seq<nat>, a: seq<nat>, from: nat, i: nat, b: seq<nat>, j: nat)
    requires Merged(items, a, from, i, b, j)
    ensures from <= i <= |a| && j <= |b| && |items| == i - from + j
  {
  }

  lemma TookOld(items: seq<nat>, a: seq<nat>, from: nat, i: nat, b: seq<nat>, j: nat)
    requires Ascending(a) && Ascending(b) && Merged(items, a, from, i, b, j)
    requires i < |a| && (j < |b| ==> a[i] <= b[j])
    ensures Merged(items + [a[i]], a, from, i + 1, b, j)
    ensures items != [] ==> items[|items| - 1] <= a[i]
  {
    AppendLeast(items, a[i], a, i, b, j);
    hide Ascending, NotAfter;
    TakeNext(items, a, from, i, multiset(b[0..j]));
  }

  lemma TookNew(items: seq<nat>, a: seq<nat>, from: nat, i: nat, b: seq<nat>, j: nat)
    requires Ascending(a) && Ascending(b) && Merged(items, a, from, i, b, j)
    requires j < |b| && (i < |a| ==> b[j] <= a[i])
    ensures Merged(items + [b[j]], a, from, i, b, j + 1)
    ensures items != [] ==> items[|items| - 1] <= b[j]
  {
    AppendLeast(items, b[j], b, j, a, i);
    hide Ascending, NotAfter;
    TakeNext(items, b, 0, j, multiset(a[from..i]));
  }

  lemma MergedDone(items: seq<nat>, a: seq<nat>, from: nat, i: nat, b: seq<nat>)
    requires Merged(items, a, from, i, b, |b|)
    ensures Ascending(items) && multiset(items) == multiset(a[from..i]) + multiset(b)
  {
    assert b[0..|b|] == b;
  }

  /** The choice between the two sources; `<=` lets an old fingerprint go first. */
  method TakeLeast(oldSrc: seq<nat>, ghost oldFrom: nat, oldAdded: nat, newSrc: seq<nat>, newAdded: nat,
                   ghost items: seq<nat>)
    returns (fp: nat, isOld: bool)
    requires Ascending(oldSrc) && Ascending(newSrc)
    requires Merged(items, oldSrc, oldFrom, oldAdded, newSrc, newAdded)
    requires newAdded < |newSrc| || oldAdded < |oldSrc|
    ensures if isOld then oldAdded < |oldSrc| && fp == oldSrc[oldAdded]
            else newAdded < |newSrc| && fp == newSrc[newAdded]
    ensures isOld && newAdded < |newSrc| ==> fp <= newSrc[newAdded]
    ensures items != [] ==> items[|items| - 1] <= fp
    ensures Merged(items + [fp], oldSrc, oldFrom, if isOld then oldAdded + 1 else oldAdded,
                   newSrc, if isOld then newAdded else newAdded + 1)
  {
    MergedRanges(items, oldSrc, oldFrom, oldAdded, newSrc, newAdded);
    hide Merged;
    isOld := newAdded == |newSrc| || (oldAdded != |oldSrc| && oldSrc[oldAdded] <= newSrc[newAdded]);
    if isOld {
      fp := oldSrc[oldAdded];
      TookOld(items, oldSrc, oldFrom, oldAdded, newSrc, newAdded);
    } else {
      fp := newSrc[newAdded];
      TookNew(items, oldSrc, oldFrom, oldAdded, newSrc, newAdded);
    }
  }

  /** The merge of the old and the new fingerprints of one index.  An old fingerprint of a later
      index is put back. */
  method MergeLoop(l: Layout, indexNo: nat, buffer: array<bool>, oldSrc: seq<nat>, oldFrom: nat, newSrc: seq<nat>)
    returns (oldTo: nat, dst: seq<nat>, headerBit: nat, lastBucket: nat,
             ghost items: seq<nat>, ghost counts: seq<nat>)
    requires oldFrom <= |oldSrc| && Ascending(oldSrc) && Ascending(newSrc)
    requires var base := LeftShift(indexNo, l.logIndexSize);
             && (forall q | 0 <= q < |newSrc| ::
                   base <= RightShift(newSrc[q], l.ItemSize()) < base + l.IndexSize())
             && (forall p | oldFrom <= p < |oldSrc| :: base <= RightShift(oldSrc[p], l.ItemSize()))
    requires AllOnes(buffer[..]) && |oldSrc| - oldFrom + |newSrc| + l.IndexSize() + 64 <= buffer.Length
    modifies buffer
    ensures oldFrom <= oldTo <= |oldSrc|
    ensures var base := LeftShift(indexNo, l.logIndexSize);
            && (oldTo < |oldSrc| ==> base + l.IndexSize() <= RightShift(oldSrc[oldTo], l.ItemSize()))
            && Encoded(l, base, buffer[..], headerBit, lastBucket, items, counts)
    ensures Ascending(items)
    ensures multiset(items) == multiset(oldSrc[oldFrom..oldTo]) + multiset(newSrc)
    ensures |dst| == |items| && forall k | 0 <= k < |dst| :: dst[k] == LowBits(items[k], l.ItemSize())
  {
    ghost var base := LeftShift(indexNo, l.logIndexSize);
    hide LeftShift, RightShift, LowBits, NotAfter, Ascending, Merged, Grouped;
    var endBucket := LeftShift(indexNo, l.logIndexSize) + l.IndexSize();
    hide Pow2;
    var newAdded: nat := 0;
    headerBit, lastBucket := 0, LeftShift(indexNo, l.logIndexSize);
    oldTo, dst := oldFrom, [];
    items, counts := [], [0];
    MergedStart(oldSrc, oldFrom, newSrc);
    EncodedStart(l, base, buffer[..]);
    hide Encoded;
    while newAdded < |newSrc| || oldTo < |oldSrc|
      invariant newAdded <= |newSrc| && oldFrom <= oldTo <= |oldSrc|
      invariant Encoded(l, base, buffer[..], headerBit, lastBucket, items, counts)
      invariant lastBucket == if items == [] then base else RightShift(items[|items| - 1], l.ItemSize())
      invariant Merged(items, oldSrc, oldFrom, oldTo, newSrc, newAdded)
      invariant |items| == (oldTo - oldFrom) + newAdded
      invariant |dst| == |items| && forall k | 0 <= k < |dst| :: dst[k] == LowBits(items[k], l.ItemSize())
      decreases |newSrc| - newAdded + |oldSrc| - oldTo
    {
      var fp, isOld := TakeLeast(oldSrc, oldFrom, oldTo, newSrc, newAdded, items);
      if isOld {
        oldTo := oldTo + 1;
      } else {
        newAdded := newAdded + 1;
      }
      var bucket := RightShift(fp, l.ItemSize());
      if isOld && newAdded < |newSrc| {
        RightShiftMonotone(fp, newSrc[newAdded], l.ItemSize());
      }
      if bucket >= endBucket {
        oldTo := oldTo - 1;
        break;
      }
      if items != [] {
        RightShiftMonotone(items[|items| - 1], fp, l.ItemSize());
      }
      headerBit, counts := AddItem(l, base, buffer, headerBit, lastBucket, fp, bucket, items, counts);
      lastBucket := bucket;
      dst := dst + [LowBits(fp, l.ItemSize())];
      items := items + [fp];
    }
    MergedDone(items, oldSrc, oldFrom, oldTo, newSrc);
  }

  /** The stored parts of the items, packed. */
  method PackRemainders(l: Layout, dst: seq<nat>, ghost items: seq<nat>) returns (remainders: seq<Word>)
    requires l.ItemSize() <= 32
    requires |dst| == |items| && forall k | 0 <= k < |dst| :: dst[k] == LowBits(items[k], l.ItemSize())
    ensures remainders != []
    ensures forall p | 0 <= p < |items| :: RemainderAt(l, remainders, p, items[p])
  {
    hide LowBits, Pow2;
    var size := l.ItemSize();
    if dst == [] {
      return [Zero()];
    }
    if size == 0 {
      // PackedArray_pack has no case for width 0 and does nothing
      remainders := [Zero()];
      forall p | 0 <= p < |items| ensures RemainderAt(l, remainders, p, items[p]) {
        StoredBits(items[p], size);
      }
      return;
    }
    var words := seq(|dst|, k requires 0 <= k < |dst| => ToWord(dst[k]));
    forall j | 0 <= j < |words| ensures forall i | size <= i < 32 :: !words[j][i] {
      StoredBits(items[j], size);
    }
    var buffer := new Word[PackedArray.FirstBit(|dst|, size) / 32 + 1];
    PackedArray.Pack(buffer, 0, words, size);
    remainders := buffer[..];
    forall p | 0 <= p < |items| ensures RemainderAt(l, remainders, p, items[p]) {
      assert PackedArray.Holds(remainders, 0 + p, size, words[p]);
    }
  }

  lemma StoredBits(item: nat, size: nat)
    ensures forall i | size <= i < 32 :: !ToWord(LowBits(item, size))[i]
  {
    forall i | size <= i < 32 ensures !ToWord(LowBits(item, size))[i] {
      ToWordHigh(LowBits(item, size), size, i);
    }
  }

  /** The encoding is closed with the ends of the remaining buckets. */
  lemma CloseBuckets(l: Layout, base: nat, buffer: seq<bool>, headerBit: nat, lastBucket: nat,
                     items: seq<nat>, counts: seq<nat>) returns (all: seq<nat>)
    requires Encoded(l, base, buffer, headerBit, lastBucket, items, counts)
    requires |items| + l.IndexSize() <= |buffer|
    ensures |all| == l.IndexSize() && Grouped(items, all, l.ItemSize(), base)
    ensures Written(buffer, all) && |Encode(all)| == |items| + l.IndexSize()
  {
    hide RightShift, Pow2;
    var d := l.IndexSize() - |counts|;
    all := counts + Repeat(0, d);
    WriteSkip(buffer, counts, d);
    GroupedSkip(items, counts, d, l.ItemSize(), base);
  }

  /** Moves the encoding to the page, in front of whatever the page holds behind it, and resets
      the part of the buffer that was moved. */
  method MoveEncoding(buffer: array<bool>, encodingSize: nat, ghost counts: seq<nat>) returns (encoding: seq<bool>)
    requires Written(buffer[..], counts) && |Encode(counts)| <= 8 * encodingSize <= buffer.Length
    requires buffer.Length % 64 == 0
    modifies buffer
    ensures Encodes(encoding, counts) && AllOnes(buffer[..])
  {
    hide Encode;
    var page := new bool[buffer.Length];
    encoding := buffer[..8 * encodingSize] + page[8 * encodingSize..];
    var i := 0;
    while i < 8 * encodingSize
      invariant 0 <= i <= 8 * encodingSize
      invariant forall k | 0 <= k < i :: buffer[k]
      invariant forall k | 8 * encodingSize <= k < buffer.Length :: buffer[k]
    {
      buffer[i] := true;
      i := i + 1;
    }
  }

  /** One index of the new filter. */
  method MergeIndex(l: Layout, indexNo: nat, buffer: array<bool>, oldSrc: seq<nat>, oldFrom: nat, newSrc: seq<nat>)
    returns (oldTo: nat, block: Block, ghost contents: BlockContents)
    requires oldFrom <= |oldSrc| && Ascending(oldSrc) && Ascending(newSrc) && l.ItemSize() <= 32
    requires var base := LeftShift(indexNo, l.logIndexSize);
             && (forall q | 0 <= q < |newSrc| ::
                   base <= RightShift(newSrc[q], l.ItemSize()) < base + l.IndexSize())
             && (forall p | oldFrom <= p < |oldSrc| :: base <= RightShift(oldSrc[p], l.ItemSize()))
    requires AllOnes(buffer[..]) && |oldSrc| - oldFrom + |newSrc| + l.IndexSize() + 64 <= buffer.Length
    requires buffer.Length % 64 == 0
    modifies buffer
    ensures AllOnes(buffer[..])
    ensures oldFrom <= oldTo <= |oldSrc|
    ensures oldTo < |oldSrc| ==>
              LeftShift(indexNo, l.logIndexSize) + l.IndexSize() <= RightShift(oldSrc[oldTo], l.ItemSize())
    ensures BlockHolds(l, indexNo, block, contents)
    ensures multiset(contents.items) == multiset(oldSrc[oldFrom..oldTo]) + multiset(newSrc)
  {
    hide LeftShift, RightShift, LowBits, Pow2, Grouped, Encoded, Written, Encode, Encodes, RemainderAt, Ascending;
    var dst, headerBit, lastBucket;
    ghost var items, counts;
    oldTo, dst, headerBit, lastBucket, items, counts := MergeLoop(l, indexNo, buffer, oldSrc, oldFrom, newSrc);
    var remainders := PackRemainders(l, dst, items);
    MergedSize(items, oldSrc, oldFrom, oldTo, newSrc);
    ghost var base := LeftShift(indexNo, l.logIndexSize);
    ghost var all := CloseBuckets(l, base, buffer[..], headerBit, lastBucket, items, counts);
    var encodingSize := (|dst| + l.IndexSize() - 1) / 8 + 4;
    var encoding := MoveEncoding(buffer, encodingSize, all);
    block := Block(|dst|, encoding, remainders);
    contents := BlockContents(items, all);
  }

  lemma MergedSize(items: seq<nat>, a: seq<nat>, from: nat, to: nat, b: seq<nat>)
    requires from <= to <= |a|
    requires multiset(items) == multiset(a[from..to]) + multiset(b)
    ensures |items| == to - from + |b|
  {
    assert |multiset(items)| == |multiset(a[from..to])| + |multiset(b)|;
  }
}
