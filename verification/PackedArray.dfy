/** Items of 1 to 32 bits packed into a buffer of 32-bit words. */
module PackedArray {
  import opened Modulo
  import opened Words

  predicate BitAt(words: seq<Word>, n: nat)
    requires n < 32 * |words|
  {
    words[n / 32][n % 32]
  }

  /** The number of the first bit of an item. */
  function FirstBit(item: nat, bits: nat): nat {
    item * bits
  }

  lemma FirstBitNext(item: nat, bits: nat)
    ensures FirstBit(item + 1, bits) == FirstBit(item, bits) + bits
  {
  }

  lemma {:induction false} FirstBitMonotone(i: nat, j: nat, bits: nat)
    requires i <= j
    ensures FirstBit(i, bits) <= FirstBit(j, bits)
    ensures i < j ==> FirstBit(i, bits) + bits <= FirstBit(j, bits)
  {
    if i < j {
      FirstBitMonotone(i, j - 1, bits);
      FirstBitNext(j - 1, bits);
    }
  }

  /** Item `offset` of the buffer is `item`. */
  ghost predicate Holds(words: seq<Word>, offset: nat, bits: nat, item: Word) {
    && FirstBit(offset, bits) + bits <= 32 * |words|
    && forall i | 0 <= i < 32 ::
         item[i] == (i < bits && BitAt(words, FirstBit(offset, bits) + i))
  }

  /** PackedArray_get */
  method Get(a: seq<Word>, offset: nat, bits: nat) returns (out: Word)
    requires bits <= 32 && a != [] && FirstBit(offset, bits) + bits <= 32 * |a|
    ensures Holds(a, offset, bits, out)
  {
    var at := offset * bits / 32;
    var startBit := offset * bits % 32;
    assert FirstBit(offset, bits) == 32 * at + startBit;
    var bitsAvailable := 32 - startBit;
    var mask := Mask(bits);
    if bits <= bitsAvailable {
      out := And(Shr(a[at], startBit), mask);
      forall i | 0 <= i < bits ensures out[i] == BitAt(a, FirstBit(offset, bits) + i) {
        BitOf(a, at, startBit + i);
      }
    } else {
      var low := Shr(a[at], startBit);
      var high := Shl(a[at + 1], 32 - startBit);
      out := Xor(low, And(Xor(low, high), Shl(Shr(mask, bitsAvailable), bitsAvailable)));
      forall i | 0 <= i < bits ensures out[i] == BitAt(a, FirstBit(offset, bits) + i) {
        if i < bitsAvailable {
          BitOf(a, at, startBit + i);
        } else {
          BitOf(a, at + 1, i - bitsAvailable);
        }
      }
    }
  }

  lemma BitOf(words: seq<Word>, at: nat, i: nat)
    requires at < |words| && i < 32
    ensures BitAt(words, 32 * at + i) == words[at][i]
  {
  }

  /** Outside the item nothing changes. */
  ghost predicate OnlyChanged(before: seq<Word>, after: seq<Word>, from: nat, to: nat) {
    && |after| == |before|
    && forall n | 0 <= n < 32 * |before| && !(from <= n < to) :: BitAt(after, n) == BitAt(before, n)
  }

  /** PackedArray_set */
  method Set(a: array<Word>, offset: nat, item: Word, bits: nat)
    requires 1 <= bits <= 32 && FirstBit(offset, bits) + bits <= 32 * a.Length
    requires forall i | bits <= i < 32 :: !item[i]
    modifies a
    ensures Holds(a[..], offset, bits, item)
    ensures OnlyChanged(old(a[..]), a[..], FirstBit(offset, bits), FirstBit(offset, bits) + bits)
  {
    var at := FirstBit(offset, bits) / 32;
    var startBit := FirstBit(offset, bits) % 32;
    hide FirstBit;
    var bitsAvailable := 32 - startBit;
    var mask := Mask(bits);
    if bits <= bitsAvailable {
      a[at] := Or(And(a[at], Not(Shl(mask, startBit))), Shl(item, startBit));
    } else {
      var low := Shl(item, startBit);
      var high := Shr(item, bitsAvailable);
      a[at] := Or(And(a[at], Not(Shl(mask, startBit))), low);
      a[at + 1] := Or(And(a[at + 1], Not(Shr(mask, 32 - startBit))), high);
    }
  }

  // ----- packing runs of items

  /** The start bit of an item only depends on its case number, the item number modulo 32. */
  lemma CaseStartBit(item: nat, bits: nat)
    ensures item % 32 * bits % 32 == FirstBit(item, bits) % 32
    ensures item % 32 == 0 ==> FirstBit(item, bits) % 32 == 0
  {
    var q, r := item / 32, item % 32;
    var h := r * bits / 32;
    assert item * bits == (32 * q + r) * bits == 32 * (q * bits) + r * bits;
    assert r * bits == 32 * h + r * bits % 32;
    ModIs(item * bits, 32, q * bits + h, r * bits % 32);
  }

  /** Bit n of the output, where the word in progress is still in `packed`. */
  predicate Bit(words: seq<Word>, at: nat, packed: Word, n: nat)
    requires at <= |words| && n < 32 * (at + 1)
  {
    if n / 32 < at then words[n / 32][n % 32] else packed[n % 32]
  }

  ghost predicate InProgress(words: seq<Word>, at: nat, packed: Word, pos: nat) {
    && at == pos / 32 <= |words|
    && forall i | pos % 32 <= i < 32 :: !packed[i]
  }

  ghost predicate SameBits(words: seq<Word>, at: nat, packed: Word,
                           words': seq<Word>, at': nat, packed': Word, to: nat)
    requires at <= |words| && at' <= |words'| && to <= 32 * (at + 1) && to <= 32 * (at' + 1)
  {
    forall n | 0 <= n < to :: Bit(words', at', packed', n) == Bit(words, at, packed, n)
  }

  ghost predicate SameFrom(words: seq<Word>, words': seq<Word>, at: nat) {
    |words'| == |words| && forall k | at <= k < |words| :: words'[k] == words[k]
  }

  /** One case of the pack switch. */
  method PackCase(a: array<Word>, at: nat, packed: Word, item: Word, caseNo: nat, bits: nat, ghost pos: nat)
    returns (at': nat, packed': Word)
    requires 1 <= bits <= 32 && caseNo * bits % 32 == pos % 32
    requires pos + bits <= 32 * a.Length && InProgress(a[..], at, packed, pos)
    requires forall i | bits <= i < 32 :: !item[i]
    modifies a
    ensures InProgress(a[..], at', packed', pos + bits)
    ensures SameBits(old(a[..]), at, packed, a[..], at', packed', pos)
    ensures forall i | 0 <= i < bits :: Bit(a[..], at', packed', pos + i) == item[i]
    ensures SameFrom(old(a[..]), a[..], at')
  {
    at', packed' := WriteAt(a, at, packed, item, caseNo * bits % 32, bits, pos);
  }

  /** Appends an item at a bit of the word in progress; it may end in the next word. */
  method WriteAt(a: array<Word>, at: nat, packed: Word, item: Word, startBit: nat, bits: nat, ghost pos: nat)
    returns (at': nat, packed': Word)
    requires 1 <= bits <= 32 && startBit == pos % 32
    requires pos + bits <= 32 * a.Length && InProgress(a[..], at, packed, pos)
    requires forall i | bits <= i < 32 :: !item[i]
    modifies a
    ensures InProgress(a[..], at', packed', pos + bits)
    ensures SameBits(old(a[..]), at, packed, a[..], at', packed', pos)
    ensures forall i | 0 <= i < bits :: Bit(a[..], at', packed', pos + i) == item[i]
    ensures SameFrom(old(a[..]), a[..], at')
  {
    var bitsAvailable := 32 - startBit;
    at' := at;
    packed' := Or(packed, Shl(item, startBit));
    if bits <= bitsAvailable {
      if bits == bitsAvailable {
        a[at'] := packed';
        at' := at' + 1;
        packed' := Zero();
      }
    } else {
      a[at'] := packed';
      at' := at' + 1;
      packed' := Shr(item, bitsAvailable);
    }
  }

  /** The first `count` items are in place, and what was there before them is unchanged. */
  ghost predicate PackedSoFar(words: seq<Word>, at: nat, packed: Word, before: seq<Word>,
                              offset: nat, items: seq<Word>, bits: nat, count: nat)
    requires 1 <= bits <= 32 && count <= |items|
  {
    var pos := FirstBit(offset + count, bits);
    && InProgress(words, at, packed, pos)
    && SameFrom(before, words, at)
    && FirstBit(offset, bits) <= pos <= 32 * |words|
    && (forall n | 0 <= n < FirstBit(offset, bits) :: Bit(words, at, packed, n) == BitAt(before, n))
    && (forall j | 0 <= j < count :: ItemAt(words, at, packed, FirstBit(offset + j, bits), pos, items[j], bits))
  }

  ghost predicate ItemAt(words: seq<Word>, at: nat, packed: Word, first: nat, pos: nat, item: Word, bits: nat)
    requires at <= |words| && pos <= 32 * (at + 1) && bits <= 32
  {
    && first + bits <= pos
    && forall i | 0 <= i < bits :: Bit(words, at, packed, first + i) == item[i]
  }

  method PackNext(a: array<Word>, at: nat, packed: Word, ghost before: seq<Word>, offset: nat, items: seq<Word>,
                  bits: nat, count: nat, caseNo: nat)
    returns (at': nat, packed': Word)
    requires 1 <= bits <= 32 && count < |items| && caseNo == (offset + count) % 32
    requires FirstBit(offset + |items|, bits) <= 32 * a.Length
    requires forall i | bits <= i < 32 :: !items[count][i]
    requires PackedSoFar(a[..], at, packed, before, offset, items, bits, count)
    modifies a
    ensures PackedSoFar(a[..], at', packed', before, offset, items, bits, count + 1)
  {
    ghost var pos := FirstBit(offset + count, bits);
    CaseStartBit(offset + count, bits);
    FirstBitNext(offset + count, bits);
    FirstBitMonotone(offset + count + 1, offset + |items|, bits);
    ghost var words := a[..];
    at', packed' := PackCase(a, at, packed, items[count], caseNo, bits, pos);
    PackedStep(words, at, packed, a[..], at', packed', before, offset, items, bits, count);
  }

  lemma PackedStep(words: seq<Word>, at: nat, packed: Word, words': seq<Word>, at': nat, packed': Word,
                   before: seq<Word>, offset: nat, items: seq<Word>, bits: nat, count: nat)
    requires 1 <= bits <= 32 && count < |items|
    requires PackedSoFar(words, at, packed, before, offset, items, bits, count)
    requires var pos := FirstBit(offset + count, bits);
             && pos + bits == FirstBit(offset + count + 1, bits) <= 32 * |words'|
             && InProgress(words', at', packed', pos + bits)
             && SameBits(words, at, packed, words', at', packed', pos)
             && (forall i | 0 <= i < bits :: Bit(words', at', packed', pos + i) == items[count][i])
    requires SameFrom(words, words', at')
    ensures PackedSoFar(words', at', packed', before, offset, items, bits, count + 1)
  {
    hide Bit, FirstBit;
    var pos := FirstBit(offset + count, bits);
    forall n | 0 <= n < FirstBit(offset, bits) ensures Bit(words', at', packed', n) == BitAt(before, n) {
      assert Bit(words, at, packed, n) == BitAt(before, n);
    }
    forall j | 0 <= j < count + 1
      ensures ItemAt(words', at', packed', FirstBit(offset + j, bits), pos + bits, items[j], bits)
    {
      if j < count {
        var first := FirstBit(offset + j, bits);
        assert ItemAt(words, at, packed, first, pos, items[j], bits);
        forall i | 0 <= i < bits ensures Bit(words', at', packed', first + i) == items[j][i] {
          assert Bit(words, at, packed, first + i) == items[j][i];
        }
      }
    }
  }

  /** All items are in place and nothing else changed. */
  ghost predicate AllPacked(before: seq<Word>, after: seq<Word>, offset: nat, items: seq<Word>, bits: nat) {
    && (forall j | 0 <= j < |items| :: Holds(after, offset + j, bits, items[j]))
    && OnlyChanged(before, after, FirstBit(offset, bits), FirstBit(offset + |items|, bits))
  }

  lemma PackStart(words: seq<Word>, at: nat, startBit: nat, offset: nat, items: seq<Word>, bits: nat)
    requires 1 <= bits <= 32 && at < |words| && startBit < 32
    requires FirstBit(offset, bits) == 32 * at + startBit
    ensures PackedSoFar(words, at, And(words[at], Mask(startBit)), words, offset, items, bits, 0)
  {
  }

  /** Consecutive cases of the pack switch, with case 0 following case 31. */
  method PackRun(a: array<Word>, at: nat, packed: Word, ghost before: seq<Word>, offset: nat, items: seq<Word>,
                 bits: nat, from: nat, to: nat, firstCase: nat)
    returns (at': nat, packed': Word)
    requires 1 <= bits <= 32 && from <= to <= |items| && firstCase == (offset + from) % 32
    requires FirstBit(offset + |items|, bits) <= 32 * a.Length
    requires forall j | 0 <= j < |items| :: forall i | bits <= i < 32 :: !items[j][i]
    requires PackedSoFar(a[..], at, packed, before, offset, items, bits, from)
    modifies a
    ensures PackedSoFar(a[..], at', packed', before, offset, items, bits, to)
  {
    hide PackedSoFar, FirstBit;
    at', packed' := at, packed;
    var caseNo, done := firstCase, from;
    while done < to
      invariant from <= done <= to && caseNo == (offset + done) % 32
      invariant PackedSoFar(a[..], at', packed', before, offset, items, bits, done)
    {
      at', packed' := PackNext(a, at', packed', before, offset, items, bits, done, caseNo);
      NextCase(offset + done);
      done := done + 1;
      caseNo := (caseNo + 1) % 32;
    }
  }

  /** PackedArray_pack: full rounds of 32 cases first, then the rest, then the bits behind the
      last item are put back. */
  method Pack(a: array<Word>, offset: nat, items: seq<Word>, bits: nat)
    requires 1 <= bits <= 32 && items != []
    requires FirstBit(offset + |items|, bits) <= 32 * a.Length
    requires forall j | 0 <= j < |items| :: forall i | bits <= i < 32 :: !items[j][i]
    modifies a
    ensures AllPacked(old(a[..]), a[..], offset, items, bits)
  {
    hide FirstBit, PackedSoFar, AllPacked;
    ghost var before := a[..];
    FirstBitMonotone(offset, offset + |items|, bits);
    FirstBitMonotone(offset, offset + 1, bits);
    FirstBitMonotone(offset + 1, offset + |items|, bits);
    var at: nat, startBit: nat := FirstBit(offset, bits) / 32, FirstBit(offset, bits) % 32;
    var packed: Word := And(a[at], Mask(startBit));
    PackStart(before, at, startBit, offset, items, bits);
    var off, count, done: nat := offset % 32, |items|, 0;
    if count >= 32 - off {
      var n := (count + off) / 32;
      FullRounds(offset, count);
      done := 32 * n - off;
      count := count - done;
      at, packed := PackRun(a, at, packed, before, offset, items, bits, 0, done, off);
      CaseStartBit(offset + done, bits);
      if count == 0 {
        PackedDone(a[..], at, packed, a[..], before, offset, items, bits);
        return;
      }
      off, startBit := 0, 0;
    }
    at, packed := PackRun(a, at, packed, before, offset, items, bits, done, |items|, off);
    TailBits(offset, |items|, count, startBit, bits);
    ghost var words := a[..];
    PackedFits(words, at, packed, before, offset, items, bits);
    if (FirstBit(count, bits) + startBit) % 32 != 0 {
      var end := (FirstBit(count, bits) + startBit - 1) % 32 + 1;
      EndBit(FirstBit(count, bits) + startBit);
      a[at] := Or(packed, And(a[at], Not(Mask(end))));
    }
    PackedDone(words, at, packed, a[..], before, offset, items, bits);
  }

  lemma NextCase(n: nat)
    ensures (n % 32 + 1) % 32 == (n + 1) % 32
  {
  }

  /** The rounds that fill whole words end in front of a case 0. */
  lemma FullRounds(offset: nat, count: nat)
    requires count >= 32 - offset % 32
    ensures var done := 32 * ((count + offset % 32) / 32) - offset % 32;
            0 <= done <= count && (offset + done) % 32 == 0
  {
    var n := (count + offset % 32) / 32;
    ModIs(offset + (32 * n - offset % 32), 32, offset / 32 + n, 0);
  }

  lemma EndBit(n: nat)
    requires n % 32 != 0
    ensures (n - 1) % 32 + 1 == n % 32
  {
  }

  lemma PackedFits(words: seq<Word>, at: nat, packed: Word, before: seq<Word>,
                   offset: nat, items: seq<Word>, bits: nat)
    requires 1 <= bits <= 32
    requires PackedSoFar(words, at, packed, before, offset, items, bits, |items|)
    ensures FirstBit(offset + |items|, bits) % 32 != 0 ==> at < |words|
  {
  }

  /** The last `count` items start at `startBit` of a word. */
  lemma TailBits(offset: nat, total: nat, count: nat, startBit: nat, bits: nat)
    requires count <= total && 1 <= bits
    requires startBit == FirstBit(offset + (total - count), bits) % 32
    ensures (FirstBit(count, bits) + startBit) % 32 == FirstBit(offset + total, bits) % 32
  {
    var first := offset + (total - count);
    var q := first * bits / 32;
    assert FirstBit(offset + total, bits) == (first + count) * bits == first * bits + count * bits;
    assert first * bits == 32 * q + startBit;
    var r := (count * bits + startBit) % 32;
    var h := (count * bits + startBit) / 32;
    ModIs(FirstBit(offset + total, bits), 32, q + h, r);
  }

  lemma PackedDone(words: seq<Word>, at: nat, packed: Word, words': seq<Word>, before: seq<Word>,
                   offset: nat, items: seq<Word>, bits: nat)
    requires 1 <= bits <= 32
    requires PackedSoFar(words, at, packed, before, offset, items, bits, |items|)
    requires forall j | 0 <= j < |items| :: forall i | bits <= i < 32 :: !items[j][i]
    requires var end := FirstBit(offset + |items|, bits) % 32;
             if end == 0 then words' == words
             else at < |words| && words' == words[at := Or(packed, And(words[at], Not(Mask(end))))]
    ensures AllPacked(before, words', offset, items, bits)
  {
    var pos := FirstBit(offset + |items|, bits);
    assert forall n | 0 <= n < pos :: BitAt(words', n) == Bit(words, at, packed, n);
    forall n | 0 <= n < 32 * |before| && !(FirstBit(offset, bits) <= n < pos)
      ensures BitAt(words', n) == BitAt(before, n)
    {
      if n < pos {
        assert Bit(words, at, packed, n) == BitAt(before, n);
      }
    }
    hide Bit, BitAt;
    forall j | 0 <= j < |items| ensures Holds(words', offset + j, bits, items[j]) {
      assert ItemAt(words, at, packed, FirstBit(offset + j, bits), pos, items[j], bits);
      var first := FirstBit(offset + j, bits);
      forall i | 0 <= i < bits ensures items[j][i] == BitAt(words', first + i) {
        assert Bit(words, at, packed, first + i) == items[j][i];
      }
    }
  }

  /** One case of the unpack switch. */
  method UnpackCase(a: seq<Word>, at: nat, caseNo: nat, bits: nat, ghost item: nat)
    returns (at': nat, out: Word)
    requires 1 <= bits <= 32 && caseNo == item % 32 && at == FirstBit(item, bits) / 32
    requires FirstBit(item, bits) + bits <= 32 * |a|
    ensures Holds(a, item, bits, out)
    ensures at' == if at * 32 + 32 < FirstBit(item, bits) + bits then at + 1 else at
  {
    CaseStartBit(item, bits);
    at', out := ReadAt(a, at, caseNo * bits % 32, bits, FirstBit(item, bits));
  }

  /** The item that begins at a bit of a word, and may end in the next word. */
  method ReadAt(a: seq<Word>, at: nat, startBit: nat, bits: nat, ghost first: nat)
    returns (at': nat, out: Word)
    requires 1 <= bits <= 32 && startBit < 32 && first == 32 * at + startBit && first + bits <= 32 * |a|
    ensures forall i | 0 <= i < bits :: out[i] == BitAt(a, first + i)
    ensures forall i | bits <= i < 32 :: !out[i]
    ensures at' == if at * 32 + 32 < first + bits then at + 1 else at
  {
    var bitsAvailable := 32 - startBit;
    at' := at;
    if bits <= bitsAvailable {
      out := And(Shr(a[at], startBit), Mask(bits));
      forall i | 0 <= i < bits ensures out[i] == BitAt(a, first + i) {
        BitOf(a, at, startBit + i);
      }
    } else {
      var low := Shr(a[at], startBit);
      at' := at + 1;
      var high := Shl(a[at'], bitsAvailable);
      out := And(Or(low, high), Mask(bits));
      forall i | 0 <= i < bits ensures out[i] == BitAt(a, first + i) {
        if i < bitsAvailable {
          BitOf(a, at, startBit + i);
        } else {
          BitOf(a, at + 1, i - bitsAvailable);
        }
      }
    }
  }

  /** PackedArray_unpack.  The word that follows a full one is only read if more items follow:
      by the case that used up the word, or for case 31 at the start of the next round. */
  method Unpack(a: seq<Word>, offset: nat, count: nat, bits: nat) returns (out: seq<Word>)
    requires 1 <= bits <= 32 && count > 0 && FirstBit(offset + count, bits) <= 32 * |a|
    ensures |out| == count && forall j | 0 <= j < count :: Holds(a, offset + j, bits, out[j])
  {
    hide Holds, FirstBit;
    var at: nat := FirstBit(offset, bits) / 32;
    var caseNo: nat := offset % 32;
    out := [];
    while |out| < count
      invariant |out| <= count && caseNo == (offset + |out|) % 32
      invariant forall j | 0 <= j < |out| :: Holds(a, offset + j, bits, out[j])
      invariant |out| < count ==> at == FirstBit(offset + |out|, bits) / 32
    {
      var item := offset + |out|;
      FirstBitNext(item, bits);
      FirstBitMonotone(item + 1, offset + count, bits);
      var word;
      at, word := UnpackCase(a, at, caseNo, bits, item);
      out := out + [word];
      if FirstBit(item + 1, bits) % 32 == 0 && |out| < count {
        at := at + 1;
      }
      NextCase(item);
      caseNo := (caseNo + 1) % 32;
    }
  }

  // ----- round trips

  /** A buffer determines the item at a place. */
  lemma HoldsUnique(words: seq<Word>, offset: nat, bits: nat, x: Word, y: Word)
    requires Holds(words, offset, bits, x) && Holds(words, offset, bits, y)
    ensures x == y
  {
    assert forall i | 0 <= i < 32 :: x[i] == y[i];
  }

  /** Unpacking what was packed gives the items back. */
  lemma UnpackAfterPack(before: seq<Word>, after: seq<Word>, offset: nat, items: seq<Word>, bits: nat,
                        out: seq<Word>)
    requires AllPacked(before, after, offset, items, bits)
    requires |out| == |items| && forall j | 0 <= j < |items| :: Holds(after, offset + j, bits, out[j])
    ensures out == items
  {
    forall j | 0 <= j < |items| ensures out[j] == items[j] {
      HoldsUnique(after, offset + j, bits, out[j], items[j]);
    }
  }

  /** Packing and setting leave every other item as it was. */
  lemma OthersKept(before: seq<Word>, after: seq<Word>, from: nat, to: nat, bits: nat, other: nat, item: Word)
    requires Holds(before, other, bits, item)
    requires OnlyChanged(before, after, FirstBit(from, bits), FirstBit(to, bits))
    requires other < from || to <= other
    ensures Holds(after, other, bits, item)
  {
    if other < from {
      FirstBitMonotone(other, from, bits);
    } else {
      FirstBitMonotone(to, other, bits);
    }
  }
}
