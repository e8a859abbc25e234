/** A node that takes no pivot although it has just been split.

    If there is no room to lower the least key of a node, the node is split first, and the key is
    lowered afterwards.  The node can be full then.  It is the parent of the next level, and when the
    child below it is split, the new pivot may not fit.  For a leaf the insertion stops with an
    assertion; for an index node the result is not looked at, and the right part is lost. */
module FullParent {
  import opened Messages
  import opened Slotted
  import opened LeafPage
  import opened IndexNode
  import opened IndexSplit

  /** The keys of the example, in order: the new least key, A, F, B, C, the key of the pivot to come,
      D, E and G. */
  function Length(k: Key, last: nat): nat {
    match k
    case 0 => 512
    case 1 => 511
    case 2 => 348
    case 8 => 447
    case 9 => last
    case _ => 512
  }

  function Config(data: DataConfig, last: nat): TreeConfig {
    TreeConfig(4096, (k: Key) => Length(k, last), data)
  }

  const FILLED := [Pivot(1, 1), Pivot(2, 2), Pivot(3, 3), Pivot(4, 4), Pivot(5, 5), Pivot(6, 6), Pivot(8, 8)]

  /** Appending to the example. */
  method Append(node: Index, k: nat, p: Pivot)
    requires node.Valid() && k == |node.offsets| && !node.IsFull() && PivotWithinLimits(node.cfg, p)
    modifies node
    ensures node.Valid() && node.Contents() == old(node.Contents()) + [p]
    ensures node.nextEntry == old(node.nextEntry) - INDEX_ENTRY - node.cfg.keyLength(p.key)
    ensures node.offsets == old(node.offsets) + [node.nextEntry]
  {
    hide PageOk;
    var ok := node.Set(k, p);
  }

  method InsertAt(node: Index, k: nat, p: Pivot)
    requires node.Valid() && k <= |node.offsets| && !node.IsFull() && PivotWithinLimits(node.cfg, p)
    modifies node
    ensures node.Valid() && node.Contents() == old(node.Contents())[..k] + [p] + old(node.Contents())[k..]
    ensures node.nextEntry == old(node.nextEntry) - INDEX_ENTRY - node.cfg.keyLength(p.key)
    ensures node.offsets == old(node.offsets)[..k] + [node.nextEntry] + old(node.offsets)[k..]
  {
    hide PageOk;
    var ok := node.Insert(k, p);
  }

  ghost predicate Is(node: Index, data: DataConfig, last: nat, pivots: seq<Pivot>, offsets: seq<nat>, nextEntry: nat)
    reads node
  {
    && node.Valid() && node.cfg == Config(data, last)
    && node.Contents() == pivots && node.offsets == offsets && node.nextEntry == nextEntry
  }

  /** Seven insertions into an empty node; there is room for a pivot of maximal size before each. */
  method Fill(data: DataConfig, last: nat) returns (node: Index)
    requires last <= 512
    ensures fresh(node) && Is(node, data, last, FILLED, [3562, 1051, 3027, 2492, 1957, 1422, 581], 581)
  {
    node := new Index(Config(data, last));
    hide PageOk, EntrySize, Index.Contents;
    Append(node, 0, Pivot(1, 1));
    Append(node, 1, Pivot(3, 3));
    Append(node, 2, Pivot(4, 4));
    assert Is(node, data, last, [Pivot(1, 1), Pivot(3, 3), Pivot(4, 4)], [3562, 3027, 2492], 2492);
    FillOn(node, data, last);
  }

  method FillOn(node: Index, data: DataConfig, last: nat)
    requires Is(node, data, last, [Pivot(1, 1), Pivot(3, 3), Pivot(4, 4)], [3562, 3027, 2492], 2492)
    modifies node
    ensures Is(node, data, last, FILLED, [3562, 1051, 3027, 2492, 1957, 1422, 581], 581)
  {
    hide PageOk, EntrySize, Index.Contents;
    Append(node, 3, Pivot(5, 5));
    Append(node, 4, Pivot(6, 6));
    InsertAt(node, 1, Pivot(2, 2));
    InsertAt(node, 6, Pivot(8, 8));
  }

  lemma FilledBytes(data: DataConfig, last: nat)
    ensures var l := IndexLayout(Config(data, last));
            && LiveBytes(l, FILLED) == 3515 && LiveBytes(l, FILLED[..4]) == 1975 && LiveBytes(l, FILLED[..3]) == 1440
  {
    var l := IndexLayout(Config(data, last));
    NoBytes(l);
    hide LiveBytes;
    assert FILLED[..0] == [] && FILLED[..7] == FILLED;
    LiveNext(l, FILLED, 0);
    LiveNext(l, FILLED, 1);
    LiveNext(l, FILLED, 2);
    LiveNext(l, FILLED, 3);
    LiveNext(l, FILLED, 4);
    LiveNext(l, FILLED, 5);
    LiveNext(l, FILLED, 6);
  }

  /** The cut is behind the fourth pivot. */
  lemma CutOfFilled(data: DataConfig, last: nat, cut: nat)
    requires IsCut(Config(data, last), FILLED, cut)
    ensures cut == 4
  {
    var l := IndexLayout(Config(data, last));
    FilledBytes(data, last);
    if cut > 4 {
      LiveMonotone(l, FILLED, 4, cut - 1);
    } else {
      LiveMonotone(l, FILLED, cut, if cut < 4 then 3 else cut);
    }
  }

  lemma {:induction false} LiveMonotone(l: Layout<Pivot>, pivots: seq<Pivot>, a: nat, b: nat)
    requires a <= b <= |pivots|
    ensures LiveBytes(l, pivots[..a]) <= LiveBytes(l, pivots[..b])
  {
    if a < b {
      LiveMonotone(l, pivots, a, b - 1);
      LiveNext(l, pivots, b - 1);
    }
  }

  /** Pages of 4096 bytes.  The node is full, and a new least key of 512 bytes cannot be set.  It is
      split, with room on both sides; the key is set; and the node is full again: no pivot of 447 to
      512 bytes fits. */
  method LeastKeyFillsNode(data: DataConfig, last: nat) returns (node: Index, fits: bool, accepted: bool)
    requires 447 <= last <= 512
    ensures fresh(node) && node.Valid() && node.cfg == Config(data, last)
    ensures node.Contents() == [Pivot(0, 1), Pivot(2, 2), Pivot(3, 3), Pivot(4, 4)]
    ensures !fits && node.IsFull() && !accepted
  {
    node := Fill(data, last);
    fits := TryLeast(node, data, last);
    SplitFilled(node, data, last);
    accepted := SetAndInsert(node, data, last);
  }

  method TryLeast(node: Index, data: DataConfig, last: nat) returns (fits: bool)
    requires Is(node, data, last, FILLED, [3562, 1051, 3027, 2492, 1957, 1422, 581], 581)
    modifies node
    ensures Is(node, data, last, FILLED, [3562, 1051, 3027, 2492, 1957, 1422, 581], 581)
    ensures node.IsFull() && !fits
  {
    hide PageOk, Index.Contents;
    assert node.EntryAt(0) == FILLED[0] == Pivot(1, 1);
    fits := node.Set(0, Pivot(0, 1));
  }

  method SplitFilled(node: Index, data: DataConfig, last: nat)
    requires Is(node, data, last, FILLED, [3562, 1051, 3027, 2492, 1957, 1422, 581], 581) && last <= 512
    modifies node
    ensures Is(node, data, last, FILLED[..4], [3562, 1051, 3027, 2492], 1051) && !node.IsFull()
  {
    hide PageOk, Index.Contents, LiveBytes, IsCut, FILLED, LeastOffset;
    FilledBytes(data, last);
    AllShort(data, last);
    var right, cut := DefragmentOrSplit(node);
    CutOfFilled(data, last, cut);
    LeastOfFour();
  }

  method SetAndInsert(node: Index, data: DataConfig, last: nat) returns (accepted: bool)
    requires Is(node, data, last, FILLED[..4], [3562, 1051, 3027, 2492], 1051) && 447 <= last <= 512
    modifies node
    ensures node.Valid() && node.Contents() == [Pivot(0, 1), Pivot(2, 2), Pivot(3, 3), Pivot(4, 4)]
    ensures node.IsFull() && !accepted
  {
    hide PageOk, Index.Contents;
    assert node.EntryAt(0) == FILLED[..4][0] == Pivot(1, 1);
    LeastOfFour();
    SetMinKey(node, Pivot(0, 1));
    assert node.nextEntry == 516 && |node.Contents()| == 4 && node.cfg.keyLength(9) == last;
    accepted := InsertPivot(node, 1, Pivot(9, 9));
  }

  lemma AllShort(data: DataConfig, last: nat)
    requires last <= 512
    ensures AllPivotsWithinLimits(Config(data, last), FILLED)
  {
  }

  lemma LeastOfFour()
    ensures [3562, 1051, 3027, 2492, 1957, 1422, 581][..4] == [3562, 1051, 3027, 2492]
    ensures LeastOffset([3562, 1051, 3027, 2492], 4096) == 1051
    ensures FILLED[..4][0 := Pivot(0, 1)] == [Pivot(0, 1), Pivot(2, 2), Pivot(3, 3), Pivot(4, 4)]
  {
    assert [3562, 1051, 3027, 2492][..3] == [3562, 1051, 3027];
    assert [3562, 1051, 3027][..2] == [3562, 1051];
    assert [3562, 1051][..1] == [3562];
    assert [3562][..0] == [];
    assert LeastOffset([3562], 4096) == 3562;
    assert LeastOffset([3562, 1051], 4096) == 1051;
    assert LeastOffset([3562, 1051, 3027], 4096) == 1051;
  }
}
