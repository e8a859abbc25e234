/** Old filters whose items have no stored bits: neither remainder nor value.

    If such a filter has a second block, fingerprints of it can be lost, because all blocks are
    loaded into one buffer and nothing clears it in between (see FilterLoad.LoadedItem).  For all
    other layouts nothing is lost. */
module FilterZeroWidth {
  import opened Words
  import opened BucketEncoding
  import opened FilterModel
  import opened FilterLoad
  import opened FilterAdd
  import RadixSort
  import RoutingFilter

  // ----- an old filter with fingerprint 1 in its first block, and the least one of the second block

  /** One element, in bucket `c`. */
  function OneAt(n: nat, c: nat): (counts: seq<nat>)
    requires c < n
    ensures |counts| == n
  {
    Repeat<nat>(0, c) + [1] + Repeat<nat>(0, n - c - 1)
  }

  lemma {:induction false} SumRepeat(n: nat)
    ensures Sum(Repeat<nat>(0, n)) == 0
  {
    var counts: seq<nat> := Repeat<nat>(0, n);
    if n == 0 {
      assert counts == [];
    } else {
      assert counts[..|counts| - 1] == Repeat<nat>(0, n - 1);
      SumRepeat(n - 1);
    }
  }

  lemma {:induction false} SumOneAt(n: nat, c: nat)
    requires c < n
    ensures Sum(OneAt(n, c)) == 1
  {
    var counts := OneAt(n, c);
    assert counts[n - 1] == if c == n - 1 then 1 else 0;
    if c == n - 1 {
      assert counts[..|counts| - 1] == Repeat<nat>(0, c);
      SumRepeat(c);
    } else {
      assert counts[..|counts| - 1] == OneAt(n - 1, c);
      SumOneAt(n - 1, c);
    }
  }

  lemma OneGroup(item: nat, n: nat, c: nat, base: nat)
    requires c < n && item == base + c
    ensures Grouped([item], OneAt(n, c), 0, base)
  {
    var counts := OneAt(n, c);
    SumOneAt(n, c);
    forall b, p | InGroup(counts, b, p) && 0 <= p < 1 ensures RightShift([item][p], 0) == base + b {
      assert RightShift(item, 0) == item && p == 0;
      if b < c {
        assert counts[..b + 1] == Repeat<nat>(0, b + 1);
        SumRepeat(b + 1);
      } else if b > c {
        assert counts[..b] == OneAt(b, c);
        SumOneAt(b, c);
      }
    }
  }

  function Contents(logIndexSize: nat, i: nat): BlockContents
    requires logIndexSize >= 1
  {
    var n := Pow2(logIndexSize);
    if i == 0 then BlockContents([1], OneAt(n, 1))
    else if i == 1 then BlockContents([n], OneAt(n, 0))
    else BlockContents([], Repeat<nat>(0, n))
  }

  function BlockOf(b: BlockContents): Block {
    var bits := Encode(b.counts);
    Block(|b.items|, bits + Repeat(true, (64 - |bits| % 64) % 64), [Zero()])
  }

  lemma BlockIsOk(l: Layout, i: nat)
    requires l.ItemSize() == 0 && l.logIndexSize >= 1
    ensures BlockHolds(l, i, BlockOf(Contents(l.logIndexSize, i)), Contents(l.logIndexSize, i))
  {
    var n, b := Pow2(l.logIndexSize), Contents(l.logIndexSize, i);
    if i == 0 {
      OneGroup(1, n, 1, 0);
    } else if i == 1 {
      OneGroup(n, n, 0, n);
    } else {
      SumRepeat(n);
    }
    Padded(b.counts);
    forall p | 0 <= p < |b.items| ensures RemainderAt(l, [Zero()], p, b.items[p]) {
      NothingStored(l, p, b.items[p]);
    }
  }

  lemma Padded(counts: seq<nat>)
    requires counts != []
    ensures Encodes(Encode(counts) + Repeat(true, (64 - |Encode(counts)| % 64) % 64), counts)
  {
    hide Encode;
  }

  lemma NothingStored(l: Layout, p: nat, item: nat)
    requires l.ItemSize() == 0
    ensures RemainderAt(l, [Zero()], p, item)
  {
    assert LowBits(item, 0) == 0;
    assert forall i | 0 <= i < 32 :: !ToWord(0)[i];
  }

  function OldContents(cfg: Config): (r: seq<BlockContents>)
    requires 1 <= cfg.logIndexSize < cfg.fingerprintSize
  {
    seq(Pow2(cfg.fingerprintSize - cfg.logIndexSize), i requires 0 <= i => Contents(cfg.logIndexSize, i))
  }

  /** Made of 2^fingerprintSize keys with these two fingerprints. */
  function Old(cfg: Config): Filter
    requires 1 <= cfg.logIndexSize < cfg.fingerprintSize
  {
    var contents := OldContents(cfg);
    Filter(seq(|contents|, i requires 0 <= i < |contents| => BlockOf(contents[i])), Pow2(cfg.fingerprintSize), 0)
  }

  /** The layout of all filters whose items have no stored bits. */
  function NoBits(cfg: Config): Layout
    requires cfg.logIndexSize <= cfg.fingerprintSize
  {
    Layout(0, 0, cfg.logIndexSize, cfg.fingerprintSize - cfg.logIndexSize)
  }

  lemma Log2Is(n: nat, k: nat)
    requires Pow2(k) <= n < Pow2(k + 1)
    ensures Log2(n) == k
  {
    if Log2(n) < k {
      Pow2Monotone(Log2(n) + 1, k);
    } else if Log2(n) > k {
      Pow2Monotone(k + 1, Log2(n));
    }
  }

  lemma OldLayoutIs(cfg: Config, more: nat)
    requires 1 <= cfg.logIndexSize < cfg.fingerprintSize <= 32 && more <= 1
    ensures Fits(cfg, Pow2(cfg.fingerprintSize) + more, 0)
    ensures LayoutOf(cfg, Pow2(cfg.fingerprintSize) + more, 0) == NoBits(cfg)
  {
    assert Pow2(cfg.fingerprintSize) >= 2;
    Log2Is(Pow2(cfg.fingerprintSize) + more, cfg.fingerprintSize);
  }

  lemma OldIsOk(cfg: Config)
    requires 1 <= cfg.logIndexSize < cfg.fingerprintSize <= 32
    ensures FilterHolds(cfg, Old(cfg), OldContents(cfg)) && OldFilter(cfg, Old(cfg), OldContents(cfg))
    ensures Old(cfg).blocks != [] && cfg.Valid()
    ensures LayoutOf(cfg, Old(cfg).numFingerprints, 0) == NoBits(cfg)
  {
    hide BlockHolds;
    OldLayoutIs(cfg, 0);
    forall i | 0 <= i < |OldContents(cfg)| ensures BlockHolds(NoBits(cfg), i, Old(cfg).blocks[i], OldContents(cfg)[i]) {
      BlockIsOk(NoBits(cfg), i);
    }
  }

  // ----- what is loaded of it

  /** One fingerprint in the first block, and the least one of the second block. */
  ghost predicate HoldsTwo(cfg: Config, contents: seq<BlockContents>)
    requires 1 <= cfg.logIndexSize < cfg.fingerprintSize
  {
    && |contents| == Pow2(cfg.fingerprintSize - cfg.logIndexSize) >= 2
    && contents[0].items == [1] && contents[1].items == [Pow2(cfg.logIndexSize)]
    && forall i | 2 <= i < |contents| :: contents[i].items == []
  }

  lemma OldHoldsTwo(cfg: Config)
    requires 1 <= cfg.logIndexSize < cfg.fingerprintSize
    ensures HoldsTwo(cfg, OldContents(cfg))
  {
    Pow2Monotone(1, cfg.fingerprintSize - cfg.logIndexSize);
  }

  lemma FirstCells(cfg: Config, contents: seq<BlockContents>)
    requires 1 <= cfg.logIndexSize < cfg.fingerprintSize && HoldsTwo(cfg, contents)
    ensures var l := NoBits(cfg);
            Cell(l, 0, contents[..1], 0) == 1 && Cell(l, 0, contents[..2], 0) == Pow2(cfg.logIndexSize) + 1
  {
    var l := NoBits(cfg);
    Pow2Monotone(1, cfg.logIndexSize);
    assert contents[..1][..0] == [] && contents[..2][..1] == contents[..1];
    Same(1);
    Same(Pow2(cfg.logIndexSize));
    OrDisjoint(1, 1, cfg.logIndexSize);
    hide BitOr;
    assert LoadedItem(l, 0, 1, Pow2(cfg.logIndexSize)) == BitOr(1, LeftShift(1, cfg.logIndexSize));
  }

  lemma Same(x: nat)
    ensures LeftShift(RightShift(x, 0), 0) == x && BitOr(0, x) == x
  {
  }

  /** The second block: its fingerprint is or-ed into that of the first. */
  lemma WhatIsLoaded(cfg: Config, contents: seq<BlockContents>, o: nat)
    requires 1 <= cfg.logIndexSize < cfg.fingerprintSize && HoldsTwo(cfg, contents) && o < |contents|
    ensures Loaded(NoBits(cfg), 0, contents[..o + 1])
         == if o == 0 then [1] else if o == 1 then [Pow2(cfg.logIndexSize) + 1] else []
  {
    hide Cell;
    FirstCells(cfg, contents);
  }

  lemma {:induction false} AllOfIt(cfg: Config, contents: seq<BlockContents>, o: nat)
    requires 1 <= cfg.logIndexSize < cfg.fingerprintSize && HoldsTwo(cfg, contents) && o <= |contents|
    ensures AllLoaded(NoBits(cfg), 0, contents[..o]) <= {1, Pow2(cfg.logIndexSize) + 1}
  {
    if o > 0 {
      AllOfIt(cfg, contents, o - 1);
      WhatIsLoaded(cfg, contents, o - 1);
      assert contents[..o][..o - 1] == contents[..o - 1];
      hide Loaded;
    }
  }

  /** An old filter with the two fingerprints and this layout. */
  ghost predicate IsOld(cfg: Config, old': Filter, contents: seq<BlockContents>) {
    && 1 <= cfg.logIndexSize < cfg.fingerprintSize <= 32
    && OldFilter(cfg, old', contents) && old'.blocks != [] && HoldsTwo(cfg, contents)
    && old'.numFingerprints == Pow2(cfg.fingerprintSize) && old'.valueSize == 0
  }

  lemma AllInPlace(cfg: Config, old': Filter, contents: seq<BlockContents>)
    requires IsOld(cfg, old', contents)
    ensures Fits(cfg, Pow2(cfg.fingerprintSize) + 1, 0)
    ensures OldPlaced(cfg, old', contents, Pow2(cfg.fingerprintSize) + 1, 0)
  {
    hide *;
    OldFacts(cfg, old', contents);
    OldLayoutIs(cfg, 0);
    OldLayoutIs(cfg, 1);
    BlocksInPlace(cfg, contents);
    LayoutsSame(cfg, old', contents);
  }

  lemma BlocksInPlace(cfg: Config, contents: seq<BlockContents>)
    requires 1 <= cfg.logIndexSize < cfg.fingerprintSize && HoldsTwo(cfg, contents)
    ensures AllPlaced(NoBits(cfg), NoBits(cfg), 0, contents)
  {
    hide Pow2, HoldsTwo, PlacedAt;
    forall o | 0 <= o < |contents| ensures PlacedAt(NoBits(cfg), NoBits(cfg), 0, contents, o) {
      EachInPlace(cfg, contents, o);
    }
  }

  lemma LayoutsSame(cfg: Config, old': Filter, contents: seq<BlockContents>)
    requires cfg.logIndexSize <= cfg.fingerprintSize && AllPlaced(NoBits(cfg), NoBits(cfg), 0, contents)
    requires old'.numFingerprints == Pow2(cfg.fingerprintSize) && old'.valueSize == 0
    requires Fits(cfg, Pow2(cfg.fingerprintSize), 0) && LayoutOf(cfg, Pow2(cfg.fingerprintSize), 0) == NoBits(cfg)
    requires Fits(cfg, Pow2(cfg.fingerprintSize) + 1, 0) && LayoutOf(cfg, Pow2(cfg.fingerprintSize) + 1, 0) == NoBits(cfg)
    ensures OldPlaced(cfg, old', contents, Pow2(cfg.fingerprintSize) + 1, 0)
  {
    hide Pow2, AllPlaced, Fits, LayoutOf;
  }

  lemma EachInPlace(cfg: Config, contents: seq<BlockContents>, o: nat)
    requires 1 <= cfg.logIndexSize < cfg.fingerprintSize && HoldsTwo(cfg, contents) && o < |contents|
    ensures PlacedAt(NoBits(cfg), NoBits(cfg), 0, contents, o)
  {
    WhatIsLoaded(cfg, contents, o);
    SecondPlace(cfg);
    hide Pow2, Loaded, HoldsTwo, LeftShift, RightShift;
  }

  lemma SecondPlace(cfg: Config)
    requires cfg.logIndexSize >= 1
    ensures var n := Pow2(cfg.logIndexSize);
            && n > 1 && LeftShift(0, cfg.logIndexSize) == 0 && LeftShift(1, cfg.logIndexSize) == n
            && LeftShift(2, cfg.logIndexSize) == 2 * n && RightShift(n + 1, 0) == n + 1 && RightShift(1, 0) == 1
  {
    Pow2Monotone(1, cfg.logIndexSize);
  }

  lemma SecondWasThere(cfg: Config, old': Filter, contents: seq<BlockContents>)
    requires IsOld(cfg, old', contents)
    ensures InFilter(old', contents, Pow2(cfg.logIndexSize), 0)
  {
    assert Pow2(cfg.logIndexSize) in contents[1].items;
  }

  lemma SecondIsGone(cfg: Config, old': Filter, contents: seq<BlockContents>)
    requires IsOld(cfg, old', contents)
    ensures !InLoaded(cfg, old', contents, 0, Pow2(cfg.logIndexSize), 0)
    ensures Pow2(cfg.logIndexSize) !in Fingerprints(cfg, [0])
  {
    hide LayoutOf, AllLoaded;
    OldLayoutIs(cfg, 0);
    SecondPlace(cfg);
    assert contents[..|contents|] == contents;
    AllOfIt(cfg, contents, |contents|);
    hide Pow2;
    assert Fingerprint(cfg, 0) == 0;
  }

  // ----- a key that is found no more

  /** A hash with a given fingerprint. */
  function HashOf(cfg: Config, fp: nat): (hash: nat)
    requires cfg.fingerprintSize <= 32 && fp < Pow2(cfg.fingerprintSize) && cfg.Valid()
    ensures hash < Pow2(32) && Fingerprint(cfg, hash) == fp
  {
    JoinBound(fp, 0, 32 - cfg.fingerprintSize, cfg.fingerprintSize);
    PartsUnique(LeftShift(fp, 32 - cfg.fingerprintSize), 32 - cfg.fingerprintSize, fp, 0);
    LeftShift(fp, 32 - cfg.fingerprintSize)
  }

  /** The old filter, as routing_filter_add makes it of as many keys as there are fingerprints. */
  method MakeOld(cfg: Config) returns (old': Filter, ghost contents: seq<BlockContents>)
    requires 1 <= cfg.logIndexSize < cfg.fingerprintSize <= 32
    ensures IsOld(cfg, old', contents)
  {
    hide *;
    OldLayoutIs(cfg, 0);
    SmallPowers(cfg);
    var first, second := HashOf(cfg, 1), HashOf(cfg, Pow2(cfg.logIndexSize));
    var hashes := new nat[Pow2(cfg.fingerprintSize)](i => if i == 0 then second else first);
    ghost var given := hashes[..];
    ghost var news;
    var ok;
    NullIsOld(cfg);
    ok, old', contents, news := Add(cfg, NULL_FILTER, hashes, 0, []);
    TwoNews(cfg, given, contents, news);
    NewIsOld(cfg, old', contents, given, news);
  }

  lemma SmallPowers(cfg: Config)
    requires 1 <= cfg.logIndexSize < cfg.fingerprintSize
    ensures cfg.fingerprintSize <= 32 ==> cfg.Valid()
    ensures 2 <= Pow2(cfg.logIndexSize) < Pow2(cfg.fingerprintSize) && 1 < Pow2(cfg.fingerprintSize)
    ensures BitLength(0) == 0 && 0 < Pow2(32)
  {
    Pow2Monotone(1, cfg.logIndexSize);
    Pow2Monotone(cfg.logIndexSize + 1, cfg.fingerprintSize);
  }

  lemma NullIsOld(cfg: Config)
    ensures OldFilter(cfg, NULL_FILTER, []) && NULL_FILTER.blocks == [] && NULL_FILTER.numFingerprints == 0
    ensures NULL_FILTER.valueSize == 0 && OldLoadsRight(cfg, NULL_FILTER)
  {
  }

  /** The new items are 1 and the number of buckets in a block. */
  lemma TwoNews(cfg: Config, hashes: seq<nat>, contents: seq<BlockContents>, news: seq<nat>)
    requires 1 <= cfg.logIndexSize < cfg.fingerprintSize <= 32
    requires cfg.Valid() && HoldsEachOnce(cfg, NULL_FILTER, [], hashes, 0, contents, news)
    requires |hashes| >= 2 && Fingerprint(cfg, hashes[0]) == Pow2(cfg.logIndexSize)
    requires forall i | 1 <= i < |hashes| :: Fingerprint(cfg, hashes[i]) == 1
    ensures news == [1, Pow2(cfg.logIndexSize)]
  {
    var all, n := NewItems(cfg, 0, hashes, 0), Pow2(cfg.logIndexSize);
    SmallPowers(cfg);
    assert forall x: nat :: LeftShift(x, 0) == x;
    hide Pow2, Fingerprint, LeftShift, Bag, BitLength;
    assert all[0] == n && all[1] == 1;
    assert forall i | 0 <= i < |all| :: all[i] == 1 || all[i] == n;
    forall i | 0 <= i < |news| ensures news[i] == 1 || news[i] == n {
      assert news[i] in all;
    }
    OneOrTwo(news, 1, n);
  }

  lemma OneOrTwo(s: seq<nat>, a: nat, b: nat)
    requires RadixSort.StrictlySorted(s) && a in s && b in s && a < b && forall i | 0 <= i < |s| :: s[i] == a || s[i] == b
    ensures s == [a, b]
  {
    var last := |s| - 1;
    forall i | 0 <= i < |s| ensures (s[i] == a ==> i == 0) && (s[i] == b ==> i == last) {
      assert i > 0 ==> s[0] < s[i];
      assert i < last ==> s[i] < s[last];
    }
    assert s[0] == a && s[last] == b && (s[1] == a || s[1] == b);
  }

  lemma NewIsOld(cfg: Config, old': Filter, contents: seq<BlockContents>, hashes: seq<nat>, news: seq<nat>)
    requires 1 <= cfg.logIndexSize < cfg.fingerprintSize <= 32
    requires FilterHolds(cfg, old', contents) && old'.blocks != []
    requires old'.numFingerprints == Pow2(cfg.fingerprintSize) && old'.valueSize == 0
    requires cfg.Valid() && HoldsEachOnce(cfg, NULL_FILTER, [], hashes, 0, contents, news)
    requires news == [1, Pow2(cfg.logIndexSize)]
    ensures IsOld(cfg, old', contents)
  {
    OldLayoutIs(cfg, 0);
    SmallPowers(cfg);
    assert Bag(contents) == multiset([1, Pow2(cfg.logIndexSize)]);
    TwoBlocks(cfg, old', contents);
  }
  /** An item is in the block of its bucket. */
  lemma ItemBlock(l: Layout, i: nat, block: Block, b: BlockContents, p: nat)
    requires BlockHolds(l, i, block, b) && l.ItemSize() == 0 && p < |b.items|
    ensures LeftShift(i, l.logIndexSize) <= b.items[p] < LeftShift(i + 1, l.logIndexSize)
  {
    var c := SomeGroup(b.counts, p);
    assert RightShift(b.items[p], 0) == LeftShift(i, l.logIndexSize) + c;
    assert RightShift(b.items[p], 0) == b.items[p];
    LeftShiftAdd(i, 1, l.logIndexSize);
  }

  lemma {:induction false} BlockInBag(contents: seq<BlockContents>, i: nat)
    requires i < |contents|
    ensures multiset(contents[i].items) <= Bag(contents)
  {
    if i < |contents| - 1 {
      BlockInBag(contents[..|contents| - 1], i);
    }
  }

  /** Two items are in the first two blocks, if that is where their buckets are. */
  lemma TwoBlocks(cfg: Config, old': Filter, contents: seq<BlockContents>)
    requires 1 <= cfg.logIndexSize < cfg.fingerprintSize <= 32
    requires FilterHolds(cfg, old', contents) && LayoutOf(cfg, old'.numFingerprints, old'.valueSize) == NoBits(cfg)
    requires Bag(contents) == multiset{1, Pow2(cfg.logIndexSize)}
    ensures HoldsTwo(cfg, contents)
  {
    hide *;
    SecondPlace(cfg);
    AtLeastTwo(cfg.fingerprintSize - cfg.logIndexSize);
    BlocksOf(cfg, old', contents);
    forall i | 0 <= i < |contents| ensures OneItem(cfg, contents[i].items, i) {
      BlockOfTwo(cfg, i, old'.blocks[i], contents);
    }
    SomewhereIn(contents, 1);
    SomewhereIn(contents, Pow2(cfg.logIndexSize));
    TwoOfThem(cfg, contents);
  }

  lemma AtLeastTwo(n: nat)
    requires n >= 1
    ensures Pow2(n) >= 2
  {
  }

  lemma BlocksOf(cfg: Config, old': Filter, contents: seq<BlockContents>)
    requires cfg.logIndexSize <= cfg.fingerprintSize && FilterHolds(cfg, old', contents)
    requires LayoutOf(cfg, old'.numFingerprints, old'.valueSize) == NoBits(cfg)
    ensures |old'.blocks| == |contents| == Pow2(cfg.fingerprintSize - cfg.logIndexSize)
    ensures forall i | 0 <= i < |contents| :: BlockHolds(NoBits(cfg), i, old'.blocks[i], contents[i])
  {
    hide Pow2, BlockHolds, LayoutOf;
  }

  lemma TwoOfThem(cfg: Config, contents: seq<BlockContents>)
    requires 1 <= cfg.logIndexSize < cfg.fingerprintSize
    requires |contents| == Pow2(cfg.fingerprintSize - cfg.logIndexSize) >= 2 && Pow2(cfg.logIndexSize) > 1
    requires forall i | 0 <= i < |contents| :: OneItem(cfg, contents[i].items, i)
    requires exists i | 0 <= i < |contents| :: 1 in contents[i].items
    requires exists i | 0 <= i < |contents| :: Pow2(cfg.logIndexSize) in contents[i].items
    ensures HoldsTwo(cfg, contents)
  {
    hide Pow2;
  }

  ghost predicate OneItem(cfg: Config, items: seq<nat>, i: nat) {
    items == [] || (i == 0 && items == [1]) || (i == 1 && items == [Pow2(cfg.logIndexSize)])
  }

  lemma BlockOfTwo(cfg: Config, i: nat, block: Block, contents: seq<BlockContents>)
    requires 1 <= cfg.logIndexSize < cfg.fingerprintSize && i < |contents|
    requires BlockHolds(NoBits(cfg), i, block, contents[i]) && Bag(contents) == multiset{1, Pow2(cfg.logIndexSize)}
    ensures OneItem(cfg, contents[i].items, i)
  {
    var items, x := contents[i].items, if i == 0 then 1 else Pow2(cfg.logIndexSize);
    SecondPlace(cfg);
    BlockInBag(contents, i);
    hide Pow2, Bag, LeftShift, RightShift;
    forall p | 0 <= p < |items| ensures i < 2 && items[p] == x {
      ItemBlock(NoBits(cfg), i, block, contents[i], p);
      hide BlockHolds;
      LeftShiftMonotone(2, i, cfg.logIndexSize);
      assert items[p] in multiset(items);
    }
    AllSame(items, x);
    assert multiset(items)[x] <= Bag(contents)[x] <= 1;
  }

  lemma {:induction false} AllSame(items: seq<nat>, x: nat)
    requires forall p | 0 <= p < |items| :: items[p] == x
    ensures multiset(items)[x] == |items|
  {
    if items != [] {
      assert items == items[..|items| - 1] + [x];
      AllSame(items[..|items| - 1], x);
    }
  }

  lemma SomewhereIn(contents: seq<BlockContents>, x: nat)
    requires x in Bag(contents)
    ensures exists i | 0 <= i < |contents| :: x in contents[i].items
  {
    BagIsAll(contents, x);
    InAllItems(contents, x);
  }

  /** For every configuration that has such a layout: an old filter is made of keys with two
      fingerprints, and a key is found in it; a key with another fingerprint is added, and the first
      key is not found any more. */
  method KeyIsLost(cfg: Config) returns (old': Filter, before: set<nat>, filter: Filter, after: set<nat>)
    requires 1 <= cfg.logIndexSize < cfg.fingerprintSize <= 32
    ensures (exists contents :: IsOld(cfg, old', contents)) && before == {0}
    ensures exists contents :: FilterHolds(cfg, filter, contents)
    ensures after == {}
  {
    hide *;
    OldLayoutIs(cfg, 1);
    SmallPowers(cfg);
    ghost var oldContents, contents, news;
    var ok;
    old', oldContents := MakeOld(cfg);
    OldFacts(cfg, old', oldContents);
    var hash := HashOf(cfg, Pow2(cfg.logIndexSize));
    before := RoutingFilter.Lookup(cfg, old', hash, oldContents);
    var hashes := new nat[1](i => 0);
    assert hashes[..] == [0];
    ok, filter, contents, news := Add(cfg, old', hashes, 0, oldContents);
    AllInPlace(cfg, old', oldContents);
    after := RoutingFilter.Lookup(cfg, filter, hash, contents);
    SecondWasThere(cfg, old', oldContents);
    SecondIsGone(cfg, old', oldContents);
    forall v: nat ensures v in before <==> v == 0 {
      NoOtherValue(old', oldContents, Pow2(cfg.logIndexSize), v);
    }
    forall v: nat ensures v !in after {
      NoOtherValue(filter, contents, Pow2(cfg.logIndexSize), v);
    }
  }

  lemma OldFacts(cfg: Config, old': Filter, contents: seq<BlockContents>)
    requires IsOld(cfg, old', contents)
    ensures 1 <= cfg.logIndexSize < cfg.fingerprintSize <= 32 && HoldsTwo(cfg, contents)
    ensures OldFilter(cfg, old', contents) && FilterHolds(cfg, old', contents) && old'.blocks != []
    ensures old'.numFingerprints == Pow2(cfg.fingerprintSize) && old'.valueSize == 0
  {
  }

  lemma NoOtherValue(f: Filter, contents: seq<BlockContents>, fp: nat, v: nat)
    requires f.valueSize == 0
    ensures InFilter(f, contents, fp, v) ==> v == 0
  {
  }

  // ----- exactly which layouts lose nothing

  /** A call of routing_filter_add with an old filter of the layout. */
  ghost predicate IsCall(cfg: Config, l: Layout, old': Filter, oldContents: seq<BlockContents>, hashes: seq<nat>, value: nat) {
    && Fits(cfg, |hashes| + old'.numFingerprints, BitLength(value)) && hashes != []
    && (forall i | 0 <= i < |hashes| :: hashes[i] < Pow2(32))
    && OldFilter(cfg, old', oldContents) && old'.blocks != [] && old'.valueSize <= BitLength(value)
    && LayoutOf(cfg, old'.numFingerprints, old'.valueSize) == l
  }

  /** For every layout: all additions to old filters of it are exact, if and only if its items have
      stored bits or it has a single block. */
  lemma ExactlyTheseLayouts(cfg: Config, numFingerprints: nat, valueSize: nat)
    requires Fits(cfg, numFingerprints, valueSize)
    ensures var l := LayoutOf(cfg, numFingerprints, valueSize);
            LoadsRight(l) <==>
              forall old', oldContents, hashes, value | IsCall(cfg, l, old', oldContents, hashes, value) ::
                AddsExactly(cfg, old', oldContents, hashes, value)
  {
    hide *;
    var l := LayoutOf(cfg, numFingerprints, valueSize);
    if LoadsRight(l) {
      CallsAreExact(cfg, l);
    } else {
      LayoutHasNoBits(cfg, numFingerprints, valueSize);
      OldIsCall(cfg);
      SecondIsNotAdded(cfg, Old(cfg), OldContents(cfg));
    }
  }

  lemma CallIsExact(cfg: Config, l: Layout, old': Filter, oldContents: seq<BlockContents>, hashes: seq<nat>, value: nat)
    requires LoadsRight(l) && IsCall(cfg, l, old', oldContents, hashes, value)
    ensures AddsExactly(cfg, old', oldContents, hashes, value)
  {
    hide OldPlaced, InLoaded, InFilter, Fingerprints, LoadsRight, FilterHolds;
    OldIsLoaded(cfg, old', oldContents, |hashes| + old'.numFingerprints, BitLength(value));
  }

  lemma CallsAreExact(cfg: Config, l: Layout)
    requires LoadsRight(l)
    ensures forall old', oldContents, hashes, value | IsCall(cfg, l, old', oldContents, hashes, value) ::
              AddsExactly(cfg, old', oldContents, hashes, value)
  {
    hide AddsExactly, OldFilter, Fits, LayoutOf, LoadsRight;
    forall old', oldContents, hashes, value | IsCall(cfg, l, old', oldContents, hashes, value)
      ensures AddsExactly(cfg, old', oldContents, hashes, value)
    {
      CallIsExact(cfg, l, old', oldContents, hashes, value);
    }
  }

  lemma LayoutHasNoBits(cfg: Config, numFingerprints: nat, valueSize: nat)
    requires Fits(cfg, numFingerprints, valueSize) && !LoadsRight(LayoutOf(cfg, numFingerprints, valueSize))
    ensures 1 <= cfg.logIndexSize < cfg.fingerprintSize <= 32
    ensures LayoutOf(cfg, numFingerprints, valueSize) == NoBits(cfg)
  {
  }

  lemma OldIsCall(cfg: Config)
    requires 1 <= cfg.logIndexSize < cfg.fingerprintSize <= 32
    ensures IsCall(cfg, NoBits(cfg), Old(cfg), OldContents(cfg), [0], 0)
    ensures IsOld(cfg, Old(cfg), OldContents(cfg))
    ensures Fits(cfg, |[0]| + Old(cfg).numFingerprints, BitLength(0))
  {
    hide FilterHolds, OldContents, Pow2, LayoutOf, NoBits, HoldsTwo;
    OldIsOk(cfg);
    OldLayoutIs(cfg, 1);
    OldHoldsTwo(cfg);
    SmallPowers(cfg);
  }

  lemma SecondIsNotAdded(cfg: Config, old': Filter, contents: seq<BlockContents>)
    requires IsOld(cfg, old', contents) && Fits(cfg, |[0]| + old'.numFingerprints, BitLength(0))
    ensures !AddsExactly(cfg, old', contents, [0], 0)
  {
    hide InLoaded, InFilter, OldPlaced;
    SecondWasThere(cfg, old', contents);
    SecondIsGone(cfg, old', contents);
    SmallPowers(cfg);
  }
}
