/** Splitting or defragmenting a full index node, before the insertion descends below it. */
module IndexSplit {
  import opened Slotted
  import opened LeafPage
  import opened IndexNode

  lemma LiveAll<E>(l: Layout<E>, entries: seq<E>, i: nat)
    requires i <= |entries|
    ensures i == |entries| ==> LiveBytes(l, entries[..i]) == LiveBytes(l, entries)
  {
    assert entries[..|entries|] == entries;
  }

  method TotalEntryBytes(node: Index) returns (liveBytes: nat)
    requires node.Valid()
    ensures liveBytes == LiveBytes(IndexLayout(node.cfg), node.Contents())
  {
    hide PageOk;
    var l := IndexLayout(node.cfg);
    ghost var pivots := node.Contents();
    NoBytes(l);
    hide EntrySize, LiveBytes;
    liveBytes := 0;
    var i := 0;
    while i < |node.offsets|
      invariant 0 <= i <= |pivots| && liveBytes == LiveBytes(l, pivots[..i])
    {
      LiveNext(l, pivots, i);
      liveBytes := liveBytes + EntrySize(l, node.EntryAt(i));
      i := i + 1;
    }
    LiveAll(l, pivots, i);
  }

  /** The first cut with at least half of the bytes on the left. */
  ghost predicate IsCut(cfg: TreeConfig, pivots: seq<Pivot>, cut: nat) {
    var l := IndexLayout(cfg);
    var total := LiveBytes(l, pivots);
    && cut <= |pivots| && LiveBytes(l, pivots[..cut]) >= total / 2
    && (cut > 0 ==> LiveBytes(l, pivots[..cut - 1]) < total / 2)
  }

  /** btree_choose_index_split */
  method ChooseSplit(node: Index) returns (cut: nat)
    requires node.Valid()
    ensures IsCut(node.cfg, node.Contents(), cut)
  {
    hide PageOk;
    var l := IndexLayout(node.cfg);
    ghost var pivots := node.Contents();
    NoBytes(l);
    hide EntrySize, LiveBytes;
    var totalEntryBytes := TotalEntryBytes(node);
    cut := 0;
    var newLeftEntryBytes := 0;
    while newLeftEntryBytes < totalEntryBytes / 2
      invariant cut <= |pivots| && newLeftEntryBytes == LiveBytes(l, pivots[..cut])
      invariant cut > 0 ==> LiveBytes(l, pivots[..cut - 1]) < totalEntryBytes / 2
      decreases |pivots| - cut
    {
      LiveAll(l, pivots, cut);
      LiveNext(l, pivots, cut);
      newLeftEntryBytes := newLeftEntryBytes + EntrySize(l, node.EntryAt(cut));
      cut := cut + 1;
    }
  }

  lemma LiveNext<E>(l: Layout<E>, entries: seq<E>, i: nat)
    requires i < |entries|
    ensures LiveBytes(l, entries[..i + 1]) == LiveBytes(l, entries[..i]) + EntrySize(l, entries[i])
  {
    assert entries[..i + 1][..i] == entries[..i];
  }

  /** The space that the code compares with the threshold. */
  function SpaceRequired(cfg: TreeConfig, pivots: seq<Pivot>): nat {
    LiveBytes(IndexLayout(cfg), pivots) + |pivots| * INDEX_ENTRY
  }

  /** The cut of a node that is over the threshold is strictly inside. */
  lemma CutIsInside(cfg: TreeConfig, pivots: seq<Pivot>, cut: nat)
    requires cfg.Valid() && AllPivotsWithinLimits(cfg, pivots) && IsCut(cfg, pivots, cut)
    requires SpaceRequired(cfg, pivots) >= cfg.pageSize / 2
    ensures 0 < cut < |pivots|
  {
    var l := IndexLayout(cfg);
    LiveAtLeast(l, pivots);
    NoBytes(l);
    LiveAll(l, pivots, cut);
    if cut > 0 {
      assert PivotWithinLimits(cfg, pivots[cut - 1]);
      LiveNext(l, pivots, cut - 1);
      LiveAtLeast(l, pivots[..cut - 1]);
    }
  }

  /** How much of a page the two sides of a cut take. */
  lemma SidesAreSmall(cfg: TreeConfig, pivots: seq<Pivot>, cut: nat)
    requires cfg.Valid() && AllPivotsWithinLimits(cfg, pivots) && 0 < cut < |pivots|
    requires Footprint(IndexLayout(cfg), pivots) <= cfg.pageSize - HEADER && IsCut(cfg, pivots, cut)
    ensures LiveBytes(IndexLayout(cfg), pivots[cut..]) <= (cfg.pageSize - HEADER) / 2 - |pivots| + 1
    ensures LiveBytes(IndexLayout(cfg), pivots[..cut])
         <= (cfg.pageSize - HEADER) / 2 - |pivots| + INDEX_ENTRY + cfg.MaxInlineKey()
    ensures 25 * |pivots| <= cfg.pageSize - HEADER && 48 * cut <= cfg.pageSize + 7
  {
    var l := IndexLayout(cfg);
    assert pivots == pivots[..cut] + pivots[cut..];
    LiveConcat(l, pivots[..cut], pivots[cut..]);
    LiveNext(l, pivots, cut - 1);
    assert PivotWithinLimits(cfg, pivots[cut - 1]);
    LiveAtLeast(l, pivots);
    LiveAtLeast(l, pivots[..cut - 1]);
  }

  /** btree_split_index_build_right_node */
  method BuildRight(left: Index, cut: nat, right: Index)
    requires left.Valid() && right.Valid() && left != right && left.cfg == right.cfg
    requires right.Compact() && right.Contents() == [] && cut <= |left.Contents()|
    modifies right
    ensures right.Valid() && right.Compact() && right.Contents() == left.Contents()[cut..]
  {
    EntriesFit(IndexLayout(left.cfg), left.offsets, left.nextEntry, left.memory);
    StoredEntries(IndexLayout(left.cfg), left.offsets, left.nextEntry, left.memory);
    SuffixFits(IndexLayout(left.cfg), left.Contents(), cut);
    hide PageOk, EntrySize, LiveBytes, Footprint;
    right.generation := left.generation + 1;
    right.Refill(EntriesAt(left.offsets, left.memory)[cut..]);
  }

  /** The lowest of the offsets, or the end of the page. */
  function LeastOffset(offsets: seq<nat>, pageSize: nat): (least: nat)
    ensures least <= pageSize && forall i | 0 <= i < |offsets| :: least <= offsets[i]
  {
    if offsets == [] then pageSize
    else
      var least := LeastOffset(offsets[..|offsets| - 1], pageSize);
      var last := offsets[|offsets| - 1];
      if last < least then last else least
  }

  /** btree_truncate_index: the node is also defragmented if little contiguous space is left. */
  method Truncate(node: Index, targetEntries: nat)
    requires node.Valid() && targetEntries <= |node.Contents()|
    modifies node
    ensures node.Valid() && node.Contents() == old(node.Contents())[..targetEntries]
    ensures var offsets := old(node.offsets)[..targetEntries];
            var least := LeastOffset(offsets, node.cfg.pageSize);
            if least >= node.cfg.pageSize / 4 then node.nextEntry == least && node.offsets == offsets else node.Compact()
  {
    hide EntrySize;
    var l := IndexLayout(node.cfg);
    var newNextEntry := node.cfg.pageSize;
    var i := 0;
    while i < targetEntries
      invariant 0 <= i <= targetEntries && newNextEntry == LeastOffset(node.offsets[..i], node.cfg.pageSize)
      invariant node.nextEntry <= newNextEntry
    {
      assert EntryOk(l, node.memory, node.offsets[i], node.nextEntry);
      assert node.offsets[..i + 1][..i] == node.offsets[..i];
      if node.offsets[i] < newNextEntry {
        newNextEntry := node.offsets[i];
      }
      i := i + 1;
    }
    ghost var kept := node.offsets[..targetEntries];
    assert forall k | 0 <= k < targetEntries :: kept[k] == node.offsets[k];
    RaiseNextEntry(l, node.offsets, node.nextEntry, node.memory, targetEntries, newNextEntry);
    node.offsets, node.nextEntry := node.offsets[..targetEntries], newNextEntry;
    node.generation := node.generation + 1;
    if newNextEntry < node.cfg.pageSize / 4 {
      node.Defragment();
    }
  }

  /** A node whose entries take at most three quarters of the page, if it is compact, has room. */
  lemma NotFull(node: Index)
    requires node.Valid() && 25 * |node.Contents()| <= node.cfg.pageSize - HEADER
    requires node.nextEntry >= node.cfg.pageSize / 4
          || (node.Compact()
              && LiveBytes(IndexLayout(node.cfg), node.Contents()) <= 3 * node.cfg.pageSize / 4)
    ensures !node.IsFull() && node.nextEntry >= node.cfg.pageSize / 4
  {
  }

  /** btree_split_child_index: together the two nodes hold the old pivots in order, both have
      pivots, and both have room for one more of maximal size. */
  method SplitIndex(left: Index) returns (right: Index, cut: nat)
    requires left.Valid() && AllPivotsWithinLimits(left.cfg, left.Contents())
    requires SpaceRequired(left.cfg, left.Contents()) >= left.cfg.pageSize / 2
    modifies left
    ensures fresh(right) && left.Valid() && right.Valid() && right.cfg == left.cfg
    ensures 0 < cut < |old(left.Contents())| && IsCut(left.cfg, old(left.Contents()), cut)
    ensures left.Contents() == old(left.Contents())[..cut] && right.Contents() == old(left.Contents())[cut..]
    ensures !left.IsFull() && !right.IsFull() && RoomForLeast(left)
    ensures var least := LeastOffset(old(left.offsets)[..cut], left.cfg.pageSize);
            least >= left.cfg.pageSize / 4 ==> left.nextEntry == least && left.offsets == old(left.offsets)[..cut]
  {
    EntriesFit(IndexLayout(left.cfg), left.offsets, left.nextEntry, left.memory);
    hide PageOk, EntrySize, LiveBytes, Footprint, AllPivotsWithinLimits, LeastOffset, IsCut;
    ghost var pivots := left.Contents();
    cut := ChooseSplit(left);
    CutIsInside(left.cfg, pivots, cut);
    SidesAreSmall(left.cfg, pivots, cut);
    right := new Index(left.cfg);
    BuildRight(left, cut, right);
    Truncate(left, cut);
    NotFull(left);
    NotFull(right);
  }

  /** What is left of a page after a split or a defragmentation: enough for a new least key, and,
      if keys are short, for one more pivot then; see ShortKeyFits. */
  ghost predicate RoomForLeast(node: Index)
    reads node
    requires node.Valid()
  {
    node.nextEntry >= node.cfg.pageSize / 4 && 48 * |node.Contents()| <= node.cfg.pageSize + 7
  }

  /** btree_defragment_or_split_child_index, with `right` null if the node was defragmented. */
  method DefragmentOrSplit(node: Index) returns (right: Index?, cut: nat)
    requires node.Valid() && AllPivotsWithinLimits(node.cfg, node.Contents())
    modifies node
    ensures node.Valid() && !node.IsFull() && RoomForLeast(node)
    ensures right == null <==> SpaceRequired(node.cfg, old(node.Contents())) < node.cfg.pageSize / 2
    ensures right == null ==> node.Contents() == old(node.Contents())
    ensures right != null ==>
      && fresh(right) && right.Valid() && right.cfg == node.cfg && !right.IsFull()
      && 0 < cut < |old(node.Contents())| && IsCut(node.cfg, old(node.Contents()), cut)
      && node.Contents() == old(node.Contents())[..cut] && right.Contents() == old(node.Contents())[cut..]
      && var least := LeastOffset(old(node.offsets)[..cut], node.cfg.pageSize);
         least >= node.cfg.pageSize / 4 ==> node.nextEntry == least && node.offsets == old(node.offsets)[..cut]
  {
    EntriesFit(IndexLayout(node.cfg), node.offsets, node.nextEntry, node.memory);
    hide PageOk, EntrySize, LiveBytes, Footprint, AllPivotsWithinLimits, LeastOffset, IsCut;
    var liveBytes := TotalEntryBytes(node);
    if liveBytes + |node.offsets| * INDEX_ENTRY < node.cfg.pageSize / 2 {
      node.Defragment();
      DefragmentedHasRoom(node);
      right, cut := null, 0;
    } else {
      right, cut := SplitIndex(node);
    }
  }

  lemma DefragmentedHasRoom(node: Index)
    requires node.Valid() && node.Compact()
    requires SpaceRequired(node.cfg, node.Contents()) < node.cfg.pageSize / 2
    ensures !node.IsFull() && RoomForLeast(node)
  {
    LiveAtLeast(IndexLayout(node.cfg), node.Contents());
  }

  // ----- a new least key

  /** The contiguous space that a node must have so as not to be full. */
  function RoomNeeded(cfg: TreeConfig, numEntries: nat): nat {
    HEADER + TABLE_ENTRY * (numEntries + 2) + INDEX_ENTRY + cfg.MaxInlineKey()
  }

  /** What a caller can look at before it sets the least key of a node: the entry takes the place of
      the old one, or begins the page in its stead, or there is room for it besides. */
  predicate StaysOpen(node: Index, p: Pivot)
    reads node
    requires node.Valid() && |node.offsets| > 0
  {
    var l, room := IndexLayout(node.cfg), RoomNeeded(node.cfg, |node.offsets|);
    if node.nextEntry == node.offsets[0]
    then node.nextEntry + EntrySize(l, node.EntryAt(0)) >= room + EntrySize(l, p)
    else EntrySize(l, p) <= EntrySize(l, node.EntryAt(0)) || node.nextEntry >= room + EntrySize(l, p)
  }

  /** A new least key fits a node that is not full, and tells exactly when the node is full then. */
  method SetMinKey(node: Index, p: Pivot)
    requires node.Valid() && node.Contents() != [] && !node.IsFull() && PivotWithinLimits(node.cfg, p)
    modifies node
    ensures node.Valid() && node.Contents() == old(node.Contents())[0 := p]
    ensures !node.IsFull() <==> old(StaysOpen(node, p))
    ensures node.nextEntry == old(node.NextAfterSet(0, p))
  {
    hide PageOk;
    var success := node.Set(0, p);
  }

  /** A page takes one more pivot with a key of at most this length. */
  predicate Takes(cfg: TreeConfig, nextEntry: nat, numEntries: nat, keyLength: nat) {
    HEADER + TABLE_ENTRY * (numEntries + 1) + INDEX_ENTRY + keyLength <= nextEntry
  }

  /** Keys that are short enough for what a split leaves, even with a new least key. */
  function ShortKey(cfg: TreeConfig): nat {
    cfg.pageSize / 11
  }

  lemma ShortKeyFits(cfg: TreeConfig, before: nat, after: nat, numEntries: nat, keyLength: nat)
    requires cfg.Valid() && keyLength <= ShortKey(cfg)
    requires before >= cfg.pageSize / 4 && 48 * numEntries <= cfg.pageSize + 7
    requires after + INDEX_ENTRY + keyLength >= before
    ensures Takes(cfg, after, numEntries, keyLength)
  {
  }

  /** The insertion of a pivot into the parent of a node that was split; a parent that is not full
      takes every pivot. */
  method InsertPivot(parent: Index, k: nat, p: Pivot) returns (ok: bool)
    requires parent.Valid() && k <= |parent.Contents()|
    modifies parent
    ensures parent.Valid()
    ensures ok <==> Takes(parent.cfg, old(parent.nextEntry), |old(parent.Contents())|, parent.cfg.keyLength(p.key))
    ensures !old(parent.IsFull()) && PivotWithinLimits(parent.cfg, p) ==> ok
    ensures parent.Contents() == if ok then old(parent.Contents())[..k] + [p] + old(parent.Contents())[k..]
                                 else old(parent.Contents())
    ensures !ok ==> parent.nextEntry == old(parent.nextEntry)
  {
    hide PageOk;
    ok := parent.Insert(k, p);
  }
}
