/** Operations on one index node: setting and inserting pivots, defragmentation and splits. */
module IndexNode {
  import opened Messages
  import opened Slotted
  import opened LeafPage

  /** index_entry; the statistics of a memtable's pivots are always unknown. */
  datatype Pivot = Pivot(key: Key, child: nat)

  function IndexLayout(cfg: TreeConfig): Layout<Pivot> {
    Layout(cfg.pageSize, INDEX_ENTRY, (p: Pivot) => cfg.keyLength(p.key))
  }

  predicate PivotWithinLimits(cfg: TreeConfig, p: Pivot) {
    cfg.keyLength(p.key) <= cfg.MaxInlineKey()
  }

  ghost predicate AllPivotsWithinLimits(cfg: TreeConfig, pivots: seq<Pivot>) {
    forall i | 0 <= i < |pivots| :: PivotWithinLimits(cfg, pivots[i])
  }

  class Index {
    const cfg: TreeConfig
    var offsets: seq<nat>
    var nextEntry: nat
    var memory: map<nat, Pivot>
    var generation: nat

    ghost predicate Valid()
      reads this
    {
      cfg.Valid() && PageOk(IndexLayout(cfg), offsets, nextEntry, memory)
    }

    ghost function Contents(): (pivots: seq<Pivot>)
      reads this
      requires Valid()
      ensures |pivots| == |offsets|
    {
      StoredEntries(IndexLayout(cfg), offsets, nextEntry, memory);
      EntriesAt(offsets, memory)
    }

    ghost predicate Compact()
      reads this
      requires Valid()
    {
      nextEntry + LiveBytes(IndexLayout(cfg), Contents()) == cfg.pageSize
    }

    constructor (cfg: TreeConfig)
      requires cfg.Valid()
      ensures Valid() && this.cfg == cfg && Contents() == [] && Compact()
    {
      this.cfg := cfg;
      offsets, nextEntry, memory, generation := [], cfg.pageSize, map[], 0;
    }

    /** The page as it is stored. */
    function Stored(): (page: Image<Pivot>)
      reads this
      requires Valid()
      ensures ImageOk(IndexLayout(cfg), page) && EntriesOf(page) == Contents()
    {
      StoredEntries(IndexLayout(cfg), offsets, nextEntry, memory);
      Image(offsets, nextEntry, memory)
    }

    constructor Load(cfg: TreeConfig, page: Image<Pivot>)
      requires cfg.Valid() && ImageOk(IndexLayout(cfg), page)
      ensures Valid() && this.cfg == cfg && Stored() == page && Contents() == EntriesOf(page)
    {
      this.cfg := cfg;
      offsets, nextEntry, memory, generation := page.offsets, page.nextEntry, page.memory, 0;
      new;
      StoredEntries(IndexLayout(cfg), offsets, nextEntry, memory);
    }

    function EntryAt(k: nat): (p: Pivot)
      reads this
      requires Valid() && k < |offsets|
      ensures p == Contents()[k]
    {
      StoredEntries(IndexLayout(cfg), offsets, nextEntry, memory);
      memory[offsets[k]]
    }

    /** The old k-th entry is physically the first one, and the new one fits if it gives its space
        back. */
    predicate ReplacesFirst(k: nat, p: Pivot)
      reads this
      requires Valid()
    {
      && k < |offsets| && nextEntry == offsets[k]
      && HEADER + TABLE_ENTRY * |offsets| + EntrySize(IndexLayout(cfg), p)
         <= nextEntry + EntrySize(IndexLayout(cfg), EntryAt(k))
    }

    /** The new k-th entry goes where the old one is. */
    predicate ReplacesInPlace(k: nat, p: Pivot)
      reads this
      requires Valid()
    {
      && k < |offsets| && !ReplacesFirst(k, p)
      && EntrySize(IndexLayout(cfg), p) <= EntrySize(IndexLayout(cfg), EntryAt(k))
    }

    /** Where the entries of the page begin once the k-th one was set. */
    function NextAfterSet(k: nat, p: Pivot): int
      reads this
      requires Valid()
    {
      if ReplacesFirst(k, p) then
        nextEntry + EntrySize(IndexLayout(cfg), EntryAt(k)) - EntrySize(IndexLayout(cfg), p)
      else if ReplacesInPlace(k, p) then nextEntry
      else nextEntry - EntrySize(IndexLayout(cfg), p)
    }

    predicate CanSet(k: nat, p: Pivot)
      reads this
      requires Valid()
    {
      || ReplacesFirst(k, p) || ReplacesInPlace(k, p)
      || HEADER + TABLE_ENTRY * (if k < |offsets| then |offsets| else k + 1) + EntrySize(IndexLayout(cfg), p) <= nextEntry
    }

    /** btree_set_index_entry.  An old entry that is physically the first one gives its space back
        before the new one is placed. */
    method Set(k: nat, p: Pivot) returns (ok: bool)
      requires Valid() && k <= |offsets|
      modifies this`offsets, this`nextEntry, this`memory
      ensures Valid() && ok == old(CanSet(k, p))
      ensures Contents() == if !ok then old(Contents())
                            else if k < old(|offsets|) then old(Contents())[k := p] else old(Contents()) + [p]
      ensures nextEntry == if ok then old(NextAfterSet(k, p)) else old(nextEntry)
      ensures offsets == if !ok || old(ReplacesInPlace(k, p)) then old(offsets)
                         else if k < old(|offsets|) then old(offsets)[k := nextEntry] else old(offsets) + [nextEntry]
    {
      hide EntrySize, Write, PageOk;
      var l := IndexLayout(cfg);
      StoredEntries(l, offsets, nextEntry, memory);
      TableFits(l, offsets, nextEntry, memory);
      var newNumEntries := if k < |offsets| then |offsets| else k + 1;
      var next := nextEntry;
      if k < |offsets| {
        var oldEntry := EntryAt(k);
        if nextEntry == offsets[k]
          && HEADER + TABLE_ENTRY * newNumEntries + EntrySize(l, p) <= nextEntry + EntrySize(l, oldEntry)
        {
          next := nextEntry + EntrySize(l, oldEntry);
          WriteOverFirst(l, offsets, nextEntry, memory, k, p);
        } else if EntrySize(l, p) <= EntrySize(l, oldEntry) {
          WriteOver(l, offsets, nextEntry, memory, k, p);
          memory := Write(l, memory, offsets[k], p);
          return true;
        }
      }
      if next < HEADER + TABLE_ENTRY * newNumEntries + EntrySize(l, p) {
        return false;
      }
      if next == nextEntry {
        WriteNew(l, offsets, nextEntry, memory, k, p);
      }
      var newEntry := next - EntrySize(l, p);
      memory := Write(l, memory, newEntry, p);
      offsets := if k < |offsets| then offsets[k := newEntry] else offsets + [newEntry];
      nextEntry := newEntry;
      ok := true;
    }

    /** btree_insert_index_entry */
    method Insert(k: nat, p: Pivot) returns (ok: bool)
      requires Valid() && k <= |offsets|
      modifies this`offsets, this`nextEntry, this`memory
      ensures Valid() && ok == old(CanSet(|offsets|, p))
      ensures Contents() == if ok then old(Contents())[..k] + [p] + old(Contents())[k..] else old(Contents())
      ensures nextEntry == old(nextEntry) - if ok then EntrySize(IndexLayout(cfg), p) else 0
      ensures offsets == if ok then old(offsets)[..k] + [nextEntry] + old(offsets)[k..] else old(offsets)
    {
      hide EntrySize, PageOk;
      ok := Set(|offsets|, p);
      if ok {
        var n := |offsets| - 1;
        var thisEntryOffset := offsets[n];
        ghost var before := offsets;
        offsets := offsets[..k] + [thisEntryOffset] + offsets[k..n];
        MoveLast(IndexLayout(cfg), before, nextEntry, memory, k);
      }
    }

    /** btree_index_is_full: no room for two more table entries and a pivot of maximal size. */
    predicate IsFull()
      reads this
    {
      nextEntry < HEADER + TABLE_ENTRY * (|offsets| + 2) + INDEX_ENTRY + cfg.MaxInlineKey()
    }

    /** btree_reset_node_entries */
    method Reset()
      requires cfg.Valid()
      modifies this`offsets, this`nextEntry
      ensures Valid() && Compact() && Contents() == []
    {
      offsets, nextEntry := [], cfg.pageSize;
    }

    /** Setting the entries of a page one after the other succeeds if they fit together. */
    method Refill(scratch: seq<Pivot>)
      requires Valid() && Compact() && Contents() == []
      requires Footprint(IndexLayout(cfg), scratch) <= cfg.pageSize - HEADER
      modifies this`offsets, this`nextEntry, this`memory
      ensures Valid() && Compact() && Contents() == scratch
    {
      hide PageOk, EntrySize;
      var l := IndexLayout(cfg);
      var i := 0;
      while i < |scratch|
        invariant 0 <= i <= |scratch| && Valid() && Compact() && Contents() == scratch[..i]
      {
        assert scratch[..i + 1] == scratch[..i] + [scratch[i]];
        assert scratch[0..i + 1] == scratch[..i + 1];
        MiddleFits(l, scratch, 0, i + 1);
        LiveConcat(l, scratch[..i], [scratch[i]]);
        LiveOne(l, scratch[i]);
        hide LiveBytes;
        var succeeded := Set(i, scratch[i]);
        i := i + 1;
      }
      assert scratch[..i] == scratch;
    }

    /** btree_defragment_index */
    method Defragment()
      requires Valid()
      modifies this`offsets, this`nextEntry, this`memory
      ensures Valid() && Compact() && Contents() == old(Contents())
    {
      EntriesFit(IndexLayout(cfg), offsets, nextEntry, memory);
      StoredEntries(IndexLayout(cfg), offsets, nextEntry, memory);
      hide PageOk, EntrySize, LiveBytes, Footprint;
      var scratch := EntriesAt(offsets, memory);
      Reset();
      Refill(scratch);
    }
  }

  /** The physically first entry is replaced by one that ends where it ended. */
  lemma WriteOverFirst<E>(l: Layout<E>, offsets: seq<nat>, nextEntry: nat, memory: map<nat, E>, k: nat, e: E)
    requires PageOk(l, offsets, nextEntry, memory) && k < |offsets| && offsets[k] == nextEntry
    requires offsets[k] in memory
    requires HEADER + TABLE_ENTRY * |offsets| + EntrySize(l, e) <= nextEntry + EntrySize(l, memory[offsets[k]])
    ensures var offset := nextEntry + EntrySize(l, memory[offsets[k]]) - EntrySize(l, e);
            var memory' := Write(l, memory, offset, e);
            && PageOk(l, offsets[k := offset], offset, memory')
            && EntriesAt(offsets[k := offset], memory') == EntriesAt(offsets, memory)[k := e]
  {
    var next := nextEntry + EntrySize(l, memory[offsets[k]]);
    var offset := next - EntrySize(l, e);
    var memory' := Write(l, memory, offset, e);
    var all := offsets[k := offset];
    BehindFirst(l, offsets, nextEntry, memory, k, e);
    assert EntryOk(l, memory, offsets[k], nextEntry);
    hide EntrySize, Write;
    forall i | 0 <= i < |all| ensures EntryOk(l, memory', all[i], offset) {
      assert EntryOk(l, memory, offsets[i], nextEntry);
    }
    forall i, j | 0 <= i < j < |all| ensures EntriesApart(l, memory', all[i], all[j]) {
      assert EntryOk(l, memory, offsets[i], nextEntry) && EntryOk(l, memory, offsets[j], nextEntry);
      assert EntriesApart(l, memory, offsets[i], offsets[j]);
    }
  }

  /** All other entries lie behind the first one, and are not touched. */
  lemma BehindFirst<E>(l: Layout<E>, offsets: seq<nat>, nextEntry: nat, memory: map<nat, E>, k: nat, e: E)
    requires PageOk(l, offsets, nextEntry, memory) && k < |offsets| && offsets[k] == nextEntry
    requires offsets[k] in memory && EntrySize(l, e) <= nextEntry + EntrySize(l, memory[offsets[k]])
    ensures var next := nextEntry + EntrySize(l, memory[offsets[k]]);
            var memory' := Write(l, memory, next - EntrySize(l, e), e);
            && next - EntrySize(l, e) in memory' && memory'[next - EntrySize(l, e)] == e
            && forall i | 0 <= i < |offsets| && i != k ::
                 next <= offsets[i] && offsets[i] in memory' && memory'[offsets[i]] == memory[offsets[i]]
  {
    forall i | 0 <= i < |offsets| && i != k
      ensures nextEntry + EntrySize(l, memory[offsets[k]]) <= offsets[i] && offsets[i] in memory
    {
      assert EntryOk(l, memory, offsets[i], nextEntry);
      assert i < k ==> EntriesApart(l, memory, offsets[i], offsets[k]);
      assert k < i ==> EntriesApart(l, memory, offsets[k], offsets[i]);
    }
  }
}
