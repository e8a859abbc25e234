/** Slotted pages: a table of offsets that grows upwards behind the header, and entries that grow
    downwards from the end of the page. */
module Slotted {

  const HEADER := 37      // sizeof(btree_hdr)
  const TABLE_ENTRY := 2  // sizeof(table_entry)

  /** The size of a page, and of an entry: a fixed part and one that depends on its contents. */
  datatype Layout<!E> = Layout(pageSize: nat, overhead: nat, variable: E -> nat)

  function EntrySize<E>(l: Layout<E>, e: E): (n: nat)
    ensures n >= l.overhead
  {
    l.overhead + l.variable(e)
  }

  /** Bytes of the entries, and bytes of the entries with their table entries. */
  function LiveBytes<E>(l: Layout<E>, entries: seq<E>): nat {
    if entries == [] then 0
    else LiveBytes(l, entries[..|entries| - 1]) + EntrySize(l, entries[|entries| - 1])
  }

  function Footprint<E>(l: Layout<E>, entries: seq<E>): nat {
    LiveBytes(l, entries) + TABLE_ENTRY * |entries|
  }

  lemma {:induction false} LiveConcat<E>(l: Layout<E>, a: seq<E>, b: seq<E>)
    ensures LiveBytes(l, a + b) == LiveBytes(l, a) + LiveBytes(l, b)
  {
    if b == [] {
      assert a + b == a;
    } else {
      var n := |b| - 1;
      assert (a + b)[..|a + b| - 1] == a + b[..n];
      LiveConcat(l, a, b[..n]);
    }
  }

  lemma LiveOne<E>(l: Layout<E>, e: E)
    ensures LiveBytes(l, [e]) == EntrySize(l, e)
  {
    assert [e][..0] == [];
  }

  lemma FootprintConcat<E>(l: Layout<E>, a: seq<E>, b: seq<E>)
    ensures Footprint(l, a + b) == Footprint(l, a) + Footprint(l, b)
  {
    LiveConcat(l, a, b);
  }

  lemma {:induction false} LiveAtLeast<E>(l: Layout<E>, entries: seq<E>)
    ensures LiveBytes(l, entries) >= l.overhead * |entries|
  {
    if entries != [] {
      LiveAtLeast(l, entries[..|entries| - 1]);
    }
  }

  // ----- the memory of a page

  predicate Apart(from: nat, size: nat, from': nat, size': nat) {
    from + size <= from' || from' + size' <= from
  }

  /** Writing an entry overwrites whatever it overlaps. */
  function Write<E>(l: Layout<E>, memory: map<nat, E>, offset: nat, e: E): map<nat, E> {
    (map o | o in memory && Apart(o, EntrySize(l, memory[o]), offset, EntrySize(l, e)) :: memory[o])[offset := e]
  }

  ghost predicate EntryOk<E>(l: Layout<E>, memory: map<nat, E>, offset: nat, nextEntry: nat) {
    offset in memory && nextEntry <= offset && offset + EntrySize(l, memory[offset]) <= l.pageSize
  }

  ghost predicate EntriesApart<E>(l: Layout<E>, memory: map<nat, E>, a: nat, b: nat)
    requires a in memory && b in memory
  {
    Apart(a, EntrySize(l, memory[a]), b, EntrySize(l, memory[b]))
  }

  /** The table ends before the first entry, and no two entries overlap. */
  ghost predicate PageOk<E>(l: Layout<E>, offsets: seq<nat>, nextEntry: nat, memory: map<nat, E>) {
    && l.overhead > 0
    && HEADER + TABLE_ENTRY * |offsets| <= nextEntry <= l.pageSize
    && (forall i | 0 <= i < |offsets| :: EntryOk(l, memory, offsets[i], nextEntry))
    && (forall i, j | 0 <= i < j < |offsets| :: EntriesApart(l, memory, offsets[i], offsets[j]))
  }

  function EntriesAt<E>(offsets: seq<nat>, memory: map<nat, E>): (r: seq<E>)
    requires forall i {:trigger offsets[i]} | 0 <= i < |offsets| :: offsets[i] in memory
    ensures |r| == |offsets| && forall i | 0 <= i < |r| :: r[i] == memory[offsets[i]]
  {
    seq(|offsets|, i requires 0 <= i < |offsets| => memory[offsets[i]])
  }

  /** A page in the page store. */
  datatype Image<E> = Image(offsets: seq<nat>, nextEntry: nat, memory: map<nat, E>)

  ghost predicate ImageOk<E>(l: Layout<E>, page: Image<E>) {
    PageOk(l, page.offsets, page.nextEntry, page.memory)
  }

  function EntriesOf<E>(page: Image<E>): (r: seq<E>) {
    if forall i {:trigger page.offsets[i]} | 0 <= i < |page.offsets| :: page.offsets[i] in page.memory
    then EntriesAt(page.offsets, page.memory) else []
  }

  // ----- the entries of a page fit into the page

  ghost function Bytes(offset: nat, size: nat): (r: set<nat>)
    ensures forall b: nat :: b in r <==> offset <= b < offset + size
  {
    if size == 0 then {} else Bytes(offset, size - 1) + {offset + size - 1}
  }

  lemma {:induction false} BytesCount(offset: nat, size: nat)
    ensures |Bytes(offset, size)| == size
  {
    if size > 0 {
      BytesCount(offset, size - 1);
    }
  }

  lemma SubsetCount(a: set<nat>, b: set<nat>)
    requires a <= b
    ensures |a| <= |b|
  {
    assert b == a + (b - a);
  }

  /** The bytes of all entries. */
  ghost function Used<E>(l: Layout<E>, offsets: seq<nat>, memory: map<nat, E>): set<nat>
    requires forall i {:trigger offsets[i]} | 0 <= i < |offsets| :: offsets[i] in memory
  {
    if offsets == [] then {}
    else
      var n := |offsets| - 1;
      Used(l, offsets[..n], memory) + Bytes(offsets[n], EntrySize(l, memory[offsets[n]]))
  }

  lemma {:induction false} UsedByEntry<E>(l: Layout<E>, offsets: seq<nat>, memory: map<nat, E>, b: nat)
    returns (i: nat)
    requires forall i {:trigger offsets[i]} | 0 <= i < |offsets| :: offsets[i] in memory
    requires b in Used(l, offsets, memory)
    ensures i < |offsets| && offsets[i] <= b < offsets[i] + EntrySize(l, memory[offsets[i]])
  {
    var n := |offsets| - 1;
    if b in Used(l, offsets[..n], memory) {
      i := UsedByEntry(l, offsets[..n], memory, b);
    } else {
      i := n;
    }
  }

  lemma {:induction false} UsedCount<E>(l: Layout<E>, offsets: seq<nat>, nextEntry: nat, memory: map<nat, E>)
    requires PageOk(l, offsets, nextEntry, memory)
    ensures |Used(l, offsets, memory)| == LiveBytes(l, EntriesAt(offsets, memory))
  {
    hide EntrySize, Bytes, EntriesAt;
    if offsets != [] {
      var n := |offsets| - 1;
      var size := EntrySize(l, memory[offsets[n]]);
      var used, more := Used(l, offsets[..n], memory), Bytes(offsets[n], size);
      UsedCount(l, offsets[..n], nextEntry, memory);
      BytesCount(offsets[n], size);
      forall b | b in used ensures b !in more {
        var i := UsedByEntry(l, offsets[..n], memory, b);
        assert EntriesApart(l, memory, offsets[i], offsets[n]);
      }
      assert used !! more;
      hide PageOk;
      assert EntriesAt(offsets, memory)[..n] == EntriesAt(offsets[..n], memory);
    }
  }

  /** The entries take no more than the space behind `nextEntry`. */
  lemma EntriesFit<E>(l: Layout<E>, offsets: seq<nat>, nextEntry: nat, memory: map<nat, E>)
    requires PageOk(l, offsets, nextEntry, memory)
    ensures LiveBytes(l, EntriesAt(offsets, memory)) <= l.pageSize - nextEntry
    ensures Footprint(l, EntriesAt(offsets, memory)) <= l.pageSize - HEADER
  {
    hide Used, EntrySize, LiveBytes, EntriesApart, Bytes;
    var used := Used(l, offsets, memory);
    UsedCount(l, offsets, nextEntry, memory);
    forall b | b in used ensures nextEntry <= b < l.pageSize {
      var i := UsedByEntry(l, offsets, memory, b);
      assert EntryOk(l, memory, offsets[i], nextEntry);
    }
    hide EntryOk;
    BytesCount(nextEntry, l.pageSize - nextEntry);
    SubsetCount(used, Bytes(nextEntry, l.pageSize - nextEntry));
  }

  // ----- writing entries

  /** An entry written into free space in front of the others. */
  lemma WriteInFront<E>(l: Layout<E>, offsets: seq<nat>, nextEntry: nat, memory: map<nat, E>, e: E)
    requires PageOk(l, offsets, nextEntry, memory)
    requires HEADER + TABLE_ENTRY * (|offsets| + 1) + EntrySize(l, e) <= nextEntry
    ensures var offset := nextEntry - EntrySize(l, e);
            var memory' := Write(l, memory, offset, e);
            && PageOk(l, offsets + [offset], offset, memory')
            && EntriesAt(offsets + [offset], memory') == EntriesAt(offsets, memory) + [e]
  {
    var offset := nextEntry - EntrySize(l, e);
    var memory' := Write(l, memory, offset, e);
    KeepsOthers(l, offsets, nextEntry, memory, offset, e);
    hide EntrySize, Write;
    var all := offsets + [offset];
    forall i | 0 <= i < |all| ensures EntryOk(l, memory', all[i], offset) {
      assert i < |offsets| ==> EntryOk(l, memory, offsets[i], nextEntry);
    }
    forall i, j | 0 <= i < j < |all| ensures EntriesApart(l, memory', all[i], all[j]) {
      assert EntryOk(l, memory, offsets[i], nextEntry);
      if j < |offsets| {
        assert EntriesApart(l, memory, offsets[i], offsets[j]);
      }
    }
  }

  /** Entries that lie behind the written one are not touched. */
  lemma KeepsOthers<E>(l: Layout<E>, offsets: seq<nat>, nextEntry: nat, memory: map<nat, E>,
                    offset: nat, e: E)
    requires PageOk(l, offsets, nextEntry, memory) && offset + EntrySize(l, e) <= nextEntry
    ensures var memory' := Write(l, memory, offset, e);
            && offset in memory' && memory'[offset] == e
            && forall i {:trigger offsets[i]} | 0 <= i < |offsets| ::
                 offsets[i] in memory' && memory'[offsets[i]] == memory[offsets[i]]
  {
    var memory' := Write(l, memory, offset, e);
    forall i {:trigger offsets[i]} | 0 <= i < |offsets|
      ensures offsets[i] in memory' && memory'[offsets[i]] == memory[offsets[i]]
    {
      assert EntryOk(l, memory, offsets[i], nextEntry);
    }
  }

  /** An entry written over a larger one. */
  lemma WriteOver<E>(l: Layout<E>, offsets: seq<nat>, nextEntry: nat, memory: map<nat, E>, k: nat, e: E)
    requires PageOk(l, offsets, nextEntry, memory) && k < |offsets|
    requires offsets[k] in memory && EntrySize(l, e) <= EntrySize(l, memory[offsets[k]])
    ensures var memory' := Write(l, memory, offsets[k], e);
            && PageOk(l, offsets, nextEntry, memory')
            && EntriesAt(offsets, memory') == EntriesAt(offsets, memory)[k := e]
  {
    var memory' := Write(l, memory, offsets[k], e);
    assert EntryOk(l, memory, offsets[k], nextEntry);
    forall i {:trigger offsets[i]} | 0 <= i < |offsets|
      ensures offsets[i] in memory'
      ensures memory'[offsets[i]] == if i == k then e else memory[offsets[i]]
    {
      assert EntryOk(l, memory, offsets[i], nextEntry);
      assert i < k ==> EntriesApart(l, memory, offsets[i], offsets[k]);
      assert k < i ==> EntriesApart(l, memory, offsets[k], offsets[i]);
    }
    hide Write;
    forall i | 0 <= i < |offsets| ensures EntryOk(l, memory', offsets[i], nextEntry) {
      assert EntryOk(l, memory, offsets[i], nextEntry);
    }
    forall i, j | 0 <= i < j < |offsets| ensures EntriesApart(l, memory', offsets[i], offsets[j]) {
      assert EntriesApart(l, memory, offsets[i], offsets[j]);
    }
  }

  /** A new offset for one table entry, or one that leaves the others. */
  lemma PickEntries<E>(l: Layout<E>, offsets: seq<nat>, nextEntry: nat, memory: map<nat, E>,
                    picked: seq<nat>, origin: seq<nat>)
    requires PageOk(l, offsets, nextEntry, memory) && |picked| == |origin| <= |offsets|
    requires forall i | 0 <= i < |picked| :: origin[i] < |offsets| && picked[i] == offsets[origin[i]]
    requires forall i, j | 0 <= i < j < |picked| :: origin[i] != origin[j]
    ensures PageOk(l, picked, nextEntry, memory)
    ensures forall i | 0 <= i < |picked| :: EntriesAt(picked, memory)[i] == EntriesAt(offsets, memory)[origin[i]]
  {
    hide EntrySize;
    forall i | 0 <= i < |picked| ensures EntryOk(l, memory, picked[i], nextEntry) {
      assert EntryOk(l, memory, offsets[origin[i]], nextEntry);
    }
    forall i, j | 0 <= i < j < |picked| ensures EntriesApart(l, memory, picked[i], picked[j]) {
      var a := if origin[i] < origin[j] then origin[i] else origin[j];
      var b := if origin[i] < origin[j] then origin[j] else origin[i];
      assert EntriesApart(l, memory, offsets[a], offsets[b]);
    }
  }

  lemma RaiseNextEntry<E>(l: Layout<E>, offsets: seq<nat>, nextEntry: nat, memory: map<nat, E>, n: nat, to: nat)
    requires PageOk(l, offsets, nextEntry, memory) && n <= |offsets| && nextEntry <= to <= l.pageSize
    requires forall k | 0 <= k < n :: to <= offsets[k]
    ensures PageOk(l, offsets[..n], to, memory)
  {
    hide EntrySize;
    forall i | 0 <= i < n ensures EntryOk(l, memory, offsets[..n][i], to) {
      assert EntryOk(l, memory, offsets[i], nextEntry);
    }
    forall i, j | 0 <= i < j < n ensures EntriesApart(l, memory, offsets[..n][i], offsets[..n][j]) {
      assert EntriesApart(l, memory, offsets[i], offsets[j]);
    }
  }

  lemma StoredEntries<E>(l: Layout<E>, offsets: seq<nat>, nextEntry: nat, memory: map<nat, E>)
    requires PageOk(l, offsets, nextEntry, memory)
    ensures forall i {:trigger offsets[i]} | 0 <= i < |offsets| :: offsets[i] in memory
  {
    forall i {:trigger offsets[i]} | 0 <= i < |offsets| ensures offsets[i] in memory {
      assert EntryOk(l, memory, offsets[i], nextEntry);
    }
  }

  lemma TableFits<E>(l: Layout<E>, offsets: seq<nat>, nextEntry: nat, memory: map<nat, E>)
    requires PageOk(l, offsets, nextEntry, memory)
    ensures HEADER + TABLE_ENTRY * |offsets| <= nextEntry <= l.pageSize
  {
  }

  /** An entry in free space, for a new table entry or for the k-th one. */
  lemma WriteNew<E>(l: Layout<E>, offsets: seq<nat>, nextEntry: nat, memory: map<nat, E>, k: nat, e: E)
    requires PageOk(l, offsets, nextEntry, memory) && k <= |offsets|
    requires HEADER + TABLE_ENTRY * (if k < |offsets| then |offsets| else k + 1) + EntrySize(l, e) <= nextEntry
    ensures var offset := nextEntry - EntrySize(l, e);
            var offsets' := if k < |offsets| then offsets[k := offset] else offsets + [offset];
            var memory' := Write(l, memory, offset, e);
            && PageOk(l, offsets', offset, memory')
            && EntriesAt(offsets', memory')
               == if k < |offsets| then EntriesAt(offsets, memory)[k := e] else EntriesAt(offsets, memory) + [e]
  {
    var offset := nextEntry - EntrySize(l, e);
    if k == |offsets| {
      WriteInFront(l, offsets, nextEntry, memory, e);
    } else {
      WriteReplacing(l, offsets, nextEntry, memory, k, e);
    }
  }

  lemma WriteReplacing<E>(l: Layout<E>, offsets: seq<nat>, nextEntry: nat, memory: map<nat, E>, k: nat, e: E)
    requires PageOk(l, offsets, nextEntry, memory) && k < |offsets|
    requires HEADER + TABLE_ENTRY * |offsets| + EntrySize(l, e) <= nextEntry
    ensures var offset := nextEntry - EntrySize(l, e);
            var memory' := Write(l, memory, offset, e);
            && PageOk(l, offsets[k := offset], offset, memory')
            && EntriesAt(offsets[k := offset], memory') == EntriesAt(offsets, memory)[k := e]
  {
    var offset := nextEntry - EntrySize(l, e);
    var memory' := Write(l, memory, offset, e);
    var all := offsets[k := offset];
    KeepsOthers(l, offsets, nextEntry, memory, offset, e);
    hide EntrySize, Write;
    forall i | 0 <= i < |all| ensures EntryOk(l, memory', all[i], offset) {
      assert EntryOk(l, memory, offsets[i], nextEntry);
    }
    forall i, j | 0 <= i < j < |all| ensures EntriesApart(l, memory', all[i], all[j]) {
      assert EntryOk(l, memory, offsets[i], nextEntry) && EntryOk(l, memory, offsets[j], nextEntry);
      assert EntriesApart(l, memory, offsets[i], offsets[j]);
    }
  }

  lemma MoveLast<E>(l: Layout<E>, offsets: seq<nat>, nextEntry: nat, memory: map<nat, E>, k: nat)
    requires PageOk(l, offsets, nextEntry, memory) && k < |offsets|
    ensures var n := |offsets| - 1;
            var moved := offsets[..k] + [offsets[n]] + offsets[k..n];
            && PageOk(l, moved, nextEntry, memory)
            && var entries := EntriesAt(offsets, memory);
               EntriesAt(moved, memory) == entries[..k] + [entries[n]] + entries[k..n]
  {
    var n := |offsets| - 1;
    var moved := offsets[..k] + [offsets[n]] + offsets[k..n];
    var origin := seq(|offsets|, i requires 0 <= i < |offsets| => if i < k then i else if i == k then n else i - 1);
    PickEntries(l, offsets, nextEntry, memory, moved, origin);
  }

  lemma FootprintOne<E>(l: Layout<E>, e: E)
    ensures Footprint(l, [e]) == TABLE_ENTRY + EntrySize(l, e)
  {
    LiveOne(l, e);
  }

  lemma FootprintBounds<E>(l: Layout<E>, entries: seq<E>)
    ensures Footprint(l, entries) >= (l.overhead + TABLE_ENTRY) * |entries|
    ensures entries == [] ==> Footprint(l, entries) == 0
  {
    LiveAtLeast(l, entries);
  }

  lemma NoFootprint<E>(l: Layout<E>, entries: seq<E>)
    requires entries == []
    ensures Footprint(l, entries) == 0
  {
  }

  lemma NoBytes<E>(l: Layout<E>)
    ensures LiveBytes<E>(l, []) == 0
  {
  }

  lemma SuffixFits<E>(l: Layout<E>, entries: seq<E>, from: nat)
    requires from <= |entries|
    ensures Footprint(l, entries[from..]) <= Footprint(l, entries)
  {
    MiddleFits(l, entries, from, |entries|);
    assert entries[from..|entries|] == entries[from..];
  }

  lemma MiddleFits<E>(l: Layout<E>, entries: seq<E>, from: nat, to: nat)
    requires from <= to <= |entries|
    ensures Footprint(l, entries[from..to]) <= Footprint(l, entries)
  {
    assert entries == entries[..from] + entries[from..to] + entries[to..];
    FootprintConcat(l, entries[..from] + entries[from..to], entries[to..]);
    FootprintConcat(l, entries[..from], entries[from..to]);
  }
}
