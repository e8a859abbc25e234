/** Operations on one leaf: setting and inserting entries, incorporating a tuple,
    defragmentation and truncation. */
module LeafNode {
  import opened Messages
  import opened Lookup
  import opened MergeSpec
  import opened Slotted
  import opened LeafPage

  datatype OldEntryState = DidNotExist | StillExists | HasBeenRemoved

  /** leaf_incorporate_spec: `tuple` carries the new message, merged with the old one if there
      is one. */
  datatype IncorporateSpec = IncorporateSpec(idx: nat, state: OldEntryState, tuple: Tuple)

  predicate SpecFits(tuples: seq<Tuple>, spec: IncorporateSpec) {
    if spec.state.StillExists? then spec.idx < |tuples| else spec.idx <= |tuples|
  }

  /** The tuples of a leaf after the incorporation. */
  function Incorporated(tuples: seq<Tuple>, spec: IncorporateSpec): seq<Tuple>
    requires SpecFits(tuples, spec)
  {
    if spec.state.StillExists? then tuples[spec.idx := spec.tuple]
    else tuples[..spec.idx] + [spec.tuple] + tuples[spec.idx..]
  }

  /** The tuples of a leaf without the entry to be replaced. */
  function Remaining(tuples: seq<Tuple>, spec: IncorporateSpec): seq<Tuple>
    requires SpecFits(tuples, spec)
  {
    if spec.state.StillExists? then tuples[..spec.idx] + tuples[spec.idx + 1..] else tuples
  }

  function AfterRemoval(spec: IncorporateSpec): IncorporateSpec {
    if spec.state.StillExists? then spec.(state := HasBeenRemoved) else spec
  }

  /** A leaf without the old entry takes the tuple at the same place. */
  lemma RemovedThenIncorporated(tuples: seq<Tuple>, spec: IncorporateSpec)
    requires SpecFits(tuples, spec)
    ensures SpecFits(Remaining(tuples, spec), AfterRemoval(spec))
    ensures Incorporated(Remaining(tuples, spec), AfterRemoval(spec)) == Incorporated(tuples, spec)
  {
    if spec.state.StillExists? {
      assert Remaining(tuples, spec)[..spec.idx] == tuples[..spec.idx];
      assert Remaining(tuples, spec)[spec.idx..] == tuples[spec.idx + 1..];
    }
  }

  class Leaf {
    const cfg: TreeConfig
    var offsets: seq<nat>        // the table; its length is num_entries
    var nextEntry: nat
    var memory: map<nat, Tuple>  // the entries, by the offset of their first byte
    var generation: nat

    ghost predicate Valid()
      reads this
    {
      cfg.Valid() && PageOk(cfg.LeafLayout(), offsets, nextEntry, memory)
    }

    ghost function Contents(): (tuples: seq<Tuple>)
      reads this
      requires Valid()
      ensures |tuples| == |offsets|
    {
      StoredEntries(cfg.LeafLayout(), offsets, nextEntry, memory);
      EntriesAt(offsets, memory)
    }

    /** No space is lost between the entries. */
    ghost predicate Compact()
      reads this
      requires Valid()
    {
      nextEntry + LiveBytes(cfg.LeafLayout(), Contents()) == cfg.pageSize
    }

    constructor (cfg: TreeConfig)
      requires cfg.Valid()
      ensures Valid() && this.cfg == cfg && Contents() == [] && Compact()
    {
      this.cfg := cfg;
      offsets, nextEntry, memory, generation := [], cfg.pageSize, map[], 0;
    }

    /** The page as it is stored. */
    function Stored(): (page: Image<Tuple>)
      reads this
      requires Valid()
      ensures ImageOk(cfg.LeafLayout(), page) && EntriesOf(page) == Contents()
    {
      StoredEntries(cfg.LeafLayout(), offsets, nextEntry, memory);
      Image(offsets, nextEntry, memory)
    }

    constructor Load(cfg: TreeConfig, page: Image<Tuple>)
      requires cfg.Valid() && ImageOk(cfg.LeafLayout(), page)
      ensures Valid() && this.cfg == cfg && Stored() == page && Contents() == EntriesOf(page)
    {
      this.cfg := cfg;
      offsets, nextEntry, memory, generation := page.offsets, page.nextEntry, page.memory, 0;
      new;
      StoredEntries(cfg.LeafLayout(), offsets, nextEntry, memory);
    }

    /** The k-th entry. */
    function EntryAt(k: nat): (t: Tuple)
      reads this
      requires Valid() && k < |offsets|
      ensures t == Contents()[k]
    {
      StoredEntries(cfg.LeafLayout(), offsets, nextEntry, memory);
      memory[offsets[k]]
    }

    /** btree_can_set_leaf_entry */
    predicate CanSet(k: nat, t: Tuple)
      reads this
      requires Valid()
    {
      && k <= |offsets|
      && ((k < |offsets| && EntrySize(cfg.LeafLayout(), t) <= EntrySize(cfg.LeafLayout(), EntryAt(k)))
          || HEADER + TABLE_ENTRY * (if k < |offsets| then |offsets| else k + 1) + EntrySize(cfg.LeafLayout(), t) <= nextEntry)
    }

    /** btree_set_leaf_entry: replaces the k-th entry, in place if it is large enough, or appends. */
    method Set(k: nat, t: Tuple) returns (ok: bool)
      requires Valid() && k <= |offsets|
      modifies this`offsets, this`nextEntry, this`memory
      ensures Valid() && ok == old(CanSet(k, t))
      ensures Contents() == if !ok then old(Contents())
                            else if k < old(|offsets|) then old(Contents())[k := t] else old(Contents()) + [t]
      ensures ok && k == old(|offsets|) ==> nextEntry + EntrySize(cfg.LeafLayout(), t) == old(nextEntry)
    {
      hide EntrySize, Write, PageOk;
      StoredEntries(cfg.LeafLayout(), offsets, nextEntry, memory);
      TableFits(cfg.LeafLayout(), offsets, nextEntry, memory);
      if k < |offsets| {
        if EntrySize(cfg.LeafLayout(), t) <= EntrySize(cfg.LeafLayout(), EntryAt(k)) {
          WriteOver(cfg.LeafLayout(), offsets, nextEntry, memory, k, t);
          memory := Write(cfg.LeafLayout(), memory, offsets[k], t);
          return true;
        }
      }
      var newNumEntries := if k < |offsets| then |offsets| else k + 1;
      if nextEntry < HEADER + TABLE_ENTRY * newNumEntries + EntrySize(cfg.LeafLayout(), t) {
        return false;
      }
      var newEntry := nextEntry - EntrySize(cfg.LeafLayout(), t);
      WriteNew(cfg.LeafLayout(), offsets, nextEntry, memory, k, t);
      memory := Write(cfg.LeafLayout(), memory, newEntry, t);
      offsets := if k < |offsets| then offsets[k := newEntry] else offsets + [newEntry];
      nextEntry := newEntry;
      ok := true;
    }

    /** btree_insert_leaf_entry: appends the entry and moves its table entry into place. */
    method Insert(k: nat, t: Tuple) returns (ok: bool)
      requires Valid() && k <= |offsets|
      modifies this`offsets, this`nextEntry, this`memory
      ensures Valid() && ok == old(CanSet(|offsets|, t))
      ensures Contents() == if ok then old(Contents())[..k] + [t] + old(Contents())[k..] else old(Contents())
    {
      hide EntrySize, PageOk;
      ok := Set(|offsets|, t);
      if ok {
        var n := |offsets| - 1;
        var thisEntryOffset := offsets[n];
        ghost var before := offsets;
        offsets := offsets[..k] + [thisEntryOffset] + offsets[k..n];
        MoveLast(cfg.LeafLayout(), before, nextEntry, memory, k);
      }
    }

    /** btree_find_tuple: the last position whose key is not greater than the target. */
    method FindTuple(target: Key) returns (idx: int, found: bool)
      requires Valid() && Increasing(Contents())
      ensures -1 <= idx < |Contents()|
      ensures forall i | 0 <= i <= idx :: Contents()[i].key <= target
      ensures forall i | idx < i < |Contents()| :: target < Contents()[i].key
      ensures found <==> 0 <= idx && Contents()[idx].key == target
    {
      hide PageOk, EntrySize;
      var lo, hi := 0, |offsets|;
      found := false;
      while lo < hi
        invariant 0 <= lo <= hi <= |Contents()|
        invariant forall i | 0 <= i < lo :: Contents()[i].key < target
        invariant forall i | hi <= i < |Contents()| :: target < Contents()[i].key
      {
        var mid := (lo + hi) / 2;
        var k := EntryAt(mid).key;
        if k == target {
          return mid, true;
        } else if k < target {
          lo := mid + 1;
        } else {
          hi := mid;
        }
      }
      idx := lo - 1;
    }

    /** btree_create_leaf_incorporate_spec */
    method CreateSpec(k: Key, msg: Message) returns (spec: IncorporateSpec)
      requires Valid() && Increasing(Contents())
      ensures SpecPlaced(Contents(), spec) && !spec.state.HasBeenRemoved?
      ensures spec.tuple.key == k
      ensures spec.tuple.msg == if spec.state.StillExists? then MergeTuples(cfg.data, k, Contents()[spec.idx].msg, msg)
                                else msg
      ensures spec.state.StillExists? <==> k in MapOf(Contents())
      ensures spec.tuple.msg == if k in MapOf(Contents()) then MergeTuples(cfg.data, k, MapOf(Contents())[k], msg)
                                else msg
      ensures Increasing(Incorporated(Contents(), spec))
      ensures MapOf(Incorporated(Contents(), spec)) == MapOf(Contents())[k := spec.tuple.msg]
    {
      hide PageOk, EntrySize, MergeTuples;
      var idx, found := FindTuple(k);
      if !found {
        spec := IncorporateSpec(idx + 1, DidNotExist, Tuple(k, msg));
      } else {
        spec := IncorporateSpec(idx, StillExists, Tuple(k, MergeTuples(cfg.data, k, EntryAt(idx).msg, msg)));
      }
      PlacedInMap(Contents(), spec);
      IncorporatedMap(Contents(), spec);
    }

    /** btree_can_perform_leaf_incorporate_spec */
    predicate CanPerform(spec: IncorporateSpec)
      reads this
      requires Valid()
    {
      CanSet(if spec.state.StillExists? then spec.idx else |offsets|, spec.tuple)
    }

    /** btree_try_perform_leaf_incorporate_spec */
    method TryPerform(spec: IncorporateSpec) returns (ok: bool)
      requires Valid() && SpecFits(Contents(), spec)
      modifies this
      ensures Valid() && ok == old(CanPerform(spec))
      ensures Contents() == if ok then Incorporated(old(Contents()), spec) else old(Contents())
      ensures generation == old(generation) + if ok then 1 else 0
    {
      hide PageOk, EntrySize;
      if spec.state.StillExists? {
        ok := Set(spec.idx, spec.tuple);
      } else {
        ok := Insert(spec.idx, spec.tuple);
      }
      if ok {
        generation := generation + 1;
      }
    }

    /** Appending to a compact page succeeds as long as the tuples fit a page together. */
    method AppendCompact(t: Tuple)
      requires Valid() && Compact()
      requires Footprint(cfg.LeafLayout(), Contents() + [t]) <= cfg.pageSize - HEADER
      modifies this`offsets, this`nextEntry, this`memory
      ensures Valid() && Compact() && Contents() == old(Contents()) + [t]
    {
      hide PageOk, EntrySize;
      FootprintConcat(cfg.LeafLayout(), Contents(), [t]);
      LiveConcat(cfg.LeafLayout(), Contents(), [t]);
      LiveOne(cfg.LeafLayout(), t);
      hide LiveBytes;
      var ok := Set(|offsets|, t);
    }

    /** btree_defragment_leaf: rewrites the entries without gaps, leaving out the entry that is
        to be replaced. */
    method Defragment(spec: IncorporateSpec) returns (spec': IncorporateSpec)
      requires Valid() && SpecFits(Contents(), spec)
      modifies this`offsets, this`nextEntry, this`memory
      ensures Valid() && Compact()
      ensures Contents() == Remaining(old(Contents()), spec) && spec' == AfterRemoval(spec)
    {
      EntriesFit(cfg.LeafLayout(), offsets, nextEntry, memory);
      StoredEntries(cfg.LeafLayout(), offsets, nextEntry, memory);
      hide PageOk, EntrySize, LiveBytes, Footprint;
      var scratch := EntriesAt(offsets, memory);
      Reset();
      spec' := Refill(scratch, spec);
    }

    /** The loop of btree_defragment_leaf over the copy of the page. */
    method Refill(scratch: seq<Tuple>, spec: IncorporateSpec) returns (spec': IncorporateSpec)
      requires Valid() && Compact() && Contents() == []
      requires SpecFits(scratch, spec) && Footprint(cfg.LeafLayout(), scratch) <= cfg.pageSize - HEADER
      modifies this`offsets, this`nextEntry, this`memory
      ensures Valid() && Compact()
      ensures Contents() == Remaining(scratch, spec) && spec' == AfterRemoval(spec)
    {
      hide PageOk, EntrySize, LiveBytes, Footprint;
      RemainingEnds(scratch, spec);
      hide RemainingOf, Remaining;
      spec' := spec;
      var i := 0;
      while i < |scratch|
        invariant 0 <= i <= |scratch| && Valid() && Compact()
        invariant Contents() == RemainingOf(scratch[..i], spec)
        invariant spec' == if spec.state.StillExists? && spec.idx < i then AfterRemoval(spec) else spec
      {
        if spec'.state.StillExists? && spec'.idx == i {
          RemovedHere(scratch, spec);
          spec' := spec'.(state := HasBeenRemoved);
        } else {
          RemainingPrefix(cfg, scratch, spec, i + 1);
          AppendCompact(scratch[i]);
        }
        i := i + 1;
      }
      assert scratch[..i] == scratch;
    }

    /** btree_reset_node_entries */
    method Reset()
      requires cfg.Valid()
      modifies this`offsets, this`nextEntry
      ensures Valid() && Compact() && Contents() == []
    {
      offsets, nextEntry := [], cfg.pageSize;
    }

    /** btree_truncate_leaf */
    method Truncate(targetEntries: nat)
      requires Valid() && targetEntries <= |Contents()|
      modifies this`offsets, this`nextEntry
      ensures Valid() && Contents() == old(Contents())[..targetEntries]
    {
      hide EntrySize;
      var newNextEntry := cfg.pageSize;
      var i := 0;
      while i < targetEntries
        invariant 0 <= i <= targetEntries
        invariant nextEntry <= newNextEntry <= cfg.pageSize
        invariant forall k | 0 <= k < i :: newNextEntry <= offsets[k]
      {
        assert EntryOk(cfg.LeafLayout(), memory, offsets[i], nextEntry);
        if offsets[i] < newNextEntry {
          newNextEntry := offsets[i];
        }
        i := i + 1;
      }
      RaiseNextEntry(cfg.LeafLayout(), offsets, nextEntry, memory, targetEntries, newNextEntry);
      offsets, nextEntry := offsets[..targetEntries], newNextEntry;
    }
  }

  /** Like Remaining, for a prefix that need not reach the entry to be replaced. */
  function RemainingOf(tuples: seq<Tuple>, spec: IncorporateSpec): seq<Tuple> {
    if spec.state.StillExists? && spec.idx < |tuples| then tuples[..spec.idx] + tuples[spec.idx + 1..] else tuples
  }

  lemma RemainingPrefix(cfg: TreeConfig, tuples: seq<Tuple>, spec: IncorporateSpec, i: nat)
    requires 0 < i <= |tuples| && !(spec.state.StillExists? && spec.idx == i - 1)
    ensures RemainingOf(tuples[..i], spec) == RemainingOf(tuples[..i - 1], spec) + [tuples[i - 1]]
    ensures Footprint(cfg.LeafLayout(), RemainingOf(tuples[..i], spec)) <= Footprint(cfg.LeafLayout(), tuples)
  {
    var prefix := tuples[..i];
    assert tuples == prefix + tuples[i..];
    FootprintConcat(cfg.LeafLayout(), prefix, tuples[i..]);
    assert prefix == tuples[..i - 1] + [tuples[i - 1]];
    if spec.state.StillExists? && spec.idx < i {
      var a, b := prefix[..spec.idx], prefix[spec.idx + 1..];
      assert prefix == a + [prefix[spec.idx]] + b;
      FootprintConcat(cfg.LeafLayout(), a + [prefix[spec.idx]], b);
      FootprintConcat(cfg.LeafLayout(), a, [prefix[spec.idx]]);
      FootprintConcat(cfg.LeafLayout(), a, b);
    }
  }

  lemma RemainingEnds(tuples: seq<Tuple>, spec: IncorporateSpec)
    requires SpecFits(tuples, spec)
    ensures RemainingOf(tuples[..0], spec) == [] && RemainingOf(tuples, spec) == Remaining(tuples, spec)
  {
  }

  lemma RemovedHere(tuples: seq<Tuple>, spec: IncorporateSpec)
    requires spec.state.StillExists? && spec.idx < |tuples|
    ensures RemainingOf(tuples[..spec.idx + 1], spec) == RemainingOf(tuples[..spec.idx], spec)
  {
    assert tuples[..spec.idx + 1][..spec.idx] == tuples[..spec.idx];
  }

  // ----- the contents of a leaf as a map

  function MapOf(tuples: seq<Tuple>): map<Key, Message> {
    if tuples == [] then map[]
    else MapOf(tuples[..|tuples| - 1])[tuples[|tuples| - 1].key := tuples[|tuples| - 1].msg]
  }

  lemma {:induction false} MapOfAt(tuples: seq<Tuple>, i: nat)
    requires Increasing(tuples) && i < |tuples|
    ensures tuples[i].key in MapOf(tuples) && MapOf(tuples)[tuples[i].key] == tuples[i].msg
  {
    var n := |tuples| - 1;
    if i < n {
      MapOfAt(tuples[..n], i);
    }
  }

  lemma {:induction false} MapOfKey(tuples: seq<Tuple>, k: Key) returns (i: nat)
    requires k in MapOf(tuples)
    ensures i < |tuples| && tuples[i].key == k
  {
    var n := |tuples| - 1;
    if tuples[n].key == k {
      i := n;
    } else {
      i := MapOfKey(tuples[..n], k);
    }
  }

  /** The key belongs at the index of the spec. */
  ghost predicate SpecPlaced(tuples: seq<Tuple>, spec: IncorporateSpec) {
    && SpecFits(tuples, spec)
    && (forall i | 0 <= i < spec.idx :: tuples[i].key < spec.tuple.key)
    && (forall i | spec.idx <= i < |tuples| :: spec.tuple.key <= tuples[i].key)
    && (spec.state.StillExists? <==> spec.idx < |tuples| && tuples[spec.idx].key == spec.tuple.key)
  }

  lemma PlacedInMap(tuples: seq<Tuple>, spec: IncorporateSpec)
    requires Increasing(tuples) && SpecPlaced(tuples, spec)
    ensures spec.state.StillExists? <==> spec.tuple.key in MapOf(tuples)
    ensures spec.state.StillExists? ==> MapOf(tuples)[spec.tuple.key] == tuples[spec.idx].msg
  {
    hide MapOf;
    if spec.state.StillExists? {
      MapOfAt(tuples, spec.idx);
    }
    if spec.tuple.key in MapOf(tuples) {
      var i := MapOfKey(tuples, spec.tuple.key);
    }
  }

  lemma IncorporatedMap(tuples: seq<Tuple>, spec: IncorporateSpec)
    requires Increasing(tuples) && SpecPlaced(tuples, spec)
    ensures Increasing(Incorporated(tuples, spec))
    ensures MapOf(Incorporated(tuples, spec)) == MapOf(tuples)[spec.tuple.key := spec.tuple.msg]
  {
    var r := Incorporated(tuples, spec);
    IncorporatedIncreases(tuples, spec);
    IncorporatedAt(tuples, spec);
    hide MapOf, Incorporated, Increasing;
    var m, m' := MapOf(tuples)[spec.tuple.key := spec.tuple.msg], MapOf(r);
    forall k | k in m ensures k in m' && m'[k] == m[k] {
      if k == spec.tuple.key {
        MapOfAt(r, spec.idx);
      } else {
        var i := MapOfKey(tuples, k);
        MapOfAt(tuples, i);
        SameTuple(tuples, spec, i);
        MapOfAt(r, if i < spec.idx || spec.state.StillExists? then i else i + 1);
      }
    }
    forall k | k in m' ensures k in m {
      var j := MapOfKey(r, k);
      if j != spec.idx {
        MapOfAt(tuples, if j < spec.idx || spec.state.StillExists? then j else j - 1);
      }
    }
  }

  lemma SameTuple(tuples: seq<Tuple>, spec: IncorporateSpec, i: nat)
    requires SpecPlaced(tuples, spec) && i < |tuples| && tuples[i].key != spec.tuple.key
    ensures var r := Incorporated(tuples, spec);
            var j := if i < spec.idx || spec.state.StillExists? then i else i + 1;
            j < |r| && r[j] == tuples[i]
  {
  }

  lemma IncorporatedIncreases(tuples: seq<Tuple>, spec: IncorporateSpec)
    requires Increasing(tuples) && SpecPlaced(tuples, spec)
    ensures Increasing(Incorporated(tuples, spec))
  {
    IncorporatedAt(tuples, spec);
    hide Incorporated;
    var r := Incorporated(tuples, spec);
    forall i, j | 0 <= i < j < |r| ensures r[i].key < r[j].key {
      assert i < j;
    }
  }

  lemma IncorporatedAt(tuples: seq<Tuple>, spec: IncorporateSpec)
    requires SpecFits(tuples, spec)
    ensures var r := Incorporated(tuples, spec);
            && |r| == |tuples| + (if spec.state.StillExists? then 0 else 1)
            && r[spec.idx] == spec.tuple
            && (forall i | 0 <= i < spec.idx :: r[i] == tuples[i])
            && (forall i | spec.idx < i < |r| :: r[i] == tuples[if spec.state.StillExists? then i else i - 1])
  {
  }
}
