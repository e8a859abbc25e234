/** core_lookup: searching the memtables from the newest to the oldest, then the trunk, and
    stopping at the first definitive message. */
module Lookup {
  import opened Messages

  datatype Tuple = Tuple(key: Key, msg: Message)

  /** The messages of one key, oldest first. */
  function Versions(tuples: seq<Tuple>, k: Key): seq<Message> {
    if tuples == [] then []
    else Versions(tuples[..|tuples| - 1], k)
         + (if tuples[|tuples| - 1].key == k then [tuples[|tuples| - 1].msg] else [])
  }

  lemma {:induction false} VersionsConcat(a: seq<Tuple>, b: seq<Tuple>, k: Key)
    ensures Versions(a + b, k) == Versions(a, k) + Versions(b, k)
  {
    if b == [] {
      assert a + b == a;
    } else {
      var n := |b| - 1;
      assert (a + b)[..|a + b| - 1] == a + b[..n];
      VersionsConcat(a, b[..n], k);
    }
  }

  /** A memtable's tree after the tuples were inserted: btree_insert merges with the old message. */
  function Tree(cfg: DataConfig, tuples: seq<Tuple>): map<Key, Message> {
    if tuples == [] then map[]
    else
      var m := Tree(cfg, tuples[..|tuples| - 1]);
      var t := tuples[|tuples| - 1];
      m[t.key := if t.key in m then MergeTuples(cfg, t.key, m[t.key], t.msg) else t.msg]
  }

  lemma {:induction false} TreeFoldsVersions(cfg: DataConfig, tuples: seq<Tuple>, k: Key)
    requires Lawful(cfg)
    ensures k in Tree(cfg, tuples) <==> Versions(tuples, k) != []
    ensures k in Tree(cfg, tuples) ==> Tree(cfg, tuples)[k] == Fold(cfg, k, Versions(tuples, k))
  {
    if tuples != [] {
      var older := tuples[..|tuples| - 1];
      var t := tuples[|tuples| - 1];
      var ms := Versions(older, k);
      TreeFoldsVersions(cfg, older, k);
      assert ms + [] == ms && [] + [t.msg] == [t.msg];
      if t.key == k && ms != [] {
        FoldConcat(cfg, k, ms, [t.msg]);
      }
    }
  }

  /** The trunk keeps a key's versions in a form that compactions may have finalized: what the
      key reads as is kept, and a key that reads as absent may be missing. */
  ghost predicate TrunkHolds(cfg: DataConfig, trunk: map<Key, Message>, tuples: seq<Tuple>, k: Key) {
    Resolve(cfg, k, Versions(tuples, k))
    == if k in trunk then Reading(MergeFinal(cfg, k, trunk[k])) else None
  }

  /** The tuples of all memtables, oldest first; `memtables` lists them newest first. */
  function AllTuples(memtables: seq<seq<Tuple>>): seq<Tuple> {
    if memtables == [] then [] else AllTuples(memtables[1..]) + memtables[0]
  }

  /** What btree_lookup_and_merge does to the accumulator. */
  function Absorb(cfg: DataConfig, k: Key, tree: map<Key, Message>, acc: Option<Message>): Option<Message> {
    if k !in tree then acc
    else if acc.None? then Some(tree[k])
    else Some(MergeTuples(cfg, k, tree[k], acc.value))
  }

  /** The accumulator stands for the given versions, the newest ones of the key. */
  ghost predicate Stands(cfg: DataConfig, k: Key, acc: Option<Message>, newest: seq<Message>) {
    && (acc.None? <==> newest == [])
    && (acc.Some? ==> acc.value == Fold(cfg, k, newest))
  }

  lemma AbsorbStands(cfg: DataConfig, k: Key, tuples: seq<Tuple>, acc: Option<Message>, newest: seq<Message>)
    requires Lawful(cfg) && Stands(cfg, k, acc, newest)
    ensures Stands(cfg, k, Absorb(cfg, k, Tree(cfg, tuples), acc), Versions(tuples, k) + newest)
  {
    TreeFoldsVersions(cfg, tuples, k);
    var older := Versions(tuples, k);
    assert older == [] ==> older + newest == newest;
    assert newest == [] ==> older + newest == older;
    if older != [] && newest != [] {
      FoldConcat(cfg, k, older, newest);
    }
  }

  /** A definitive accumulator hides everything older. */
  lemma DefinitiveHidesOlder(cfg: DataConfig, k: Key, older: seq<Message>, newest: seq<Message>)
    requires Lawful(cfg)
    requires newest != [] && IsDefinitive(Fold(cfg, k, newest))
    ensures Resolve(cfg, k, older + newest) == Reading(Fold(cfg, k, newest))
  {
    if older == [] {
      assert older + newest == newest;
    } else {
      FoldConcat(cfg, k, older, newest);
    }
  }

  /** Merging with the trunk and finalizing resolves all versions. */
  lemma TrunkStep(cfg: DataConfig, k: Key, trunk: map<Key, Message>, trunkTuples: seq<Tuple>,
                  acc: Option<Message>, newest: seq<Message>)
    requires Lawful(cfg) && Stands(cfg, k, acc, newest)
    requires TrunkHolds(cfg, trunk, trunkTuples, k)
    ensures var r := Absorb(cfg, k, trunk, acc);
            Resolve(cfg, k, Versions(trunkTuples, k) + newest)
            == if r.None? then None else Reading(MergeFinal(cfg, k, r.value))
  {
    var older := Versions(trunkTuples, k);
    assert older == [] ==> older + newest == newest;
    assert newest == [] ==> older + newest == older;
    if newest != [] {
      var n := Fold(cfg, k, newest);
      // an absent key may be read as deleted: merging an update onto a delete finalizes it
      var t := if k in trunk then trunk[k] else Delete;
      FinalMerge(cfg, k, t, n);
      if older != [] {
        FoldConcat(cfg, k, older, newest);
        FinalMerge(cfg, k, Fold(cfg, k, older), n);
        SameReading(cfg, k, MergeFinal(cfg, k, t), MergeFinal(cfg, k, Fold(cfg, k, older)), n);
      } else {
        SameReading(cfg, k, MergeFinal(cfg, k, t), Delete, n);
      }
    }
  }

  lemma SameReading(cfg: DataConfig, k: Key, a: Message, b: Message, newer: Message)
    requires Lawful(cfg) && IsDefinitive(a) && IsDefinitive(b) && Reading(a) == Reading(b)
    ensures MergeTuples(cfg, k, a, newer) == MergeTuples(cfg, k, b, newer)
  {
  }

  /** core_lookup returns what replaying every insert of the key in order yields, even though
      it stops at the first definitive message. */
  method CoreLookup(cfg: DataConfig, target: Key,
                    memtables: seq<map<Key, Message>>, trunk: map<Key, Message>,
                    ghost contents: seq<seq<Tuple>>, ghost trunkTuples: seq<Tuple>)
    returns (found: Option<Value>)
    requires Lawful(cfg)
    requires |contents| == |memtables|
    requires forall i | 0 <= i < |memtables| :: memtables[i] == Tree(cfg, contents[i])
    requires TrunkHolds(cfg, trunk, trunkTuples, target)
    ensures found == Replay(cfg, target, Versions(trunkTuples + AllTuples(contents), target))
  {
    var result: Option<Message> := None;
    ghost var all := trunkTuples + AllTuples(contents);
    ghost var newest: seq<Message> := [];
    ghost var older := all;
    assert Versions(all, target) + [] == Versions(all, target);
    ResolveIsReplay(cfg, target, Versions(all, target));
    var i := 0;
    while i < |memtables|
      invariant 0 <= i <= |memtables|
      invariant older == trunkTuples + AllTuples(contents[i..])
      invariant Versions(older, target) + newest == Versions(all, target)
      invariant Stands(cfg, target, result, newest)
    {
      assert contents[i..][1..] == contents[i + 1..];
      ghost var rest := trunkTuples + AllTuples(contents[i + 1..]);
      assert older == rest + contents[i];
      VersionsConcat(rest, contents[i], target);
      AbsorbStands(cfg, target, contents[i], result, newest);
      result := Absorb(cfg, target, memtables[i], result);
      ghost var v := Versions(contents[i], target);
      assert Versions(rest, target) + (v + newest) == Versions(all, target);
      newest, older := v + newest, rest;
      if result.Some? && IsDefinitive(result.value) {
        DefinitiveHidesOlder(cfg, target, Versions(older, target), newest);
        return Reading(result.value);
      }
      i := i + 1;
    }
    assert older == trunkTuples;
    TrunkStep(cfg, target, trunk, trunkTuples, result, newest);
    result := Absorb(cfg, target, trunk, result);
    if result.Some? && !IsDefinitive(result.value) {
      result := Some(MergeFinal(cfg, target, result.value));
    }
    found := if result.None? then None else Reading(result.value);
  }
}
