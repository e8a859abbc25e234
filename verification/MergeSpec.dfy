/** What a merge of several sorted runs amounts to, independently of how it is computed. */
module MergeSpec {
  import opened Messages
  import opened Lookup

  /** One input of the merge: the tuples of a B-tree in key order. */
  type Run = seq<Tuple>

  ghost predicate Increasing(run: Run) {
    forall i, j | 0 <= i < j < |run| :: run[i].key < run[j].key
  }

  ghost predicate AllIncreasing(runs: seq<Run>) {
    forall i | 0 <= i < |runs| :: Increasing(runs[i])
  }

  /** A tuple together with the number of its input; a larger number is newer. */
  datatype Entry = Entry(key: Key, msg: Message, num: nat)

  predicate Less(a: Entry, b: Entry) {
    a.key < b.key || (a.key == b.key && a.num > b.num)
  }

  ghost predicate Sorted(stream: seq<Entry>) {
    forall i, j | 0 <= i < j < |stream| :: Less(stream[i], stream[j])
  }

  ghost predicate NumsBelow(stream: seq<Entry>, n: nat) {
    forall i | 0 <= i < |stream| :: stream[i].num < n
  }

  function Tag(run: Run, num: nat): (r: seq<Entry>)
    ensures |r| == |run|
    ensures forall i | 0 <= i < |r| :: r[i] == Entry(run[i].key, run[i].msg, num)
  {
    seq(|run|, i requires 0 <= i < |run| => Entry(run[i].key, run[i].msg, num))
  }

  /** Two-way merge; the newer side goes first among equal keys. */
  function MergeTwo(newer: seq<Entry>, older: seq<Entry>): seq<Entry> {
    if newer == [] then older
    else if older == [] then newer
    else if newer[0].key <= older[0].key then [newer[0]] + MergeTwo(newer[1..], older)
    else [older[0]] + MergeTwo(newer, older[1..])
  }

  /** All tuples of the runs by key, and among equal keys from the newest to the oldest. */
  function Raw(runs: seq<Run>): seq<Entry> {
    if runs == [] then []
    else MergeTwo(Tag(runs[|runs| - 1], |runs| - 1), Raw(runs[..|runs| - 1]))
  }

  /** The tuples of one input. */
  function Project(stream: seq<Entry>, num: nat): seq<Tuple> {
    if stream == [] then []
    else (if stream[0].num == num then [Tuple(stream[0].key, stream[0].msg)] else [])
         + Project(stream[1..], num)
  }

  /** The messages of one key, oldest first. */
  function KeyMsgs(stream: seq<Entry>, k: Key): seq<Message> {
    if stream == [] then []
    else KeyMsgs(stream[1..], k) + (if stream[0].key == k then [stream[0].msg] else [])
  }

  // ----- Raw is the sorted stream of the tuples of all runs

  ghost predicate AllAfter(e: Entry, stream: seq<Entry>) {
    forall i | 0 <= i < |stream| :: Less(e, stream[i])
  }

  lemma SortedSplit(stream: seq<Entry>)
    requires stream != []
    ensures Sorted(stream) <==> AllAfter(stream[0], stream[1..]) && Sorted(stream[1..])
  {
    var rest := stream[1..];
    if AllAfter(stream[0], rest) && Sorted(rest) {
      forall i, j | 0 <= i < j < |stream| ensures Less(stream[i], stream[j]) {
        assert stream[j] == rest[j - 1];
        assert i > 0 ==> stream[i] == rest[i - 1];
      }
    }
  }

  lemma {:induction false} MergeTwoAfter(e: Entry, newer: seq<Entry>, older: seq<Entry>)
    requires AllAfter(e, newer) && AllAfter(e, older)
    ensures AllAfter(e, MergeTwo(newer, older))
  {
    if newer != [] && older != [] {
      if newer[0].key <= older[0].key {
        MergeTwoAfter(e, newer[1..], older);
      } else {
        MergeTwoAfter(e, newer, older[1..]);
      }
    }
  }

  lemma {:induction false} MergeTwoNums(newer: seq<Entry>, older: seq<Entry>, n: nat)
    requires NumsBelow(newer, n) && NumsBelow(older, n)
    ensures NumsBelow(MergeTwo(newer, older), n)
  {
    if newer != [] && older != [] {
      if newer[0].key <= older[0].key {
        MergeTwoNums(newer[1..], older, n);
      } else {
        MergeTwoNums(newer, older[1..], n);
      }
    }
  }

  lemma LessTransitive(a: Entry, b: Entry, stream: seq<Entry>)
    requires Less(a, b) && AllAfter(b, stream)
    ensures AllAfter(a, stream)
  {
  }

  lemma {:induction false} MergeTwoIsSorted(newer: seq<Entry>, older: seq<Entry>, n: nat)
    requires Sorted(newer) && Sorted(older) && NumsBelow(older, n)
    requires forall i | 0 <= i < |newer| :: newer[i].num == n
    ensures Sorted(MergeTwo(newer, older))
  {
    if newer != [] && older != [] {
      var merged := MergeTwo(newer, older);
      SortedSplit(newer);
      SortedSplit(older);
      SortedSplit(merged);
      hide Sorted, AllAfter;
      var a, b := newer[0], older[0];
      if a.key <= b.key {
        MergeTwoIsSorted(newer[1..], older, n);
        LessTransitive(a, b, older[1..]);
        AfterSplit(a, older);
        MergeTwoAfter(a, newer[1..], older);
        assert merged[1..] == MergeTwo(newer[1..], older);
      } else {
        MergeTwoIsSorted(newer, older[1..], n);
        LessTransitive(b, a, newer[1..]);
        AfterSplit(b, newer);
        MergeTwoAfter(b, newer, older[1..]);
        assert merged[1..] == MergeTwo(newer, older[1..]);
      }
    }
  }

  lemma AfterSplit(e: Entry, stream: seq<Entry>)
    requires stream != [] && Less(e, stream[0]) && AllAfter(e, stream[1..])
    ensures AllAfter(e, stream)
  {
    forall i | 0 <= i < |stream| ensures Less(e, stream[i]) {
      assert i > 0 ==> stream[i] == stream[1..][i - 1];
    }
  }

  lemma {:induction false} ProjectNothing(stream: seq<Entry>, num: nat)
    requires forall i | 0 <= i < |stream| :: stream[i].num != num
    ensures Project(stream, num) == []
  {
    if stream != [] {
      ProjectNothing(stream[1..], num);
    }
  }

  lemma {:induction false} ProjectTag(run: Run, num: nat)
    ensures Project(Tag(run, num), num) == run
  {
    if run != [] {
      assert Tag(run, num)[1..] == Tag(run[1..], num);
      ProjectTag(run[1..], num);
    }
  }

  lemma {:induction false} ProjectMergeTwo(newer: seq<Entry>, older: seq<Entry>, num: nat)
    requires Project(newer, num) == [] || Project(older, num) == []
    ensures Project(MergeTwo(newer, older), num) == Project(newer, num) + Project(older, num)
  {
    if newer != [] && older != [] {
      var merged := MergeTwo(newer, older);
      if newer[0].key <= older[0].key {
        ProjectMergeTwo(newer[1..], older, num);
        assert merged[1..] == MergeTwo(newer[1..], older);
        hide MergeTwo;
      } else {
        ProjectMergeTwo(newer, older[1..], num);
        assert merged[1..] == MergeTwo(newer, older[1..]);
        hide MergeTwo;
      }
    }
  }

  /** Raw is strictly sorted and holds exactly the tuples of each run, in the order of the run. */
  lemma {:induction false} RawHoldsRuns(runs: seq<Run>)
    requires AllIncreasing(runs)
    ensures Sorted(Raw(runs)) && NumsBelow(Raw(runs), |runs|)
    ensures forall j | 0 <= j < |runs| :: Project(Raw(runs), j) == runs[j]
  {
    if runs != [] {
      var n := |runs| - 1;
      var newer, older := Tag(runs[n], n), Raw(runs[..n]);
      RawHoldsRuns(runs[..n]);
      assert Sorted(newer) by { assert Increasing(runs[n]); }
      MergeTwoIsSorted(newer, older, n);
      MergeTwoNums(newer, older, n + 1);
      forall j | 0 <= j <= n ensures Project(Raw(runs), j) == runs[j] {
        if j == n {
          ProjectNothing(older, n);
          ProjectTag(runs[n], n);
        } else {
          ProjectNothing(newer, j);
          assert Project(older, j) == runs[..n][j];
        }
        ProjectMergeTwo(newer, older, j);
      }
    }
  }

  // ----- the versions of a key in Raw

  ghost predicate KeysSorted(stream: seq<Entry>) {
    forall i, j | 0 <= i < j < |stream| :: stream[i].key <= stream[j].key
  }

  lemma {:induction false} NoKeyMsgs(stream: seq<Entry>, k: Key)
    requires forall i | 0 <= i < |stream| :: stream[i].key != k
    ensures KeyMsgs(stream, k) == []
  {
    if stream != [] {
      NoKeyMsgs(stream[1..], k);
    }
  }

  lemma {:induction false} NoVersions(run: Run, k: Key)
    requires forall i | 0 <= i < |run| :: run[i].key != k
    ensures Versions(run, k) == []
  {
    if run != [] {
      NoVersions(run[..|run| - 1], k);
    }
  }

  lemma {:induction false} MergeTwoKeyMsgs(newer: seq<Entry>, older: seq<Entry>, k: Key)
    requires KeysSorted(newer) && KeysSorted(older)
    ensures KeyMsgs(MergeTwo(newer, older), k) == KeyMsgs(older, k) + KeyMsgs(newer, k)
  {
    if newer != [] && older != [] {
      if newer[0].key <= older[0].key {
        MergeTwoKeyMsgs(newer[1..], older, k);
      } else {
        MergeTwoKeyMsgs(newer, older[1..], k);
        if older[0].key == k {
          NoKeyMsgs(newer, k);
        }
      }
    }
  }

  lemma {:induction false} TagKeyMsgs(run: Run, num: nat, k: Key)
    requires Increasing(run)
    ensures KeyMsgs(Tag(run, num), k) == Versions(run, k)
  {
    if run != [] {
      assert Tag(run, num)[1..] == Tag(run[1..], num);
      TagKeyMsgs(run[1..], num, k);
      assert run == [run[0]] + run[1..];
      VersionsConcat([run[0]], run[1..], k);
      assert Versions([run[0]], k) == if run[0].key == k then [run[0].msg] else [] by {
        assert [run[0]][..0] == [];
      }
      if run[0].key == k {
        NoVersions(run[1..], k);
      }
    }
  }

  lemma {:induction false} FlattenSplit<T>(groups: seq<seq<T>>, i: nat)
    requires i <= |groups|
    ensures Flatten(groups) == Flatten(groups[..i]) + Flatten(groups[i..])
  {
    if i == 0 {
      assert groups[0..] == groups;
    } else {
      FlattenSplit(groups[1..], i - 1);
      assert groups[1..][..i - 1] == groups[..i][1..] && groups[1..][i - 1..] == groups[i..];
    }
  }

  lemma FlattenOne<T>(group: seq<T>)
    ensures Flatten([group]) == group
  {
    assert [group][1..] == [];
  }

  /** Raw lists the versions of a key as the runs do, the first run being the oldest. */
  lemma {:induction false} RawVersions(runs: seq<Run>, k: Key)
    requires AllIncreasing(runs)
    ensures KeyMsgs(Raw(runs), k) == Versions(Flatten(runs), k)
  {
    if runs != [] {
      var n := |runs| - 1;
      RawVersions(runs[..n], k);
      RawHoldsRuns(runs[..n]);
      assert Increasing(runs[n]);
      MergeTwoKeyMsgs(Tag(runs[n], n), Raw(runs[..n]), k);
      TagKeyMsgs(runs[n], n, k);
      FlattenSplit(runs, n);
      assert runs[n..] == [runs[n]];
      FlattenOne(runs[n]);
      VersionsConcat(Flatten(runs[..n]), runs[n], k);
    }
  }

  // ----- the output of a merge

  datatype Mode = RawMode | Intermediate | Full

  /** The length of the group of equal keys at the front. */
  function GroupSize(stream: seq<Entry>): (g: nat)
    requires stream != []
    ensures 1 <= g <= |stream|
    ensures forall i | 0 <= i < g :: stream[i].key == stream[0].key
    ensures g < |stream| ==> stream[g].key != stream[0].key
  {
    if |stream| >= 2 && stream[1].key == stream[0].key then 1 + GroupSize(stream[1..]) else 1
  }

  /** The messages of a group, oldest first. */
  function Backwards(group: seq<Entry>): (r: seq<Message>)
    ensures |r| == |group|
  {
    if group == [] then [] else Backwards(group[1..]) + [group[0].msg]
  }

  /** What a merge in the given mode emits for a stream. */
  function Emit(cfg: DataConfig, mode: Mode, stream: seq<Entry>): seq<Tuple>
    decreases |stream|
  {
    if stream == [] then []
    else if mode.RawMode? then
      [Tuple(stream[0].key, stream[0].msg)] + Emit(cfg, mode, stream[1..])
    else
      var k := stream[0].key;
      var g := GroupSize(stream);
      var all := Fold(cfg, k, Backwards(stream[..g]));
      var msg := if mode.Full? then MergeFinal(cfg, k, all) else all;
      (if mode.Full? && msg.Delete? then [] else [Tuple(k, msg)]) + Emit(cfg, mode, stream[g..])
  }

  lemma {:induction false} GroupMsgs(group: seq<Entry>, k: Key)
    requires forall i | 0 <= i < |group| :: group[i].key == k
    ensures KeyMsgs(group, k) == Backwards(group)
  {
    if group != [] {
      GroupMsgs(group[1..], k);
    }
  }

  lemma {:induction false} KeyMsgsConcat(a: seq<Entry>, b: seq<Entry>, k: Key)
    ensures KeyMsgs(a + b, k) == KeyMsgs(b, k) + KeyMsgs(a, k)
  {
    if a == [] {
      assert a + b == b;
    } else {
      assert (a + b)[1..] == a[1..] + b;
      KeyMsgsConcat(a[1..], b, k);
    }
  }

  /** A group holds all versions of its own key, and none of any other. */
  lemma GroupIsWhole(stream: seq<Entry>, k: Key)
    requires KeysSorted(stream) && stream != []
    ensures var g := GroupSize(stream);
            && (k == stream[0].key ==>
                  KeyMsgs(stream, k) == Backwards(stream[..g]) && KeyMsgs(stream[g..], k) == [])
            && (k != stream[0].key ==> KeyMsgs(stream, k) == KeyMsgs(stream[g..], k))
  {
    var g := GroupSize(stream);
    assert stream == stream[..g] + stream[g..];
    KeyMsgsConcat(stream[..g], stream[g..], k);
    if k == stream[0].key {
      GroupMsgs(stream[..g], k);
      NoKeyMsgs(stream[g..], k);
    } else {
      NoKeyMsgs(stream[..g], k);
    }
  }

  /** What the merge makes of the versions of one key. */
  function Merged(cfg: DataConfig, mode: Mode, k: Key, versions: seq<Message>): seq<Message>
    requires !mode.RawMode?
  {
    if versions == [] then []
    else if mode.Intermediate? then [Fold(cfg, k, versions)]
    else match Resolve(cfg, k, versions)
      case None => []
      case Some(v) => [Insert(v)]
  }

  ghost predicate KeysFrom(run: Run, k: Key) {
    forall i | 0 <= i < |run| :: k <= run[i].key
  }

  lemma IncreasingCons(t: Tuple, rest: Run)
    requires Increasing(rest) && KeysFrom(rest, t.key + 1)
    ensures Increasing([t] + rest) && KeysFrom([t] + rest, t.key)
  {
  }

  lemma {:induction false} EmitIncreases(cfg: DataConfig, mode: Mode, stream: seq<Entry>)
    requires KeysSorted(stream) && !mode.RawMode?
    ensures Increasing(Emit(cfg, mode, stream))
    ensures stream != [] ==> KeysFrom(Emit(cfg, mode, stream), stream[0].key)
    decreases |stream|
  {
    hide MergeFinal, Fold, Backwards;
    if stream != [] {
      var g := GroupSize(stream);
      var rest := Emit(cfg, mode, stream[g..]);
      EmitIncreases(cfg, mode, stream[g..]);
      assert g < |stream| ==> stream[g..][0].key > stream[0].key;
      var j := stream[0].key;
      assert rest != [] ==> KeysFrom(rest, j + 1);
      var all := Fold(cfg, j, Backwards(stream[..g]));
      var msg := if mode.Full? then MergeFinal(cfg, j, all) else all;
      IncreasingCons(Tuple(j, msg), rest);
    }
  }

  /** Each key is emitted at most once, in increasing order, with the message that its versions
      amount to. */
  lemma {:induction false} EmitMerges(cfg: DataConfig, mode: Mode, stream: seq<Entry>, k: Key)
    requires Lawful(cfg) && KeysSorted(stream) && !mode.RawMode?
    ensures Increasing(Emit(cfg, mode, stream))
    ensures Versions(Emit(cfg, mode, stream), k) == Merged(cfg, mode, k, KeyMsgs(stream, k))
    decreases |stream|
  {
    EmitIncreases(cfg, mode, stream);
    if stream != [] {
      var g := GroupSize(stream);
      var j := stream[0].key;
      var rest := Emit(cfg, mode, stream[g..]);
      EmitMerges(cfg, mode, stream[g..], k);
      GroupIsWhole(stream, k);
      var all := Fold(cfg, j, Backwards(stream[..g]));
      var msg := if mode.Full? then MergeFinal(cfg, j, all) else all;
      var first := if mode.Full? && msg.Delete? then [] else [Tuple(j, msg)];
      assert Emit(cfg, mode, stream) == first + rest;
      hide Emit, Increasing, KeysSorted, KeyMsgs, Fold;
      VersionsConcat(first, rest, k);
      assert Versions(first, k) == if j == k && first != [] then [msg] else [] by {
        assert first != [] ==> first[..0] == [];
      }
      if k == j {
        assert Merged(cfg, mode, k, []) == [];
        FinalIsDefinitive(cfg, k, all);
      }
    }
  }

  lemma FinalIsDefinitive(cfg: DataConfig, k: Key, m: Message)
    requires Lawful(cfg)
    ensures IsDefinitive(MergeFinal(cfg, k, m))
  {
    if m.Update? {
      assert m == Update(m.data);
    }
  }

  /** The union of the keys in increasing order, each with what its versions amount to: in
      intermediate mode their fold, in full mode what a lookup would return, keys that read as
      absent being dropped. */
  lemma MergeIsExact(cfg: DataConfig, mode: Mode, runs: seq<Run>, k: Key)
    requires Lawful(cfg) && AllIncreasing(runs) && !mode.RawMode?
    ensures Increasing(Emit(cfg, mode, Raw(runs)))
    ensures Versions(Emit(cfg, mode, Raw(runs)), k)
         == Merged(cfg, mode, k, Versions(Flatten(runs), k))
  {
    RawHoldsRuns(runs);
    EmitMerges(cfg, mode, Raw(runs), k);
    RawVersions(runs, k);
  }

  /** In raw mode every tuple is emitted, by key and from the newest run to the oldest. */
  lemma {:induction false} RawEmitsAll(cfg: DataConfig, stream: seq<Entry>)
    ensures var out := Emit(cfg, RawMode, stream);
            |out| == |stream| && forall i | 0 <= i < |out| :: out[i] == Tuple(stream[i].key, stream[i].msg)
  {
    if stream != [] {
      RawEmitsAll(cfg, stream[1..]);
    }
  }

  /** Compacting neighbouring runs in intermediate mode changes what no key reads as. */
  lemma CompactionKeepsReads(cfg: DataConfig, older: seq<Run>, runs: seq<Run>, newer: seq<Run>, k: Key)
    requires Lawful(cfg) && AllIncreasing(runs)
    ensures var out := Emit(cfg, Intermediate, Raw(runs));
            Resolve(cfg, k, Versions(Flatten(older + [out] + newer), k))
            == Resolve(cfg, k, Versions(Flatten(older + runs + newer), k))
  {
    var out := Emit(cfg, Intermediate, Raw(runs));
    var vs := Versions(Flatten(runs), k);
    MergeIsExact(cfg, Intermediate, runs, k);
    VersionsAround(older, runs, newer, k);
    VersionsAround(older, [out], newer, k);
    FlattenOne(out);
    var a, c := Versions(Flatten(older), k), Versions(Flatten(newer), k);
    hide *;
    if vs != [] {
      FoldAround(cfg, k, a, vs, c);
    }
  }

  lemma FoldAround(cfg: DataConfig, k: Key, a: seq<Message>, b: seq<Message>, c: seq<Message>)
    requires Lawful(cfg) && b != []
    ensures Fold(cfg, k, a + [Fold(cfg, k, b)] + c) == Fold(cfg, k, a + b + c)
  {
    var f := [Fold(cfg, k, b)];
    assert Fold(cfg, k, f + c) == Fold(cfg, k, b + c) by {
      if c == [] {
        assert f + c == f && b + c == b;
      } else {
        FoldConcat(cfg, k, f, c);
        FoldConcat(cfg, k, b, c);
      }
    }
    assert a + f + c == a + (f + c) && a + b + c == a + (b + c);
    if a == [] {
      assert a + (f + c) == f + c && a + (b + c) == b + c;
    } else {
      FoldConcat(cfg, k, a, f + c);
      FoldConcat(cfg, k, a, b + c);
    }
  }

  lemma VersionsAround(a: seq<Run>, b: seq<Run>, c: seq<Run>, k: Key)
    ensures Versions(Flatten(a + b + c), k)
         == Versions(Flatten(a), k) + Versions(Flatten(b), k) + Versions(Flatten(c), k)
  {
    var all := a + b + c;
    FlattenSplit(all, |a| + |b|);
    FlattenSplit(a + b, |a|);
    assert all[..|a| + |b|] == a + b && all[|a| + |b|..] == c;
    assert (a + b)[..|a|] == a && (a + b)[|a|..] == b;
    VersionsConcat(Flatten(a + b), Flatten(c), k);
    VersionsConcat(Flatten(a), Flatten(b), k);
  }

  /** A full merge may finalize updates and drop deletes, as long as its runs hold the oldest
      versions. */
  lemma FullMergeKeepsReads(cfg: DataConfig, runs: seq<Run>, newer: seq<Run>, k: Key)
    requires Lawful(cfg) && AllIncreasing(runs)
    ensures var out := Emit(cfg, Full, Raw(runs));
            Resolve(cfg, k, Versions(Flatten([out] + newer), k))
            == Resolve(cfg, k, Versions(Flatten(runs + newer), k))
  {
    hide Emit, Raw, Versions, Merged, Resolve, Increasing, AllIncreasing, Lawful;
    var out := Emit(cfg, Full, Raw(runs));
    var vs := Versions(Flatten(runs), k);
    MergeIsExact(cfg, Full, runs, k);
    VersionsAround([], runs, newer, k);
    VersionsAround([], [out], newer, k);
    FlattenOne(out);
    assert [] + runs + newer == runs + newer && [] + [out] + newer == [out] + newer;
    var c := Versions(Flatten(newer), k);
    assert Versions(Flatten([]), k) == [] by { NoVersions([], k); }
    var m := Merged(cfg, Full, k, vs);
    hide *;
    assert Versions(Flatten(runs + newer), k) == vs + c && Versions(Flatten([out] + newer), k) == m + c;
    ResolveAfter(cfg, k, vs, c);
    ResolveAfter(cfg, k, m, c);
  }

  /** What is read after `newer` only depends on what is read before. */
  lemma {:induction false} ResolveAfter(cfg: DataConfig, k: Key, older: seq<Message>, newer: seq<Message>)
    requires Lawful(cfg)
    ensures Resolve(cfg, k, older + newer)
         == Resolve(cfg, k, Merged(cfg, Full, k, older) + newer)
  {
    var m := Merged(cfg, Full, k, older);
    ResolveIsReplay(cfg, k, older + newer);
    ResolveIsReplay(cfg, k, m + newer);
    ResolveIsReplay(cfg, k, older);
    ResolveIsReplay(cfg, k, m);
    if older != [] {
      FinalIsDefinitive(cfg, k, Fold(cfg, k, older));
    }
    assert Resolve(cfg, k, older) == Resolve(cfg, k, m);
    ReplayAfter(cfg, k, older, m, newer);
  }

  lemma {:induction false} ReplayAfter(
      cfg: DataConfig, k: Key, a: seq<Message>, b: seq<Message>, newer: seq<Message>)
    requires Replay(cfg, k, a) == Replay(cfg, k, b)
    ensures Replay(cfg, k, a + newer) == Replay(cfg, k, b + newer)
  {
    if newer == [] {
      assert a + newer == a && b + newer == b;
    } else {
      var n := |newer| - 1;
      ReplayAfter(cfg, k, a, b, newer[..n]);
      assert (a + newer)[..|a + newer| - 1] == a + newer[..n];
      assert (b + newer)[..|b + newer| - 1] == b + newer[..n];
    }
  }
}
