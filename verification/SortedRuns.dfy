/** Putting one message into a sorted run of tuples. */
module SortedRuns {
  import opened Messages
  import opened Lookup
  import opened MergeSpec
  import opened LeafNode

  lemma SplitAt<T>(s: seq<T>, i: nat)
    requires i < |s|
    ensures s == s[..i] + [s[i]] + s[i + 1..]
  {
  }

  lemma IncreasingParts(a: Run, b: Run)
    requires Increasing(a + b)
    ensures Increasing(a) && Increasing(b)
    ensures forall i, j | 0 <= i < |a| && 0 <= j < |b| :: a[i].key < b[j].key
  {
    var r := a + b;
    forall i, j | 0 <= i < |a| && 0 <= j < |b| ensures a[i].key < b[j].key {
      assert r[i] == a[i] && r[|a| + j] == b[j];
    }
    forall i, j | 0 <= i < j < |a| ensures a[i].key < a[j].key {
      assert r[i] == a[i] && r[j] == a[j];
    }
    forall i, j | 0 <= i < j < |b| ensures b[i].key < b[j].key {
      assert r[|a| + i] == b[i] && r[|a| + j] == b[j];
    }
  }

  /** The run with the message for `k` added, or merged with the one that is there. */
  function Put(cfg: DataConfig, run: Run, k: Key, msg: Message): Run {
    if run == [] || k < run[0].key then [Tuple(k, msg)] + run
    else if run[0].key == k then [Tuple(k, MergeTuples(cfg, k, run[0].msg, msg))] + run[1..]
    else [run[0]] + Put(cfg, run[1..], k, msg)
  }

  ghost predicate AllBelow(run: Run, k: Key) {
    forall i | 0 <= i < |run| :: run[i].key < k
  }

  ghost predicate AllAbove(run: Run, k: Key) {
    forall i | 0 <= i < |run| :: k < run[i].key
  }

  lemma {:induction false} PutAfter(cfg: DataConfig, before: Run, rest: Run, k: Key, msg: Message)
    requires AllBelow(before, k)
    ensures Put(cfg, before + rest, k, msg) == before + Put(cfg, rest, k, msg)
  {
    if before == [] {
      assert before + rest == rest;
    } else {
      assert (before + rest)[1..] == before[1..] + rest;
      PutAfter(cfg, before[1..], rest, k, msg);
    }
  }

  lemma {:induction false} PutBefore(cfg: DataConfig, run: Run, after: Run, k: Key, msg: Message)
    requires AllAbove(after, k)
    ensures Put(cfg, run + after, k, msg) == Put(cfg, run, k, msg) + after
  {
    hide MergeTuples;
    var all := run + after;
    if run == [] {
      assert all == after;
      assert Put(cfg, run, k, msg) == [Tuple(k, msg)] + [];
      assert Put(cfg, all, k, msg) == [Tuple(k, msg)] + after;
    } else {
      assert all[0] == run[0] && all[1..] == run[1..] + after;
      if run[0].key < k {
        PutBefore(cfg, run[1..], after, k, msg);
        assert Put(cfg, all, k, msg) == [run[0]] + (Put(cfg, run[1..], k, msg) + after);
      } else if k < run[0].key {
        assert Put(cfg, all, k, msg) == [Tuple(k, msg)] + (run + after);
      } else {
        var merged := [Tuple(k, MergeTuples(cfg, k, run[0].msg, msg))];
        assert Put(cfg, all, k, msg) == merged + (run[1..] + after);
      }
    }
  }

  /** Only the part of a run around the key changes. */
  lemma PutWithin(cfg: DataConfig, before: Run, run: Run, after: Run, k: Key, msg: Message)
    requires AllBelow(before, k) && AllAbove(after, k)
    ensures Put(cfg, before + run + after, k, msg) == before + Put(cfg, run, k, msg) + after
  {
    PutBefore(cfg, before + run, after, k, msg);
    PutAfter(cfg, before, run, k, msg);
  }

  lemma PutFront(cfg: DataConfig, run: Run, k: Key, msg: Message)
    requires run != [] ==> k <= run[0].key
    ensures run == [] || k < run[0].key ==> Put(cfg, run, k, msg) == [Tuple(k, msg)] + run
    ensures run != [] && k == run[0].key ==>
              Put(cfg, run, k, msg) == [Tuple(k, MergeTuples(cfg, k, run[0].msg, msg))] + run[1..]
  {
  }

  /** The incorporation into a leaf is such a put. */
  lemma IncorporatedIsPut(cfg: DataConfig, tuples: Run, spec: IncorporateSpec, msg: Message)
    requires Increasing(tuples) && SpecPlaced(tuples, spec)
    requires spec.tuple.msg == if spec.state.StillExists?
                               then MergeTuples(cfg, spec.tuple.key, tuples[spec.idx].msg, msg) else msg
    ensures Incorporated(tuples, spec) == Put(cfg, tuples, spec.tuple.key, msg)
  {
    hide MergeTuples, Increasing;
    var before, rest := tuples[..spec.idx], tuples[spec.idx..];
    assert tuples == before + rest;
    PutAfter(cfg, before, rest, spec.tuple.key, msg);
    PutFront(cfg, rest, spec.tuple.key, msg);
    hide Put;
    if spec.state.StillExists? {
      assert rest[0] == tuples[spec.idx] && rest[1..] == tuples[spec.idx + 1..];
      assert Incorporated(tuples, spec) == before + ([spec.tuple] + rest[1..]);
    } else {
      assert rest != [] ==> rest[0] == tuples[spec.idx];
      assert Incorporated(tuples, spec) == before + ([spec.tuple] + rest);
    }
  }

  function PutMessage(cfg: DataConfig, run: Run, k: Key, msg: Message): Message {
    if k in MapOf(run) then MergeTuples(cfg, k, MapOf(run)[k], msg) else msg
  }

  /** A put keeps a run sorted and changes its contents only at the key. */
  lemma PutMeans(cfg: DataConfig, run: Run, k: Key, msg: Message)
    requires Increasing(run)
    ensures Increasing(Put(cfg, run, k, msg)) && Put(cfg, run, k, msg) != []
    ensures MapOf(Put(cfg, run, k, msg)) == MapOf(run)[k := PutMessage(cfg, run, k, msg)]
  {
    var spec := SpecFor(cfg, run, k, msg);
    IncorporatedIsPut(cfg, run, spec, msg);
    PlacedInMap(run, spec);
    IncorporatedMap(run, spec);
  }

  lemma {:induction false} SpecFor(cfg: DataConfig, run: Run, k: Key, msg: Message) returns (spec: IncorporateSpec)
    requires Increasing(run)
    ensures SpecPlaced(run, spec) && spec.tuple.key == k
    ensures spec.tuple.msg == if spec.state.StillExists? then MergeTuples(cfg, k, run[spec.idx].msg, msg) else msg
  {
    if run == [] || k < run[0].key {
      spec := IncorporateSpec(0, DidNotExist, Tuple(k, msg));
    } else if run[0].key == k {
      spec := IncorporateSpec(0, StillExists, Tuple(k, MergeTuples(cfg, k, run[0].msg, msg)));
    } else {
      var s := SpecFor(cfg, run[1..], k, msg);
      spec := s.(idx := s.idx + 1);
      assert forall i | 1 <= i < |run| :: run[i] == run[1..][i - 1];
    }
  }
}
