/** Messages, and the rules by which versions of one key are combined. */
module Messages {

  /** Keys are identified with their rank in the order of the user's key_compare. */
  type Key = int

  datatype Option<T> = None | Some(value: T)

  newtype byte = x: int | 0 <= x < 256

  type Value = seq<byte>

  datatype Message = Insert(data: Value) | Update(data: Value) | Delete

  /** The user's merge callbacks. */
  datatype DataConfig = DataConfig(
    mergeTuples: (Key, Message, Message) -> Message,
    mergeTuplesFinal: (Key, Message) -> Message)

  predicate IsDefinitive(m: Message) {
    m.Insert? || m.Delete?
  }

  /** data_merge_tuples: `newer`, the accumulator, absorbs the next older message. */
  function MergeTuples(cfg: DataConfig, k: Key, older: Message, newer: Message): Message {
    if IsDefinitive(newer) then newer
    else if older.Delete? then cfg.mergeTuplesFinal(k, newer)
    else cfg.mergeTuples(k, older, newer)
  }

  /** data_merge_tuples_final: no older message exists. */
  function MergeFinal(cfg: DataConfig, k: Key, oldest: Message): Message {
    if IsDefinitive(oldest) then oldest else cfg.mergeTuplesFinal(k, oldest)
  }

  /** What the store expects of the callbacks. */
  ghost predicate Lawful(cfg: DataConfig) {
    && (forall k, v {:trigger cfg.mergeTuplesFinal(k, Update(v))} ::
          IsDefinitive(cfg.mergeTuplesFinal(k, Update(v))))
    && (forall k, v, w {:trigger cfg.mergeTuples(k, Insert(v), Update(w))} ::
          IsDefinitive(cfg.mergeTuples(k, Insert(v), Update(w))))
    && (forall k, a: Message, v, w {:trigger MergeTuples(cfg, k, a, MergeTuples(cfg, k, Update(v), Update(w)))} ::
          !a.Delete? ==>
            MergeTuples(cfg, k, a, MergeTuples(cfg, k, Update(v), Update(w)))
            == MergeTuples(cfg, k, MergeTuples(cfg, k, a, Update(v)), Update(w)))
    && (forall k, v, w {:trigger MergeFinal(cfg, k, MergeTuples(cfg, k, Update(v), Update(w)))} ::
          MergeFinal(cfg, k, MergeTuples(cfg, k, Update(v), Update(w)))
          == MergeTuples(cfg, k, MergeFinal(cfg, k, Update(v)), Update(w)))
  }

  lemma MergeIsAssociative(cfg: DataConfig, k: Key, a: Message, b: Message, c: Message)
    requires Lawful(cfg)
    ensures MergeTuples(cfg, k, a, MergeTuples(cfg, k, b, c))
         == MergeTuples(cfg, k, MergeTuples(cfg, k, a, b), c)
  {
    if b.Update? && c.Update? && a.Delete? {
      var bc := MergeTuples(cfg, k, b, c);
      assert MergeTuples(cfg, k, Delete, bc) == MergeFinal(cfg, k, bc);
      assert MergeFinal(cfg, k, bc) == MergeTuples(cfg, k, MergeFinal(cfg, k, Update(b.data)), Update(c.data));
    }
  }

  /** All versions of a key in one message; `ms` lists them oldest first. */
  function Fold(cfg: DataConfig, k: Key, ms: seq<Message>): Message
    requires ms != []
  {
    if |ms| == 1 then ms[0] else MergeTuples(cfg, k, ms[0], Fold(cfg, k, ms[1..]))
  }

  lemma {:induction false} FoldConcat(
      cfg: DataConfig, k: Key, older: seq<Message>, newer: seq<Message>)
    requires Lawful(cfg)
    requires older != [] && newer != []
    ensures Fold(cfg, k, older + newer) == MergeTuples(cfg, k, Fold(cfg, k, older), Fold(cfg, k, newer))
  {
    if |older| == 1 {
      assert (older + newer)[1..] == newer;
    } else {
      assert (older + newer)[1..] == older[1..] + newer;
      FoldConcat(cfg, k, older[1..], newer);
      MergeIsAssociative(cfg, k, older[0], Fold(cfg, k, older[1..]), Fold(cfg, k, newer));
    }
  }

  function Flatten<T>(groups: seq<seq<T>>): seq<T> {
    if groups == [] then [] else groups[0] + Flatten(groups[1..])
  }

  function FoldEach(cfg: DataConfig, k: Key, groups: seq<seq<Message>>): (r: seq<Message>)
    requires forall i | 0 <= i < |groups| :: groups[i] != []
    ensures |r| == |groups|
  {
    if groups == [] then [] else [Fold(cfg, k, groups[0])] + FoldEach(cfg, k, groups[1..])
  }

  /** Compacting contiguous groups of versions first does not change what they amount to. */
  lemma {:induction false} CompactionKeepsMeaning(
      cfg: DataConfig, k: Key, groups: seq<seq<Message>>)
    requires Lawful(cfg)
    requires groups != [] && forall i | 0 <= i < |groups| :: groups[i] != []
    ensures Flatten(groups) != []
    ensures Fold(cfg, k, FoldEach(cfg, k, groups)) == Fold(cfg, k, Flatten(groups))
  {
    if |groups| == 1 {
      assert Flatten(groups) == groups[0] + Flatten([]) == groups[0];
    } else {
      CompactionKeepsMeaning(cfg, k, groups[1..]);
      assert FoldEach(cfg, k, groups)[1..] == FoldEach(cfg, k, groups[1..]);
      FoldConcat(cfg, k, groups[0], Flatten(groups[1..]));
    }
  }

  // ----- what a key reads as

  /** Executing the messages one after the other on a value that is present or absent. */
  function Replay(cfg: DataConfig, k: Key, ms: seq<Message>): Option<Value> {
    if ms == [] then None
    else
      var before := Replay(cfg, k, ms[..|ms| - 1]);
      match ms[|ms| - 1]
      case Insert(v) => Some(v)
      case Delete => None
      case Update(_) =>
        Reading(if before.Some?
                then cfg.mergeTuples(k, Insert(before.value), ms[|ms| - 1])
                else cfg.mergeTuplesFinal(k, ms[|ms| - 1]))
  }

  /** A delete reads as absent. */
  function Reading(m: Message): Option<Value> {
    if m.Delete? then None else Some(m.data)
  }

  /** Folding all versions, finalizing what is left and reading deletes as absent. */
  function Resolve(cfg: DataConfig, k: Key, ms: seq<Message>): Option<Value> {
    if ms == [] then None else Reading(MergeFinal(cfg, k, Fold(cfg, k, ms)))
  }

  lemma {:induction false} FinalMerge(cfg: DataConfig, k: Key, older: Message, newest: Message)
    requires Lawful(cfg)
    ensures MergeFinal(cfg, k, MergeTuples(cfg, k, older, newest))
         == MergeTuples(cfg, k, MergeFinal(cfg, k, older), newest)
  {
    MergeIsAssociative(cfg, k, Delete, older, newest);
    assert MergeTuples(cfg, k, Delete, older) == MergeFinal(cfg, k, older);
    var m := MergeTuples(cfg, k, older, newest);
    assert MergeTuples(cfg, k, Delete, m) == MergeFinal(cfg, k, m);
  }

  lemma {:induction false} ResolveIsReplay(cfg: DataConfig, k: Key, ms: seq<Message>)
    requires Lawful(cfg)
    ensures Resolve(cfg, k, ms) == Replay(cfg, k, ms)
  {
    if ms != [] {
      var n := |ms| - 1;
      var newest := ms[n];
      ResolveIsReplay(cfg, k, ms[..n]);
      if n == 0 {
        assert Fold(cfg, k, ms) == newest;
      } else {
        assert ms == ms[..n] + [newest];
        FoldConcat(cfg, k, ms[..n], [newest]);
        var before := Fold(cfg, k, ms[..n]);
        FinalMerge(cfg, k, before, newest);
        var f := MergeFinal(cfg, k, before);
        assert Replay(cfg, k, ms[..n]) == Reading(f);
        assert IsDefinitive(f);
      }
    }
  }
}
