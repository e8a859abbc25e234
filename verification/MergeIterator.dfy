/** The merge iterator: a k-way merge over an array of input iterators that is kept in order,
    with a cached bit that says whether the next input is at the same key. */
module MergeIterator {
  import opened Messages
  import opened Lookup
  import opened MergeSpec

  /** An ordered_iterator: `rest` is what the input has not passed yet, so `rest[0]` is its
      current key and data. */
  datatype Input = Input(num: nat, rest: seq<Tuple>, nextKeyEqual: bool)

  function HeadOf(input: Input): Entry
    requires input.rest != []
  {
    Entry(input.rest[0].key, input.rest[0].msg, input.num)
  }

  ghost predicate HasNum(inputs: seq<Input>, num: nat) {
    exists i | 0 <= i < |inputs| :: inputs[i].num == num
  }

  /** The inputs hold exactly what is left of the sorted stream. */
  ghost predicate Feeds(inputs: seq<Input>, stream: seq<Entry>) {
    && Sorted(stream)
    && (forall i, j | 0 <= i < j < |inputs| :: inputs[i].num != inputs[j].num)
    && (forall i | 0 <= i < |inputs| :: Project(stream, inputs[i].num) == inputs[i].rest)
    && (forall i | 0 <= i < |inputs| :: Increasing(inputs[i].rest))
    && (forall e | 0 <= e < |stream| :: HasNum(inputs, stream[e].num))
  }

  ghost predicate Alive(live: seq<Input>) {
    forall i | 0 <= i < |live| :: live[i].rest != []
  }

  ghost predicate InOrder(live: seq<Input>)
    requires Alive(live)
  {
    forall i, j | 0 <= i < j < |live| :: Less(HeadOf(live[i]), HeadOf(live[j]))
  }

  /** next_key_equal is exact for every live input. */
  ghost predicate BitsExact(live: seq<Input>)
    requires Alive(live)
  {
    forall i | 0 <= i < |live| :: BitExact(live, i)
  }

  ghost predicate BitExact(live: seq<Input>, i: nat)
    requires Alive(live) && i < |live|
  {
    live[i].nextKeyEqual <==> i + 1 < |live| && live[i].rest[0].key == live[i + 1].rest[0].key
  }

  ghost predicate Queue(live: seq<Input>, stream: seq<Entry>) {
    Alive(live) && InOrder(live) && BitsExact(live) && Feeds(live, stream)
  }

  // ----- the front of the queue is the front of the stream

  lemma {:induction false} FirstOf(stream: seq<Entry>, num: nat) returns (e: nat)
    requires Project(stream, num) != []
    ensures e < |stream| && stream[e].num == num
    ensures Project(stream, num)[0] == Tuple(stream[e].key, stream[e].msg)
  {
    if stream[0].num == num {
      e := 0;
    } else {
      e := FirstOf(stream[1..], num);
      e := e + 1;
    }
  }

  /** The first entry of the stream is the least of the heads. */
  lemma HeadOwner(inputs: seq<Input>, stream: seq<Entry>) returns (j: nat)
    requires Feeds(inputs, stream) && stream != []
    ensures j < |inputs| && inputs[j].rest != [] && stream[0] == HeadOf(inputs[j])
    ensures forall i | 0 <= i < |inputs| && i != j && inputs[i].rest != [] ::
              Less(stream[0], HeadOf(inputs[i]))
  {
    assert HasNum(inputs, stream[0].num);
    j :| 0 <= j < |inputs| && inputs[j].num == stream[0].num;
    assert Project(stream, inputs[j].num) == inputs[j].rest;
    forall i | 0 <= i < |inputs| && i != j && inputs[i].rest != []
      ensures Less(stream[0], HeadOf(inputs[i]))
    {
      assert inputs[i].num != inputs[j].num;
      var e := FirstOf(stream, inputs[i].num);
    }
  }

  lemma ProjectTail(stream: seq<Entry>, num: nat)
    requires stream != []
    ensures Project(stream, num)
         == (if stream[0].num == num then [Tuple(stream[0].key, stream[0].msg)] else []) + Project(stream[1..], num)
  {
  }

  function Stepped(inputs: seq<Input>, bit: bool): seq<Input>
    requires inputs != [] && inputs[0].rest != []
  {
    [Input(inputs[0].num, inputs[0].rest[1..], bit)] + inputs[1..]
  }

  lemma SteppedAt(inputs: seq<Input>, bit: bool)
    requires inputs != [] && inputs[0].rest != []
    ensures |Stepped(inputs, bit)| == |inputs|
    ensures Stepped(inputs, bit)[0] == Input(inputs[0].num, inputs[0].rest[1..], bit)
    ensures forall i | 0 < i < |inputs| :: Stepped(inputs, bit)[i] == inputs[i]
  {
  }

  /** Stepping the first input drops the first entry of the stream. */
  lemma StepFeeds(inputs: seq<Input>, stream: seq<Entry>, bit: bool)
    requires Feeds(inputs, stream) && inputs != [] && stream != []
    requires inputs[0].rest != [] && stream[0] == HeadOf(inputs[0])
    ensures Feeds(Stepped(inputs, bit), stream[1..])
  {
    var stepped, tail := Stepped(inputs, bit), stream[1..];
    SteppedAt(inputs, bit);
    SortedTail(stream);
    SteppedNums(inputs, stream, bit);
    hide Stepped, Sorted, Project, HasNum;
    forall i | 0 <= i < |stepped|
      ensures Project(tail, stepped[i].num) == stepped[i].rest && Increasing(stepped[i].rest)
    {
      assert Project(stream, inputs[i].num) == inputs[i].rest && Increasing(inputs[i].rest);
      ProjectTail(stream, inputs[i].num);
    }
    hide Increasing;
    forall i, j | 0 <= i < j < |stepped| ensures stepped[i].num != stepped[j].num {
      assert inputs[i].num != inputs[j].num;
    }
  }

  lemma SortedTail(stream: seq<Entry>)
    requires Sorted(stream) && stream != []
    ensures Sorted(stream[1..])
  {
  }

  lemma SteppedNums(inputs: seq<Input>, stream: seq<Entry>, bit: bool)
    requires inputs != [] && inputs[0].rest != [] && stream != []
    requires forall e | 0 <= e < |stream| :: HasNum(inputs, stream[e].num)
    ensures forall e | 0 <= e < |stream[1..]| :: HasNum(Stepped(inputs, bit), stream[1..][e].num)
  {
    SteppedAt(inputs, bit);
    var stepped, tail := Stepped(inputs, bit), stream[1..];
    hide Stepped;
    forall e | 0 <= e < |tail| ensures HasNum(stepped, tail[e].num) {
      assert HasNum(inputs, stream[e + 1].num);
      var i :| 0 <= i < |inputs| && inputs[i].num == stream[e + 1].num;
      assert stepped[i].num == tail[e].num;
    }
  }

  lemma EmptyFeeds(inputs: seq<Input>, stream: seq<Entry>)
    requires Feeds(inputs, stream)
    requires forall i | 0 <= i < |inputs| :: inputs[i].rest == []
    ensures stream == []
  {
    if stream != [] {
      var j := HeadOwner(inputs, stream);
      assert false;
    }
  }

  ghost predicate TwoEqual(stream: seq<Entry>) {
    |stream| >= 2 && stream[1].key == stream[0].key
  }

  /** The queue shows the first entry, and the bit whether a second one has the same key. */
  lemma FrontOfQueue(live: seq<Input>, stream: seq<Entry>)
    requires Queue(live, stream)
    ensures live == [] <==> stream == []
    ensures live != [] ==> stream[0] == HeadOf(live[0])
    ensures live != [] ==> (live[0].nextKeyEqual <==> TwoEqual(stream))
    ensures live != [] && live[0].nextKeyEqual ==> |live| >= 2 && stream[1] == HeadOf(live[1])
  {
    hide Project, Sorted;
    if live == [] {
      EmptyFeeds(live, stream);
    } else {
      assert live[0].rest == Project(stream, live[0].num);
      if stream == [] {
        ProjectNothing(stream, live[0].num);
      }
      assert stream != [];
      var j := HeadOwner(live, stream);
      assert !Less(HeadOf(live[j]), HeadOf(live[0]));
      SecondOfQueue(live, stream);
    }
  }

  lemma SecondOfQueue(live: seq<Input>, stream: seq<Entry>)
    requires Queue(live, stream)
    requires live != [] && stream != [] && stream[0] == HeadOf(live[0])
    ensures live[0].nextKeyEqual <==> TwoEqual(stream)
    ensures live[0].nextKeyEqual ==> |live| >= 2 && stream[1] == HeadOf(live[1])
  {
    hide Sorted, Project;
    assert BitExact(live, 0);
    StepFeeds(live, stream, false);
    var stepped := [Input(live[0].num, live[0].rest[1..], false)] + live[1..];
    assert forall i | 1 <= i < |live| :: stepped[i] == live[i];
    assert Increasing(live[0].rest);
    if stream[1..] == [] {
      if |live| >= 2 {
        assert live[1] == stepped[1];
        ProjectNothing(stream[1..], stepped[1].num);
        assert false;
      }
    } else {
      var j := HeadOwner(stepped, stream[1..]);
      hide Feeds;
      assert j == 0 ==> stream[1].key > stream[0].key;
      if |live| >= 2 {
        assert j != 1 ==> Less(stream[1], HeadOf(live[1])) by { assert stepped[1] == live[1]; }
        assert j > 1 ==> Less(HeadOf(live[1]), HeadOf(live[j]));
      }
    }
  }

  // ----- putting the stepped input back in its place

  /** bsearch_comp: negative if `one` goes before `two`. */
  function Compare(one: Input, two: Input): (cmp: int)
    requires one.rest != [] && two.rest != []
    ensures one.num != two.num ==> (cmp < 0 <==> Less(HeadOf(one), HeadOf(two)))
    ensures one.num != two.num ==> (cmp > 0 <==> Less(HeadOf(two), HeadOf(one)))
  {
    if one.rest[0].key != two.rest[0].key then one.rest[0].key - two.rest[0].key
    else two.num - one.num
  }

  predicate KeysEqual(one: Input, two: Input)
    requires one.rest != [] && two.rest != []
  {
    one.rest[0].key == two.rest[0].key
  }

  /** bsearch_insert: one less than the position at which `key` belongs, and whether it has the
      key of the neighbour before and of the neighbour after that position.  Only the comparisons
      that the binary search happens to make are used to find the two bits. */
  method BsearchInsert(key: Input, items: seq<Input>) returns (index: int, prevEqual: bool, nextEqual: bool)
    requires items != [] && key.rest != [] && Alive(items) && InOrder(items)
    requires forall i | 0 <= i < |items| :: items[i].num != key.num
    ensures -1 <= index < |items|
    ensures forall i | 0 <= i <= index :: Less(HeadOf(items[i]), HeadOf(key))
    ensures forall i | index < i < |items| :: Less(HeadOf(key), HeadOf(items[i]))
    ensures prevEqual <==> index >= 0 && KeysEqual(items[index], key)
    ensures nextEqual <==> index + 1 < |items| && KeysEqual(items[index + 1], key)
  {
    var b, lim, p, cmp := 0, |items|, 0, 0;
    prevEqual, nextEqual := false, false;
    while lim != 0
      invariant 0 <= b <= b + lim <= |items|
      invariant b > 0 ==> Less(HeadOf(items[b - 1]), HeadOf(key))
      invariant b + lim < |items| ==> Less(HeadOf(key), HeadOf(items[b + lim]))
      invariant prevEqual <==> b > 0 && KeysEqual(items[b - 1], key)
      invariant nextEqual <==> b + lim < |items| && KeysEqual(items[b + lim], key)
      invariant cmp > 0 ==> b == p + 1
      invariant cmp < 0 ==> p == b + lim
      invariant cmp == 0 ==> lim == |items|
      decreases lim
    {
      p := b + lim / 2;
      cmp := Compare(key, items[p]);
      var keysEqual := KeysEqual(key, items[p]);
      if cmp > 0 {
        assert b > 0 && b - 1 < p ==> Less(HeadOf(items[b - 1]), HeadOf(items[p]));
        b := p + 1;
        lim := lim - 1;
        prevEqual := prevEqual || keysEqual;
      }
      assert b + lim < |items| && p < b + lim ==> Less(HeadOf(items[p]), HeadOf(items[b + lim]));
      nextEqual := nextEqual || (cmp < 0 && keysEqual);
      lim := lim / 2;
    }
    index := if cmp < 0 then p - 1 else p;
  }

  /** The stepped input `me` is put between `items[..pos]` and `items[pos..]`, and the two bits
      are written. */
  function Replaced(items: seq<Input>, me: Input, pos: nat, prevEqual: bool, nextEqual: bool): seq<Input>
    requires pos <= |items|
  {
    var before := if pos == 0 then [] else items[..pos - 1] + [items[pos - 1].(nextKeyEqual := prevEqual)];
    before + [me.(nextKeyEqual := nextEqual)] + items[pos..]
  }

  ghost predicate Has(inputs: seq<Input>, num: nat, rest: seq<Tuple>) {
    exists i | 0 <= i < |inputs| :: inputs[i].num == num && inputs[i].rest == rest
  }

  /** Same inputs up to order and bits. */
  ghost predicate Rearranged(a: seq<Input>, b: seq<Input>) {
    && (forall i | 0 <= i < |a| :: Has(b, a[i].num, a[i].rest))
    && (forall j | 0 <= j < |b| :: Has(a, b[j].num, b[j].rest))
    && (forall i, j | 0 <= i < j < |b| :: b[i].num != b[j].num)
  }

  lemma RearrangedFeeds(a: seq<Input>, b: seq<Input>, stream: seq<Entry>)
    requires Feeds(a, stream) && Rearranged(a, b)
    ensures Feeds(b, stream)
  {
    hide Sorted, Project, Increasing;
    forall j | 0 <= j < |b| ensures Project(stream, b[j].num) == b[j].rest && Increasing(b[j].rest) {
      assert Has(a, b[j].num, b[j].rest);
    }
    forall e | 0 <= e < |stream| ensures HasNum(b, stream[e].num) {
      assert HasNum(a, stream[e].num);
      var i :| 0 <= i < |a| && a[i].num == stream[e].num;
      assert Has(b, a[i].num, a[i].rest);
    }
  }

  lemma ReplacedRearranges(items: seq<Input>, me: Input, pos: nat, prevEqual: bool, nextEqual: bool)
    requires pos <= |items|
    requires forall i, j | 0 <= i < j < |items| :: items[i].num != items[j].num
    requires forall i | 0 <= i < |items| :: items[i].num != me.num
    ensures Rearranged([me] + items, Replaced(items, me, pos, prevEqual, nextEqual))
  {
    var a, b := [me] + items, Replaced(items, me, pos, prevEqual, nextEqual);
    ReplacedAt(items, me, pos, prevEqual, nextEqual);
    hide Replaced;
    forall i | 0 <= i < |a| ensures Has(b, a[i].num, a[i].rest) {
      var j := if i == 0 then pos else if i <= pos then i - 1 else i;
      assert b[j].num == a[i].num && b[j].rest == a[i].rest;
    }
    forall j | 0 <= j < |b| ensures Has(a, b[j].num, b[j].rest) {
      var i := if j == pos then 0 else if j < pos then j + 1 else j;
      assert b[j].num == a[i].num && b[j].rest == a[i].rest;
    }
  }

  lemma ReplacedAt(items: seq<Input>, me: Input, pos: nat, prevEqual: bool, nextEqual: bool)
    requires pos <= |items|
    ensures var live := Replaced(items, me, pos, prevEqual, nextEqual);
            && |live| == |items| + 1
            && (forall i | 0 <= i < pos :: live[i].num == items[i].num && live[i].rest == items[i].rest)
            && live[pos] == me.(nextKeyEqual := nextEqual)
            && (forall i | pos < i < |live| :: live[i] == items[i - 1])
            && (forall i | 0 <= i < pos :: live[i].nextKeyEqual ==
                  if i == pos - 1 then prevEqual else items[i].nextKeyEqual)
  {
  }

  lemma ReplacedOnly(items: seq<Input>, me: Input, pos: nat, prevEqual: bool, nextEqual: bool, live: seq<Input>)
    requires pos <= |items| && |live| == |items| + 1
    requires forall i | 0 <= i < pos - 1 :: live[i] == items[i]
    requires pos > 0 ==> live[pos - 1] == items[pos - 1].(nextKeyEqual := prevEqual)
    requires live[pos] == me.(nextKeyEqual := nextEqual)
    requires forall i | pos < i < |live| :: live[i] == items[i - 1]
    ensures live == Replaced(items, me, pos, prevEqual, nextEqual)
  {
  }

  lemma ReplacedIsQueue(items: seq<Input>, me: Input, pos: nat, prevEqual: bool, nextEqual: bool,
                        stream: seq<Entry>)
    requires me.rest != [] && pos <= |items|
    requires Alive(items) && InOrder(items) && BitsExact(items)
    requires Feeds([me] + items, stream)
    requires forall i | 0 <= i < pos :: Less(HeadOf(items[i]), HeadOf(me))
    requires forall i | pos <= i < |items| :: Less(HeadOf(me), HeadOf(items[i]))
    requires prevEqual <==> pos > 0 && KeysEqual(items[pos - 1], me)
    requires nextEqual <==> pos < |items| && KeysEqual(items[pos], me)
    ensures Queue(Replaced(items, me, pos, prevEqual, nextEqual), stream)
  {
    hide InOrder, BitsExact, Less, HeadOf, Replaced, Project, Sorted, KeysEqual, Rearranged, Increasing, HasNum,
      Alive, Feeds;
    NumsDiffer(items, me, stream);
    ReplacedRearranges(items, me, pos, prevEqual, nextEqual);
    RearrangedFeeds([me] + items, Replaced(items, me, pos, prevEqual, nextEqual), stream);
    ReplacedInOrder(items, me, pos, prevEqual, nextEqual);
  }

  lemma NumsDiffer(items: seq<Input>, me: Input, stream: seq<Entry>)
    requires Feeds([me] + items, stream)
    ensures forall i, j | 0 <= i < j < |items| :: items[i].num != items[j].num
    ensures forall i | 0 <= i < |items| :: items[i].num != me.num
  {
    var all := [me] + items;
    assert all[0] == me && forall i | 0 <= i < |items| :: all[i + 1] == items[i];
    hide Project, Sorted, Increasing, HasNum;
  }

  lemma ReplacedInOrder(items: seq<Input>, me: Input, pos: nat, prevEqual: bool, nextEqual: bool)
    requires me.rest != [] && pos <= |items|
    requires Alive(items) && InOrder(items) && BitsExact(items)
    requires forall i | 0 <= i < pos :: Less(HeadOf(items[i]), HeadOf(me))
    requires forall i | pos <= i < |items| :: Less(HeadOf(me), HeadOf(items[i]))
    requires prevEqual <==> pos > 0 && KeysEqual(items[pos - 1], me)
    requires nextEqual <==> pos < |items| && KeysEqual(items[pos], me)
    ensures var live := Replaced(items, me, pos, prevEqual, nextEqual);
            Alive(live) && InOrder(live) && BitsExact(live)
  {
    var live := Replaced(items, me, pos, prevEqual, nextEqual);
    ReplacedAt(items, me, pos, prevEqual, nextEqual);
    hide Replaced;
    assert Alive(live);
    assert InOrder(live) by {
      hide BitsExact;
    }
    forall i | 0 <= i < |live| ensures BitExact(live, i) {
      hide InOrder, Less;
      assert i + 1 < |live| ==> live[i + 1].rest != [];
      if i < pos - 1 {
        assert BitExact(items, i);
      } else if i > pos {
        assert BitExact(items, i - 1);
      }
    }
  }

  lemma TailFeeds(inputs: seq<Input>, stream: seq<Entry>)
    requires Feeds(inputs, stream) && inputs != [] && inputs[0].rest == []
    ensures Feeds(inputs[1..], stream)
  {
    hide Project, Sorted, Increasing;
    var tail := inputs[1..];
    assert Project(stream, inputs[0].num) == inputs[0].rest;
    forall e | 0 <= e < |stream| ensures HasNum(tail, stream[e].num) {
      SomeProject(stream, e);
      assert HasNum(inputs, stream[e].num);
      var i :| 0 <= i < |inputs| && inputs[i].num == stream[e].num;
      assert tail[i - 1].num == stream[e].num;
    }
    assert forall i | 0 <= i < |tail| :: tail[i] == inputs[i + 1];
  }

  lemma TailInOrder(live: seq<Input>)
    requires Alive(live) && InOrder(live) && BitsExact(live) && live != []
    ensures Alive(live[1..]) && InOrder(live[1..]) && BitsExact(live[1..])
  {
    var tail := live[1..];
    assert forall i | 0 <= i < |tail| :: tail[i] == live[i + 1];
    forall i | 0 <= i < |tail| ensures BitExact(tail, i) {
      assert BitExact(live, i + 1);
    }
  }

  /** When the front input is exhausted the others move up. */
  lemma ExhaustedIsQueue(live: seq<Input>, stream: seq<Entry>)
    requires Queue(live, stream) && live != [] && |live[0].rest| == 1
    ensures Queue(live[1..], stream[1..])
  {
    FrontOfQueue(live, stream);
    StepFeeds(live, stream, false);
    var all := [Input(live[0].num, live[0].rest[1..], false)] + live[1..];
    TailInOrder(live);
    hide *;
    TailFeeds(all, stream[1..]);
    assert all[1..] == live[1..];
  }

  lemma {:induction false} SomeProject(stream: seq<Entry>, e: nat)
    requires e < |stream|
    ensures Project(stream, stream[e].num) != []
  {
    if e > 0 {
      SomeProject(stream[1..], e - 1);
    }
  }

  // ----- folding a group while the inputs advance

  lemma {:induction false} BackwardsSnoc(group: seq<Entry>, last: Entry)
    ensures Backwards(group + [last]) == [last.msg] + Backwards(group)
  {
    if group == [] {
      assert Backwards([last]) == Backwards([]) + [last.msg];
    } else {
      assert (group + [last])[1..] == group[1..] + [last];
      BackwardsSnoc(group[1..], last);
    }
  }

  /** Merging the next entry of the group, which is older, into the buffer. */
  lemma FoldNext(cfg: DataConfig, stream: seq<Entry>, i: nat)
    requires i + 1 < |stream|
    ensures var k := stream[0].key;
            && Backwards(stream[..i + 1]) != []
            && Fold(cfg, k, Backwards(stream[..i + 2]))
               == MergeTuples(cfg, k, stream[i + 1].msg, Fold(cfg, k, Backwards(stream[..i + 1])))
  {
    var before := Backwards(stream[..i + 1]);
    assert stream[..i + 2] == stream[..i + 1] + [stream[i + 1]];
    BackwardsSnoc(stream[..i + 1], stream[i + 1]);
    assert ([stream[i + 1].msg] + before)[1..] == before;
  }

  lemma FoldOne(cfg: DataConfig, stream: seq<Entry>)
    requires stream != []
    ensures Backwards(stream[..1]) == [stream[0].msg]
    ensures Fold(cfg, stream[0].key, Backwards(stream[..1])) == stream[0].msg
  {
    assert stream[..1] == [] + [stream[0]];
    BackwardsSnoc([], stream[0]);
  }

  lemma GroupTail(stream: seq<Entry>)
    requires stream != []
    ensures TwoEqual(stream) ==> GroupSize(stream) == 1 + GroupSize(stream[1..])
    ensures !TwoEqual(stream) ==> GroupSize(stream) == 1
  {
  }

  class Iterator {
    const cfg: DataConfig
    const mode: Mode
    const ordered: array<Input>
    var numRemaining: nat
    var canNext: bool
    var currKey: Option<Key>
    var currData: Option<Message>
    var discardedDeletes: nat
    ghost var stream: seq<Entry>

    /** Dead inputs come after live ones, live ones are in order with exact bits, and together
        they hold what is left of the stream. */
    ghost predicate Queued()
      reads this, ordered
    {
      && numRemaining <= ordered.Length
      && Queue(ordered[..numRemaining], stream)
    }

    /** What the iterator still has to emit, the current tuple included.  The current group has
        been merged; its last entry is still at the front of the stream. */
    ghost function Pending(): seq<Tuple>
      reads this, ordered
      requires canNext ==> currKey.Some? && currData.Some? && stream != []
    {
      if !canNext then []
      else [Tuple(currKey.value, currData.value)] + Emit(cfg, mode, stream[1..])
    }

    ghost predicate Valid()
      reads this, ordered
    {
      && Queued()
      && (canNext ==> numRemaining > 0 && currKey.Some? && currData.Some? && stream != [])
    }

    /** merge_iterator_create, forwards. */
    constructor (cfg: DataConfig, mode: Mode, runs: seq<Run>)
      requires AllIncreasing(runs)
      ensures Valid() && fresh(ordered)
      ensures this.cfg == cfg && this.mode == mode
      ensures Pending() == Emit(cfg, mode, Raw(runs))
    {
      this.cfg, this.mode := cfg, mode;
      ordered := new Input[|runs|](i requires 0 <= i < |runs| => Input(i, runs[i], false));
      numRemaining := |runs|;
      canNext := false;
      currKey, currData := None, None;
      discardedDeletes := 0;
      stream := Raw(runs);
      new;
      assert forall i | 0 <= i < |runs| :: ordered[..][i] == Input(i, runs[i], false);
      RawFeeds(runs, ordered[..]);
      hide Emit, Raw;
      SetupOrderedIterators();
    }

    /** setup_ordered_iterators, forwards: dead inputs go to the end, live ones are sorted. */
    method SetupOrderedIterators()
      requires numRemaining == ordered.Length
      requires Feeds(ordered[..], stream)
      requires forall i | 0 <= i < ordered.Length :: !ordered[i].nextKeyEqual
      modifies this, ordered
      ensures Valid()
      ensures Pending() == Emit(cfg, mode, old(stream))
    {
      hide Feeds, InOrder, Less, Emit;
      canNext := false;
      var i := 0;
      while i < numRemaining
        invariant 0 <= i <= numRemaining <= ordered.Length
        invariant Feeds(ordered[..], stream) && stream == old(stream)
        invariant forall k | 0 <= k < ordered.Length :: !ordered[k].nextKeyEqual
        invariant forall k | 0 <= k < i :: ordered[k].rest != []
        invariant forall k | numRemaining <= k < ordered.Length :: ordered[k].rest == []
        invariant i > 0 ==> canNext
        decreases numRemaining - i
      {
        if ordered[i].rest != [] {
          canNext := true;
          i := i + 1;
        } else {
          ghost var before := ordered[..];
          SwapFeeds(before, i, numRemaining - 1, stream);
          ordered[numRemaining - 1], ordered[i] := ordered[i], ordered[numRemaining - 1];
          assert ordered[..] == before[i := before[numRemaining - 1]][numRemaining - 1 := before[i]];
          numRemaining := numRemaining - 1;
        }
      }
      DropDead(ordered[..], numRemaining, stream);
      assert ordered[..][..numRemaining] == ordered[..numRemaining];
      Sort();
      SetBits();
      var retry := AdvanceOneLoop();
      if retry {
        Next();
      }
    }

    /** platform_sort_slow with merge_comp on the live inputs. */
    method Sort()
      requires numRemaining <= ordered.Length
      requires Alive(ordered[..numRemaining]) && Feeds(ordered[..numRemaining], stream)
      requires forall k | 0 <= k < numRemaining :: !ordered[k].nextKeyEqual
      modifies ordered
      ensures Alive(ordered[..numRemaining]) && InOrder(ordered[..numRemaining])
      ensures Feeds(ordered[..numRemaining], stream)
      ensures forall k | 0 <= k < numRemaining :: !ordered[k].nextKeyEqual
    {
      hide Feeds, HeadOf, Less;
      var i := 0;
      while i < numRemaining
        invariant 0 <= i <= numRemaining
        invariant Alive(ordered[..numRemaining]) && Feeds(ordered[..numRemaining], stream)
        invariant forall k | 0 <= k < numRemaining :: !ordered[k].nextKeyEqual
        invariant forall a, b | 0 <= a < b < i :: Less(HeadOf(ordered[a]), HeadOf(ordered[b]))
      {
        SortNext(i);
        i := i + 1;
      }
      assert InOrder(ordered[..numRemaining]);
    }

    /** Moves the i-th input to its place among those in front of it. */
    method SortNext(i: nat)
      requires i < numRemaining <= ordered.Length
      requires Alive(ordered[..numRemaining]) && Feeds(ordered[..numRemaining], stream)
      requires forall k | 0 <= k < numRemaining :: !ordered[k].nextKeyEqual
      requires forall a, b | 0 <= a < b < i :: Less(HeadOf(ordered[a]), HeadOf(ordered[b]))
      modifies ordered
      ensures Alive(ordered[..numRemaining]) && Feeds(ordered[..numRemaining], stream)
      ensures forall k | 0 <= k < numRemaining :: !ordered[k].nextKeyEqual
      ensures forall a, b | 0 <= a < b <= i :: Less(HeadOf(ordered[a]), HeadOf(ordered[b]))
    {
      hide Feeds, HeadOf;
      var n := numRemaining;
      var j := i;
      while j > 0 && Compare(ordered[j - 1], ordered[j]) > 0
        invariant 0 <= j <= i
        invariant Alive(ordered[..n]) && Feeds(ordered[..n], stream)
        invariant forall k | 0 <= k < n :: !ordered[k].nextKeyEqual
        invariant forall a, b | 0 <= a < b <= i && a != j && b != j :: Less(HeadOf(ordered[a]), HeadOf(ordered[b]))
        invariant forall b | j < b <= i :: Less(HeadOf(ordered[j]), HeadOf(ordered[b]))
        decreases j
      {
        hide Less;
        DistinctNums(ordered[..n], stream, j - 1, j);
        ghost var before := ordered[..n];
        SwapFeeds(before, j - 1, j, stream);
        ordered[j - 1], ordered[j] := ordered[j], ordered[j - 1];
        assert ordered[..n] == before[j - 1 := before[j]][j := before[j - 1]];
        j := j - 1;
      }
      if j > 0 {
        DistinctNums(ordered[..n], stream, j - 1, j);
      }
    }

    /** Initial values of the next_key_equal bits. */
    method SetBits()
      requires numRemaining <= ordered.Length
      requires Alive(ordered[..numRemaining]) && InOrder(ordered[..numRemaining])
      requires Feeds(ordered[..numRemaining], stream)
      requires forall k | 0 <= k < numRemaining :: !ordered[k].nextKeyEqual
      modifies ordered
      ensures Queued()
    {
      hide Feeds;
      var n := numRemaining;
      ghost var before := ordered[..n];
      var i := 0;
      while i + 1 < n
        invariant 0 <= i && (i < n || n == 0)
        invariant forall k | 0 <= k < n :: ordered[k].num == before[k].num && ordered[k].rest == before[k].rest
        invariant forall k | 0 <= k < i && k + 1 < n :: ordered[k].nextKeyEqual <==> before[k].rest[0].key == before[k + 1].rest[0].key
        invariant forall k | i <= k < n :: !ordered[k].nextKeyEqual
        decreases n - i
      {
        var equal := ordered[i].rest[0].key == ordered[i + 1].rest[0].key;
        ordered[i] := ordered[i].(nextKeyEqual := equal);
        i := i + 1;
      }
      BitsOnly(before, ordered[..n], stream);
    }

    /** advance_and_resort_min_ritor */
    method AdvanceAndResort()
      requires Queued() && numRemaining > 0
      modifies this`numRemaining, this`stream, ordered
      ensures Queued()
      ensures old(stream) != [] && stream == old(stream)[1..]
    {
      hide Feeds, InOrder, BitsExact, BitExact, Less, Sorted, Project, Increasing, KeysEqual, Replaced;
      ghost var live := ordered[..numRemaining];
      ghost var s := stream;
      FrontOfQueue(live, s);
      stream := stream[1..];
      var me := ordered[0].(rest := ordered[0].rest[1..], nextKeyEqual := false);
      if me.rest == [] {
        ExhaustedIsQueue(live, s);
        numRemaining := numRemaining - 1;
        MoveUp(numRemaining);
        ordered[numRemaining] := me;
        assert ordered[..numRemaining] == live[1..];
        return;
      }
      ghost var items := live[1..];
      StepFeeds(live, s, false);
      TailInOrder(live);
      ordered[0] := me;
      assert ordered[1..numRemaining] == items;
      assert ordered[..numRemaining] == [me] + items;
      hide HeadOf;
      if numRemaining == 1 {
        assert [me] + items == [me];
        SingletonQueue(me, stream);
        return;
      }
      OthersDiffer(me, items, stream);
      var index, prevEqual, nextEqual := BsearchInsert(ordered[0], ordered[1..numRemaining]);
      index := 1 + index;
      ReplacedIsQueue(items, me, index, prevEqual, nextEqual, stream);
      PutBack(index, prevEqual, nextEqual);
    }

    /** The front input moves to its new index, and the bits on both sides of it are set. */
    method PutBack(index: nat, prevEqual: bool, nextEqual: bool)
      requires index < numRemaining <= ordered.Length
      modifies ordered
      ensures ordered[..numRemaining]
           == Replaced(old(ordered[1..numRemaining]), old(ordered[0]), index, prevEqual, nextEqual)
    {
      if index != 0 {
        var oldMin := ordered[0];
        MoveUp(index);
        ordered[index] := oldMin;
        // at index 0 this goes to the pad in front of the array
        ordered[index - 1] := ordered[index - 1].(nextKeyEqual := prevEqual);
      }
      ordered[index] := ordered[index].(nextKeyEqual := nextEqual);
      ghost var items := old(ordered[1..numRemaining]);
      assert forall k | 0 <= k < |items| :: items[k] == old(ordered[k + 1]);
      ReplacedOnly(items, old(ordered[0]), index, prevEqual, nextEqual, ordered[..numRemaining]);
    }

    /** The elements after the first move up by one place. */
    method MoveUp(n: nat)
      requires n < ordered.Length
      modifies ordered
      ensures forall k | 0 <= k < n :: ordered[k] == old(ordered[k + 1])
      ensures forall k | n <= k < ordered.Length :: ordered[k] == old(ordered[k])
    {
      var i := 0;
      while i < n
        invariant 0 <= i <= n
        invariant forall k | 0 <= k < i :: ordered[k] == old(ordered[k + 1])
        invariant forall k | i <= k < ordered.Length :: ordered[k] == old(ordered[k])
      {
        ordered[i] := ordered[i + 1];
        i := i + 1;
      }
    }

    /** merge_resolve_equal_keys: the duplicates of the current key are merged from the newest to
        the oldest, and all but the last are passed. */
    method ResolveEqualKeys()
      requires Queued() && numRemaining > 0 && ordered[0].nextKeyEqual
      requires stream != [] && currKey == Some(stream[0].key) && currData == Some(stream[0].msg)
      modifies this`numRemaining, this`stream, this`currKey, this`currData, ordered
      ensures Queued() && numRemaining > 0
      ensures var s := old(stream);
              && stream == s[GroupSize(s) - 1..]
              && currKey == Some(s[0].key)
              && currData == Some(Fold(cfg, s[0].key, Backwards(s[..GroupSize(s)])))
    {
      hide Feeds, InOrder, BitsExact, Less, GroupSize, Backwards, Fold, MergeTuples;
      ghost var s := stream;
      ghost var g := GroupSize(s);
      ghost var i := 0;
      var mergeBuffer := currData.value;
      FoldOne(cfg, s);
      FrontOfQueue(ordered[..numRemaining], stream);
      GroupTail(stream);
      while true
        invariant Queued() && numRemaining > 0
        invariant ordered[0].nextKeyEqual
        invariant 0 <= i && i + 1 < |s| && stream == s[i..]
        invariant i + GroupSize(stream) == g
        invariant currKey == Some(s[0].key)
        invariant mergeBuffer == Fold(cfg, s[0].key, Backwards(s[..i + 1]))
        decreases |stream|
      {
        FrontOfQueue(ordered[..numRemaining], stream);
        FoldNext(cfg, s, i);
        GroupTail(stream);
        mergeBuffer := MergeTuples(cfg, currKey.value, ordered[1].rest[0].msg, mergeBuffer);
        currKey := Some(ordered[1].rest[0].key);
        AdvanceAndResort();
        i := i + 1;
        FrontOfQueue(ordered[..numRemaining], stream);
        GroupTail(stream);
        if !ordered[0].nextKeyEqual {
          break;
        }
      }
      currData := Some(mergeBuffer);
    }

    /** merge_finalize_updates_and_discard_deletes */
    method FinalizeAndDiscard() returns (discarded: bool)
      requires currKey.Some? && currData.Some?
      modifies this`currData, this`discardedDeletes
      ensures currData == if mode.Full? then Some(MergeFinal(cfg, currKey.value, old(currData.value))) else old(currData)
      ensures discarded <==> mode.Full? && currData.value.Delete?
      ensures discardedDeletes == old(discardedDeletes) + if discarded then 1 else 0
    {
      if !currData.value.Insert? && mode.Full? {
        currData := Some(MergeFinal(cfg, currKey.value, currData.value));
      }
      discarded := currData.value.Delete? && mode.Full?;
      if discarded {
        discardedDeletes := discardedDeletes + 1;
      }
    }

    /** advance_one_loop: makes the next tuple of the queue the current one, or asks for a retry
        if it was a delete to be discarded. */
    method AdvanceOneLoop() returns (retry: bool)
      requires Queued() && (numRemaining > 0 ==> canNext)
      modifies this, ordered
      ensures Valid() && |stream| <= |old(stream)|
      ensures retry ==> canNext && Emit(cfg, mode, stream[1..]) == Emit(cfg, mode, old(stream))
      ensures !retry ==> Pending() == Emit(cfg, mode, old(stream))
    {
      hide Feeds, InOrder, BitsExact, Less, GroupSize, Backwards, Fold, MergeTuples, MergeFinal;
      ghost var s := stream;
      retry := false;
      FrontOfQueue(ordered[..numRemaining], stream);
      if numRemaining == 0 {
        canNext := false;
        return;
      }
      currKey := Some(ordered[0].rest[0].key);
      currData := Some(ordered[0].rest[0].msg);
      if mode.RawMode? {
        return;
      }
      EmitUnfolds(cfg, mode, s);
      FoldOne(cfg, s);
      GroupTail(s);
      if ordered[0].nextKeyEqual {
        ResolveEqualKeys();
      }
      assert stream == s[GroupSize(s) - 1..];
      assert stream[1..] == s[GroupSize(s)..];
      hide Emit;
      retry := FinalizeAndDiscard();
    }

    /** merge_next, for an iterator that runs forwards. */
    method Next()
      requires Valid() && canNext
      modifies this, ordered
      ensures Valid() && |stream| < |old(stream)|
      ensures old(Pending()) != [] && Pending() == old(Pending())[1..]
    {
      ghost var rest := Emit(cfg, mode, stream[1..]);
      var retry := true;
      while retry
        invariant Queued() && |stream| <= |old(stream)|
        invariant retry ==> stream != [] && numRemaining > 0 && canNext && Emit(cfg, mode, stream[1..]) == rest
        invariant !retry ==> |stream| < |old(stream)| && Valid() && Pending() == rest
        decreases retry, |stream|
      {
        currKey, currData := None, None;
        AdvanceAndResort();
        retry := AdvanceOneLoop();
      }
    }
  }

  lemma EmitUnfolds(cfg: DataConfig, mode: Mode, stream: seq<Entry>)
    requires stream != [] && !mode.RawMode?
    ensures var k := stream[0].key;
            var all := Fold(cfg, k, Backwards(stream[..GroupSize(stream)]));
            var msg := if mode.Full? then MergeFinal(cfg, k, all) else all;
            Emit(cfg, mode, stream)
            == (if mode.Full? && msg.Delete? then [] else [Tuple(k, msg)])
               + Emit(cfg, mode, stream[GroupSize(stream)..])
  {
  }

  lemma RawFeeds(runs: seq<Run>, inputs: seq<Input>)
    requires AllIncreasing(runs) && |inputs| == |runs|
    requires forall i | 0 <= i < |runs| :: inputs[i] == Input(i, runs[i], false)
    ensures Feeds(inputs, Raw(runs))
  {
    hide Raw, Sorted, Project, Increasing;
    RawHoldsRuns(runs);
    var stream := Raw(runs);
    assert forall e | 0 <= e < |stream| :: stream[e].num < |runs|;
    hide NumsBelow;
    forall e | 0 <= e < |stream| ensures HasNum(inputs, stream[e].num) {
      assert inputs[stream[e].num].num == stream[e].num;
    }
  }

  lemma SwapDistinct(inputs: seq<Input>, i: nat, j: nat)
    requires i < |inputs| && j < |inputs|
    requires forall a, b | 0 <= a < b < |inputs| :: inputs[a].num != inputs[b].num
    ensures var swapped := inputs[i := inputs[j]][j := inputs[i]];
            forall a, b | 0 <= a < b < |swapped| :: swapped[a].num != swapped[b].num
  {
    var swapped := inputs[i := inputs[j]][j := inputs[i]];
    forall a, b | 0 <= a < b < |swapped| ensures swapped[a].num != swapped[b].num {
      var a' := if a == i then j else if a == j then i else a;
      var b' := if b == i then j else if b == j then i else b;
      assert swapped[a] == inputs[a'] && swapped[b] == inputs[b'] && a' != b';
    }
  }

  lemma SwapHas(inputs: seq<Input>, i: nat, j: nat, k: nat)
    requires i < |inputs| && j < |inputs| && k < |inputs|
    ensures var swapped := inputs[i := inputs[j]][j := inputs[i]];
            Has(swapped, inputs[k].num, inputs[k].rest) && Has(inputs, swapped[k].num, swapped[k].rest)
  {
    var swapped := inputs[i := inputs[j]][j := inputs[i]];
    var l := if k == i then j else if k == j then i else k;
    assert swapped[l] == inputs[k] && swapped[k] == inputs[l];
  }

  lemma SwapFeeds(inputs: seq<Input>, i: nat, j: nat, stream: seq<Entry>)
    requires i < |inputs| && j < |inputs| && Feeds(inputs, stream)
    ensures Feeds(inputs[i := inputs[j]][j := inputs[i]], stream)
  {
    hide Sorted, Project, Increasing, Has, HasNum;
    var swapped := inputs[i := inputs[j]][j := inputs[i]];
    SwapDistinct(inputs, i, j);
    forall k | 0 <= k < |inputs|
      ensures Has(swapped, inputs[k].num, inputs[k].rest) && Has(inputs, swapped[k].num, swapped[k].rest)
    {
      SwapHas(inputs, i, j, k);
    }
    RearrangedFeeds(inputs, swapped, stream);
  }

  lemma SameFeeds(inputs: seq<Input>, others: seq<Input>, stream: seq<Entry>)
    requires Feeds(inputs, stream) && |others| == |inputs|
    requires forall k | 0 <= k < |inputs| :: others[k].num == inputs[k].num && others[k].rest == inputs[k].rest
    ensures Feeds(others, stream)
  {
    hide Sorted, Project, Increasing;
    RearrangedFeeds(inputs, others, stream);
  }

  lemma BitsOnly(before: seq<Input>, live: seq<Input>, stream: seq<Entry>)
    requires Alive(before) && InOrder(before) && Feeds(before, stream) && |live| == |before|
    requires forall k | 0 <= k < |live| :: live[k].num == before[k].num && live[k].rest == before[k].rest
    requires forall k | 0 <= k < |live| - 1 ::
               live[k].nextKeyEqual <==> before[k].rest[0].key == before[k + 1].rest[0].key
    requires live != [] ==> !live[|live| - 1].nextKeyEqual
    ensures Queue(live, stream)
  {
    SameFeeds(before, live, stream);
    hide Feeds;
    assert InOrder(live);
    forall k | 0 <= k < |live| ensures BitExact(live, k) {
      assert k + 1 < |live| ==> before[k + 1].rest[0].key == live[k + 1].rest[0].key;
    }
  }

  lemma DropDead(inputs: seq<Input>, n: nat, stream: seq<Entry>)
    requires Feeds(inputs, stream) && n <= |inputs|
    requires forall k | n <= k < |inputs| :: inputs[k].rest == []
    ensures Feeds(inputs[..n], stream)
  {
    hide Sorted, Project, Increasing;
    forall e | 0 <= e < |stream| ensures HasNum(inputs[..n], stream[e].num) {
      assert HasNum(inputs, stream[e].num);
      var i :| 0 <= i < |inputs| && inputs[i].num == stream[e].num;
      SomeProject(stream, e);
      assert inputs[i].rest == Project(stream, inputs[i].num);
      assert inputs[..n][i].num == stream[e].num;
    }
  }

  lemma DistinctNums(inputs: seq<Input>, stream: seq<Entry>, i: nat, j: nat)
    requires Feeds(inputs, stream) && i < j < |inputs|
    ensures inputs[i].num != inputs[j].num
  {
  }

  lemma SingletonQueue(me: Input, stream: seq<Entry>)
    requires me.rest != [] && !me.nextKeyEqual && Feeds([me], stream)
    ensures Queue([me], stream)
  {
  }

  lemma OthersDiffer(me: Input, items: seq<Input>, stream: seq<Entry>)
    requires Feeds([me] + items, stream)
    ensures forall i | 0 <= i < |items| :: items[i].num != me.num
  {
    hide Sorted, Project, Increasing;
    var all := [me] + items;
    forall i | 0 <= i < |items| ensures items[i].num != me.num {
      assert all[0] == me && all[i + 1] == items[i];
    }
  }

  /** A whole forward run, from creation until can_next is false, emits exactly the merge of the
      runs; see MergeIsExact and RawEmitsAll for what that is. */
  method MergeAll(cfg: DataConfig, mode: Mode, runs: seq<Run>) returns (out: seq<Tuple>)
    requires AllIncreasing(runs)
    ensures out == Emit(cfg, mode, Raw(runs))
  {
    hide Emit, Raw, Queue, Feeds, Alive, InOrder, BitsExact;
    var iter := new Iterator(cfg, mode, runs);
    out := [];
    while iter.canNext
      invariant iter.Valid() && fresh(iter) && fresh(iter.ordered)
      invariant out + iter.Pending() == Emit(cfg, mode, Raw(runs))
      decreases |iter.stream|
    {
      ghost var pending := iter.Pending();
      out := out + [Tuple(iter.currKey.value, iter.currData.value)];
      assert pending == [pending[0]] + pending[1..];
      iter.Next();
    }
  }
}
