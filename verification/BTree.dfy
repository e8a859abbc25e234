/** The shape of a memtable's B-tree and its contents, lookup, and what the steps of an insertion
    do to the tree.  The insertion itself works on pages; see module PageTree. */
module BTree {
  import opened Messages
  import opened MergeSpec
  import opened LeafNode
  import opened SortedRuns

  datatype Node =
    | Leaf(tuples: Run)
    | Index(pivots: seq<Key>, children: seq<Node>)

  function InOrder(t: Node): Run
    decreases t
  {
    match t
    case Leaf(tuples) => tuples
    case Index(_, children) => InOrderAll(children)
  }

  function InOrderAll(nodes: seq<Node>): Run
    decreases nodes
  {
    if nodes == [] then [] else InOrder(nodes[0]) + InOrderAll(nodes[1..])
  }

  /** Uniform height, no empty nodes, and every pivot is the least key of its child. */
  ghost predicate Shape(t: Node, height: nat)
    decreases t, 0
  {
    match t
    case Leaf(tuples) => height == 0 && tuples != []
    case Index(pivots, children) =>
      && height > 0 && |pivots| == |children| > 0
      && forall i | 0 <= i < |children| :: ChildOk(children[i], pivots[i], height)
  }

  ghost predicate ChildOk(child: Node, pivot: Key, height: nat)
    requires height > 0
    decreases child, 1
  {
    Shape(child, height - 1) && InOrder(child) != [] && pivot == InOrder(child)[0].key
  }

  ghost predicate SearchTree(t: Node, height: nat) {
    Shape(t, height) && Increasing(InOrder(t))
  }

  /** A memtable starts with an empty root leaf. */
  ghost predicate ValidRoot(t: Node, height: nat) {
    t == Leaf([]) || SearchTree(t, height)
  }

  // ----- order

  lemma {:induction false} InOrderConcat(a: seq<Node>, b: seq<Node>)
    ensures InOrderAll(a + b) == InOrderAll(a) + InOrderAll(b)
  {
    if a == [] {
      assert a + b == b;
    } else {
      assert (a + b)[1..] == a[1..] + b;
      InOrderConcat(a[1..], b);
    }
  }

  lemma InOrderOne(t: Node)
    ensures InOrderAll([t]) == InOrder(t)
  {
    assert [t][1..] == [];
  }

  lemma InOrderTwo(t: Node, u: Node)
    ensures InOrderAll([t, u]) == InOrder(t) + InOrder(u)
  {
    assert [t, u] == [t] + [u];
    InOrderConcat([t], [u]);
    InOrderOne(t);
    InOrderOne(u);
  }

  lemma AroundChild(children: seq<Node>, i: nat)
    requires i < |children|
    ensures InOrderAll(children)
         == InOrderAll(children[..i]) + InOrder(children[i]) + InOrderAll(children[i + 1..])
  {
    hide InOrder, InOrderAll;
    var a, b, c := children[..i], [children[i]], children[i + 1..];
    SplitAt(children, i);
    hide *;
    InOrderConcat(a + b, c);
    InOrderConcat(a, b);
    InOrderOne(children[i]);
  }

  /** The pivots of a search tree are strictly increasing. */
  lemma PivotsIncrease(children: seq<Node>, i: nat, j: nat)
    requires Increasing(InOrderAll(children)) && i < j < |children|
    requires InOrder(children[i]) != [] && InOrder(children[j]) != []
    ensures InOrder(children[i])[0].key < InOrder(children[j])[0].key
  {
    hide InOrder, InOrderAll, Increasing;
    AroundChild(children, j);
    var before := children[..j];
    AroundChild(before, i);
    var a := InOrderAll(before);
    IncreasingParts(a + InOrder(children[j]), InOrderAll(children[j + 1..]));
    IncreasingParts(a, InOrder(children[j]));
    assert a[|InOrderAll(before[..i])|] == InOrder(children[i])[0];
  }

  ghost predicate KeysIncreasing(pivots: seq<Key>) {
    forall i, j | 0 <= i < j < |pivots| :: pivots[i] < pivots[j]
  }

  /** btree_find_pivot: the last pivot that is not greater than the key. */
  method FindPivot(pivots: seq<Key>, k: Key) returns (idx: int)
    requires KeysIncreasing(pivots)
    ensures -1 <= idx < |pivots|
    ensures forall i | 0 <= i <= idx :: pivots[i] <= k
    ensures forall i | idx < i < |pivots| :: k < pivots[i]
  {
    var lo, hi := 0, |pivots|;
    while lo < hi
      invariant 0 <= lo <= hi <= |pivots|
      invariant forall i | 0 <= i < lo :: pivots[i] < k
      invariant forall i | hi <= i < |pivots| :: k < pivots[i]
    {
      var mid := (lo + hi) / 2;
      if pivots[mid] == k {
        return mid;
      } else if pivots[mid] < k {
        lo := mid + 1;
      } else {
        hi := mid;
      }
    }
    idx := lo - 1;
  }

  // ----- lookup

  /** btree_lookup_node down to the leaf, and the search in the leaf. */
  method Find(root: Node, ghost height: nat, k: Key) returns (found: Option<Message>)
    requires ValidRoot(root, height)
    ensures found == if k in MapOf(InOrder(root)) then Some(MapOf(InOrder(root))[k]) else None
  {
    assert root == Leaf([]) ==> Increasing(InOrder(root));
    hide MapOf, Increasing;
    var node := root;
    ghost var h := height;
    while node.Index?
      invariant (node == Leaf([]) || SearchTree(node, h)) && Increasing(InOrder(node))
      invariant k in MapOf(InOrder(root)) <==> k in MapOf(InOrder(node))
      invariant k in MapOf(InOrder(root)) ==> MapOf(InOrder(root))[k] == MapOf(InOrder(node))[k]
      decreases node
    {
      NodePivots(node, h);
      var childIdx := FindPivot(node.pivots, k);
      if childIdx < 0 {
        childIdx := 0;
      }
      SearchInChild(node, h, childIdx, k);
      node := node.children[childIdx];
      h := h - 1;
    }
    found := FindInLeaf(node.tuples, k);
  }

  method FindInLeaf(tuples: Run, k: Key) returns (found: Option<Message>)
    requires Increasing(tuples)
    ensures found == if k in MapOf(tuples) then Some(MapOf(tuples)[k]) else None
  {
    hide MapOf;
    var lo, hi := 0, |tuples|;
    while lo < hi
      invariant 0 <= lo <= hi <= |tuples|
      invariant forall i | 0 <= i < lo :: tuples[i].key < k
      invariant forall i | hi <= i < |tuples| :: k < tuples[i].key
    {
      var mid := (lo + hi) / 2;
      if tuples[mid].key == k {
        MapOfAt(tuples, mid);
        return Some(tuples[mid].msg);
      } else if tuples[mid].key < k {
        lo := mid + 1;
      } else {
        hi := mid;
      }
    }
    if k in MapOf(tuples) {
      var i := MapOfKey(tuples, k);
    }
    found := None;
  }

  lemma NodePivots(node: Node, height: nat)
    requires node.Index? && SearchTree(node, height)
    ensures height > 0 && |node.pivots| == |node.children| > 0 && KeysIncreasing(node.pivots)
    ensures forall i | 0 <= i < |node.children| :: ChildOk(node.children[i], node.pivots[i], height)
  {
    hide InOrderAll, Increasing;
    forall i, j | 0 <= i < j < |node.pivots| ensures node.pivots[i] < node.pivots[j] {
      assert ChildOk(node.children[i], node.pivots[i], height) && ChildOk(node.children[j], node.pivots[j], height);
      PivotsIncrease(node.children, i, j);
    }
  }

  /** The key can only be in the child that the pivots point to. */
  lemma SearchInChild(node: Node, height: nat, ci: nat, k: Key)
    requires node.Index? && SearchTree(node, height) && ci < |node.children|
    requires |node.pivots| == |node.children|
    requires ci > 0 ==> node.pivots[ci] <= k
    requires forall i | ci < i < |node.pivots| :: k < node.pivots[i]
    ensures height > 0 && SearchTree(node.children[ci], height - 1)
    ensures var all, part := MapOf(InOrder(node)), MapOf(InOrder(node.children[ci]));
            (k in all <==> k in part) && (k in all ==> all[k] == part[k])
  {
    hide MapOf, Increasing, InOrderAll;
    var a, b := InOrderAll(node.children[..ci]), InOrderAll(node.children[ci + 1..]);
    var mid := InOrder(node.children[ci]);
    assert ChildOk(node.children[ci], node.pivots[ci], height);
    Surroundings(node, height, ci, k);
    IncreasingParts(a + mid, b);
    IncreasingParts(a, mid);
    MapWithin(a, mid, b, k);
  }

  /** What is in front of the child is below the key, what is behind it is above. */
  lemma Surroundings(node: Node, height: nat, ci: nat, k: Key)
    requires node.Index? && height > 0 && Increasing(InOrderAll(node.children))
    requires |node.pivots| == |node.children| && ci < |node.children|
    requires forall i | 0 < i < |node.children| :: ChildOk(node.children[i], node.pivots[i], height)
    requires ci > 0 ==> node.pivots[ci] <= k
    requires ci + 1 < |node.pivots| ==> k < node.pivots[ci + 1]
    ensures InOrderAll(node.children) == InOrderAll(node.children[..ci]) + InOrder(node.children[ci])
                                         + InOrderAll(node.children[ci + 1..])
    ensures AllBelow(InOrderAll(node.children[..ci]), k) && AllAbove(InOrderAll(node.children[ci + 1..]), k)
  {
    var a, b := InOrderAll(node.children[..ci]), InOrderAll(node.children[ci + 1..]);
    var mid := InOrder(node.children[ci]);
    AroundChild(node.children, ci);
    IncreasingParts(a + mid, b);
    IncreasingParts(a, mid);
    if ci > 0 {
      assert ChildOk(node.children[ci], node.pivots[ci], height);
    }
    if ci + 1 < |node.children| {
      assert ChildOk(node.children[ci + 1], node.pivots[ci + 1], height);
      assert node.children[ci + 1..][0] == node.children[ci + 1];
      assert b[0] == InOrder(node.children[ci + 1])[0];
    }
  }

  lemma MapWithin(a: Run, mid: Run, b: Run, k: Key)
    requires Increasing(a + mid + b) && AllBelow(a, k) && AllAbove(b, k)
    ensures k in MapOf(a + mid + b) <==> k in MapOf(mid)
    ensures k in MapOf(mid) ==> MapOf(a + mid + b)[k] == MapOf(mid)[k]
  {
    hide MapOf;
    var all := a + mid + b;
    IncreasingParts(a + mid, b);
    IncreasingParts(a, mid);
    if k in MapOf(all) {
      var i := MapOfKey(all, k);
      assert all[i] == mid[i - |a|];
      MapOfAt(mid, i - |a|);
    }
    if k in MapOf(mid) {
      var i := MapOfKey(mid, k);
      assert all[|a| + i] == mid[i];
      MapOfAt(mid, i);
      MapOfAt(all, |a| + i);
    }
  }

  // ----- insertion

  /** The index node and the child that the insertion descends to.  If the key is less than all
      others, the first pivot has already been lowered to it. */
  ghost predicate Descending(parent: Node, height: nat, ci: nat, k: Key) {
    && parent.Index? && height > 0 && |parent.pivots| == |parent.children| && ci < |parent.children|
    && Increasing(InOrderAll(parent.children))
    && (forall i | 0 < i < |parent.children| :: ChildOk(parent.children[i], parent.pivots[i], height))
    && Shape(parent.children[0], height - 1) && InOrder(parent.children[0]) != []
    && FirstPivotOk(parent, ci, k)
    && parent.pivots[ci] <= k
    && (ci + 1 < |parent.pivots| ==> k < parent.pivots[ci + 1])
  }

  ghost predicate FirstPivotOk(parent: Node, ci: nat, k: Key)
    requires parent.Index? && parent.pivots != [] && parent.children != [] && InOrder(parent.children[0]) != []
  {
    var least := InOrder(parent.children[0])[0].key;
    parent.pivots[0] == least || (ci == 0 && parent.pivots[0] == k < least)
  }

  /** The child is replaced by one or two nodes that hold its tuples and the new one. */
  function WithChild(parent: Node, ci: nat, pivots: seq<Key>, nodes: seq<Node>): Node
    requires parent.Index? && |parent.pivots| == |parent.children| && ci < |parent.children|
  {
    Index(parent.pivots[..ci] + pivots + parent.pivots[ci + 1..],
          parent.children[..ci] + nodes + parent.children[ci + 1..])
  }

  lemma ChildReplaced(cfg: DataConfig, parent: Node, height: nat, ci: nat, k: Key, msg: Message,
                      pivots: seq<Key>, nodes: seq<Node>)
    requires Descending(parent, height, ci, k)
    requires |pivots| == |nodes| > 0
    requires forall i | 0 <= i < |nodes| :: ChildOk(nodes[i], pivots[i], height)
    requires InOrderAll(nodes) == Put(cfg, InOrder(parent.children[ci]), k, msg)
    ensures var r := WithChild(parent, ci, pivots, nodes);
            Shape(r, height) && InOrder(r) == Put(cfg, InOrder(parent), k, msg)
    ensures k in MapOf(InOrder(parent)) <==> k in MapOf(InOrder(parent.children[ci]))
  {
    hide MapOf, Put, Increasing, InOrderAll;
    var r := WithChild(parent, ci, pivots, nodes);
    Surroundings(parent, height, ci, k);
    var a, mid := InOrderAll(parent.children[..ci]), InOrder(parent.children[ci]);
    var b := InOrderAll(parent.children[ci + 1..]);
    PutWithin(cfg, a, mid, b, k, msg);
    MapWithin(a, mid, b, k);
    InOrderConcat(parent.children[..ci] + nodes, parent.children[ci + 1..]);
    InOrderConcat(parent.children[..ci], nodes);
    hide ChildOk;
    assert forall i | 0 <= i < |r.children| :: ChildOk(r.children[i], r.pivots[i], height) by {
      if ci > 0 {
        FirstChild(parent, height, ci, k);
      }
    }
  }

  lemma FirstChild(parent: Node, height: nat, ci: nat, k: Key)
    requires Descending(parent, height, ci, k) && ci > 0
    ensures ChildOk(parent.children[0], parent.pivots[0], height)
  {
  }

  lemma PutFirst(cfg: DataConfig, run: Run, k: Key, msg: Message)
    requires run != []
    ensures Put(cfg, run, k, msg) != []
    ensures Put(cfg, run, k, msg)[0].key == if k < run[0].key then k else run[0].key
  {
  }

  /** The pivot of the child is right after the insertion, too. */
  lemma PivotStays(cfg: DataConfig, parent: Node, height: nat, ci: nat, k: Key, msg: Message)
    requires Descending(parent, height, ci, k)
    ensures var run := InOrder(parent.children[ci]);
            run != [] && Put(cfg, run, k, msg) != [] && Put(cfg, run, k, msg)[0].key == parent.pivots[ci]
    ensures Increasing(InOrder(parent.children[ci])) && Shape(parent.children[ci], height - 1)
  {
    hide InOrderAll, Put;
    var run := InOrder(parent.children[ci]);
    Surroundings(parent, height, ci, k);
    var a, b := InOrderAll(parent.children[..ci]), InOrderAll(parent.children[ci + 1..]);
    IncreasingParts(a + run, b);
    IncreasingParts(a, run);
    if ci > 0 {
      assert ChildOk(parent.children[ci], parent.pivots[ci], height);
    }
    PutFirst(cfg, run, k, msg);
  }

  /** The choice of the next child, and the lowering of the first pivot. */
  lemma PrepareChild(child: Node, height: nat, idx: int, k: Key)
    requires child.Index? && SearchTree(child, height) && -1 <= idx < |child.pivots|
    requires forall i | 0 <= i <= idx :: child.pivots[i] <= k
    requires forall i | idx < i < |child.pivots| :: k < child.pivots[i]
    ensures |child.pivots| > 0
    ensures idx < 0 ==> Descending(child.(pivots := child.pivots[0 := k]), height, 0, k)
    ensures idx >= 0 ==> Descending(child, height, idx, k)
  {
    hide InOrderAll, Increasing;
    assert ChildOk(child.children[0], child.pivots[0], height);
  }

  function LeftPart(t: Node, cut: nat): Node
    requires t.Index? && cut <= |t.pivots| && cut <= |t.children|
  {
    Index(t.pivots[..cut], t.children[..cut])
  }

  function RightPart(t: Node, cut: nat): Node
    requires t.Index? && cut <= |t.pivots| && cut <= |t.children|
  {
    Index(t.pivots[cut..], t.children[cut..])
  }

  /** After a split the insertion goes on in the part that holds the next child. */
  lemma CutChild(t: Node, height: nat, next: nat, k: Key, cut: nat)
    requires Descending(t, height, next, k) && 0 < cut < |t.pivots|
    ensures InOrder(t) == InOrder(LeftPart(t, cut)) + InOrder(RightPart(t, cut))
    ensures InOrder(LeftPart(t, cut)) != [] && InOrder(RightPart(t, cut)) != []
    ensures InOrder(RightPart(t, cut))[0].key == t.pivots[cut]
    ensures next >= cut ==> t.pivots[cut] <= k
    ensures next < cut ==>
      && Descending(LeftPart(t, cut), height, next, k)
      && ChildOk(RightPart(t, cut), t.pivots[cut], height + 1)
      && AllAbove(InOrder(RightPart(t, cut)), k)
    ensures next >= cut ==>
      && Descending(RightPart(t, cut), height, next - cut, k)
      && Shape(LeftPart(t, cut), height)
      && InOrder(LeftPart(t, cut)) != [] && InOrder(LeftPart(t, cut))[0].key == t.pivots[0]
      && AllBelow(InOrder(LeftPart(t, cut)), k)
  {
    var left, right := LeftPart(t, cut), RightPart(t, cut);
    assert t.children == left.children + right.children;
    InOrderConcat(left.children, right.children);
    InOrderCons(left.children);
    InOrderCons(right.children);
    Surroundings(t, height, next, k);
    IncreasingParts(InOrder(left), InOrder(right));
    assert ChildOk(t.children[cut], t.pivots[cut], height);
    CutNotAbove(t, height, next, k, cut);
    hide InOrderAll, ChildOk, Increasing, Shape, Put;
    if next < cut {
      assert forall i | 0 < i < cut :: ChildOk(left.children[i], left.pivots[i], height);
      RightShape(t, height, next, k, cut);
      AboveCut(t, height, next, k, cut);
    } else {
      assert forall i | 0 < i < |right.children| :: ChildOk(right.children[i], right.pivots[i], height);
      LeftShape(t, height, next, k, cut);
      BelowCut(t, height, next, k, cut);
    }
  }

  lemma CutNotAbove(t: Node, height: nat, next: nat, k: Key, cut: nat)
    requires Descending(t, height, next, k) && 0 < cut < |t.pivots|
    ensures next >= cut ==> t.pivots[cut] <= k
  {
    hide InOrderAll, Increasing;
    if cut < next {
      assert ChildOk(t.children[cut], t.pivots[cut], height);
      assert ChildOk(t.children[next], t.pivots[next], height);
      PivotsIncrease(t.children, cut, next);
    }
  }

  lemma InOrderCons(nodes: seq<Node>)
    requires nodes != []
    ensures InOrderAll(nodes) == InOrder(nodes[0]) + InOrderAll(nodes[1..])
  {
  }

  lemma RightShape(t: Node, height: nat, next: nat, k: Key, cut: nat)
    requires Descending(t, height, next, k) && 0 < cut < |t.pivots|
    ensures Shape(RightPart(t, cut), height)
  {
    var right := RightPart(t, cut);
    forall i | 0 <= i < |right.children| ensures ChildOk(right.children[i], right.pivots[i], height) {
      assert ChildOk(t.children[cut + i], t.pivots[cut + i], height);
    }
  }

  lemma LeftShape(t: Node, height: nat, next: nat, k: Key, cut: nat)
    requires Descending(t, height, next, k) && 0 < cut <= next
    ensures Shape(LeftPart(t, cut), height)
  {
    var left := LeftPart(t, cut);
    FirstChild(t, height, next, k);
    forall i | 0 <= i < |left.children| ensures ChildOk(left.children[i], left.pivots[i], height) {
      assert i > 0 ==> ChildOk(t.children[i], t.pivots[i], height);
    }
  }

  lemma AboveCut(t: Node, height: nat, next: nat, k: Key, cut: nat)
    requires Descending(t, height, next, k) && next < cut < |t.pivots|
    ensures AllAbove(InOrder(RightPart(t, cut)), k)
  {
    Surroundings(t, height, next, k);
    var after := t.children[next + 1..];
    assert after == after[..cut - next - 1] + t.children[cut..];
    InOrderConcat(after[..cut - next - 1], t.children[cut..]);
    hide InOrderAll;
    var a := InOrderAll(after[..cut - next - 1]);
    var b := InOrderAll(t.children[cut..]);
    forall i | 0 <= i < |b| ensures k < b[i].key {
      assert (a + b)[|a| + i] == b[i];
    }
  }

  lemma BelowCut(t: Node, height: nat, next: nat, k: Key, cut: nat)
    requires Descending(t, height, next, k) && 0 < cut <= next
    ensures AllBelow(InOrder(LeftPart(t, cut)), k)
  {
    Surroundings(t, height, next, k);
    var before := t.children[..next];
    assert before == t.children[..cut] + before[cut..];
    InOrderConcat(t.children[..cut], before[cut..]);
    hide InOrderAll;
    var a := InOrderAll(t.children[..cut]);
    forall i | 0 <= i < |a| ensures a[i].key < k {
      assert (a + InOrderAll(before[cut..]))[i] == a[i];
    }
  }

  lemma SameInOrder(a: Node, b: Node)
    requires a.Index? && b.Index? && a.children == b.children
    ensures InOrder(a) == InOrder(b)
  {
  }

  /** The insertion below a child that was not split. */
  lemma ChildPut(cfg: DataConfig, parent: Node, height: nat, ci: nat, k: Key, msg: Message, t: Node, t': Node)
    requires Descending(parent, height, ci, k) && height > 1
    requires parent.children[ci].Index? && t.Index? && t.children == parent.children[ci].children
    requires Shape(t', height - 1) && InOrder(t') == Put(cfg, InOrder(t), k, msg)
    ensures var r := WithChild(parent, ci, [parent.pivots[ci]], [t']);
            Shape(r, height) && InOrder(r) == Put(cfg, InOrder(parent), k, msg)
    ensures k in MapOf(InOrder(parent)) <==> k in MapOf(InOrder(t))
  {
    PivotStays(cfg, parent, height, ci, k, msg);
    SameInOrder(t, parent.children[ci]);
    InOrderOne(t');
    assert parent.Index? && |parent.pivots| == |parent.children| && ci < |parent.children|;
    hide MapOf, Put, Increasing, InOrderAll, Descending, Shape;
    ChildReplaced(cfg, parent, height, ci, k, msg, [parent.pivots[ci]], [t']);
  }

  /** The insertion below a child that was cut: its right part becomes a child of the parent, too. */
  lemma PartsPut(cfg: DataConfig, parent: Node, height: nat, ci: nat, k: Key, msg: Message, t: Node, next: nat,
                 cut: nat, left: Node, right: Node)
    requires Descending(parent, height, ci, k) && height > 1
    requires parent.children[ci].Index? && t.Index? && t.children == parent.children[ci].children
    requires Descending(t, height - 1, next, k) && 0 < cut < |t.pivots|
    requires next < cut ==>
      Shape(left, height - 1) && InOrder(left) == Put(cfg, InOrder(LeftPart(t, cut)), k, msg) && right == RightPart(t, cut)
    requires next >= cut ==>
      left == LeftPart(t, cut) && Shape(right, height - 1) && InOrder(right) == Put(cfg, InOrder(RightPart(t, cut)), k, msg)
    ensures var r := WithChild(parent, ci, [parent.pivots[ci], t.pivots[cut]], [left, right]);
            Shape(r, height) && InOrder(r) == Put(cfg, InOrder(parent), k, msg)
    ensures k in MapOf(InOrder(parent))
       <==> k in MapOf(InOrder(if next < cut then LeftPart(t, cut) else RightPart(t, cut)))
  {
    assert parent.Index? && |parent.pivots| == |parent.children| && ci < |parent.children|;
    assert |t.pivots| == |t.children|;
    hide MapOf, Put, Increasing, InOrderAll, Descending, Shape;
    PivotStays(cfg, parent, height, ci, k, msg);
    SameInOrder(t, parent.children[ci]);
    CutChild(t, height - 1, next, k, cut);
    PutFirst(cfg, InOrder(t), k, msg);
    var l, r := LeftPart(t, cut), RightPart(t, cut);
    if next < cut {
      PutBefore(cfg, InOrder(l), InOrder(r), k, msg);
      PutFirst(cfg, InOrder(l), k, msg);
      MapOfPart(t, [], InOrder(l), InOrder(r), k);
    } else {
      PutAfter(cfg, InOrder(l), InOrder(r), k, msg);
      PutFirst(cfg, InOrder(r), k, msg);
      MapOfPart(t, InOrder(l), InOrder(r), [], k);
    }
    InOrderTwo(left, right);
    ChildReplaced(cfg, parent, height, ci, k, msg, [parent.pivots[ci], t.pivots[cut]], [left, right]);
  }

  /** The insertion into a child that is a leaf, which may have been split. */
  lemma LeafPut(cfg: DataConfig, parent: Node, ci: nat, k: Key, msg: Message, left: Run, right: Run)
    requires Descending(parent, 1, ci, k) && parent.children[ci].Leaf?
    requires left != [] && left + right == Put(cfg, parent.children[ci].tuples, k, msg)
    ensures var pivots := if right == [] then [parent.pivots[ci]] else [parent.pivots[ci], right[0].key];
            var nodes := if right == [] then [Leaf(left)] else [Leaf(left), Leaf(right)];
            var r := WithChild(parent, ci, pivots, nodes);
            Shape(r, 1) && InOrder(r) == Put(cfg, InOrder(parent), k, msg)
    ensures k in MapOf(InOrder(parent)) <==> k in MapOf(parent.children[ci].tuples)
  {
    PivotStays(cfg, parent, 1, ci, k, msg);
    assert parent.Index? && |parent.pivots| == |parent.children| && ci < |parent.children|;
    hide MapOf, Put, Increasing, InOrderAll, Descending;
    if right == [] {
      InOrderOne(Leaf(left));
      ChildReplaced(cfg, parent, 1, ci, k, msg, [parent.pivots[ci]], [Leaf(left)]);
    } else {
      InOrderTwo(Leaf(left), Leaf(right));
      ChildReplaced(cfg, parent, 1, ci, k, msg, [parent.pivots[ci], right[0].key], [Leaf(left), Leaf(right)]);
    }
  }

  lemma MapOfPart(t: Node, a: Run, mid: Run, b: Run, k: Key)
    requires Increasing(InOrder(t)) && InOrder(t) == a + mid + b && AllBelow(a, k) && AllAbove(b, k)
    ensures k in MapOf(InOrder(t)) <==> k in MapOf(mid)
  {
    MapWithin(a, mid, b, k);
  }

  lemma GrownDescending(t: Node, height: nat, k: Key, grown: Node)
    requires SearchTree(t, height) && InOrder(t) != []
    requires grown.Index? && |grown.pivots| == 1 && grown.children == [t] && grown.pivots[0] <= k
    requires grown.pivots[0] == InOrder(t)[0].key || grown.pivots[0] == k < InOrder(t)[0].key
    ensures Descending(grown, height + 1, 0, k) && InOrder(grown) == InOrder(t)
  {
    InOrderOne(t);
  }

  /** btree_grow_root: the old root becomes the only child of the new one. */
  lemma GrownRoot(t: Node, height: nat, pivot: Key)
    requires SearchTree(t, height) && InOrder(t) != [] && pivot == InOrder(t)[0].key
    ensures SearchTree(Index([pivot], [t]), height + 1)
    ensures InOrder(Index([pivot], [t])) == InOrder(t)
  {
    InOrderOne(t);
    var r := Index([pivot], [t]);
    assert forall i | 0 <= i < |r.children| :: ChildOk(r.children[i], r.pivots[i], height + 1);
  }
}
