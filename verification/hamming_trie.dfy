/** `BinaryHammingTrie` (webcam_import_app/bl/hamming_trie.py): a binary trie over
    the zero-padded bit strings of non-negative integers, with leaf splitting on
    insert and an exhaustive search that scores every leaf against a query.

    The model follows the code as written: a split leaf's pushed-down child holds
    the incoming item, so the displaced item is dropped; re-inserting a value whose
    whole path already exists stores nothing; the bit width can grow after items
    were placed; and `find` never prunes. */
module HammingTrie {
  import opened Wrappers
  import opened Bits
  import opened Ranking

  /** A stored item together with the integer it was inserted under (`item.value`). */
  datatype Entry<T> = Entry(item: T, value: nat)

  /** `TrieNode`. `Nil` stands for a missing child; `entry` is the node's `item`. */
  datatype Node<T> = Nil | Node(entry: Option<Entry<T>>, left: Node<T>, right: Node<T>)

  /** The trie: its root, the root's `item_bit_length` (shared by every node) and `node_count`. */
  datatype Trie<T> = Trie(root: Node<T>, itemBitLength: nat, nodeCount: nat)

  function Leaf<T>(e: Entry<T>): Node<T> {
    Node(Some(e), Nil, Nil)
  }

  /** `TrieNode.is_leaf`: no child on either side. */
  predicate IsLeaf<T>(n: Node<T>) {
    n.Node? && n.left.Nil? && n.right.Nil?
  }

  /** The child for bit `bit`: `left` holds the 0 branch, `right` the 1 branch. */
  function Child<T>(n: Node<T>, bit: bool): Node<T>
    requires n.Node?
  {
    if bit then n.right else n.left
  }

  function WithChild<T>(n: Node<T>, bit: bool, c: Node<T>): (r: Node<T>)
    requires n.Node?
    ensures r.Node? && r.entry == n.entry
    ensures Child(r, bit) == c && Child(r, !bit) == Child(n, !bit)
  {
    if bit then n.(right := c) else n.(left := c)
  }

  /** Number of nodes in a subtree. */
  function Size<T>(n: Node<T>): nat {
    if n.Nil? then 0 else 1 + Size(n.left) + Size(n.right)
  }

  /** The shape every reachable node keeps, for a node at `depth` (0 is the root)
      of a trie whose `item_bit_length` is `w`: a non-root leaf holds an item whose
      value fits in `w` bits; every other node holds no item, sits above the last
      bit position, and its children satisfy the same at the next depth. */
  predicate NodeOk<T>(n: Node<T>, depth: nat, w: nat)
    decreases n
  {
    && n.Node?
    && depth <= Width(w)
    && if depth > 0 && IsLeaf(n) then
         n.entry.Some? && BitLength(n.entry.value.value) <= w
       else
         && n.entry.None?
         && depth < Width(w)
         && (n.left.Nil? || NodeOk(n.left, depth + 1, w))
         && (n.right.Nil? || NodeOk(n.right, depth + 1, w))
  }

  /** The trie invariant: the shape above, and `node_count` counts every node but the root. */
  predicate Valid<T>(t: Trie<T>) {
    NodeOk(t.root, 0, t.itemBitLength) && t.nodeCount == Size(t.root) - 1
  }

  /** `BinaryHammingTrie()`: a bare root, bit length 0, no counted nodes. */
  function EmptyTrie<T>(): (r: Trie<T>)
    ensures Valid(r)
  {
    Trie(Node(None, Nil, Nil), 0, 0)
  }

  /** A wider bit length keeps every node well shaped. */
  lemma {:induction false} NodeOkWiden<T>(n: Node<T>, depth: nat, w: nat, w': nat)
    requires NodeOk(n, depth, w) && w <= w'
    ensures NodeOk(n, depth, w')
    decreases n
  {
    if !(depth > 0 && IsLeaf(n)) {
      if n.left.Node? {
        NodeOkWiden(n.left, depth + 1, w, w');
      }
      if n.right.Node? {
        NodeOkWiden(n.right, depth + 1, w, w');
      }
    }
  }

  /** The items of the non-root leaves, left subtree before right: `walk`. */
  function LeafEntries<T>(n: Node<T>, depth: nat): seq<Entry<T>>
    decreases n
  {
    if n.Nil? then []
    else if depth > 0 && IsLeaf(n) then (if n.entry.Some? then [n.entry.value] else [])
    else LeafEntries(n.left, depth + 1) + LeafEntries(n.right, depth + 1)
  }

  /** The split branch of `insert`: the leaf gives up its item and gets one child,
      on the side of its own bit at `pos`, which holds the incoming entry `e`. */
  function SplitLeaf<T>(n: Node<T>, pos: nat, e: Entry<T>, w: nat): (r: Node<T>)
    requires NodeOk(n, pos, w) && pos > 0 && IsLeaf(n) && pos < Width(w)
    requires BitLength(e.value) <= w
    ensures NodeOk(r, pos, w)
    ensures Size(r) == Size(n) + 1
    ensures LeafEntries(r, pos) == [e]
  {
    var displaced := n.entry.value.value;
    PaddedLength(displaced, w);
    var side := Padded(displaced, w)[pos];
    var r := WithChild(Node(None, Nil, Nil), side, Leaf(e));
    assert LeafEntries(Leaf(e), pos + 1) == [e];
    r
  }

  /** One pass of the loop of `insert` from iteration `pos` on, at the node `n`
      reached so far (the node at iteration `pos` sits at depth `pos`). Returns the
      new subtree and the number of nodes the pass created. A non-root leaf met
      before the bits run out is split first. */
  function Descend<T>(n: Node<T>, pos: nat, bits: seq<bool>, e: Entry<T>, w: nat): (r: (Node<T>, nat))
    requires NodeOk(n, pos, w) && |bits| == Width(w) && pos <= |bits|
    requires BitLength(e.value) <= w
    ensures NodeOk(r.0, pos, w)
    ensures Size(r.0) == Size(n) + r.1
    ensures r.1 <= |bits| - pos + (if pos > 0 then 1 else 0)
    ensures r.1 == 0 ==> r.0 == n
    decreases |bits| - pos, 1
  {
    if pos == |bits| then (n, 0)
    else if pos > 0 && IsLeaf(n) then
      var sub := Step(SplitLeaf(n, pos, e, w), pos, bits, e, w);
      (sub.0, sub.1 + 1)
    else
      Step(n, pos, bits, e, w)
  }

  /** The bit test of one loop iteration at a node that is not a non-root leaf:
      follow the child for `bits[pos]`, or hang a fresh leaf there and stop. */
  function Step<T>(n: Node<T>, pos: nat, bits: seq<bool>, e: Entry<T>, w: nat): (r: (Node<T>, nat))
    requires NodeOk(n, pos, w) && |bits| == Width(w) && pos < |bits|
    requires !(pos > 0 && IsLeaf(n))
    requires BitLength(e.value) <= w
    ensures NodeOk(r.0, pos, w)
    ensures Size(r.0) == Size(n) + r.1
    ensures r.1 <= |bits| - pos
    ensures r.1 == 0 ==> r.0 == n
    decreases |bits| - pos, 0
  {
    var bit := bits[pos];
    var c := Child(n, bit);
    if c.Node? then
      var sub := Descend(c, pos + 1, bits, e, w);
      (WithChild(n, bit, sub.0), sub.1)
    else
      (WithChild(n, bit, Leaf(e)), 1)
  }

  /** The leaves of a node's subtree are those of its two children, left first. */
  lemma InnerLeafEntries<T>(n: Node<T>, depth: nat, bit: bool)
    requires n.Node? && !(depth > 0 && IsLeaf(n))
    ensures LeafEntries(n, depth) ==
      if bit then LeafEntries(Child(n, !bit), depth + 1) + LeafEntries(Child(n, bit), depth + 1)
      else LeafEntries(Child(n, bit), depth + 1) + LeafEntries(Child(n, !bit), depth + 1)
  {
  }

  /** Every leaf an insert pass leaves behind holds the incoming entry or was
      already there, and the pass adds at most one leaf. */
  lemma {:induction false} DescendEntries<T>(n: Node<T>, pos: nat, bits: seq<bool>, e: Entry<T>, w: nat)
    requires NodeOk(n, pos, w) && |bits| == Width(w) && pos <= |bits|
    requires BitLength(e.value) <= w
    ensures var r := Descend(n, pos, bits, e, w);
      && (r.1 > 0 ==> e in LeafEntries(r.0, pos))
      && (forall x :: x in LeafEntries(r.0, pos) ==> x == e || x in LeafEntries(n, pos))
      && |LeafEntries(r.0, pos)| <= |LeafEntries(n, pos)| + 1
    decreases |bits| - pos, 1
  {
    if pos == |bits| {
    } else if pos > 0 && IsLeaf(n) {
      var n1 := SplitLeaf(n, pos, e, w);
      StepEntries(n1, pos, bits, e, w);
      assert LeafEntries(n, pos) == [n.entry.value];
    } else {
      StepEntries(n, pos, bits, e, w);
    }
  }

  lemma {:induction false} StepEntries<T>(n: Node<T>, pos: nat, bits: seq<bool>, e: Entry<T>, w: nat)
    requires NodeOk(n, pos, w) && |bits| == Width(w) && pos < |bits|
    requires !(pos > 0 && IsLeaf(n))
    requires BitLength(e.value) <= w
    ensures var r := Step(n, pos, bits, e, w);
      && (r.1 > 0 ==> e in LeafEntries(r.0, pos))
      && (forall x :: x in LeafEntries(r.0, pos) ==> x == e || x in LeafEntries(n, pos))
      && |LeafEntries(r.0, pos)| <= |LeafEntries(n, pos)| + 1
    decreases |bits| - pos, 0
  {
    var bit := bits[pos];
    var c := Child(n, bit);
    var r := Step(n, pos, bits, e, w);
    InnerLeafEntries(n, pos, bit);
    InnerLeafEntries(r.0, pos, bit);
    if c.Node? {
      DescendEntries(c, pos + 1, bits, e, w);
    } else {
      assert LeafEntries(Leaf(e), pos + 1) == [e];
    }
  }

  /** `insert(item)`: widen `item_bit_length` to the value's bit length, then walk
      the value's padded bits from the root, splitting any non-root leaf met on the
      way and hanging a fresh leaf where the path runs out. */
  function Insert<T>(t: Trie<T>, item: T, value: nat): (r: Trie<T>)
    requires Valid(t)
    ensures Valid(r)
    ensures r.itemBitLength == Max(t.itemBitLength, BitLength(value))
    ensures r.itemBitLength >= t.itemBitLength
    ensures t.nodeCount <= r.nodeCount <= t.nodeCount + Width(r.itemBitLength)
    ensures r.nodeCount == t.nodeCount ==> r.root == t.root
    ensures r.nodeCount > t.nodeCount ==> Entry(item, value) in LeafEntries(r.root, 0)
    ensures forall x :: x in LeafEntries(r.root, 0) ==> x == Entry(item, value) || x in LeafEntries(t.root, 0)
    ensures |LeafEntries(r.root, 0)| <= |LeafEntries(t.root, 0)| + 1
  {
    var w := Max(t.itemBitLength, BitLength(value));
    NodeOkWiden(t.root, 0, t.itemBitLength, w);
    PaddedLength(value, w);
    var d := Descend(t.root, 0, Padded(value, w), Entry(item, value), w);
    DescendEntries(t.root, 0, Padded(value, w), Entry(item, value), w);
    Trie(d.0, w, t.nodeCount + d.1)
  }

  /** The largest bit length among the entries' values, 0 for none. */
  function MaxBitLength<T>(items: seq<Entry<T>>): nat {
    if |items| == 0 then 0 else Max(BitLength(items[0].value), MaxBitLength(items[1..]))
  }

  /** `extend(items)`: insert each item in order. */
  function Extend<T>(t: Trie<T>, items: seq<Entry<T>>): (r: Trie<T>)
    requires Valid(t)
    ensures Valid(r)
    ensures r.itemBitLength == Max(t.itemBitLength, MaxBitLength(items))
    ensures |LeafEntries(r.root, 0)| <= |LeafEntries(t.root, 0)| + |items|
    ensures forall x :: x in LeafEntries(r.root, 0) ==> x in items || x in LeafEntries(t.root, 0)
    decreases |items|
  {
    if |items| == 0 then t
    else
      var t1 := Insert(t, items[0].item, items[0].value);
      var r := Extend(t1, items[1..]);
      assert forall x :: x in items[1..] ==> x in items;
      r
  }

  /** `BinaryHammingTrie(items)`. */
  function Build<T>(items: seq<Entry<T>>): (r: Trie<T>)
    ensures Valid(r)
    ensures r.itemBitLength == MaxBitLength(items)
  {
    Extend(EmptyTrie(), items)
  }

  /** The recursive `_find`: a non-root leaf adds the mismatches between the query
      and its own padded value from `depth` on; any other node visits both
      children, adding 1 for the child whose bit disagrees with the query's bit at
      `depth`. Nothing is pruned. */
  function Collect<T>(n: Node<T>, depth: nat, q: seq<bool>, cost: nat, tolerance: int, w: nat): (r: seq<Scored<T>>)
    requires NodeOk(n, depth, w) && |q| == Width(w)
    ensures forall i :: 0 <= i < |r| ==> r[i].distance <= tolerance
    decreases n
  {
    if depth > 0 && IsLeaf(n) then
      var e := n.entry.value;
      PaddedLength(e.value, w);
      var c := cost + Mismatches(q[depth..], Padded(e.value, w)[depth..]);
      if c <= tolerance then [Scored(e.item, c)] else []
    else
      (if n.left.Node? then Collect(n.left, depth + 1, q, cost + (if q[depth] then 1 else 0), tolerance, w) else [])
      + (if n.right.Node? then Collect(n.right, depth + 1, q, cost + (if q[depth] then 0 else 1), tolerance, w) else [])
  }

  predicate HasNoLeaf<T>(t: Trie<T>)
    requires t.root.Node?
  {
    t.root.left.Nil? && t.root.right.Nil?
  }

  /** `find(value, tolerance)`: every non-root leaf whose score is within
      `tolerance`, sorted by score. A query with more digits than the stored
      strings makes the leaf loop index past them (`IndexError`) as soon as any
      leaf exists. */
  function Find<T>(t: Trie<T>, query: nat, tolerance: int): (r: Result<seq<Scored<T>>>)
    requires Valid(t)
    ensures r.Failure? <==> BitLength(query) > Width(t.itemBitLength) && !HasNoLeaf(t)
    ensures r.Failure? ==> r.error == IndexError
    ensures r.Success? ==> SortedByDistance(r.value)
    ensures r.Success? ==> forall i :: 0 <= i < |r.value| ==> r.value[i].distance <= tolerance
  {
    var w := t.itemBitLength;
    if BitLength(query) > Width(w) then
      if HasNoLeaf(t) then Success([]) else Failure(IndexError)
    else
      var q := Padded(query, w);
      var found := Collect(t.root, 0, q, 0, tolerance, w);
      var sorted := SortByDistance(found);
      assert forall i :: 0 <= i < |sorted| ==> sorted[i].distance <= tolerance by {
        forall i | 0 <= i < |sorted|
          ensures sorted[i].distance <= tolerance
        {
          assert sorted[i] in multiset(found);
        }
      }
      Success(sorted)
  }

  /** `walk()` / `__iter__`: the items of the non-root leaves in depth-first order. */
  function Walk<T>(t: Trie<T>): seq<T> {
    EntryItems(LeafEntries(t.root, 0))
  }

  function EntryItems<T>(es: seq<Entry<T>>): (r: seq<T>)
    ensures |r| == |es|
    ensures forall i :: 0 <= i < |es| ==> r[i] == es[i].item
  {
    if |es| == 0 then [] else [es[0].item] + EntryItems(es[1..])
  }

  /** `__len__`: the node count, not the number of stored items. */
  function Len<T>(t: Trie<T>): nat {
    t.nodeCount
  }
}

/** Properties of `BinaryHammingTrie`: how `find` scores each leaf, what it returns
    at full tolerance, and concrete tries that show the code's quirks. */
module HammingTrieProperties {
  import opened Wrappers
  import opened Bits
  import opened Ranking
  import opened HammingTrie

  /** A non-root leaf together with the branch bits that lead to it from the root. */
  datatype LeafPath<T> = LeafPath(entry: Entry<T>, path: seq<bool>)

  /** The leaves below `n`, reached by `path`, in depth-first order, left first. */
  function Leaves<T>(n: Node<T>, path: seq<bool>): seq<LeafPath<T>>
    decreases n
  {
    if n.Nil? then []
    else if |path| > 0 && IsLeaf(n) then (if n.entry.Some? then [LeafPath(n.entry.value, path)] else [])
    else Leaves(n.left, path + [false]) + Leaves(n.right, path + [true])
  }

  /** Each leaf sits at most as deep as the padded width and holds a value that fits. */
  predicate LeavesFit<T>(ls: seq<LeafPath<T>>, w: nat) {
    forall i :: 0 <= i < |ls| ==> |ls[i].path| <= Width(w) && BitLength(ls[i].entry.value) <= w
  }

  /** The score of a leaf at depth d = |path|: mismatches of the query against the
      path bits above d, plus mismatches against the leaf's own padded value from d on. */
  function Score<T>(q: seq<bool>, l: LeafPath<T>, w: nat): nat
    requires |q| == Width(w) && |l.path| <= |q| && BitLength(l.entry.value) <= w
  {
    PaddedLength(l.entry.value, w);
    Mismatches(q[..|l.path|], l.path) + Mismatches(q[|l.path|..], Padded(l.entry.value, w)[|l.path|..])
  }

  /** The independent definition of what `_find` collects: the leaves in
      depth-first order whose score is within `tolerance`, each with its score. */
  function Within<T>(ls: seq<LeafPath<T>>, q: seq<bool>, tolerance: int, w: nat): seq<Scored<T>>
    requires |q| == Width(w) && LeavesFit(ls, w)
  {
    if |ls| == 0 then [] else Kept(q, ls[0], tolerance, w) + Within(ls[1..], q, tolerance, w)
  }

  /** The one leaf with its score, or nothing when the score exceeds `tolerance`. */
  function Kept<T>(q: seq<bool>, l: LeafPath<T>, tolerance: int, w: nat): seq<Scored<T>>
    requires |q| == Width(w) && |l.path| <= |q| && BitLength(l.entry.value) <= w
  {
    var s := Score(q, l, w);
    if s <= tolerance then [Scored(l.entry.item, s)] else []
  }

  lemma {:induction false} WithinConcat<T>(a: seq<LeafPath<T>>, b: seq<LeafPath<T>>, q: seq<bool>, tolerance: int, w: nat)
    requires |q| == Width(w) && LeavesFit(a, w) && LeavesFit(b, w)
    ensures LeavesFit(a + b, w)
    ensures Within(a + b, q, tolerance, w) == Within(a, q, tolerance, w) + Within(b, q, tolerance, w)
    decreases |a|
  {
    LeavesFitConcat(a, b, w);
    if |a| > 0 {
      WithinConcat(a[1..], b, q, tolerance, w);
      WithinConcatStep(a, b, q, tolerance, w);
    } else {
      ConcatNil(a, b);
    }
  }

  lemma WithinConcatStep<T>(a: seq<LeafPath<T>>, b: seq<LeafPath<T>>, q: seq<bool>, tolerance: int, w: nat)
    requires |q| == Width(w) && |a| > 0 && LeavesFit(a, w) && LeavesFit(b, w)
    requires LeavesFit(a + b, w) && LeavesFit(a[1..], w) && LeavesFit(a[1..] + b, w)
    requires Within(a[1..] + b, q, tolerance, w) == Within(a[1..], q, tolerance, w) + Within(b, q, tolerance, w)
    ensures Within(a + b, q, tolerance, w) == Within(a, q, tolerance, w) + Within(b, q, tolerance, w)
  {
    var ab := a + b;
    ConcatTail(a, b);
    var h := Kept(q, a[0], tolerance, w);
    assert Within(ab, q, tolerance, w) == h + Within(a[1..] + b, q, tolerance, w);
    assert Within(a, q, tolerance, w) == h + Within(a[1..], q, tolerance, w);
    AppendAssoc(h, Within(a[1..], q, tolerance, w), Within(b, q, tolerance, w));
  }

  lemma ConcatTail<S>(x: seq<S>, y: seq<S>)
    requires |x| > 0
    ensures (x + y)[0] == x[0] && (x + y)[1..] == x[1..] + y
  {
  }

  lemma ConcatNil<S>(x: seq<S>, y: seq<S>)
    requires |x| == 0
    ensures x + y == y
  {
  }

  lemma AppendAssoc<S>(x: seq<S>, y: seq<S>, z: seq<S>)
    ensures x + (y + z) == (x + y) + z
  {
  }

  lemma LeavesFitConcat<T>(a: seq<LeafPath<T>>, b: seq<LeafPath<T>>, w: nat)
    requires LeavesFit(a, w) && LeavesFit(b, w)
    ensures LeavesFit(a + b, w) && (|a| > 0 ==> LeavesFit(a[1..], w))
  {
    var ab := a + b;
    forall i | 0 <= i < |ab|
      ensures |ab[i].path| <= Width(w) && BitLength(ab[i].entry.value) <= w
    {
      if i < |a| {
        assert ab[i] == a[i];
      } else {
        assert ab[i] == b[i - |a|];
      }
    }
  }

  /** Descending one more level adds exactly the mismatch of the branch bit. */
  lemma PathStep(q: seq<bool>, path: seq<bool>, bit: bool)
    requires |path| < |q|
    ensures Mismatches(q[..|path| + 1], path + [bit]) == Mismatches(q[..|path|], path) + (if q[|path|] != bit then 1 else 0)
  {
    assert q[..|path| + 1][..|path|] == q[..|path|];
    assert (path + [bit])[..|path|] == path;
  }

  /** `_find` started at a node reached by `path`, with the path's mismatches as
      its cost, collects exactly the leaves below it that score within tolerance. */
  lemma {:induction false} CollectIsWithin<T>(n: Node<T>, path: seq<bool>, q: seq<bool>, tolerance: int, w: nat)
    requires NodeOk(n, |path|, w) && |q| == Width(w)
    ensures LeavesFit(Leaves(n, path), w)
    ensures Collect(n, |path|, q, Mismatches(q[..|path|], path), tolerance, w) == Within(Leaves(n, path), q, tolerance, w)
    decreases n, 2
  {
    if |path| > 0 && IsLeaf(n) {
      CollectLeaf(n, path, q, tolerance, w);
    } else {
      CollectInner(n, path, q, tolerance, w);
    }
  }

  lemma CollectLeaf<T>(n: Node<T>, path: seq<bool>, q: seq<bool>, tolerance: int, w: nat)
    requires NodeOk(n, |path|, w) && |q| == Width(w) && |path| > 0 && IsLeaf(n)
    ensures LeavesFit(Leaves(n, path), w)
    ensures Collect(n, |path|, q, Mismatches(q[..|path|], path), tolerance, w) == Within(Leaves(n, path), q, tolerance, w)
  {
    var l := LeafPath(n.entry.value, path);
    assert Leaves(n, path) == [l];
    assert [l][1..] == [];
  }

  /** At an inner node the results are the left child's followed by the right child's. */
  lemma {:induction false} CollectInner<T>(n: Node<T>, path: seq<bool>, q: seq<bool>, tolerance: int, w: nat)
    requires NodeOk(n, |path|, w) && |q| == Width(w) && !(|path| > 0 && IsLeaf(n))
    ensures LeavesFit(Leaves(n, path), w)
    ensures Collect(n, |path|, q, Mismatches(q[..|path|], path), tolerance, w) == Within(Leaves(n, path), q, tolerance, w)
    decreases n, 1
  {
    CollectPart(n.left, path, false, q, tolerance, w);
    CollectPart(n.right, path, true, q, tolerance, w);
    CollectUnfold(n, path, q, tolerance, w);
    WithinConcat(Leaves(n.left, path + [false]), Leaves(n.right, path + [true]), q, tolerance, w);
  }

  /** What `_find` collects below a possibly missing child at `depth`. */
  function Part<T>(c: Node<T>, depth: nat, q: seq<bool>, cost: nat, tolerance: int, w: nat): seq<Scored<T>>
    requires (c.Nil? || NodeOk(c, depth, w)) && |q| == Width(w)
  {
    if c.Nil? then [] else Collect(c, depth, q, cost, tolerance, w)
  }

  /** A child entered with the parent's path cost plus the mismatch of its branch bit. */
  lemma {:induction false} CollectPart<T>(c: Node<T>, path: seq<bool>, bit: bool, q: seq<bool>, tolerance: int, w: nat)
    requires (c.Nil? || NodeOk(c, |path| + 1, w)) && |q| == Width(w) && |path| < |q|
    ensures LeavesFit(Leaves(c, path + [bit]), w)
    ensures Part(c, |path| + 1, q, Mismatches(q[..|path|], path) + (if q[|path|] != bit then 1 else 0), tolerance, w)
         == Within(Leaves(c, path + [bit]), q, tolerance, w)
    decreases c, 3
  {
    if c.Node? {
      CollectIsWithin(c, path + [bit], q, tolerance, w);
      PathStep(q, path, bit);
    }
  }

  /** At an inner node `_find` returns the left child's results followed by the
      right child's, and the leaves below it are the left child's followed by the right's. */
  lemma CollectUnfold<T>(n: Node<T>, path: seq<bool>, q: seq<bool>, tolerance: int, w: nat)
    requires NodeOk(n, |path|, w) && |q| == Width(w) && !(|path| > 0 && IsLeaf(n))
    ensures |path| < |q|
    ensures Collect(n, |path|, q, Mismatches(q[..|path|], path), tolerance, w) ==
      Part(n.left, |path| + 1, q, Mismatches(q[..|path|], path) + (if q[|path|] != false then 1 else 0), tolerance, w)
      + Part(n.right, |path| + 1, q, Mismatches(q[..|path|], path) + (if q[|path|] != true then 1 else 0), tolerance, w)
    ensures Leaves(n, path) == Leaves(n.left, path + [false]) + Leaves(n.right, path + [true])
  {
  }

  /** The leaves found by `Leaves` are those `walk` yields. */
  lemma {:induction false} LeavesAreLeafEntries<T>(n: Node<T>, path: seq<bool>)
    ensures |Leaves(n, path)| == |LeafEntries(n, |path|)|
    ensures forall i :: 0 <= i < |Leaves(n, path)| ==> Leaves(n, path)[i].entry == LeafEntries(n, |path|)[i]
    decreases n
  {
    if n.Node? && !(|path| > 0 && IsLeaf(n)) {
      LeavesAreLeafEntries(n.left, path + [false]);
      LeavesAreLeafEntries(n.right, path + [true]);
    }
  }

  /** Every score is at most the padded width. */
  lemma ScoreBound<T>(q: seq<bool>, l: LeafPath<T>, w: nat)
    requires |q| == Width(w) && |l.path| <= |q| && BitLength(l.entry.value) <= w
    ensures Score(q, l, w) <= Width(w)
  {
    PaddedLength(l.entry.value, w);
  }

  /** With a tolerance of at least the padded width every leaf qualifies, once each, in walk order. */
  lemma {:induction false} WithinAll<T>(ls: seq<LeafPath<T>>, q: seq<bool>, tolerance: int, w: nat)
    requires |q| == Width(w) && LeavesFit(ls, w) && tolerance >= Width(w)
    ensures Items(Within(ls, q, tolerance, w)) == EntryItems(LeafEntriesOf(ls))
  {
    if |ls| > 0 {
      ScoreBound(q, ls[0], w);
      WithinAll(ls[1..], q, tolerance, w);
      var s := Score(q, ls[0], w);
      ItemsConcat([Scored(ls[0].entry.item, s)], Within(ls[1..], q, tolerance, w));
      assert LeafEntriesOf(ls) == [ls[0].entry] + LeafEntriesOf(ls[1..]);
      assert EntryItems([ls[0].entry] + LeafEntriesOf(ls[1..])) == [ls[0].entry.item] + EntryItems(LeafEntriesOf(ls[1..]));
    }
  }

  function LeafEntriesOf<T>(ls: seq<LeafPath<T>>): (r: seq<Entry<T>>)
    ensures |r| == |ls|
    ensures forall i :: 0 <= i < |ls| ==> r[i] == ls[i].entry
  {
    if |ls| == 0 then [] else [ls[0].entry] + LeafEntriesOf(ls[1..])
  }

  /** A smaller tolerance yields a sub-multiset of the results. */
  lemma {:induction false} WithinMonotone<T>(ls: seq<LeafPath<T>>, q: seq<bool>, t1: int, t2: int, w: nat)
    requires |q| == Width(w) && LeavesFit(ls, w) && t1 <= t2
    ensures multiset(Within(ls, q, t1, w)) <= multiset(Within(ls, q, t2, w))
  {
    if |ls| > 0 {
      WithinMonotone(ls[1..], q, t1, t2, w);
    }
  }

  /** `find` scores each leaf at depth d by the query's mismatches against the
      branch bits above d plus its mismatches against the leaf's own padded value
      from d on, keeps those within tolerance, and sorts them by score. */
  lemma FindScoresLeaves<T>(t: Trie<T>, query: nat, tolerance: int)
    requires Valid(t) && BitLength(query) <= Width(t.itemBitLength)
    ensures LeavesFit(Leaves(t.root, []), t.itemBitLength)
    ensures Find(t, query, tolerance) ==
      Success(SortByDistance(Within(Leaves(t.root, []), Padded(query, t.itemBitLength), tolerance, t.itemBitLength)))
  {
    var w := t.itemBitLength;
    var q := Padded(query, w);
    PaddedLength(query, w);
    assert q[..0] == [];
    CollectIsWithin(t.root, [], q, tolerance, w);
  }

  /** With a tolerance of at least the padded width `find` returns every stored
      item exactly as often as `walk` yields it. */
  lemma FindAllAtFullTolerance<T>(t: Trie<T>, query: nat, tolerance: int)
    requires Valid(t) && BitLength(query) <= Width(t.itemBitLength) && tolerance >= Width(t.itemBitLength)
    ensures Find(t, query, tolerance).Success?
    ensures multiset(Items(Find(t, query, tolerance).value)) == multiset(Walk(t))
  {
    var w := t.itemBitLength;
    var q := Padded(query, w);
    PaddedLength(query, w);
    FindScoresLeaves(t, query, tolerance);
    var ls := Leaves(t.root, []);
    var found := Within(ls, q, tolerance, w);
    assert Find(t, query, tolerance).value == SortByDistance(found);
    WithinAll(ls, q, tolerance, w);
    SortItems(found);
    LeavesAreLeafEntries(t.root, []);
    assert LeafEntriesOf(ls) == LeafEntries(t.root, 0);
  }

  /** Raising the tolerance never loses a result. */
  lemma FindMonotone<T>(t: Trie<T>, query: nat, t1: int, t2: int)
    requires Valid(t) && t1 <= t2
    ensures Find(t, query, t1).Success? == Find(t, query, t2).Success?
    ensures Find(t, query, t1).Success? ==> multiset(Find(t, query, t1).value) <= multiset(Find(t, query, t2).value)
  {
    if BitLength(query) <= Width(t.itemBitLength) {
      var w := t.itemBitLength;
      var q, ls := Padded(query, w), Leaves(t.root, []);
      PaddedLength(query, w);
      FindScoresLeaves(t, query, t1);
      FindScoresLeaves(t, query, t2);
      var a, b := Within(ls, q, t1, w), Within(ls, q, t2, w);
      WithinMonotone(ls, q, t1, t2, w);
      assert multiset(SortByDistance(a)) == multiset(a);
      assert multiset(SortByDistance(b)) == multiset(b);
    }
  }

  /** A trie without inserts finds nothing, whatever the query: the root leaf is never reported. */
  lemma FindOnEmptyTrie<T>(query: nat, tolerance: int)
    ensures Find(EmptyTrie<T>(), query, tolerance) == Success([])
  {
    var t := EmptyTrie<T>();
    if BitLength(query) <= Width(0) {
      FindScoresLeaves(t, query, tolerance);
      assert Leaves(t.root, []) == [];
    }
  }

  /** `walk` yields at most `__len__` items: only non-root nodes are counted, and
      every yielded item sits in its own non-root leaf. */
  lemma WalkWithinLen<T>(t: Trie<T>)
    requires Valid(t)
    ensures Len(t) == Size(t.root) - 1
    ensures |Walk(t)| <= Len(t)
  {
    LeafCountBound(t.root, 0);
  }

  lemma {:induction false} LeafCountBound<T>(n: Node<T>, depth: nat)
    requires n.Node?
    ensures |LeafEntries(n, depth)| <= Size(n) - (if depth == 0 then 1 else 0)
    decreases n
  {
    if !(depth > 0 && IsLeaf(n)) {
      if n.left.Node? {
        LeafCountBound(n.left, depth + 1);
      }
      if n.right.Node? {
        LeafCountBound(n.right, depth + 1);
      }
    }
  }

  /** The path of `bits` already exists from `n` down to the last bit. */
  predicate FullPath<T>(n: Node<T>, pos: nat, bits: seq<bool>)
    requires n.Node? && pos <= |bits|
    decreases |bits| - pos
  {
    pos == |bits|
    || (&& !(pos > 0 && IsLeaf(n))
        && Child(n, bits[pos]).Node?
        && FullPath(Child(n, bits[pos]), pos + 1, bits))
  }

  lemma {:induction false} DescendAlongFullPath<T>(n: Node<T>, pos: nat, bits: seq<bool>, e: Entry<T>, w: nat)
    requires NodeOk(n, pos, w) && |bits| == Width(w) && pos <= |bits| && BitLength(e.value) <= w
    requires FullPath(n, pos, bits)
    ensures Descend(n, pos, bits, e, w) == (n, 0)
    decreases |bits| - pos
  {
    if pos < |bits| {
      var c := Child(n, bits[pos]);
      DescendAlongFullPath(c, pos + 1, bits, e, w);
      assert WithChild(n, bits[pos], c) == n;
    }
  }

  /** Re-inserting a value whose whole padded path already exists stores nothing:
      the trie, its node count and its bit length stay as they were. */
  lemma InsertOnFullPathStoresNothing<T>(t: Trie<T>, item: T, value: nat)
    requires Valid(t) && BitLength(value) <= t.itemBitLength
    requires |Padded(value, t.itemBitLength)| == Width(t.itemBitLength)
    requires FullPath(t.root, 0, Padded(value, t.itemBitLength))
    ensures Insert(t, item, value) == t
  {
    DescendAlongFullPath(t.root, 0, Padded(value, t.itemBitLength), Entry(item, value), t.itemBitLength);
  }

  lemma SmallPaddings()
    ensures BitLength(3) == 2 && BitLength(2) == 2
    ensures Padded(3, 2) == [true, true] && Padded(2, 2) == [true, false]
  {
    assert BitLength(1) == 1;
    assert LowBits(3, 2) == [true, true];
    assert LowBits(2, 2) == [true, false];
  }

  /** Inserting 3 into an empty trie hangs one leaf on the root's 1 side. */
  lemma InsertThree()
    ensures Insert(EmptyTrie<string>(), "three", 3) == Trie(Node(None, Nil, Leaf(Entry("three", 3))), 2, 1)
  {
    SmallPaddings();
    var root0: Node<string> := Node(None, Nil, Nil);
    assert Step(root0, 0, [true, true], Entry("three", 3), 2) == (Node(None, Nil, Leaf(Entry("three", 3))), 1);
  }

  /** Inserting 2 next splits the leaf of 3 at depth 1; both new leaves hold 2. */
  lemma InsertTwoAfterThree()
    ensures var leaf2 := Leaf(Entry("two", 2));
      Insert(Trie(Node(None, Nil, Leaf(Entry("three", 3))), 2, 1), "two", 2)
        == Trie(Node(None, Nil, Node(None, leaf2, leaf2)), 2, 3)
  {
    SmallPaddings();
    var e2 := Entry("two", 2);
    var leaf3, leaf2 := Leaf(Entry("three", 3)), Leaf(e2);
    var split := SplitLeaf(leaf3, 1, e2, 2);
    assert split == Node(None, Nil, leaf2);
    assert Step(split, 1, [true, false], e2, 2) == (Node(None, leaf2, leaf2), 1);
    assert Descend(leaf3, 1, [true, false], e2, 2) == (Node(None, leaf2, leaf2), 2);
    assert Step(Node(None, Nil, leaf3), 0, [true, false], e2, 2) == (Node(None, Nil, Node(None, leaf2, leaf2)), 2);
  }

  /** Inserting 3 (0b11) and then 2 (0b10): the leaf holding 3 is split, both new
      leaves hold 2, and 3 is gone. Three nodes are counted for two stored items. */
  lemma DisplacedItemIsDropped(t1: Trie<string>, t2: Trie<string>)
    requires t1 == Insert(EmptyTrie(), "three", 3) && t2 == Insert(t1, "two", 2)
    ensures Walk(t2) == ["two", "two"]
    ensures Len(t2) == 3
  {
    InsertThreeThenTwo(t1, t2);
    WalkOfSplitPair(t2);
  }

  lemma InsertThreeThenTwo(t1: Trie<string>, t2: Trie<string>)
    requires t1 == Insert(EmptyTrie(), "three", 3) && t2 == Insert(t1, "two", 2)
    ensures t2 == Trie(Node(None, Nil, Node(None, Leaf(Entry("two", 2)), Leaf(Entry("two", 2)))), 2, 3)
  {
    InsertThree();
    InsertTwoAfterThree();
  }

  lemma WalkOfSplitPair(t: Trie<string>)
    requires t == Trie(Node(None, Nil, Node(None, Leaf(Entry("two", 2)), Leaf(Entry("two", 2)))), 2, 3)
    ensures Walk(t) == ["two", "two"]
  {
    var e2 := Entry("two", 2);
    assert LeafEntries(t.root, 0) == [e2, e2];
    assert EntryItems([e2, e2]) == ["two", "two"];
  }

  /** The trie that inserting 3 and then 2 leaves behind, with any item under 2:
      a query for 2 finds the item twice, once on each leaf of the split pair,
      at distances 0 and 1. */
  lemma FindOnSplitPair<T>(x: T)
    ensures var t := Trie(Node(None, Nil, Node(None, Leaf(Entry(x, 2)), Leaf(Entry(x, 2)))), 2, 3);
            Valid(t) && Find(t, 2, 2) == Success([Scored(x, 0), Scored(x, 1)])
  {
    SmallPaddings();
    var leaf := Leaf(Entry(x, 2));
    var inner := Node(None, leaf, leaf);
    var t := Trie(Node(None, Nil, inner), 2, 3);
    assert NodeOk(leaf, 2, 2);
    assert NodeOk(inner, 1, 2);
    assert NodeOk(t.root, 0, 2);
    assert Size(leaf) == 1 by {
      assert Size<T>(Nil) == 0;
    }
    assert Size(inner) == 3;
    var q := Padded(2, 2);
    assert Collect(leaf, 2, q, 0, 2, 2) == [Scored(x, 0)];
    assert Collect(leaf, 2, q, 1, 2, 2) == [Scored(x, 1)];
    assert Collect(inner, 1, q, 0, 2, 2) == [Scored(x, 0), Scored(x, 1)];
    assert Collect(t.root, 0, q, 0, 2, 2) == [Scored(x, 0), Scored(x, 1)];
    assert SortByDistance([Scored(x, 1)]) == [Scored(x, 1)];
    assert SortByDistance([Scored(x, 0), Scored(x, 1)]) == [Scored(x, 0), Scored(x, 1)];
  }

  /** A trie holding only 0 keeps `item_bit_length` 0, so its strings have one
      digit and a query with five bits set indexes past them. */
  lemma LongQueryOnNarrowTrieFails()
    ensures Find(Insert(EmptyTrie<string>(), "zero", 0), 31, 10) == Failure(IndexError)
  {
    var t := Insert(EmptyTrie<string>(), "zero", 0);
    InsertZero();
    assert !HasNoLeaf(t);
    assert BitLength(31) > Width(t.itemBitLength) by {
      BitLengthOf31();
    }
  }

  /** Inserting 0 into an empty trie hangs one leaf on the root's 0 side. */
  lemma InsertZero()
    ensures Insert(EmptyTrie<string>(), "zero", 0) == Trie(Node(None, Leaf(Entry("zero", 0)), Nil), 0, 1)
  {
    assert Padded(0, 0) == [false];
    var root0: Node<string> := Node(None, Nil, Nil);
    assert Step(root0, 0, [false], Entry("zero", 0), 0) == (Node(None, Leaf(Entry("zero", 0)), Nil), 1);
  }

  lemma BitLengthOf31()
    ensures BitLength(31) == 5
  {
    assert BitLength(1) == 1;
    assert BitLength(3) == 2;
    assert BitLength(7) == 3;
  }
}
