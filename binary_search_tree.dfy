/** `BinarySearchTree<T>`: an unbalanced binary search tree whose nodes own their
    children and point back at their parent. Equal keys go to the right subtree.

    The tree is held as a value. A node pointer is the path of left/right steps from
    the root to that node (`None` is `nullptr`), so a node's parent is the path
    without its last step. Writing a child pointer rebuilds the spine down to it. The
    source is a template; the model fixes `T = int`. */
module BinarySearchTree {
  import opened Common

  datatype Tree = Leaf | Node(left: Tree, key: int, right: Tree)

  datatype Dir = Left | Right

  type Path = seq<Dir>

  /** The keys in left-to-right (ascending) order. */
  function InOrder(t: Tree): seq<int> {
    match t
    case Leaf => []
    case Node(l, k, r) => InOrder(l) + [k] + InOrder(r)
  }

  /** The stored keys, with their multiplicities. */
  function Keys(t: Tree): multiset<int> {
    match t
    case Leaf => multiset{}
    case Node(l, k, r) => Keys(l) + multiset{k} + Keys(r)
  }

  /** The ordering invariant: left keys are smaller than the node key, right keys are
      at least the node key. */
  ghost predicate Ordered(t: Tree) {
    match t
    case Leaf => true
    case Node(l, k, r) =>
      && Ordered(l) && Ordered(r)
      && (forall x :: x in Keys(l) ==> x < k)
      && (forall x :: x in Keys(r) ==> k <= x)
  }

  ghost predicate SortedKeys(s: seq<int>) {
    forall i, j :: 0 <= i < j < |s| ==> s[i] <= s[j]
  }

  /** The child in direction `d`; a null pointer has no children. */
  function Child(t: Tree, d: Dir): Tree {
    match t
    case Leaf => Leaf
    case Node(l, _, r) => if d == Left then l else r
  }

  /** The subtree a path leads to (`Leaf` once it leaves the tree). */
  function Subtree(t: Tree, p: Path): Tree
    decreases |p|
  {
    if p == [] then t else Subtree(Child(t, p[0]), p[1..])
  }

  /** `t` with its child in direction `d` replaced by `c`. */
  function SetChild(t: Tree, d: Dir, c: Tree): Tree {
    match t
    case Leaf => Leaf
    case Node(l, k, r) => if d == Left then Node(c, k, r) else Node(l, k, c)
  }

  /** `t` with the subtree at `p` replaced by `s`. */
  function Graft(t: Tree, p: Path, s: Tree): Tree
    decreases |p|
  {
    if p == [] then s
    else match t
      case Leaf => Leaf
      case Node(l, k, r) =>
        if p[0] == Left then Node(Graft(l, p[1..], s), k, r) else Node(l, k, Graft(r, p[1..], s))
  }

  /** The reference insertion: descend left when the key is smaller, right otherwise,
      and hang a new leaf node where the descent falls off. */
  function TreeInsert(t: Tree, key: int): Tree {
    match t
    case Leaf => Node(Leaf, key, Leaf)
    case Node(l, k, r) =>
      if key < k then Node(TreeInsert(l, key), k, r) else Node(l, k, TreeInsert(r, key))
  }

  /** Where the subtree at `p` starts in `InOrder(t)`. */
  function Offset(t: Tree, p: Path): nat
    decreases |p|
  {
    if p == [] then 0
    else match t
      case Leaf => 0
      case Node(l, _, r) =>
        if p[0] == Left then Offset(l, p[1..]) else |InOrder(l)| + 1 + Offset(r, p[1..])
  }

  /** The position of the node at `p` in `InOrder(t)`. */
  ghost function Rank(t: Tree, p: Path): nat
    requires Subtree(t, p).Node?
  {
    Offset(t, p) + |InOrder(Subtree(t, p).left)|
  }

  // ---- Facts about the tree functions --------------------------------------------

  lemma {:induction false} KeysAreInOrder(t: Tree)
    ensures multiset(InOrder(t)) == Keys(t)
  {
    match t
    case Leaf =>
    case Node(l, k, r) =>
      KeysAreInOrder(l);
      KeysAreInOrder(r);
  }

  /** A sorted walk, a key above all of it, and a sorted walk not below the key
      concatenate to a sorted walk. */
  lemma SortedAroundKey(a: seq<int>, k: int, b: seq<int>)
    requires SortedKeys(a) && SortedKeys(b)
    requires forall i :: 0 <= i < |a| ==> a[i] < k
    requires forall j :: 0 <= j < |b| ==> k <= b[j]
    ensures SortedKeys(a + [k] + b)
  {
    var s := a + [k] + b;
    forall i, j | 0 <= i < j < |s|
      ensures s[i] <= s[j]
    {
      if j < |a| {
        assert s[i] == a[i] && s[j] == a[j];
      } else if j == |a| {
        assert s[i] == a[i];
      } else if i < |a| {
        assert s[i] == a[i] && s[j] == b[j - |a| - 1];
      } else if i == |a| {
        assert s[j] == b[j - |a| - 1];
      } else {
        assert s[i] == b[i - |a| - 1] && s[j] == b[j - |a| - 1];
      }
    }
  }

  /** The in-order walk of an ordered tree is sorted. */
  lemma {:induction false} OrderedInOrderSorted(t: Tree)
    requires Ordered(t)
    ensures SortedKeys(InOrder(t))
  {
    match t
    case Leaf =>
    case Node(l, k, r) =>
      OrderedInOrderSorted(l);
      OrderedInOrderSorted(r);
      var a, b := InOrder(l), InOrder(r);
      KeysAreInOrder(l);
      KeysAreInOrder(r);
      forall i | 0 <= i < |a|
        ensures a[i] < k
      {
        assert a[i] in multiset(a);
      }
      forall j | 0 <= j < |b|
        ensures k <= b[j]
      {
        assert b[j] in multiset(b);
      }
      SortedAroundKey(a, k, b);
  }

  /** Insertion adds exactly one occurrence of the key. */
  lemma {:induction false} InsertAddsKey(t: Tree, key: int)
    ensures Keys(TreeInsert(t, key)) == Keys(t) + multiset{key}
  {
    match t
    case Leaf =>
    case Node(l, k, r) =>
      if key < k {
        InsertAddsKey(l, key);
      } else {
        InsertAddsKey(r, key);
      }
  }

  /** Insertion keeps the ordering invariant, and so places duplicates on the right. */
  lemma {:induction false} InsertKeepsOrder(t: Tree, key: int)
    requires Ordered(t)
    ensures Ordered(TreeInsert(t, key))
  {
    match t
    case Leaf =>
    case Node(l, k, r) =>
      if key < k {
        var l' := TreeInsert(l, key);
        InsertKeepsOrder(l, key);
        InsertAddsKey(l, key);
        forall x | x in Keys(l')
          ensures x < k
        {
          assert x in Keys(l) + multiset{key};
        }
        assert TreeInsert(t, key) == Node(l', k, r);
      } else {
        var r' := TreeInsert(r, key);
        InsertKeepsOrder(r, key);
        InsertAddsKey(r, key);
        forall x | x in Keys(r')
          ensures k <= x
        {
          assert x in Keys(r) + multiset{key};
        }
        assert TreeInsert(t, key) == Node(l, k, r');
      }
  }

  lemma {:induction false} SubtreeAppend(t: Tree, p: Path, d: Dir)
    ensures Subtree(t, p + [d]) == Child(Subtree(t, p), d)
    decreases |p|
  {
    if p == [] {
      assert Subtree(t, [d]) == Subtree(Child(t, d), []);
    } else {
      assert (p + [d])[0] == p[0] && (p + [d])[1..] == p[1..] + [d];
      SubtreeAppend(Child(t, p[0]), p[1..], d);
    }
  }

  lemma {:induction false} OrderedSubtree(t: Tree, p: Path)
    requires Ordered(t)
    ensures Ordered(Subtree(t, p))
    decreases |p|
  {
    if p != [] {
      OrderedSubtree(Child(t, p[0]), p[1..]);
    }
  }

  lemma {:induction false} GraftAppend(t: Tree, p: Path, d: Dir, s: Tree)
    requires Subtree(t, p).Node?
    ensures Graft(t, p + [d], s) == Graft(t, p, SetChild(Subtree(t, p), d, s))
    decreases |p|
  {
    if p == [] {
      assert (p + [d])[1..] == [];
    } else {
      assert (p + [d])[0] == p[0] && (p + [d])[1..] == p[1..] + [d];
      GraftAppend(Child(t, p[0]), p[1..], d, s);
    }
  }

  lemma {:induction false} OffsetAppend(t: Tree, p: Path, d: Dir)
    requires Subtree(t, p).Node?
    ensures Offset(t, p + [d]) ==
      Offset(t, p) + (if d == Left then 0 else |InOrder(Subtree(t, p).left)| + 1)
    decreases |p|
  {
    if p == [] {
      assert (p + [d])[1..] == [];
    } else {
      assert (p + [d])[0] == p[0] && (p + [d])[1..] == p[1..] + [d];
      OffsetAppend(Child(t, p[0]), p[1..], d);
    }
  }

  lemma {:induction false} SubtreeOfLeaf(p: Path)
    ensures Subtree(Leaf, p) == Leaf
    decreases |p|
  {
    if p != [] {
      SubtreeOfLeaf(p[1..]);
    }
  }

  /** The subtree at `p` occupies a contiguous slice of the in-order walk. */
  lemma {:induction false} Span(t: Tree, p: Path)
    ensures Offset(t, p) + |InOrder(Subtree(t, p))| <= |InOrder(t)|
    ensures InOrder(t)[Offset(t, p)..Offset(t, p) + |InOrder(Subtree(t, p))|] == InOrder(Subtree(t, p))
    decreases |p|
  {
    if p != [] && t.Leaf? {
      SubtreeOfLeaf(p);
    } else if p != [] {
      var l, k, r := t.left, t.key, t.right;
      var q := p[1..];
      assert InOrder(t) == InOrder(l) + [k] + InOrder(r);
      if p[0] == Left {
        Span(l, q);
        assert InOrder(t)[..|InOrder(l)|] == InOrder(l);
      } else {
        Span(r, q);
        assert InOrder(t)[|InOrder(l)| + 1..] == InOrder(r);
      }
    }
  }

  /** The node at `p` holds the key at position `Rank(t, p)` of the in-order walk. */
  lemma KeyAtRank(t: Tree, p: Path)
    requires Subtree(t, p).Node?
    ensures Rank(t, p) < |InOrder(t)|
    ensures InOrder(t)[Rank(t, p)] == Subtree(t, p).key
  {
    Span(t, p);
    var s := Subtree(t, p);
    assert InOrder(s) == InOrder(s.left) + [s.key] + InOrder(s.right);
    assert InOrder(s)[|InOrder(s.left)|] == s.key;
  }

  /** The first key of a sorted walk is the minimum of the keys, the last the maximum. */
  lemma SortedEnds(t: Tree)
    requires SortedKeys(InOrder(t)) && t.Node?
    ensures forall x :: x in Keys(t) ==> InOrder(t)[0] <= x <= InOrder(t)[|InOrder(t)| - 1]
  {
    var s := InOrder(t);
    assert |s| > 0 by {
      assert s == InOrder(t.left) + [t.key] + InOrder(t.right);
    }
    KeysAreInOrder(t);
    forall x | x in Keys(t)
      ensures s[0] <= x <= s[|s| - 1]
    {
      assert x in multiset(s);
      var i :| 0 <= i < |s| && s[i] == x;
      if 0 < i {
        assert s[0] <= s[i];
      }
      if i < |s| - 1 {
        assert s[i] <= s[|s| - 1];
      }
    }
  }

  /** The node at the first position of the walk of an ordered tree holds its least key. */
  lemma FirstRank(t: Tree, p: Path)
    requires Ordered(t) && Subtree(t, p).Node? && Rank(t, p) == 0
    ensures Subtree(t, p).key in Keys(t) && forall x :: x in Keys(t) ==> Subtree(t, p).key <= x
    ensures Subtree(t, p).key == InOrder(t)[0]
  {
    KeyAtRank(t, p);
    OrderedInOrderSorted(t);
    SortedEnds(t);
    KeysAreInOrder(t);
    assert InOrder(t)[0] in multiset(InOrder(t));
  }

  /** The node at the last position of the walk of an ordered tree holds its greatest key. */
  lemma LastRank(t: Tree, p: Path)
    requires Ordered(t) && Subtree(t, p).Node? && Rank(t, p) + 1 == |InOrder(t)|
    ensures Subtree(t, p).key in Keys(t) && forall x :: x in Keys(t) ==> x <= Subtree(t, p).key
    ensures Subtree(t, p).key == InOrder(t)[|InOrder(t)| - 1]
  {
    var s, key := InOrder(t), Subtree(t, p).key;
    KeyAtRank(t, p);
    assert s[|s| - 1] == key;
    OrderedInOrderSorted(t);
    SortedEnds(t);
    KeysAreInOrder(t);
    assert key in multiset(s);
    forall x | x in Keys(t)
      ensures x <= key
    {
      assert x <= s[|s| - 1];
    }
  }

  class BinarySearchTree {
    var root: Tree

    ghost predicate Valid()
      reads this
    {
      Ordered(root)
    }

    /** The default constructor: an empty tree. */
    constructor ()
      ensures Valid() && root == Leaf
    {
      root := Leaf;
    }

    /** The copy constructor: `CloneTree(other.root)`. */
    constructor Copy(other: BinarySearchTree)
      requires other.Valid()
      ensures Valid() && root == other.root
    {
      root := CloneTree(other.root);
    }

    /** The move constructor: takes the other tree's nodes and leaves it empty. */
    constructor Move(other: BinarySearchTree)
      requires other.Valid()
      modifies other
      ensures Valid() && root == old(other.root) && other.root == Leaf
    {
      root := other.root;
      new;
      other.root := Leaf;
    }

    /** The pointer to the root node. */
    function RootPtr(): (r: Option<Path>)
      reads this
      ensures r.Some? <==> root.Node?
      ensures r.Some? ==> r.value == [] && Subtree(root, r.value).Node?
    {
      if root.Node? then Some([]) else None
    }

    /** `node->left.get()` or `node->right.get()`. */
    function ChildPtr(p: Path, d: Dir): (r: Option<Path>)
      reads this
      ensures r.Some? <==> Subtree(root, p + [d]).Node?
      ensures r.Some? ==> r.value == p + [d]
    {
      if Subtree(root, p + [d]).Node? then Some(p + [d]) else None
    }

    /** `node->parent`. */
    function ParentPtr(p: Path): (r: Option<Path>)
      ensures r.None? <==> p == []
      ensures r.Some? ==> p == r.value + [p[|p| - 1]]
    {
      if p == [] then None else Some(p[..|p| - 1])
    }

    /** Walks left from `node`: the result is the first node of `node`'s subtree in
        order (null for a null pointer). */
    method MinNode(node: Option<Path>) returns (r: Option<Path>)
      requires node.Some? ==> Subtree(root, node.value).Node?
      ensures r.Some? <==> node.Some?
      ensures r.Some? ==> Subtree(root, r.value).Node? && Subtree(root, r.value).left == Leaf
      ensures r.Some? ==> Rank(root, r.value) == Offset(root, node.value)
    {
      if node.None? {
        return node;
      }
      var p := node.value;
      while ChildPtr(p, Left).Some?
        invariant Subtree(root, p).Node? && Offset(root, p) == Offset(root, node.value)
        decreases Subtree(root, p)
      {
        SubtreeAppend(root, p, Left);
        OffsetAppend(root, p, Left);
        p := p + [Left];
      }
      SubtreeAppend(root, p, Left);
      r := Some(p);
    }

    /** Walks right from `node`: the result is the last node of `node`'s subtree in
        order (null for a null pointer). */
    method MaxNode(node: Option<Path>) returns (r: Option<Path>)
      requires node.Some? ==> Subtree(root, node.value).Node?
      ensures r.Some? <==> node.Some?
      ensures r.Some? ==> Subtree(root, r.value).Node? && Subtree(root, r.value).right == Leaf
      ensures r.Some? ==>
        Rank(root, r.value) + 1 == Offset(root, node.value) + |InOrder(Subtree(root, node.value))|
    {
      if node.None? {
        return node;
      }
      var p := node.value;
      while ChildPtr(p, Right).Some?
        invariant Subtree(root, p).Node?
        invariant Offset(root, p) + |InOrder(Subtree(root, p))| ==
          Offset(root, node.value) + |InOrder(Subtree(root, node.value))|
        decreases Subtree(root, p)
      {
        SubtreeAppend(root, p, Right);
        OffsetAppend(root, p, Right);
        p := p + [Right];
      }
      SubtreeAppend(root, p, Right);
      r := Some(p);
    }

    /** The in-order successor: the leftmost node of the right subtree when there is
        one, otherwise the nearest ancestor reached from its left. Null exactly when
        `node` holds the last key in order. */
    method SuccNode(node: Option<Path>) returns (r: Option<Path>)
      requires node.Some? ==> Subtree(root, node.value).Node?
      ensures node.None? ==> r.None?
      ensures node.Some? ==> (r.None? <==> Rank(root, node.value) == |InOrder(root)| - 1)
      ensures r.Some? ==> Subtree(root, r.value).Node?
      ensures r.Some? ==> Rank(root, r.value) == Rank(root, node.value) + 1
    {
      if node.None? {
        return node;
      }
      var n := node.value;
      if ChildPtr(n, Right).Some? {
        SubtreeAppend(root, n, Right);
        OffsetAppend(root, n, Right);
        r := MinNode(ChildPtr(n, Right));
        KeyAtRank(root, r.value);
        return;
      }
      SubtreeAppend(root, n, Right);
      ghost var last := Rank(root, n);
      var succ := ParentPtr(n);
      while succ.Some? && n == succ.value + [Right]
        invariant Subtree(root, n).Node? && succ == ParentPtr(n)
        invariant Offset(root, n) + |InOrder(Subtree(root, n))| == last + 1
        decreases |n|
      {
        var s := succ.value;
        SubtreeAppend(root, s, Right);
        OffsetAppend(root, s, Right);
        n := s;
        succ := ParentPtr(n);
      }
      if succ.Some? {
        var s := succ.value;
        assert n == s + [n[|n| - 1]] && n[|n| - 1] != Right;
        assert n == s + [Left];
        SubtreeAppend(root, s, Left);
        OffsetAppend(root, s, Left);
        KeyAtRank(root, s);
      }
      r := succ;
    }

    /** The keys visited by `MinNode` then `SuccNode` until null: the whole walk, in
        order, duplicates included. */
    method InOrderPrint() returns (keys: seq<int>)
      ensures keys == InOrder(root)
    {
      var node := MinNode(RootPtr());
      keys := [];
      while node.Some?
        invariant node.Some? ==> Subtree(root, node.value).Node? && Rank(root, node.value) == |keys|
        invariant |keys| <= |InOrder(root)| && keys == InOrder(root)[..|keys|]
        invariant node.None? ==> |keys| == |InOrder(root)|
        decreases |InOrder(root)| - |keys|
      {
        KeyAtRank(root, node.value);
        keys := keys + [Subtree(root, node.value).key];
        node := SuccNode(node);
      }
    }

    /** The smallest key, or nullopt on an empty tree. */
    method Min() returns (r: Option<int>)
      requires Valid()
      ensures r.None? <==> root == Leaf
      ensures r.Some? ==> r.value in Keys(root) && forall x :: x in Keys(root) ==> r.value <= x
      ensures r.Some? ==> r.value == InOrder(root)[0]
    {
      var node := MinNode(RootPtr());
      if node.None? {
        return None;
      }
      assert Offset(root, []) == 0;
      FirstRank(root, node.value);
      r := Some(Subtree(root, node.value).key);
    }

    /** The largest key, or nullopt on an empty tree. */
    method Max() returns (r: Option<int>)
      requires Valid()
      ensures r.None? <==> root == Leaf
      ensures r.Some? ==> r.value in Keys(root) && forall x :: x in Keys(root) ==> x <= r.value
      ensures r.Some? ==> r.value == InOrder(root)[|InOrder(root)| - 1]
    {
      var node := MaxNode(RootPtr());
      if node.None? {
        return None;
      }
      assert Offset(root, []) == 0;
      LastRank(root, node.value);
      r := Some(Subtree(root, node.value).key);
    }

    /** Descends as `Insert` would; true iff the key is stored. */
    method Search(key: int) returns (found: bool)
      requires Valid()
      ensures found <==> key in Keys(root)
    {
      var node := RootPtr();
      while node.Some?
        invariant node.Some? ==> Subtree(root, node.value).Node? && Ordered(Subtree(root, node.value))
        invariant key in Keys(root) <==> node.Some? && key in Keys(Subtree(root, node.value))
        decreases if node.Some? then Subtree(root, node.value) else Leaf
      {
        var p := node.value;
        OrderedSubtree(root, p);
        var k := Subtree(root, p).key;
        if k == key {
          return true;
        }
        var d := if key < k then Left else Right;
        SubtreeAppend(root, p, d);
        node := ChildPtr(p, d);
      }
      found := false;
    }

    /** Descends to a null child, going left when the key is smaller than the node's, and
        attaches a new node there: the reference insertion. */
    method Insert(key: int)
      requires Valid()
      modifies this
      ensures Valid() && root == TreeInsert(old(root), key)
    {
      var current := RootPtr();
      var parent: Option<Path> := None;
      ghost var cur: Path := [];
      while current.Some?
        invariant root == old(root)
        invariant current.Some? ==> current.value == cur && Subtree(root, cur).Node?
        invariant current.None? ==> Subtree(root, cur) == Leaf
        invariant parent.None? ==> cur == []
        invariant parent.Some? ==>
          && Subtree(root, parent.value).Node?
          && cur == parent.value + [if key < Subtree(root, parent.value).key then Left else Right]
        invariant TreeInsert(root, key) == Graft(root, cur, TreeInsert(Subtree(root, cur), key))
        decreases Subtree(root, cur)
      {
        parent := current;
        var d := if key < Subtree(root, current.value).key then Left else Right;
        SubtreeAppend(root, cur, d);
        GraftAppend(root, cur, d, TreeInsert(Subtree(root, cur + [d]), key));
        current := ChildPtr(current.value, d);
        cur := cur + [d];
      }
      InsertKeepsOrder(root, key);
      var newNode := Node(Leaf, key, Leaf);
      if parent.None? {
        root := newNode;
      } else {
        var p := parent.value;
        if key < Subtree(root, p).key {
          root := Graft(root, p + [Left], newNode);
        } else {
          root := Graft(root, p + [Right], newNode);
        }
      }
    }
  }

  /** `CloneTree`: a node-by-node copy with the same keys in the same shape. */
  function {:induction false} CloneTree(t: Tree): (r: Tree)
    ensures r == t
  {
    match t
    case Leaf => Leaf
    case Node(l, k, r) => Node(CloneTree(l), k, CloneTree(r))
  }

  /** The friend `swap`: exchanges the two roots. */
  method SwapTrees(a: BinarySearchTree, b: BinarySearchTree)
    modifies a, b
    ensures a.root == old(b.root) && b.root == old(a.root)
  {
    a.root, b.root := b.root, a.root;
  }

  /** Copy assignment: copy-and-swap, a no-op on self-assignment. The source keeps its
      tree. */
  method AssignCopy(target: BinarySearchTree, other: BinarySearchTree)
    requires other.Valid()
    modifies target
    ensures target.Valid() && target.root == other.root && other.root == old(other.root)
  {
    if target == other {
      return;
    }
    var temp := new BinarySearchTree.Copy(other);
    SwapTrees(target, temp);
  }

  /** Move assignment: swaps with the other tree unless it is the same object. */
  method AssignMove(target: BinarySearchTree, other: BinarySearchTree)
    requires target.Valid() && other.Valid()
    modifies target, other
    ensures target.Valid() && other.Valid() && target.root == old(other.root)
    ensures target != other ==> other.root == old(target.root)
  {
    if target != other {
      SwapTrees(target, other);
    }
  }

  /** The tree `main` builds from the inserts 5, 1, 2, 8, 3, -1, 7, 5, 3, 2: the
      repeated 5, 3 and 2 land in right subtrees. */
  function SampleTree(): Tree {
    Node(
      Node(Node(Leaf, -1, Leaf), 1, Node(Leaf, 2, Node(Node(Leaf, 2, Leaf), 3, Node(Leaf, 3, Leaf)))),
      5,
      Node(Node(Node(Leaf, 5, Leaf), 7, Leaf), 8, Leaf))
  }

  lemma SampleWalk()
    ensures InOrder(SampleTree()) == [-1, 1, 2, 2, 3, 3, 5, 5, 7, 8]
  {
  }

  lemma SampleKeys()
    ensures Keys(SampleTree()) == multiset{-1, 1, 2, 2, 3, 3, 5, 5, 7, 8}
  {
    SampleWalk();
    KeysAreInOrder(SampleTree());
  }

  /** The ten inserts of `main` on an empty tree. */
  method BuildSample() returns (b: BinarySearchTree)
    ensures fresh(b) && b.Valid() && b.root == SampleTree()
  {
    b := new BinarySearchTree();
    b.Insert(5);
    b.Insert(1);
    b.Insert(2);
    b.Insert(8);
    b.Insert(3);
    assert b.root == Node(Node(Leaf, 1, Node(Leaf, 2, Node(Leaf, 3, Leaf))), 5, Node(Leaf, 8, Leaf));
    b.Insert(-1);
    b.Insert(7);
    b.Insert(5);
    b.Insert(3);
    b.Insert(2);
  }

  /** The queries of `main` on the moved-to tree. */
  method QueryScenario()
    returns (keys: seq<int>, min: Option<int>, max: Option<int>, hasMinus1: bool, hasMinus2: bool)
    ensures keys == [-1, 1, 2, 2, 3, 3, 5, 5, 7, 8]
    ensures min == Some(-1) && max == Some(8) && hasMinus1 && !hasMinus2
  {
    var b1 := BuildSample();
    var b2 := new BinarySearchTree.Move(b1);
    keys := b2.InOrderPrint();
    SampleWalk();
    min := b2.Min();
    max := b2.Max();
    hasMinus1 := b2.Search(-1);
    hasMinus2 := b2.Search(-2);
    SampleKeys();
  }

  /** The moves and copies of `main`: a move assignment into an empty tree leaves the
      source empty, and a copy and a copy assignment reproduce the walk. */
  method CopyMoveScenario() returns (b2Empty: bool, b3Keys: seq<int>, b4Keys: seq<int>, b5Keys: seq<int>)
    ensures b2Empty
    ensures b3Keys == InOrder(SampleTree()) && b4Keys == b3Keys && b5Keys == b3Keys
  {
    var b1 := BuildSample();
    var b2 := new BinarySearchTree.Move(b1);
    var b3 := new BinarySearchTree();
    AssignMove(b3, b2);
    b2Empty := b2.root == Leaf;
    var b4 := new BinarySearchTree.Copy(b3);
    b4Keys := b4.InOrderPrint();
    b3Keys := b3.InOrderPrint();
    var b5 := new BinarySearchTree();
    AssignCopy(b5, b4);
    b5Keys := b5.InOrderPrint();
  }
}
