/** The AVL index of libnax: nodes linked in place, heights cached in the nodes.

    The linked structure is described by a ghost shape, a `Tree` value whose leaves and
    branches name the linked nodes. Each operation is a pure function on shapes; the
    methods at the end carry the same steps out on the heap and are proved to move the
    heap from one shape to the other. What an operation is for (search order, balance,
    exact contents) is proved about the shapes. */
module AvlTree {
  import opened Bytes

  /** A tree node. The comparison callback of the original orders nodes by a key stored
      beside the links; the key never changes while the node is in a tree. */
  class Node {
    const key: int
    var lchild: Node?
    var rchild: Node?
    var height: int

    constructor (key: int)
      ensures this.key == key
    {
      this.key := key;
      lchild, rchild, height := null, null, 0;
    }
  }

  datatype Tree = Leaf | Branch(left: Tree, node: Node, right: Tree)

  ghost function Nodes(t: Tree): set<Node> {
    match t
    case Leaf => {}
    case Branch(l, n, r) => Nodes(l) + {n} + Nodes(r)
  }

  ghost function Root(t: Tree): Node? {
    if t.Leaf? then null else t.node
  }

  ghost function Height(t: Tree): int
    ensures Height(t) >= -1
    ensures Height(t) == -1 <==> t.Leaf?
  {
    match t
    case Leaf => -1
    case Branch(l, _, r) => Max(Height(l), Height(r)) + 1
  }

  ghost predicate Below(t: Tree, k: int) { forall x :: x in Nodes(t) ==> x.key < k }

  ghost predicate Above(t: Tree, k: int) { forall x :: x in Nodes(t) ==> k < x.key }

  ghost predicate Ordered(t: Tree) {
    match t
    case Leaf => true
    case Branch(l, n, r) => Ordered(l) && Ordered(r) && Below(l, n.key) && Above(r, n.key)
  }

  ghost predicate Balanced(t: Tree) {
    match t
    case Leaf => true
    case Branch(l, _, r) => Balanced(l) && Balanced(r) && -1 <= Height(l) - Height(r) <= 1
  }

  /** Search order and balance: what every caller hands in and gets back. */
  ghost predicate Avl(t: Tree) { Ordered(t) && Balanced(t) }

  ghost predicate HasKey(t: Tree, k: int) { exists x :: x in Nodes(t) && x.key == k }

  // ---------- rotations on shapes ----------

  ghost function SingleLeft(t: Tree): Tree
    requires t.Branch? && t.left.Branch?
  {
    Branch(t.left.left, t.left.node, Branch(t.left.right, t.node, t.right))
  }

  ghost function SingleRight(t: Tree): Tree
    requires t.Branch? && t.right.Branch?
  {
    Branch(Branch(t.left, t.node, t.right.left), t.right.node, t.right.right)
  }

  ghost function DoubleLeft(t: Tree): Tree
    requires t.Branch? && t.left.Branch? && t.left.right.Branch?
  {
    var m := t.left.right;
    Branch(Branch(t.left.left, t.left.node, m.left), m.node, Branch(m.right, t.node, t.right))
  }

  ghost function DoubleRight(t: Tree): Tree
    requires t.Branch? && t.right.Branch? && t.right.left.Branch?
  {
    var m := t.right.left;
    Branch(Branch(t.left, t.node, m.left), m.node, Branch(m.right, t.right.node, t.right.right))
  }

  // ---------- insertion on shapes ----------

  ghost function Insert(t: Tree, n: Node): (s: Tree)
  {
    match t
    case Leaf => Branch(Leaf, n, Leaf)
    case Branch(l, x, r) =>
      if n.key < x.key then
        FixLeft(Branch(Insert(l, n), x, r), n.key)
      else if x.key < n.key then
        FixRight(Branch(l, x, Insert(r, n)), n.key)
      else t
  }

  ghost function FixLeft(t: Tree, k: int): Tree
    requires t.Branch?
  {
    if Height(t.left) - Height(t.right) == 2 then
      if k < t.left.node.key then SingleLeft(t)
      else if t.left.node.key < k && t.left.right.Branch? then DoubleLeft(t)
      else t
    else t
  }

  ghost function FixRight(t: Tree, k: int): Tree
    requires t.Branch?
  {
    if Height(t.right) - Height(t.left) == 2 then
      if k < t.right.node.key && t.right.left.Branch? then DoubleRight(t)
      else if t.right.node.key < k then SingleRight(t)
      else t
    else t
  }

  /** The step that makes insertion work: the height grows by at most one, and when it
      grows the root stays and the side the key went to becomes the taller one. */
  ghost predicate Grew(t: Tree, s: Tree, k: int) {
    Height(s) == Height(t) ||
    (Height(s) == Height(t) + 1 && s.Branch? &&
     (t.Branch? ==>
        s.node == t.node &&
        (k < s.node.key ==> Height(s.left) == Height(s.right) + 1) &&
        (s.node.key < k ==> Height(s.right) == Height(s.left) + 1) &&
        s.node.key != k))
  }

  /** avlinsert keeps a valid tree whose nodes are exactly the old ones plus the new one,
      and leaves the tree unchanged when an equal key is present. */
  lemma {:induction false} InsertCorrect(t: Tree, n: Node)
    requires Avl(t)
    ensures Avl(Insert(t, n))
    ensures HasKey(t, n.key) ==> Insert(t, n) == t
    ensures !HasKey(t, n.key) ==> Nodes(Insert(t, n)) == Nodes(t) + {n}
    ensures Grew(t, Insert(t, n), n.key)
  {
    match t
    case Leaf =>
    case Branch(l, x, r) =>
      if n.key < x.key {
        InsertCorrect(l, n);
        InsertSideLeft(t, n, Insert(l, n));
      } else if x.key < n.key {
        InsertCorrect(r, n);
        InsertSideRight(t, n, Insert(r, n));
      } else {
        assert x in Nodes(t);
      }
  }

  lemma {:induction false} InsertSideLeft(t: Tree, n: Node, l': Tree)
    requires Avl(t) && t.Branch? && n.key < t.node.key
    requires l' == Insert(t.left, n) && Avl(l') && Grew(t.left, l', n.key)
    requires HasKey(t.left, n.key) ==> l' == t.left
    requires !HasKey(t.left, n.key) ==> Nodes(l') == Nodes(t.left) + {n}
    ensures Avl(Insert(t, n))
    ensures HasKey(t, n.key) ==> Insert(t, n) == t
    ensures !HasKey(t, n.key) ==> Nodes(Insert(t, n)) == Nodes(t) + {n}
    ensures Grew(t, Insert(t, n), n.key)
  {
    assert HasKey(t, n.key) <==> HasKey(t.left, n.key);
    var b := Branch(l', t.node, t.right);
    assert Insert(t, n) == FixLeft(b, n.key);
    assert Below(l', t.node.key);
    if Height(l') - Height(t.right) == 2 {
      if n.key < l'.node.key {
        SingleLeftKeeps(b);
        SingleLeftBalances(b);
      } else {
        DoubleLeftKeeps(b);
        DoubleLeftBalances(b);
      }
    }
  }

  lemma {:induction false} InsertSideRight(t: Tree, n: Node, r': Tree)
    requires Avl(t) && t.Branch? && t.node.key < n.key
    requires r' == Insert(t.right, n) && Avl(r') && Grew(t.right, r', n.key)
    requires HasKey(t.right, n.key) ==> r' == t.right
    requires !HasKey(t.right, n.key) ==> Nodes(r') == Nodes(t.right) + {n}
    ensures Avl(Insert(t, n))
    ensures HasKey(t, n.key) ==> Insert(t, n) == t
    ensures !HasKey(t, n.key) ==> Nodes(Insert(t, n)) == Nodes(t) + {n}
    ensures Grew(t, Insert(t, n), n.key)
  {
    assert HasKey(t, n.key) <==> HasKey(t.right, n.key);
    var b := Branch(t.left, t.node, r');
    assert Insert(t, n) == FixRight(b, n.key);
    assert Above(r', t.node.key);
    if Height(r') - Height(t.left) == 2 {
      if n.key < r'.node.key {
        DoubleRightKeeps(b);
        DoubleRightBalances(b);
      } else {
        SingleRightKeeps(b);
        SingleRightBalances(b);
      }
    }
  }

  // ---------- what the rotations keep ----------

  lemma {:induction false} SingleLeftKeeps(t: Tree)
    requires t.Branch? && t.left.Branch? && Ordered(t)
    ensures Ordered(SingleLeft(t)) && Nodes(SingleLeft(t)) == Nodes(t)
  {
    var m := Branch(t.left.right, t.node, t.right);
    assert t.left.node in Nodes(t.left);
    assert Above(m, t.left.node.key);
  }

  lemma {:induction false} SingleRightKeeps(t: Tree)
    requires t.Branch? && t.right.Branch? && Ordered(t)
    ensures Ordered(SingleRight(t)) && Nodes(SingleRight(t)) == Nodes(t)
  {
    var m := Branch(t.left, t.node, t.right.left);
    assert t.right.node in Nodes(t.right);
    assert Below(m, t.right.node.key);
  }

  /** A double rotation is a rotation of the child followed by one of the root. */
  lemma {:induction false} DoubleLeftKeeps(t: Tree)
    requires t.Branch? && t.left.Branch? && t.left.right.Branch? && Ordered(t)
    ensures Ordered(DoubleLeft(t)) && Nodes(DoubleLeft(t)) == Nodes(t)
  {
    SingleRightKeeps(t.left);
    var u := Branch(SingleRight(t.left), t.node, t.right);
    SingleLeftKeeps(u);
    assert DoubleLeft(t) == SingleLeft(u);
  }

  lemma {:induction false} DoubleRightKeeps(t: Tree)
    requires t.Branch? && t.right.Branch? && t.right.left.Branch? && Ordered(t)
    ensures Ordered(DoubleRight(t)) && Nodes(DoubleRight(t)) == Nodes(t)
  {
    SingleLeftKeeps(t.right);
    var u := Branch(t.left, t.node, SingleLeft(t.right));
    SingleRightKeeps(u);
    assert DoubleRight(t) == SingleRight(u);
  }

  lemma {:induction false} SingleLeftBalances(t: Tree)
    requires t.Branch? && Balanced(t.left) && Balanced(t.right)
    requires Height(t.left) == Height(t.right) + 2
    requires Height(t.left.left) == Height(t.right) + 1
    ensures Balanced(SingleLeft(t))
    ensures Height(t) - 1 <= Height(SingleLeft(t)) <= Height(t)
  {
  }

  lemma {:induction false} SingleRightBalances(t: Tree)
    requires t.Branch? && Balanced(t.left) && Balanced(t.right)
    requires Height(t.right) == Height(t.left) + 2
    requires Height(t.right.right) == Height(t.left) + 1
    ensures Balanced(SingleRight(t))
    ensures Height(t) - 1 <= Height(SingleRight(t)) <= Height(t)
  {
  }

  lemma {:induction false} DoubleLeftBalances(t: Tree)
    requires t.Branch? && Balanced(t.left) && Balanced(t.right)
    requires Height(t.left) == Height(t.right) + 2
    requires Height(t.left.right) == Height(t.left.left) + 1
    ensures Balanced(DoubleLeft(t)) && Height(DoubleLeft(t)) == Height(t) - 1
  {
    assert Balanced(t.left.right);
  }

  lemma {:induction false} DoubleRightBalances(t: Tree)
    requires t.Branch? && Balanced(t.left) && Balanced(t.right)
    requires Height(t.right) == Height(t.left) + 2
    requires Height(t.right.left) == Height(t.right.right) + 1
    ensures Balanced(DoubleRight(t)) && Height(DoubleRight(t)) == Height(t) - 1
  {
    assert Balanced(t.right.left);
  }

  // ---------- removal on shapes ----------

  ghost function MinNode(t: Tree): Node
    requires t.Branch?
  {
    if t.left.Leaf? then t.node else MinNode(t.left)
  }

  ghost function Rebalance(t: Tree): Tree
    requires t.Branch?
  {
    if Height(t.left) - Height(t.right) == 2 then
      if Height(t.left.left) - Height(t.right) == 1 then SingleLeft(t)
      else if Height(t.left.right) - Height(t.right) == 1 then DoubleLeft(t)
      else t
    else if Height(t.right) - Height(t.left) == 2 then
      if Height(t.right.right) - Height(t.left) == 1 then SingleRight(t)
      else if Height(t.right.left) - Height(t.left) == 1 then DoubleRight(t)
      else t
    else t
  }

  ghost function Remove(t: Tree, k: int): Tree
  {
    match t
    case Leaf => Leaf
    case Branch(l, x, r) =>
      if k == x.key then
        if l.Branch? && r.Branch? then
          Rebalance(Branch(l, MinNode(r), Remove(r, MinNode(r).key)))
        else if l.Branch? then l
        else r
      else if k < x.key then Rebalance(Branch(Remove(l, k), x, r))
      else Rebalance(Branch(l, x, Remove(r, k)))
  }

  ghost predicate Rebalanced(t: Tree, s: Tree) {
    Avl(s) && Nodes(s) == Nodes(t) && Height(t) - 1 <= Height(s) <= Height(t)
  }

  lemma {:induction false} RebalanceLeft(t: Tree)
    requires t.Branch? && Ordered(t) && Balanced(t.left) && Balanced(t.right)
    requires Height(t.left) == Height(t.right) + 2
    ensures Rebalanced(t, Rebalance(t))
  {
    if Height(t.left.left) - Height(t.right) == 1 {
      SingleLeftKeeps(t);
      SingleLeftBalances(t);
    } else {
      DoubleLeftKeeps(t);
      DoubleLeftBalances(t);
    }
  }

  lemma {:induction false} RebalanceRight(t: Tree)
    requires t.Branch? && Ordered(t) && Balanced(t.left) && Balanced(t.right)
    requires Height(t.right) == Height(t.left) + 2
    ensures Rebalanced(t, Rebalance(t))
  {
    if Height(t.right.right) - Height(t.left) == 1 {
      SingleRightKeeps(t);
      SingleRightBalances(t);
    } else {
      DoubleRightKeeps(t);
      DoubleRightBalances(t);
    }
  }

  /** Rebalancing a root whose children differ by at most two. */
  lemma {:induction false} RebalanceCorrect(t: Tree)
    requires t.Branch? && Ordered(t) && Balanced(t.left) && Balanced(t.right)
    requires -2 <= Height(t.left) - Height(t.right) <= 2
    ensures Rebalanced(t, Rebalance(t))
    ensures Balanced(t) ==> Rebalance(t) == t
  {
    if Height(t.left) - Height(t.right) == 2 {
      RebalanceLeft(t);
    } else if Height(t.right) - Height(t.left) == 2 {
      RebalanceRight(t);
    }
  }

  lemma {:induction false} MinNodeIsLeast(t: Tree)
    requires t.Branch? && Ordered(t)
    ensures MinNode(t) in Nodes(t)
    ensures forall x :: x in Nodes(t) && x != MinNode(t) ==> MinNode(t).key < x.key
  {
    if t.left.Branch? {
      MinNodeIsLeast(t.left);
    }
  }

  /** The nodes of `t` other than the one that matches the key. */
  ghost function Without(t: Tree, k: int): set<Node> {
    set x | x in Nodes(t) && x.key != k
  }

  ghost predicate Removed(t: Tree, k: int, s: Tree) {
    && Avl(s)
    && Nodes(s) == Without(t, k)
    && (!HasKey(t, k) ==> s == t)
    && Height(t) - 1 <= Height(s) <= Height(t)
  }

  /** avlremove returns a valid tree that holds exactly the old nodes minus the matching
      one, unchanged when nothing matches, and at most one level lower. */
  lemma {:induction false} RemoveCorrect(t: Tree, k: int)
    requires Avl(t)
    ensures Removed(t, k, Remove(t, k))
  {
    match t
    case Leaf =>
    case Branch(l, x, r) =>
      if k == x.key {
        if l.Branch? && r.Branch? {
          RemoveCorrect(r, MinNode(r).key);
          RemoveRoot(t);
        } else {
          assert x in Nodes(t);
          assert Nodes(Remove(t, k)) == Without(t, k);
        }
      } else if k < x.key {
        RemoveCorrect(l, k);
        RemoveLeft(t, k);
      } else {
        RemoveCorrect(r, k);
        RemoveRight(t, k);
      }
  }

  lemma {:induction false} RemoveRoot(t: Tree)
    requires Avl(t) && t.Branch? && t.left.Branch? && t.right.Branch?
    requires Removed(t.right, MinNode(t.right).key, Remove(t.right, MinNode(t.right).key))
    ensures Removed(t, t.node.key, Remove(t, t.node.key))
  {
    var m := MinNode(t.right);
    MinNodeIsLeast(t.right);
    var b := Branch(t.left, m, Remove(t.right, m.key));
    assert Above(b.right, m.key);
    assert Below(t.left, m.key);
    assert Nodes(b) == Without(t, t.node.key);
    RebalanceCorrect(b);
    assert t.node in Nodes(t);
  }

  lemma {:induction false} RemoveLeft(t: Tree, k: int)
    requires Avl(t) && t.Branch? && k < t.node.key && Removed(t.left, k, Remove(t.left, k))
    ensures Removed(t, k, Remove(t, k))
  {
    var b := Branch(Remove(t.left, k), t.node, t.right);
    assert Nodes(b) == Without(t, k);
    RebalanceCorrect(b);
    assert HasKey(t.left, k) ==> HasKey(t, k);
  }

  lemma {:induction false} RemoveRight(t: Tree, k: int)
    requires Avl(t) && t.Branch? && t.node.key < k && Removed(t.right, k, Remove(t.right, k))
    ensures Removed(t, k, Remove(t, k))
  {
    var b := Branch(t.left, t.node, Remove(t.right, k));
    assert Nodes(b) == Without(t, k);
    RebalanceCorrect(b);
    assert HasKey(t.right, k) ==> HasKey(t, k);
  }

  // ---------- how high a valid tree can be ----------

  function Fib(n: nat): nat { if n < 2 then n else Fib(n - 1) + Fib(n - 2) }

  ghost function Size(t: Tree): nat {
    match t
    case Leaf => 0
    case Branch(l, _, r) => Size(l) + 1 + Size(r)
  }

  lemma {:induction false} FibMonotone(m: nat, n: nat)
    requires m <= n
    ensures Fib(m) <= Fib(n)
  {
    if m < n {
      FibMonotone(m, n - 1);
    }
  }

  lemma {:induction false} SizeIsCardinality(t: Tree)
    requires Ordered(t)
    ensures |Nodes(t)| == Size(t)
  {
    match t
    case Leaf =>
    case Branch(l, n, r) =>
      SizeIsCardinality(l);
      SizeIsCardinality(r);
      assert n !in Nodes(l) && n !in Nodes(r) && Nodes(l) !! Nodes(r);
      assert |Nodes(l) + {n}| == |Nodes(l)| + 1;
  }

  lemma {:induction false} FibSum(a: int, b: int, h: int)
    requires a >= -1 && b >= -1 && h == Max(a, b) + 1 && -1 <= a - b <= 1
    ensures Fib(a + 3) + Fib(b + 3) >= Fib(h + 3)
  {
    FibMonotone(h + 1, a + 3);
    FibMonotone(h + 1, b + 3);
    assert a + 3 == h + 2 || b + 3 == h + 2;
  }

  lemma {:induction false} MinimumSize(t: Tree)
    requires Balanced(t)
    ensures Size(t) >= Fib(Height(t) + 3) - 1
  {
    match t
    case Leaf => assert Fib(2) == 1;
    case Branch(l, n, r) =>
      MinimumSize(l);
      MinimumSize(r);
      FibSum(Height(l), Height(r), Height(t));
  }

  /** A valid tree of height h links at least Fib(h + 3) - 1 distinct nodes. */
  lemma {:induction false} MinimumNodes(t: Tree)
    requires Avl(t)
    ensures |Nodes(t)| >= Fib(Height(t) + 3) - 1
  {
    SizeIsCardinality(t);
    MinimumSize(t);
  }

  // ---------- the linked nodes ----------

  /** No node is linked twice. */
  ghost predicate Distinct(t: Tree) {
    match t
    case Leaf => true
    case Branch(l, n, r) =>
      Distinct(l) && Distinct(r) && n !in Nodes(l) && n !in Nodes(r) && Nodes(l) !! Nodes(r)
  }

  lemma {:induction false} OrderedIsDistinct(t: Tree)
    requires Ordered(t)
    ensures Distinct(t)
  {
    match t
    case Leaf =>
    case Branch(l, _, r) =>
      OrderedIsDistinct(l);
      OrderedIsDistinct(r);
  }

  /** The child and height fields of every node say what the shape says. */
  ghost predicate Linked(t: Tree)
    reads Nodes(t)
  {
    match t
    case Leaf => true
    case Branch(l, n, r) =>
      n.lchild == Root(l) && n.rchild == Root(r) && n.height == Height(t) && Linked(l) && Linked(r)
  }

  /** As `Linked`, except that the height cached in the root may be out of date. */
  ghost predicate LinkedBelow(t: Tree)
    requires t.Branch?
    reads Nodes(t)
  {
    t.node.lchild == Root(t.left) && t.node.rchild == Root(t.right) &&
    Linked(t.left) && Linked(t.right)
  }

  lemma {:induction false} Unlink(t: Tree)
    requires Linked(t) && t.Branch?
    ensures LinkedBelow(t) && t.node.height == Height(t)
  {
  }

  /** Nodes that nobody writes keep their shape. */
  twostate lemma {:induction false} Framed(t: Tree)
    requires old(allocated(Nodes(t))) && old(Linked(t)) && unchanged(Nodes(t))
    ensures Linked(t)
  {
    if t.Branch? {
      Framed(t.left);
      Framed(t.right);
    }
  }

  function HeightOf(n: Node?): int
    reads n
  {
    if n == null then -1 else n.height
  }

  lemma {:induction false} HeightField(t: Tree)
    requires Linked(t)
    ensures HeightOf(Root(t)) == Height(t)
  {
  }

  /** The height update every operation ends with: one more than the taller child. */
  method RefreshHeight(n: Node, ghost t: Tree)
    requires t.Branch? && t.node == n && LinkedBelow(t)
    requires n !in Nodes(t.left) && n !in Nodes(t.right)
    modifies n`height
    ensures Linked(t)
  {
    n.height := Max(HeightOf(n.lchild), HeightOf(n.rchild)) + 1;
    Framed(t.left);
    Framed(t.right);
  }

  method RotateLeft(tree: Node, ghost t: Tree) returns (r: Node)
    requires t.Branch? && t.left.Branch? && t.node == tree && LinkedBelow(t)
    requires Distinct(SingleLeft(t))
    modifies t.node, t.left.node
    ensures r == Root(SingleLeft(t)) && Linked(SingleLeft(t))
  {
    ghost var s := SingleLeft(t);
    r := tree.lchild;
    tree.lchild := r.rchild;
    Framed(t.left.right);
    Framed(t.right);
    RefreshHeight(tree, s.right);
    label Lower:
    r.rchild := tree;
    Framed(t.left.left);
    Framed@Lower(s.right);
    RefreshHeight(r, s);
  }

  method RotateRight(tree: Node, ghost t: Tree) returns (r: Node)
    requires t.Branch? && t.right.Branch? && t.node == tree && LinkedBelow(t)
    requires Distinct(SingleRight(t))
    modifies t.node, t.right.node
    ensures r == Root(SingleRight(t)) && Linked(SingleRight(t))
  {
    ghost var s := SingleRight(t);
    r := tree.rchild;
    tree.rchild := r.lchild;
    Framed(t.right.left);
    Framed(t.left);
    RefreshHeight(tree, s.left);
    label Lower:
    r.lchild := tree;
    Framed(t.right.right);
    Framed@Lower(s.left);
    RefreshHeight(r, s);
  }

  method DoubleRotateLeft(tree: Node, ghost t: Tree) returns (r: Node)
    requires t.Branch? && t.left.Branch? && t.left.right.Branch?
    requires t.node == tree && LinkedBelow(t) && Distinct(DoubleLeft(t))
    modifies t.node, t.left.node, t.left.right.node
    ensures r == Root(DoubleLeft(t)) && Linked(DoubleLeft(t))
  {
    ghost var m, d := t.left.right, DoubleLeft(t);
    assert Linked(m);
    r := tree.lchild.rchild;
    HangLeft(tree.lchild, r, t);
    label Hung:
    tree.lchild := r.rchild;
    Framed(m.right);
    Framed(t.right);
    RefreshHeight(tree, d.right);
    label Refreshed:
    r.rchild := tree;
    Framed@Hung(d.left);
    Framed@Refreshed(d.right);
    RefreshHeight(r, d);
  }

  /** The first half of the double rotation: the left child goes below the new root. */
  method HangLeft(child: Node, r: Node, ghost t: Tree)
    requires t.Branch? && t.left.Branch? && t.left.right.Branch?
    requires child == t.left.node && r == t.left.right.node
    requires Linked(t.left) && Linked(t.left.right) && Distinct(DoubleLeft(t))
    modifies child, r`lchild
    ensures r.lchild == child && Linked(DoubleLeft(t).left)
  {
    ghost var m, d := t.left.right, DoubleLeft(t);
    child.rchild := r.lchild;
    Framed(t.left.left);
    Framed(m.left);
    RefreshHeight(child, d.left);
    label Refreshed:
    r.lchild := child;
    Framed@Refreshed(d.left);
  }

  method DoubleRotateRight(tree: Node, ghost t: Tree) returns (r: Node)
    requires t.Branch? && t.right.Branch? && t.right.left.Branch?
    requires t.node == tree && LinkedBelow(t) && Distinct(DoubleRight(t))
    modifies t.node, t.right.node, t.right.left.node
    ensures r == Root(DoubleRight(t)) && Linked(DoubleRight(t))
  {
    ghost var m, d := t.right.left, DoubleRight(t);
    assert Linked(m);
    r := tree.rchild.lchild;
    HangRight(tree.rchild, r, t);
    label Hung:
    tree.rchild := r.lchild;
    Framed(m.left);
    Framed(t.left);
    RefreshHeight(tree, d.left);
    label Refreshed:
    r.lchild := tree;
    Framed@Hung(d.right);
    Framed@Refreshed(d.left);
    RefreshHeight(r, d);
  }

  /** The first half of the double rotation: the right child goes below the new root. */
  method HangRight(child: Node, r: Node, ghost t: Tree)
    requires t.Branch? && t.right.Branch? && t.right.left.Branch?
    requires child == t.right.node && r == t.right.left.node
    requires Linked(t.right) && Linked(t.right.left) && Distinct(DoubleRight(t))
    modifies child, r`rchild
    ensures r.rchild == child && Linked(DoubleRight(t).right)
  {
    ghost var m, d := t.right.left, DoubleRight(t);
    child.lchild := r.rchild;
    Framed(t.right.right);
    Framed(m.right);
    RefreshHeight(child, d.right);
    label Refreshed:
    r.rchild := child;
    Framed@Refreshed(d.right);
  }

  /** What the nodes of `t` other than those in the side the key goes to are spared. */
  lemma {:induction false} InsertLeftFacts(t: Tree, n: Node)
    requires Avl(t) && t.Branch? && n.key < t.node.key
    ensures Ordered(Branch(Insert(t.left, n), t.node, t.right)) && Grew(t.left, Insert(t.left, n), n.key)
    ensures Nodes(Insert(t.left, n)) <= Nodes(t.left) + {n}
    ensures t.node !in Nodes(t.left) + {n} && Nodes(t.right) !! (Nodes(t.left) + {n})
    ensures t.node !in Nodes(t.right)
    ensures HasKey(t, n.key) ==> HasKey(t.left, n.key)
  {
    InsertCorrect(t.left, n);
  }

  lemma {:induction false} InsertRightFacts(t: Tree, n: Node)
    requires Avl(t) && t.Branch? && t.node.key < n.key
    ensures Ordered(Branch(t.left, t.node, Insert(t.right, n))) && Grew(t.right, Insert(t.right, n), n.key)
    ensures Nodes(Insert(t.right, n)) <= Nodes(t.right) + {n}
    ensures t.node !in Nodes(t.right) + {n} && Nodes(t.left) !! (Nodes(t.right) + {n})
    ensures t.node !in Nodes(t.left)
    ensures HasKey(t, n.key) ==> HasKey(t.right, n.key)
  {
    InsertCorrect(t.right, n);
  }

  /** avlinsert. `t` is the shape the nodes have on entry. */
  method InsertNode(tree: Node?, node: Node, ghost t: Tree) returns (r: Node)
    requires tree == Root(t) && Linked(t) && Avl(t)
    modifies Nodes(t), node
    ensures r == Root(Insert(t, node)) && Linked(Insert(t, node))
    decreases t
  {
    if tree == null {
      node.lchild, node.rchild, node.height := null, null, 0;
      r := node;
    } else if node.key < tree.key {
      r := InsertLeft(tree, node, t);
    } else if tree.key < node.key {
      r := InsertRight(tree, node, t);
    } else {
      r := tree;
    }
  }

  method InsertLeft(tree: Node, node: Node, ghost t: Tree) returns (r: Node)
    requires t.Branch? && tree == t.node && Linked(t) && Avl(t) && node.key < tree.key
    modifies Nodes(t), node
    ensures r == Root(Insert(t, node)) && Linked(Insert(t, node))
    decreases t, 0
  {
    Unlink(t);
    InsertLeftFacts(t, node);
    var child := InsertNode(tree.lchild, node, t.left);
    label Inserted:
    tree.lchild := child;
    Framed(t.right);
    Framed@Inserted(Insert(t.left, node));
    r := InsertFixLeft(tree, node, t, Branch(Insert(t.left, node), t.node, t.right));
  }

  method InsertRight(tree: Node, node: Node, ghost t: Tree) returns (r: Node)
    requires t.Branch? && tree == t.node && Linked(t) && Avl(t) && tree.key < node.key
    modifies Nodes(t), node
    ensures r == Root(Insert(t, node)) && Linked(Insert(t, node))
    decreases t, 0
  {
    Unlink(t);
    InsertRightFacts(t, node);
    var child := InsertNode(tree.rchild, node, t.right);
    label Inserted:
    tree.rchild := child;
    Framed(t.left);
    Framed@Inserted(Insert(t.right, node));
    r := InsertFixRight(tree, node, t, Branch(t.left, t.node, Insert(t.right, node)));
  }

  method InsertFixLeft(tree: Node, node: Node, ghost t: Tree, ghost b: Tree) returns (r: Node)
    requires Avl(t) && t.Branch? && t.node == tree && node.key < tree.key
    requires b == Branch(Insert(t.left, node), t.node, t.right) && Ordered(b) && LinkedBelow(b)
    requires Grew(t.left, b.left, node.key)
    modifies Nodes(b)
    ensures r == Root(Insert(t, node)) && Linked(Insert(t, node))
  {
    if HeightOf(tree.lchild) - HeightOf(tree.rchild) == 2 {
      if node.key < tree.lchild.key {
        SingleLeftKeeps(b);
        OrderedIsDistinct(SingleLeft(b));
        r := RotateLeft(tree, b);
      } else {
        DoubleLeftKeeps(b);
        OrderedIsDistinct(DoubleLeft(b));
        r := DoubleRotateLeft(tree, b);
      }
    } else {
      OrderedIsDistinct(b);
      RefreshHeight(tree, b);
      r := tree;
    }
  }

  method InsertFixRight(tree: Node, node: Node, ghost t: Tree, ghost b: Tree) returns (r: Node)
    requires Avl(t) && t.Branch? && t.node == tree && tree.key < node.key
    requires b == Branch(t.left, t.node, Insert(t.right, node)) && Ordered(b) && LinkedBelow(b)
    requires Grew(t.right, b.right, node.key)
    modifies Nodes(b)
    ensures r == Root(Insert(t, node)) && Linked(Insert(t, node))
  {
    if HeightOf(tree.rchild) - HeightOf(tree.lchild) == 2 {
      if node.key < tree.rchild.key {
        DoubleRightKeeps(b);
        OrderedIsDistinct(DoubleRight(b));
        r := DoubleRotateRight(tree, b);
      } else {
        SingleRightKeeps(b);
        OrderedIsDistinct(SingleRight(b));
        r := RotateRight(tree, b);
      }
    } else {
      OrderedIsDistinct(b);
      RefreshHeight(tree, b);
      r := tree;
    }
  }

  /** avlgetmin walks left to the least node. */
  method GetMin(tree: Node?, ghost t: Tree) returns (r: Node?)
    requires tree == Root(t) && Linked(t) && Ordered(t)
    ensures tree == null ==> r == null
    ensures tree != null ==> r == MinNode(t) && r in Nodes(t)
    ensures forall x :: x in Nodes(t) && x != r ==> r != null && r.key < x.key
  {
    if tree == null {
      return null;
    }
    MinNodeIsLeast(t);
    var c: Node := tree;
    ghost var s := t;
    while c.lchild != null
      invariant s.Branch? && c == Root(s) && Linked(s) && MinNode(s) == MinNode(t)
      decreases s
    {
      c := c.lchild;
      s := s.left;
    }
    r := c;
  }

  /** avlsearch finds the node with the key, or reports that there is none. */
  method Search(tree: Node?, key: int, ghost t: Tree) returns (r: Node?)
    requires tree == Root(t) && Linked(t) && Ordered(t)
    ensures r != null ==> r in Nodes(t) && r.key == key
    ensures r == null ==> !HasKey(t, key)
  {
    r := tree;
    ghost var s := t;
    while r != null
      invariant r == Root(s) && Linked(s) && Ordered(s) && Nodes(s) <= Nodes(t)
      invariant HasKey(t, key) ==> HasKey(s, key)
      decreases s
    {
      assert r in Nodes(s);
      if key < r.key {
        assert HasKey(s, key) ==> HasKey(s.left, key);
        r := r.lchild;
        s := s.left;
      } else if key > r.key {
        assert HasKey(s, key) ==> HasKey(s.right, key);
        r := r.rchild;
        s := s.right;
      } else {
        return;
      }
    }
  }

  /** The rotation avlremove applies when the left child is two levels higher. */
  method LowerLeft(tree: Node, ghost b: Tree) returns (r: Node)
    requires b.Branch? && b.node == tree && Ordered(b) && LinkedBelow(b)
    requires Balanced(b.left) && Height(b.left) == Height(b.right) + 2
    modifies Nodes(b)
    ensures r == Root(Rebalance(b)) && Linked(Rebalance(b))
  {
    Unlink(b.left);
    HeightField(b.left.left);
    HeightField(b.right);
    if HeightOf(tree.lchild.lchild) - HeightOf(tree.rchild) == 1 {
      SingleLeftKeeps(b);
      OrderedIsDistinct(SingleLeft(b));
      r := RotateLeft(tree, b);
    } else {
      DoubleLeftKeeps(b);
      OrderedIsDistinct(DoubleLeft(b));
      r := DoubleRotateLeft(tree, b);
    }
  }

  method LowerRight(tree: Node, ghost b: Tree) returns (r: Node)
    requires b.Branch? && b.node == tree && Ordered(b) && LinkedBelow(b)
    requires Balanced(b.right) && Height(b.right) == Height(b.left) + 2
    modifies Nodes(b)
    ensures r == Root(Rebalance(b)) && Linked(Rebalance(b))
  {
    Unlink(b.right);
    HeightField(b.right.right);
    HeightField(b.left);
    if HeightOf(tree.rchild.rchild) - HeightOf(tree.lchild) == 1 {
      SingleRightKeeps(b);
      OrderedIsDistinct(SingleRight(b));
      r := RotateRight(tree, b);
    } else {
      DoubleRightKeeps(b);
      OrderedIsDistinct(DoubleRight(b));
      r := DoubleRotateRight(tree, b);
    }
  }

  /** The tail of avlremove: rotate if the children differ by two, then refresh the height. */
  method RebalanceNode(tree: Node, ghost b: Tree) returns (r: Node)
    requires b.Branch? && b.node == tree && Ordered(b) && LinkedBelow(b)
    requires Balanced(b.left) && Balanced(b.right)
    requires -2 <= Height(b.left) - Height(b.right) <= 2
    modifies Nodes(b)
    ensures r == Root(Rebalance(b)) && Linked(Rebalance(b))
  {
    RebalanceCorrect(b);
    OrderedIsDistinct(Rebalance(b));
    if HeightOf(tree.lchild) - HeightOf(tree.rchild) == 2 {
      r := LowerLeft(tree, b);
    } else if HeightOf(tree.rchild) - HeightOf(tree.lchild) == 2 {
      r := LowerRight(tree, b);
    } else {
      r := tree;
    }
    RefreshHeight(r, Rebalance(b));
  }

  /** The pure facts behind one level of removal in the left or the right child. */
  lemma {:induction false} RemoveLeftFacts(t: Tree, k: int)
    requires Avl(t) && t.Branch? && k < t.node.key
    ensures Ordered(Branch(Remove(t.left, k), t.node, t.right)) && Balanced(Remove(t.left, k))
    ensures -2 <= Height(Remove(t.left, k)) - Height(t.right) <= 2
    ensures Nodes(Remove(t.left, k)) <= Nodes(t.left)
    ensures t.node !in Nodes(t.left) && t.node !in Nodes(t.right) && Nodes(t.left) !! Nodes(t.right)
    ensures HasKey(t, k) <==> HasKey(t.left, k)
  {
    RemoveCorrect(t.left, k);
  }

  lemma {:induction false} RemoveRightFacts(t: Tree, k: int)
    requires Avl(t) && t.Branch? && t.node.key < k
    ensures Ordered(Branch(t.left, t.node, Remove(t.right, k))) && Balanced(Remove(t.right, k))
    ensures -2 <= Height(t.left) - Height(Remove(t.right, k)) <= 2
    ensures Nodes(Remove(t.right, k)) <= Nodes(t.right)
    ensures t.node !in Nodes(t.left) && t.node !in Nodes(t.right) && Nodes(t.left) !! Nodes(t.right)
    ensures HasKey(t, k) <==> HasKey(t.right, k)
  {
    RemoveCorrect(t.right, k);
  }

  /** avlremove. `rm0` is what the caller's *rmnode held: the original leaves it alone
      when the tree is empty and otherwise sets it. */
  method RemoveNode(tree: Node?, key: int, rm0: Node?, ghost t: Tree) returns (r: Node?, rm: Node?)
    requires tree == Root(t) && Linked(t) && Avl(t)
    modifies Nodes(t)
    ensures r == Root(Remove(t, key)) && Linked(Remove(t, key))
    ensures tree == null ==> rm == rm0
    ensures tree != null && HasKey(t, key) ==> rm in Nodes(t) && rm.key == key
    ensures tree != null && !HasKey(t, key) ==> rm == null
    decreases t
  {
    if tree == null {
      return null, rm0;
    }
    rm := null;
    if key == tree.key {
      assert tree in Nodes(t);
      if tree.lchild != null && tree.rchild != null {
        r := RemoveRootNode(tree, t);
      } else {
        r := if tree.lchild != null then tree.lchild else tree.rchild;
      }
      rm := tree;
    } else if key < tree.key {
      r, rm := RemoveFromLeft(tree, key, t);
    } else {
      r, rm := RemoveFromRight(tree, key, t);
    }
  }

  method RemoveFromLeft(tree: Node, key: int, ghost t: Tree) returns (r: Node, rm: Node?)
    requires t.Branch? && tree == t.node && Linked(t) && Avl(t) && key < tree.key
    modifies Nodes(t)
    ensures r == Root(Remove(t, key)) && Linked(Remove(t, key))
    ensures if HasKey(t, key) then rm in Nodes(t) && rm.key == key else rm == null
    decreases t, 0
  {
    Unlink(t);
    RemoveLeftFacts(t, key);
    rm := null;
    if tree.lchild != null {
      var rest;
      rest, rm := RemoveNode(tree.lchild, key, rm, t.left);
      label Taken:
      tree.lchild := rest;
      Framed(t.right);
      Framed@Taken(Remove(t.left, key));
    }
    r := RebalanceNode(tree, Branch(Remove(t.left, key), tree, t.right));
  }

  method RemoveFromRight(tree: Node, key: int, ghost t: Tree) returns (r: Node, rm: Node?)
    requires t.Branch? && tree == t.node && Linked(t) && Avl(t) && tree.key < key
    modifies Nodes(t)
    ensures r == Root(Remove(t, key)) && Linked(Remove(t, key))
    ensures if HasKey(t, key) then rm in Nodes(t) && rm.key == key else rm == null
    decreases t, 0
  {
    Unlink(t);
    RemoveRightFacts(t, key);
    rm := null;
    if tree.rchild != null {
      var rest;
      rest, rm := RemoveNode(tree.rchild, key, rm, t.right);
      label Taken:
      tree.rchild := rest;
      Framed(t.left);
      Framed@Taken(Remove(t.right, key));
    }
    r := RebalanceNode(tree, Branch(t.left, tree, Remove(t.right, key)));
  }

  lemma {:induction false} RemoveRootFacts(t: Tree, m: Node)
    requires Avl(t) && t.Branch? && t.left.Branch? && t.right.Branch? && m == MinNode(t.right)
    ensures m in Nodes(t.right)
    ensures Ordered(Branch(t.left, m, Remove(t.right, m.key))) && Balanced(Remove(t.right, m.key))
    ensures -2 <= Height(t.left) - Height(Remove(t.right, m.key)) <= 2
    ensures Nodes(Remove(t.right, m.key)) <= Nodes(t.right) - {m}
    ensures t.node !in Nodes(t.left) && t.node !in Nodes(t.right) && Nodes(t.left) !! Nodes(t.right)
  {
    MinNodeIsLeast(t.right);
    RemoveCorrect(t.right, m.key);
  }

  /** The two-child case: the in-order successor takes the place of the root. */
  method RemoveRootNode(tree: Node, ghost t: Tree) returns (r: Node)
    requires t.Branch? && t.left.Branch? && t.right.Branch?
    requires tree == t.node && Linked(t) && Avl(t)
    modifies Nodes(t)
    ensures r == Root(Remove(t, tree.key)) && Linked(Remove(t, tree.key))
    decreases t, 1
  {
    var tmp := TakeSuccessor(tree, t);
    RemoveRootFacts(t, tmp);
    r := Succeed(tree, tmp, Branch(t.left, tmp, Remove(t.right, tmp.key)));
  }

  method TakeSuccessor(tree: Node, ghost t: Tree) returns (tmp: Node)
    requires t.Branch? && t.right.Branch? && tree == t.node && Linked(t) && Avl(t)
    modifies Nodes(t)
    ensures tmp == MinNode(t.right)
    ensures tree.lchild == Root(t.left) && Linked(t.left)
    ensures tree.rchild == Root(Remove(t.right, tmp.key)) && Linked(Remove(t.right, tmp.key))
    decreases t, 0
  {
    Unlink(t);
    OrderedIsDistinct(t);
    tmp := GetMin(tree.rchild, t.right);
    Framed(t.right);
    RemoveCorrect(t.right, tmp.key);
    var rest, moved := RemoveNode(tree.rchild, tmp.key, null, t.right);
    label Taken:
    tree.rchild := rest;
    Framed(t.left);
    Framed@Taken(Remove(t.right, tmp.key));
  }

  /** The successor takes over the children of the node it replaces. */
  method Succeed(tree: Node, tmp: Node, ghost b: Tree) returns (r: Node)
    requires b.Branch? && b.node == tmp && tree.lchild == Root(b.left) && tree.rchild == Root(b.right)
    requires Linked(b.left) && Linked(b.right)
    requires Ordered(b) && Balanced(b.left) && Balanced(b.right)
    requires -2 <= Height(b.left) - Height(b.right) <= 2
    modifies Nodes(b)
    ensures r == Root(Rebalance(b)) && Linked(Rebalance(b))
  {
    tmp.lchild := tree.lchild;
    tmp.rchild := tree.rchild;
    OrderedIsDistinct(b);
    Framed(b.left);
    Framed(b.right);
    r := RebalanceNode(tmp, b);
  }

  /** avllowerbound: the least node that is not below the key. */
  function LowerBound(tree: Node?, key: int, ghost t: Tree): (r: Node?)
    requires tree == Root(t) && Linked(t) && Ordered(t)
    reads Nodes(t)
    ensures r == null ==> forall x :: x in Nodes(t) ==> x.key < key
    ensures r != null ==> r in Nodes(t) && key <= r.key
    ensures r != null ==> forall x :: x in Nodes(t) && key <= x.key ==> r.key <= x.key
    decreases t
  {
    if tree == null then null
    else if key < tree.key then
      var cursor := LowerBound(tree.lchild, key, t.left);
      if cursor != null then cursor else tree
    else if key > tree.key then LowerBound(tree.rchild, key, t.right)
    else tree
  }

  /** avlupperbound: the least node strictly above the key. */
  function UpperBound(tree: Node?, key: int, ghost t: Tree): (r: Node?)
    requires tree == Root(t) && Linked(t) && Ordered(t)
    reads Nodes(t)
    ensures r == null ==> forall x :: x in Nodes(t) ==> x.key <= key
    ensures r != null ==> r in Nodes(t) && key < r.key
    ensures r != null ==> forall x :: x in Nodes(t) && key < x.key ==> r.key <= x.key
    decreases t
  {
    if tree == null then null
    else if key < tree.key then
      var cursor := UpperBound(tree.lchild, key, t.left);
      if cursor != null then cursor else tree
    else UpperBound(tree.rchild, key, t.right)
  }
}
