/** The threaded AVL tree on the heap: child pointers, cached heights, and the doubly linked
    list through all nodes in key order, kept in step by every insertion.

    Ghost parameters named `u` are a set of allocated nodes that contains the shape at hand. */
module AvlTree {
  import opened AvlShape

  ghost function Nodes(s: Shape): set<Node> {
    match s
    case Leaf => {}
    case Branch(l, n, r) => Nodes(l) + {n} + Nodes(r)
  }

  /** No node occurs twice in the shape. */
  ghost predicate Distinct(s: Shape) {
    match s
    case Leaf => true
    case Branch(l, n, r) =>
      && n !in Nodes(l) && n !in Nodes(r) && Nodes(l) !! Nodes(r)
      && Distinct(l) && Distinct(r)
  }

  /** The child pointers and cached heights below `p` spell out the shape. */
  ghost predicate Represents(p: Node?, s: Shape)
    reads Nodes(s)`left, Nodes(s)`right, Nodes(s)`height
  {
    match s
    case Leaf => p == null
    case Branch(l, n, r) =>
      p == n && n.height == Height(s) && Represents(n.left, l) && Represents(n.right, r)
  }

  ghost function Neighbour(nodes: seq<Node>, i: int): Node? {
    if 0 <= i < |nodes| then nodes[i] else null
  }

  /** The prev/next pointers chain exactly these nodes, in this order. */
  ghost predicate Chained(nodes: seq<Node>)
    reads nodes`prev, nodes`next
  {
    forall i :: 0 <= i < |nodes| ==> ChainedAt(nodes, i)
  }

  ghost predicate ChainedAt(nodes: seq<Node>, i: nat)
    requires i < |nodes|
    reads nodes`prev, nodes`next
  {
    nodes[i].prev == Neighbour(nodes, i - 1) && nodes[i].next == Neighbour(nodes, i + 1)
  }

  /** What the two neighbours of position k point at once `node` is being spliced in there. */
  ghost predicate Repointed(nodes: seq<Node>, k: nat, node: Node, i: nat)
    requires i < |nodes|
    reads nodes`prev, nodes`next
  {
    && nodes[i].prev == (if i == k then node else Neighbour(nodes, i - 1))
    && nodes[i].next == (if i + 1 == k then node else Neighbour(nodes, i + 1))
  }

  lemma {:induction false} ChainedApart(nodes: seq<Node>, i: nat, j: nat)
    requires Chained(nodes) && i < j < |nodes|
    ensures nodes[i] != nodes[j]
  {
    assert ChainedAt(nodes, i) && ChainedAt(nodes, j);
    if i > 0 {
      ChainedApart(nodes, i - 1, j - 1);
    }
  }

  /** A chain that ends on both sides cannot visit a node twice. */
  lemma ChainedNoDuplicates(nodes: seq<Node>)
    requires Chained(nodes)
    ensures NoDuplicates(nodes)
  {
    forall i, j | 0 <= i < j < |nodes| ensures nodes[i] != nodes[j] {
      ChainedApart(nodes, i, j);
    }
  }

  ghost function Spliced(nodes: seq<Node>, k: nat, node: Node): seq<Node>
    requires k <= |nodes|
  {
    nodes[..k] + [node] + nodes[k..]
  }

  /** Re-pointing the two neighbours and the new node makes the spliced sequence a chain. */
  lemma Rechained(nodes: seq<Node>, k: nat, node: Node)
    requires k <= |nodes|
    requires node.prev == Neighbour(nodes, k - 1) && node.next == Neighbour(nodes, k)
    requires forall i :: 0 <= i < |nodes| ==> Repointed(nodes, k, node, i)
    ensures Chained(Spliced(nodes, k, node))
  {
    var all := Spliced(nodes, k, node);
    forall i | 0 <= i < |all| ensures ChainedAt(all, i) {
      if i < k {
        assert Repointed(nodes, k, node, i);
      } else if i > k {
        assert Repointed(nodes, k, node, i - 1);
      }
    }
  }

  lemma {:induction false} NodesInorder(s: Shape)
    ensures forall n :: n in Nodes(s) ==> n in Inorder(s)
    ensures forall n :: n in Inorder(s) ==> n in Nodes(s)
  {
    if s.Branch? {
      NodesInorder(s.left);
      NodesInorder(s.right);
    }
  }

  // ---------- child pointers and heights ----------

  method UpdateHeight(node: Node, ghost l: Shape, ghost r: Shape, ghost u: set<Node>)
    requires Represents(node.left, l) && Represents(node.right, r)
    requires node !in Nodes(l) && node !in Nodes(r) && Nodes(l) <= u && Nodes(r) <= u
    modifies node`height
    ensures Represents(node, Branch(l, node, r))
  {
    var hl := if node.left == null then 0 else node.left.height;
    var hr := if node.right == null then 0 else node.right.height;
    node.height := Max(hl, hr) + 1;
  }

  method RotateRight(node: Node, ghost s: Shape, ghost u: set<Node>) returns (c: Node)
    requires s.Branch? && s.left.Branch? && node == s.node && Distinct(s) && Nodes(s) <= u
    requires Represents(node.left, s.left) && Represents(node.right, s.right)
    modifies node`left, node`height, s.left.node`right, s.left.node`height
    ensures Represents(c, RotatedRight(s))
  {
    assert Distinct(s.left);
    c := node.left;
    node.left := c.right;
    c.right := node;
    UpdateHeight(node, s.left.right, s.right, u);
    UpdateHeight(c, s.left.left, Branch(s.left.right, node, s.right), u);
  }

  method RotateLeft(node: Node, ghost s: Shape, ghost u: set<Node>) returns (c: Node)
    requires s.Branch? && s.right.Branch? && node == s.node && Distinct(s) && Nodes(s) <= u
    requires Represents(node.left, s.left) && Represents(node.right, s.right)
    modifies node`right, node`height, s.right.node`left, s.right.node`height
    ensures Represents(c, RotatedLeft(s))
  {
    assert Distinct(s.right);
    c := node.right;
    node.right := c.left;
    c.left := node;
    UpdateHeight(node, s.left, s.right.left, u);
    UpdateHeight(c, Branch(s.left, node, s.right.left), s.right.right, u);
  }

  lemma RotatedDistinct(s: Shape)
    requires s.Branch? && Distinct(s)
    ensures s.left.Branch? ==> Distinct(RotatedRight(s)) && Nodes(RotatedRight(s)) == Nodes(s)
    ensures s.right.Branch? ==> Distinct(RotatedLeft(s)) && Nodes(RotatedLeft(s)) == Nodes(s)
  {
    if s.left.Branch? {
      assert Distinct(s.left);
    }
    if s.right.Branch? {
      assert Distinct(s.right);
    }
  }

  function HeightOf(p: Node?): int
    reads p
  {
    if p == null then 0 else p.height
  }

  /** `cur->right = avl_rotate_r(cur->right)`, the first half of the RL case. */
  method TurnRightChild(cur: Node, ghost s: Shape, ghost u: set<Node>)
    requires s.Branch? && s.right.Branch? && s.right.left.Branch? && cur == s.node
    requires Distinct(s) && Nodes(s) <= u
    requires Represents(cur.left, s.left) && Represents(cur.right, s.right)
    modifies cur`right, Nodes(s.right)`left, Nodes(s.right)`right, Nodes(s.right)`height
    ensures Represents(cur.left, s.left) && Represents(cur.right, RotatedRight(s.right))
  {
    var c := RotateRight(cur.right, s.right, u);
    cur.right := c;
  }

  /** `cur->left = avl_rotate_l(cur->left)`, the first half of the LR case. */
  method TurnLeftChild(cur: Node, ghost s: Shape, ghost u: set<Node>)
    requires s.Branch? && s.left.Branch? && s.left.right.Branch? && cur == s.node
    requires Distinct(s) && Nodes(s) <= u
    requires Represents(cur.left, s.left) && Represents(cur.right, s.right)
    modifies cur`left, Nodes(s.left)`left, Nodes(s.left)`right, Nodes(s.left)`height
    ensures Represents(cur.left, RotatedLeft(s.left)) && Represents(cur.right, s.right)
  {
    var c := RotateLeft(cur.left, s.left, u);
    cur.left := c;
  }

  /** The tail of an insertion step: refresh the height of `cur`, then rotate if needed. */
  method Rebalance(cur: Node, ghost s: Shape, ghost u: set<Node>) returns (root: Node)
    requires s.Branch? && cur == s.node && Distinct(s) && Nodes(s) <= u
    requires Represents(cur.left, s.left) && Represents(cur.right, s.right)
    modifies Nodes(s)`left, Nodes(s)`right, Nodes(s)`height
    ensures Represents(root, Rebalanced(s))
  {
    UpdateHeight(cur, s.left, s.right, u);
    root := cur;
    var bf := HeightOf(cur.left) - HeightOf(cur.right);
    if bf < -1 {
      root := RebalanceRightHeavy(cur, s, u);
    } else if bf > 1 {
      root := RebalanceLeftHeavy(cur, s, u);
    }
  }

  method RebalanceRightHeavy(cur: Node, ghost s: Shape, ghost u: set<Node>) returns (root: Node)
    requires s.Branch? && cur == s.node && Distinct(s) && Nodes(s) <= u
    requires Represents(cur.left, s.left) && Represents(cur.right, s.right)
    requires BalanceFactor(s) < -1
    modifies Nodes(s)`left, Nodes(s)`right, Nodes(s)`height
    ensures Represents(root, Rebalanced(s))
  {
    var bf := HeightOf(cur.right.left) - HeightOf(cur.right.right);
    if bf > 0 {
      TurnRightChild(cur, s, u);
      RotatedDistinct(s.right);
      root := RotateLeft(cur, s.(right := RotatedRight(s.right)), u);
    } else {
      root := RotateLeft(cur, s, u);
    }
  }

  method RebalanceLeftHeavy(cur: Node, ghost s: Shape, ghost u: set<Node>) returns (root: Node)
    requires s.Branch? && cur == s.node && Distinct(s) && Nodes(s) <= u
    requires Represents(cur.left, s.left) && Represents(cur.right, s.right)
    requires BalanceFactor(s) > 1
    modifies Nodes(s)`left, Nodes(s)`right, Nodes(s)`height
    ensures Represents(root, Rebalanced(s))
  {
    var bf := HeightOf(cur.left.left) - HeightOf(cur.left.right);
    if bf < 0 {
      TurnLeftChild(cur, s, u);
      RotatedDistinct(s.left);
      root := RotateRight(cur, s.(left := RotatedLeft(s.left)), u);
    } else {
      root := RotateRight(cur, s, u);
    }
  }

  lemma RebalancedDistinct(s: Shape)
    requires s.Branch? && Distinct(s)
    ensures Distinct(Rebalanced(s)) && Nodes(Rebalanced(s)) == Nodes(s)
  {
    RotatedDistinct(s);
    if BalanceFactor(s) < -1 {
      RotatedDistinct(s.right);
      if BalanceFactor(s.right) > 0 {
        RotatedDistinct(s.(right := RotatedRight(s.right)));
      }
    } else if BalanceFactor(s) > 1 {
      RotatedDistinct(s.left);
      if BalanceFactor(s.left) < 0 {
        RotatedDistinct(s.(left := RotatedLeft(s.left)));
      }
    }
  }

  /** The node set of an insertion: unchanged on an equal key, else the old set plus the node. */
  lemma {:induction false} InsertedNodes(s: Shape, n: Node, cmp: Comparator)
    requires Distinct(s) && (Found(s, n.key, cmp) || n !in Nodes(s))
    ensures Distinct(Inserted(s, n, cmp))
    ensures Nodes(Inserted(s, n, cmp)) == Nodes(s) + (if Found(s, n.key, cmp) then {} else {n})
  {
    if s.Branch? {
      var c := cmp(s.node.key, n.key);
      if c < 0 {
        InsertedNodes(s.left, n, cmp);
        RebalancedDistinct(Branch(Inserted(s.left, n, cmp), s.node, s.right));
      } else if c > 0 {
        InsertedNodes(s.right, n, cmp);
        RebalancedDistinct(Branch(s.left, s.node, Inserted(s.right, n, cmp)));
      }
    }
  }

  /** Index k of the chain is where a search for `key` through `s` ends: whoever becomes the
      parent of the new leaf is its neighbour there. */
  ghost predicate Fits(all: seq<Node>, k: nat, s: Shape, key: int, cmp: Comparator)
    requires k <= |all|
  {
    match s
    case Leaf => true
    case Branch(l, m, r) =>
      var c := cmp(m.key, key);
      if c < 0 then (l.Leaf? ==> k < |all| && all[k] == m) && Fits(all, k, l, key, cmp)
      else if c > 0 then (r.Leaf? ==> k > 0 && all[k - 1] == m) && Fits(all, k, r, key, cmp)
      else true
  }

  /** The search position in the traversal of a subtree, offset by what precedes it, fits. */
  lemma {:induction false} PositionFits(all: seq<Node>, lo: nat, s: Shape, key: int, cmp: Comparator)
    requires lo + |Inorder(s)| <= |all| && all[lo..lo + |Inorder(s)|] == Inorder(s)
    ensures Fits(all, lo + Position(s, key, cmp), s, key, cmp)
    decreases s
  {
    if s.Branch? {
      var L, R := Inorder(s.left), Inorder(s.right);
      var mine := all[lo..lo + |Inorder(s)|];
      assert mine == L + [s.node] + R;
      assert all[lo + |L|] == mine[|L|] == s.node;
      if cmp(s.node.key, key) < 0 {
        assert all[lo..lo + |L|] == mine[..|L|] == L;
        PositionFits(all, lo, s.left, key, cmp);
      } else if cmp(s.node.key, key) > 0 {
        assert all[lo + |L| + 1..lo + |L| + 1 + |R|] == mine[|L| + 1..] == R;
        PositionFits(all, lo + |L| + 1, s.right, key, cmp);
      }
    }
  }

  // ---------- the thread ----------

  class Tree {
    var root: Node?
    var first: Node?
    var last: Node?
    const cmp: Comparator
    ghost var shape: Shape
    ghost var members: set<Node>

    /** The nodes in key order. */
    ghost function Order(): seq<Node>
      reads this`shape
    {
      Inorder(shape)
    }

    /** Both structures over the same nodes are intact and agree. */
    ghost predicate Valid()
      reads this, members
    {
      && members == Nodes(shape)
      && (forall n :: n in Order() ==> n in members)
      && Distinct(shape) && Represents(root, shape) && Balanced(shape)
      && Threaded(Order()) && Sorted(Order(), cmp)
    }

    constructor (cmp: Comparator)
      ensures Valid() && this.cmp == cmp && members == {}
    {
      this.cmp := cmp;
      root, first, last := null, null, null;
      shape, members := Leaf, {};
    }

    /** `first`, `last` and the prev/next chain hold exactly these nodes. */
    ghost predicate Threaded(nodes: seq<Node>)
      reads this`first, this`last, nodes`prev, nodes`next
    {
      first == Neighbour(nodes, 0) && last == Neighbour(nodes, |nodes| - 1) && Chained(nodes)
    }

    /** Splice `node` into the chain just before `cur`. */
    method LinkBefore(cur: Node, node: Node, ghost all: seq<Node>, ghost k: nat, ghost u: set<Node>)
      requires Threaded(all) && node !in all
      requires k < |all| && all[k] == cur && forall n :: n in all ==> n in u
      requires node.prev == null && node.next == null
      modifies this`first, u`prev, u`next, node`prev, node`next
      ensures Threaded(Spliced(all, k, node))
    {
      assert ChainedAt(all, k);
      ChainedNoDuplicates(all);
      if cur == first {
        first := node;
      }
      var prev := cur.prev;
      if prev != null {
        assert k > 0 && prev == all[k - 1];
        prev.next := node;
        node.prev := prev;
      }
      node.next := cur;
      cur.prev := node;
      forall i: nat | i < |all| ensures Repointed(all, k, node, i) {
        assert old(ChainedAt(all, i));
        assert all[i] == cur <==> i == k;
        assert all[i] == prev <==> i == k - 1;
      }
      Rechained(all, k, node);
    }

    /** Splice `node` into the chain just after `cur`. */
    method LinkAfter(cur: Node, node: Node, ghost all: seq<Node>, ghost k: nat, ghost u: set<Node>)
      requires Threaded(all) && node !in all
      requires k < |all| && all[k] == cur && forall n :: n in all ==> n in u
      requires node.prev == null && node.next == null
      modifies this`last, u`prev, u`next, node`prev, node`next
      ensures Threaded(Spliced(all, k + 1, node))
    {
      assert ChainedAt(all, k);
      ChainedNoDuplicates(all);
      if cur == last {
        last := node;
      }
      var next := cur.next;
      cur.next := node;
      node.prev := cur;
      if next != null {
        assert next == all[k + 1];
        node.next := next;
        next.prev := node;
      }
      ghost var k' := k + 1;
      forall i: nat | i < |all| ensures Repointed(all, k', node, i) {
        assert old(ChainedAt(all, i));
        assert all[i] == cur <==> i == k;
        assert all[i] == next <==> i == k';
      }
      Rechained(all, k', node);
    }

    /** Rebalancing moves child pointers only and leaves the chain alone. */
    method Finish(cur: Node, ghost t: Shape, ghost l: Node?, ghost r: Node?,
                  ghost chain: seq<Node>, ghost u: set<Node>)
      returns (root': Node)
      requires t.Branch? && cur == t.node && Distinct(t) && Nodes(t) <= u
      requires cur.left == l && cur.right == r
      requires Represents(l, t.left) && Represents(r, t.right)
      requires Threaded(chain) && forall n :: n in chain ==> n in u
      modifies Nodes(t)`left, Nodes(t)`right, Nodes(t)`height
      ensures Represents(root', Rebalanced(t)) && Threaded(chain)
    {
      root' := Rebalance(cur, t, u);
    }

    /** `avl_node_init`, and the first node of an empty tree. */
    method MakeLeaf(node: Node, ghost all: seq<Node>)
      requires Threaded(all) && node !in all
      modifies this`first, this`last, node
      ensures Represents(node, Branch(Leaf, node, Leaf)) && node.prev == null && node.next == null
      ensures Threaded(if all == [] then [node] else all)
    {
      node.height, node.left, node.right, node.prev, node.next := 1, null, null, null, null;
      if first == null {
        first, last := node, node;
        assert all == [];
        assert ChainedAt([node], 0);
      }
    }

    /** The recursive insertion into the subtree `s`.  The chain is `all` before and `chain`
        after, which has the node spliced in at index k unless the key is already there.
        The source passes a pointer to the parent's child field; here the new subtree root is
        returned and the caller stores it there.  A new leaf is returned unlinked: its parent
        splices it into the chain. */
    method InsertRec(cur: Node?, node: Node, ghost s: Shape,
      ghost all: seq<Node>, ghost k: nat, ghost chain: seq<Node>, ghost u: set<Node>)
      returns (root': Node, isLeaf: bool)
      requires Represents(cur, s) && Distinct(s) && Nodes(s) <= u && node in u
      requires Threaded(all) && forall n :: n in all || n in chain ==> n in u
      requires k <= |all| && Fits(all, k, s, node.key, cmp)
      requires chain == if Found(s, node.key, cmp) then all else Spliced(all, k, node)
      requires Found(s, node.key, cmp) || (node !in all && node !in Nodes(s))
      modifies this`first, this`last, u`prev, u`next
      modifies Nodes(s)`left, Nodes(s)`right, Nodes(s)`height
      modifies if Found(s, node.key, cmp) then {} else {node}
      ensures Represents(root', Inserted(s, node, cmp))
      ensures isLeaf == s.Leaf?
      ensures isLeaf ==> root' == node && node.prev == null && node.next == null
      ensures Threaded(if isLeaf && all != [] then all else chain)
      decreases s, 1
    {
      if cur == null {
        MakeLeaf(node, all);
        return node, true;
      }
      isLeaf := false;
      var c := cmp(cur.key, node.key);
      if c < 0 {
        root' := InsertLeft(cur, node, s, all, k, chain, u);
      } else if c > 0 {
        root' := InsertRight(cur, node, s, all, k, chain, u);
      } else {
        root' := cur;
      }
    }

    /** The left descent: insert below and store the new child in `cur`. */
    method DescendLeft(cur: Node, node: Node, ghost s: Shape,
      ghost all: seq<Node>, ghost k: nat, ghost chain: seq<Node>, ghost u: set<Node>)
      returns (isLeaf: bool)
      requires s.Branch? && cmp(cur.key, node.key) < 0
      requires Represents(cur, s) && Distinct(s) && Nodes(s) <= u && node in u
      requires Threaded(all) && forall n :: n in all || n in chain ==> n in u
      requires k <= |all| && Fits(all, k, s, node.key, cmp)
      requires chain == if Found(s, node.key, cmp) then all else Spliced(all, k, node)
      requires Found(s, node.key, cmp) || (node !in all && node !in Nodes(s))
      modifies this`first, this`last, u`prev, u`next
      modifies cur`left, Nodes(s.left)`left, Nodes(s.left)`right, Nodes(s.left)`height
      modifies if Found(s, node.key, cmp) then {} else {node}
      ensures Represents(cur.left, Inserted(s.left, node, cmp)) && Represents(cur.right, s.right)
      ensures isLeaf == s.left.Leaf?
      ensures isLeaf ==> node.prev == null && node.next == null
      ensures Threaded(if isLeaf then all else chain)
      decreases s, 0, 0
    {
      InsertedNodes(s.left, node, cmp);
      var child;
      ghost var other := cur.right;
      assert Represents(other, s.right);
      child, isLeaf := InsertRec(cur.left, node, s.left, all, k, chain, u);
      assert Represents(other, s.right);
      cur.left := child;
    }

    /** The left case: descend, link a new leaf before `cur`, rebalance. */
    method InsertLeft(cur: Node, node: Node, ghost s: Shape,
      ghost all: seq<Node>, ghost k: nat, ghost chain: seq<Node>, ghost u: set<Node>)
      returns (root': Node)
      requires s.Branch? && cmp(cur.key, node.key) < 0
      requires Represents(cur, s) && Distinct(s) && Nodes(s) <= u && node in u
      requires Threaded(all) && forall n :: n in all || n in chain ==> n in u
      requires k <= |all| && Fits(all, k, s, node.key, cmp)
      requires chain == if Found(s, node.key, cmp) then all else Spliced(all, k, node)
      requires Found(s, node.key, cmp) || (node !in all && node !in Nodes(s))
      modifies this`first, this`last, u`prev, u`next
      modifies Nodes(s)`left, Nodes(s)`right, Nodes(s)`height
      modifies if Found(s, node.key, cmp) then {} else {node}
      ensures Represents(root', Inserted(s, node, cmp))
      ensures Threaded(chain)
      decreases s, 0, 1
    {
      InsertedNodes(s.left, node, cmp);
      ghost var t := Branch(Inserted(s.left, node, cmp), cur, s.right);
      var isLeaf := DescendLeft(cur, node, s, all, k, chain, u);
      ghost var l, r := cur.left, cur.right;
      assert Represents(l, t.left) && Represents(r, t.right);
      if isLeaf {
        LinkBefore(cur, node, all, k, u);
      }
      assert Represents(l, t.left) && Represents(r, t.right);
      root' := Finish(cur, t, l, r, chain, u);
    }

    /** The right descent: insert below and store the new child in `cur`. */
    method DescendRight(cur: Node, node: Node, ghost s: Shape,
      ghost all: seq<Node>, ghost k: nat, ghost chain: seq<Node>, ghost u: set<Node>)
      returns (isLeaf: bool)
      requires s.Branch? && cmp(cur.key, node.key) > 0
      requires Represents(cur, s) && Distinct(s) && Nodes(s) <= u && node in u
      requires Threaded(all) && forall n :: n in all || n in chain ==> n in u
      requires k <= |all| && Fits(all, k, s, node.key, cmp)
      requires chain == if Found(s, node.key, cmp) then all else Spliced(all, k, node)
      requires Found(s, node.key, cmp) || (node !in all && node !in Nodes(s))
      modifies this`first, this`last, u`prev, u`next
      modifies cur`right, Nodes(s.right)`left, Nodes(s.right)`right, Nodes(s.right)`height
      modifies if Found(s, node.key, cmp) then {} else {node}
      ensures Represents(cur.right, Inserted(s.right, node, cmp)) && Represents(cur.left, s.left)
      ensures isLeaf == s.right.Leaf?
      ensures isLeaf ==> node.prev == null && node.next == null
      ensures Threaded(if isLeaf then all else chain)
      decreases s, 0, 0
    {
      InsertedNodes(s.right, node, cmp);
      var child;
      ghost var other := cur.left;
      assert Represents(other, s.left);
      child, isLeaf := InsertRec(cur.right, node, s.right, all, k, chain, u);
      assert Represents(other, s.left);
      cur.right := child;
    }

    /** The right case: descend, link a new leaf after `cur`, rebalance. */
    method InsertRight(cur: Node, node: Node, ghost s: Shape,
      ghost all: seq<Node>, ghost k: nat, ghost chain: seq<Node>, ghost u: set<Node>)
      returns (root': Node)
      requires s.Branch? && cmp(cur.key, node.key) > 0
      requires Represents(cur, s) && Distinct(s) && Nodes(s) <= u && node in u
      requires Threaded(all) && forall n :: n in all || n in chain ==> n in u
      requires k <= |all| && Fits(all, k, s, node.key, cmp)
      requires chain == if Found(s, node.key, cmp) then all else Spliced(all, k, node)
      requires Found(s, node.key, cmp) || (node !in all && node !in Nodes(s))
      modifies this`first, this`last, u`prev, u`next
      modifies Nodes(s)`left, Nodes(s)`right, Nodes(s)`height
      modifies if Found(s, node.key, cmp) then {} else {node}
      ensures Represents(root', Inserted(s, node, cmp))
      ensures Threaded(chain)
      decreases s, 0, 1
    {
      InsertedNodes(s.right, node, cmp);
      ghost var t := Branch(s.left, cur, Inserted(s.right, node, cmp));
      var isLeaf := DescendRight(cur, node, s, all, k, chain, u);
      ghost var l, r := cur.left, cur.right;
      assert Represents(l, t.left) && Represents(r, t.right);
      if isLeaf {
        LinkAfter(cur, node, all, k - 1, u);
      }
      assert Represents(l, t.left) && Represents(r, t.right);
      root' := Finish(cur, t, l, r, chain, u);
    }

    /** The heap part of `avl_insert`: run the recursion on the root and store the new root. */
    method InsertAtRoot(node: Node, ghost s': Shape, ghost chain: seq<Node>)
      returns (wasEmpty: bool)
      requires members == Nodes(shape) && Distinct(shape) && Represents(root, shape)
      requires Threaded(Order()) && (forall n :: n in Order() ==> n in members)
      requires Found(shape, node.key, cmp) || (node !in Order() && node !in members)
      requires Fits(Order(), Position(shape, node.key, cmp), shape, node.key, cmp)
      requires s' == Inserted(shape, node, cmp)
      requires chain == if Found(shape, node.key, cmp) then Order()
                        else Spliced(Order(), Position(shape, node.key, cmp), node)
      requires forall n :: n in chain ==> n in members || n == node
      modifies this`root, this`first, this`last, members, node
      ensures Represents(root, s') && Threaded(chain) && wasEmpty == shape.Leaf?
    {
      ghost var all, k := Order(), Position(shape, node.key, cmp);
      var top;
      top, wasEmpty := InsertRec(root, node, shape, all, k, chain, members + {node});
      root := top;
    }

    /** `avl_insert`: the node joins the tree and the chain at its place in the order, unless
        an equal key is present, when nothing changes.  The return value only says whether the
        tree was empty. */
    method Insert(node: Node) returns (wasEmpty: bool)
      requires Valid() && TotalOrder(cmp, Keys(Order()) + {node.key})
      modifies this, members, node
      ensures Valid()
      ensures wasEmpty == (old(root) == null)
      ensures shape == Inserted(old(shape), node, cmp)
      ensures members == old(members) + (if Found(old(shape), node.key, cmp) then {} else {node})
      ensures Order() ==
        if Found(old(shape), node.key, cmp) then old(Order())
        else Spliced(old(Order()), Position(old(shape), node.key, cmp), node)
    {
      hide Inserted, Inorder, Nodes, Position, Found, Sorted, Balanced, Threaded, Distinct, Fits, TotalOrder,
           Spliced, Keys;
      ghost var s' := Inserted(shape, node, cmp);
      InsertionShape(shape, node, cmp, members);
      wasEmpty := InsertAtRoot(node, s', Inorder(s'));
      shape, members := s', Nodes(s');
    }

    /** `_avl_search`. */
    method SearchRec(cur: Node?, key: int, ghost s: Shape, ghost u: set<Node>) returns (n: Node?)
      requires Represents(cur, s) && Nodes(s) <= u
      ensures n == (if Found(s, key, cmp) then AvlShape.Search(s, key, cmp).node else null)
      decreases s
    {
      if cur == null {
        return null;
      }
      var c := cmp(cur.key, key);
      if c < 0 {
        n := SearchRec(cur.left, key, s.left, u);
      } else if c > 0 {
        n := SearchRec(cur.right, key, s.right, u);
      } else {
        n := cur;
      }
    }

    /** `avl_search`: a node of the tree that compares equal to the key; and the only one, or none, if
        the comparator orders the key and the keys of the tree. */
    method Search(key: int) returns (n: Node?)
      requires Valid()
      ensures n != null ==> n in Order() && cmp(n.key, key) == 0
      ensures TotalOrder(cmp, Keys(Order()) + {key}) ==>
        if n == null then NoMatch(Order(), key, cmp) else OnlyMatch(Order(), n, key, cmp)
    {
      n := SearchRec(root, key, shape, members);
      if n != null {
        SearchFinds(shape, key, cmp);
      }
      if TotalOrder(cmp, Keys(Order()) + {key}) {
        SearchComplete(shape, key, cmp);
      }
    }

    /** A linear scan of the chain from `first` finds what the search finds. */
    method Scan(key: int) returns (n: Node?)
      requires Valid() && TotalOrder(cmp, Keys(Order()) + {key})
      ensures n == null ==> NoMatch(Order(), key, cmp)
      ensures n != null ==> OnlyMatch(Order(), n, key, cmp)
    {
      ghost var L, i := Order(), 0;
      n := first;
      while n != null && cmp(n.key, key) != 0
        invariant 0 <= i <= |L| && n == Neighbour(L, i)
        invariant forall j :: 0 <= j < i ==> cmp(L[j].key, key) != 0
        decreases |L| - i
      {
        assert ChainedAt(L, i);
        n := n.next;
        i := i + 1;
      }
      if n != null {
        ScanIsOnlyMatch(L, i, key, cmp);
      }
    }

    /** `list_for_each_entry`: following `next` from `first` visits the nodes in key order. */
    method Walk() returns (visited: seq<Node>)
      requires Valid()
      ensures visited == Order()
    {
      visited := [];
      var p := first;
      while p != null
        invariant |visited| <= |Order()| && visited == Order()[..|visited|]
        invariant p == Neighbour(Order(), |visited|)
        decreases |Order()| - |visited|
      {
        assert ChainedAt(Order(), |visited|);
        visited := visited + [p];
        p := p.next;
      }
    }

    /** `list_for_each_entry_reverse`: following `prev` from `last` visits them backwards. */
    method WalkBack() returns (visited: seq<Node>)
      requires Valid()
      ensures |visited| == |Order()|
      ensures forall i :: 0 <= i < |visited| ==> visited[i] == Order()[|visited| - 1 - i]
    {
      visited := [];
      var p := last;
      while p != null
        invariant |visited| <= |Order()|
        invariant forall i :: 0 <= i < |visited| ==> visited[i] == Order()[|Order()| - 1 - i]
        invariant p == Neighbour(Order(), |Order()| - 1 - |visited|)
        decreases |Order()| - |visited|
      {
        assert ChainedAt(Order(), |Order()| - 1 - |visited|);
        visited := visited + [p];
        p := p.prev;
      }
    }

    /** `avl_height`, with the node count the balance guarantees. */
    method TreeHeight() returns (h: int)
      requires Valid()
      ensures 0 <= h && h == Height(shape) && |Order()| >= MinNodes(h)
    {
      h := if root == null then 0 else root.height;
      BalancedSize(shape);
    }

    /** Any number of insertions, as when a configuration is loaded: the tree stays valid and
        every inserted key is present, under the node that brought it first. */
    method InsertAll(nodes: seq<Node>)
      requires Valid() && TotalOrder(cmp, Keys(Order()) + Keys(nodes))
      modifies this, members, nodes
      ensures Valid()
      ensures old(members) <= members && forall n :: n in members ==> n in old(members) || n in nodes
      ensures forall n :: n in nodes ==> Found(shape, n.key, cmp)
    {
      ghost var keys := Keys(Order()) + Keys(nodes);
      for i := 0 to |nodes|
        invariant Valid() && Keys(Order()) <= keys
        invariant old(members) <= members && forall n :: n in members ==> n in old(members) || n in nodes
        invariant forall j :: 0 <= j < i ==> Found(shape, nodes[j].key, cmp)
      {
        ghost var s := shape;
        assert nodes[i] in nodes && nodes[i].key in keys;
        FewerOrdered(cmp, Keys(Order()) + {nodes[i].key}, keys);
        KeysStayFound(s, nodes, i, cmp, keys);
        KeysOfInsertion(s, nodes[i], cmp);
        var _ := Insert(nodes[i]);
      }
    }
  }

  lemma FewerOrdered(cmp: Comparator, fewer: set<int>, keys: set<int>)
    requires TotalOrder(cmp, keys) && fewer <= keys
    ensures TotalOrder(cmp, fewer)
  {
  }

  lemma KeysOfInsertion(s: Shape, node: Node, cmp: Comparator)
    ensures Keys(Inorder(Inserted(s, node, cmp))) <= Keys(Inorder(s)) + {node.key}
  {
    hide Inserted, Inorder, Position;
    InsertedInorder(s, node, cmp);
  }

  lemma KeysStayFound(s: Shape, nodes: seq<Node>, i: nat, cmp: Comparator, keys: set<int>)
    requires TotalOrder(cmp, keys) && Keys(Inorder(s)) <= keys && Keys(nodes) <= keys
    requires Sorted(Inorder(s), cmp) && i < |nodes|
    requires forall j :: 0 <= j < i ==> Found(s, nodes[j].key, cmp)
    ensures forall j :: 0 <= j <= i ==> Found(Inserted(s, nodes[i], cmp), nodes[j].key, cmp)
  {
    forall j | 0 <= j <= i ensures Found(Inserted(s, nodes[i], cmp), nodes[j].key, cmp) {
      FewerOrdered(cmp, Keys(Inorder(s)) + {nodes[i].key, nodes[j].key}, keys);
      FoundAfterInsert(s, nodes[i], nodes[j].key, cmp);
    }
  }

  lemma ScanIsOnlyMatch(nodes: seq<Node>, i: nat, key: int, cmp: Comparator)
    requires TotalOrder(cmp, Keys(nodes) + {key}) && Sorted(nodes, cmp)
    requires i < |nodes| && cmp(nodes[i].key, key) == 0
    ensures OnlyMatch(nodes, nodes[i], key, cmp)
  {
    forall m | m in nodes && cmp(m.key, key) == 0 ensures m == nodes[i] {
      var j :| 0 <= j < |nodes| && nodes[j] == m;
      NeighboursNeverBothMatch(nodes, i, j, key, cmp);
    }
  }

  /** Insertion makes the new key findable and loses none. */
  lemma FoundAfterInsert(s: Shape, node: Node, key: int, cmp: Comparator)
    requires TotalOrder(cmp, Keys(Inorder(s)) + {node.key, key}) && Sorted(Inorder(s), cmp)
    requires Found(s, key, cmp) || key == node.key
    ensures Found(Inserted(s, node, cmp), key, cmp)
  {
    var s' := Inserted(s, node, cmp);
    var keys := Keys(Inorder(s)) + {node.key, key};
    FewerOrdered(cmp, Keys(Inorder(s)) + {node.key}, keys);
    InsertedSorted(s, node, cmp);
    InsertedInorder(s, node, cmp);
    KeysOfInsertion(s, node, cmp);
    FewerOrdered(cmp, Keys(Inorder(s')) + {key}, keys);
    SearchComplete(s', key, cmp);
    assert OppositeSigns(cmp, key, key);
    if Found(s, key, cmp) {
      SearchFinds(s, key, cmp);
      assert Search(s, key, cmp).node in Inorder(s');
    } else {
      assert node in Inorder(s');
    }
  }

  lemma AbsentUnlessFound(s: Shape, node: Node, cmp: Comparator)
    requires TotalOrder(cmp, Keys(Inorder(s)) + {node.key}) && Sorted(Inorder(s), cmp)
    ensures Found(s, node.key, cmp) || (node !in Nodes(s) && node !in Inorder(s))
  {
    SearchComplete(s, node.key, cmp);
    NodesInorder(s);
    assert OppositeSigns(cmp, node.key, node.key);
  }

  lemma RootFits(s: Shape, key: int, cmp: Comparator)
    ensures Fits(Inorder(s), Position(s, key, cmp), s, key, cmp)
  {
    assert Inorder(s)[0..0 + |Inorder(s)|] == Inorder(s);
    PositionFits(Inorder(s), 0, s, key, cmp);
  }

  /** What an insertion does to the shape of a valid tree. */
  lemma InsertionShape(s: Shape, node: Node, cmp: Comparator, members: set<Node>)
    requires TotalOrder(cmp, Keys(Inorder(s)) + {node.key})
    requires members == Nodes(s) && Distinct(s) && Balanced(s) && Sorted(Inorder(s), cmp)
    ensures Found(s, node.key, cmp) || (node !in Inorder(s) && node !in members)
    ensures Fits(Inorder(s), Position(s, node.key, cmp), s, node.key, cmp)
    ensures var s' := Inserted(s, node, cmp);
      && Balanced(s') && Distinct(s') && Sorted(Inorder(s'), cmp)
      && Nodes(s') == members + (if Found(s, node.key, cmp) then {} else {node})
      && (forall n :: n in Inorder(s') ==> n in Nodes(s') && (n in members || n == node))
      && Inorder(s') == if Found(s, node.key, cmp) then Inorder(s)
                        else Spliced(Inorder(s), Position(s, node.key, cmp), node)
  {
    hide Inserted, Inorder, Nodes, Sorted, Balanced, Distinct, Fits, Position, TotalOrder, Found, Keys;
    AbsentUnlessFound(s, node, cmp);
    RootFits(s, node.key, cmp);
    NodesOfInsertion(s, node, cmp, members + {node});
    InsertedInorder(s, node, cmp);
    InsertedBalanced(s, node, cmp);
    InsertedSorted(s, node, cmp);
  }

  lemma NodesOfInsertion(s: Shape, node: Node, cmp: Comparator, u: set<Node>)
    requires Distinct(s) && (Found(s, node.key, cmp) || node !in Nodes(s))
    requires Nodes(s) <= u && node in u
    ensures Distinct(Inserted(s, node, cmp))
    ensures Nodes(Inserted(s, node, cmp)) ==
      Nodes(s) + (if Found(s, node.key, cmp) then {} else {node})
    ensures forall n :: n in Inorder(Inserted(s, node, cmp)) ==> n in Nodes(Inserted(s, node, cmp)) && n in u
  {
    var s' := Inserted(s, node, cmp);
    InsertedNodes(s, node, cmp);
    NodesInorder(s');
  }
}
