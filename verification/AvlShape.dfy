/** The AVL algorithm on immutable shapes: what an insertion does to the tree of nodes,
    independently of the pointers that represent it.  The heap code in AvlTree is proved to
    follow these functions; the search-tree and balance theorems are proved about them. */
module AvlShape {

  /** A node of the tree.  `key` stands for the record that embeds the node. */
  class Node {
    const key: int
    var left: Node?
    var right: Node?
    var height: int
    var prev: Node?
    var next: Node?

    constructor (key: int)
      ensures this.key == key
    {
      this.key := key;
    }
  }

  /** A comparator in the source's convention: negative when the first key is the larger one. */
  type Comparator = (int, int) -> int

  datatype Shape = Leaf | Branch(left: Shape, node: Node, right: Shape)

  function Inorder(s: Shape): seq<Node> {
    match s
    case Leaf => []
    case Branch(l, n, r) => Inorder(l) + [n] + Inorder(r)
  }

  function Height(s: Shape): nat {
    match s
    case Leaf => 0
    case Branch(l, n, r) => Max(Height(l), Height(r)) + 1
  }

  function Max(a: int, b: int): int {
    if a > b then a else b
  }

  function BalanceFactor(s: Shape): int {
    match s
    case Leaf => 0
    case Branch(l, n, r) => Height(l) - Height(r)
  }

  ghost predicate Balanced(s: Shape) {
    match s
    case Leaf => true
    case Branch(l, n, r) => Balanced(l) && Balanced(r) && -1 <= Height(l) - Height(r) <= 1
  }

  // ---------- the algorithm on shapes ----------

  function RotatedRight(s: Shape): Shape
    requires s.Branch? && s.left.Branch?
  {
    var c := s.left;
    Branch(c.left, c.node, Branch(c.right, s.node, s.right))
  }

  function RotatedLeft(s: Shape): Shape
    requires s.Branch? && s.right.Branch?
  {
    var c := s.right;
    Branch(Branch(s.left, s.node, c.left), c.node, c.right)
  }

  /** The four-way rebalancing at the end of an insertion step. */
  function Rebalanced(s: Shape): Shape
    requires s.Branch?
  {
    if BalanceFactor(s) < -1 then
      RotatedLeft(if BalanceFactor(s.right) > 0 then s.(right := RotatedRight(s.right)) else s)
    else if BalanceFactor(s) > 1 then
      RotatedRight(if BalanceFactor(s.left) < 0 then s.(left := RotatedLeft(s.left)) else s)
    else
      s
  }

  function Inserted(s: Shape, n: Node, cmp: Comparator): Shape {
    match s
    case Leaf => Branch(Leaf, n, Leaf)
    case Branch(l, m, r) =>
      var c := cmp(m.key, n.key);
      if c < 0 then Rebalanced(Branch(Inserted(l, n, cmp), m, r))
      else if c > 0 then Rebalanced(Branch(l, m, Inserted(r, n, cmp)))
      else s
  }

  function Search(s: Shape, key: int, cmp: Comparator): Shape {
    match s
    case Leaf => Leaf
    case Branch(l, m, r) =>
      var c := cmp(m.key, key);
      if c < 0 then Search(l, key, cmp)
      else if c > 0 then Search(r, key, cmp)
      else s
  }

  predicate Found(s: Shape, key: int, cmp: Comparator) {
    Search(s, key, cmp).Branch?
  }

  /** How many nodes of the traversal the search for `key` leaves on its left. */
  function Position(s: Shape, key: int, cmp: Comparator): (p: nat)
    ensures p <= |Inorder(s)|
  {
    match s
    case Leaf => 0
    case Branch(l, m, r) =>
      if cmp(m.key, key) < 0 then Position(l, key, cmp)
      else |Inorder(l)| + 1 + Position(r, key, cmp)
  }

  // ---------- order ----------

  /** The comparator orders these keys totally; distinct keys may compare equal. */
  ghost predicate TotalOrder(cmp: Comparator, keys: set<int>) {
    && (forall a, b :: a in keys && b in keys ==> OppositeSigns(cmp, a, b))
    && (forall a, b, c :: a in keys && b in keys && c in keys ==> TransitiveAt(cmp, a, b, c))
  }

  function Keys(nodes: seq<Node>): set<int> {
    set n | n in nodes :: n.key
  }

  ghost predicate KeysIn(nodes: seq<Node>, keys: set<int>) {
    forall i :: 0 <= i < |nodes| ==> nodes[i].key in keys
  }

  ghost predicate OppositeSigns(cmp: Comparator, a: int, b: int) {
    cmp(a, b) > 0 <==> cmp(b, a) < 0
  }

  ghost predicate TransitiveAt(cmp: Comparator, a: int, b: int, c: int) {
    cmp(a, b) >= 0 && cmp(b, c) >= 0 ==> cmp(a, c) >= 0
  }

  /** Strictly increasing under the comparator. */
  ghost predicate Sorted(nodes: seq<Node>, cmp: Comparator) {
    forall i: nat, j: nat :: i < j < |nodes| ==> Precedes(nodes, i, j, cmp)
  }

  ghost predicate Precedes(nodes: seq<Node>, i: nat, j: nat, cmp: Comparator)
    requires i < |nodes| && j < |nodes|
  {
    cmp(nodes[i].key, nodes[j].key) > 0
  }

  ghost predicate AllBelow(nodes: seq<Node>, key: int, cmp: Comparator) {
    forall i :: 0 <= i < |nodes| ==> cmp(nodes[i].key, key) > 0
  }

  ghost predicate AllAbove(nodes: seq<Node>, key: int, cmp: Comparator) {
    forall i :: 0 <= i < |nodes| ==> cmp(key, nodes[i].key) > 0
  }

  ghost predicate NoDuplicates(nodes: seq<Node>) {
    forall i, j :: 0 <= i < j < |nodes| ==> nodes[i] != nodes[j]
  }

  lemma Transitive(cmp: Comparator, keys: set<int>, a: int, b: int, c: int)
    requires TotalOrder(cmp, keys) && a in keys && b in keys && c in keys
    ensures cmp(a, b) > 0 && cmp(b, c) >= 0 ==> cmp(a, c) > 0
    ensures cmp(a, b) >= 0 && cmp(b, c) > 0 ==> cmp(a, c) > 0
    ensures cmp(a, b) == 0 <==> cmp(b, a) == 0
    ensures cmp(a, b) > 0 <==> cmp(b, a) < 0
  {
    assert TransitiveAt(cmp, b, c, a) && TransitiveAt(cmp, c, a, b);
    assert OppositeSigns(cmp, a, b) && OppositeSigns(cmp, b, a);
    assert OppositeSigns(cmp, b, c) && OppositeSigns(cmp, c, b);
    assert OppositeSigns(cmp, a, c) && OppositeSigns(cmp, c, a);
  }

  lemma BelowTransitive(nodes: seq<Node>, m: int, key: int, cmp: Comparator, keys: set<int>)
    requires TotalOrder(cmp, keys) && KeysIn(nodes, keys) && m in keys && key in keys
    requires AllBelow(nodes, m, cmp) && cmp(m, key) >= 0
    ensures AllBelow(nodes, key, cmp)
  {
    forall i | 0 <= i < |nodes| ensures cmp(nodes[i].key, key) > 0 {
      Transitive(cmp, keys, nodes[i].key, m, key);
    }
  }

  lemma AboveTransitive(nodes: seq<Node>, m: int, key: int, cmp: Comparator, keys: set<int>)
    requires TotalOrder(cmp, keys) && KeysIn(nodes, keys) && m in keys && key in keys
    requires AllAbove(nodes, m, cmp) && cmp(key, m) >= 0
    ensures AllAbove(nodes, key, cmp)
  {
    forall i | 0 <= i < |nodes| ensures cmp(key, nodes[i].key) > 0 {
      Transitive(cmp, keys, key, m, nodes[i].key);
    }
  }

  /** A sorted sequence splits around any of its nodes into two sorted sides. */
  lemma SortedAround(a: seq<Node>, m: Node, b: seq<Node>, cmp: Comparator)
    requires Sorted(a + [m] + b, cmp)
    ensures Sorted(a, cmp) && Sorted(b, cmp) && AllBelow(a, m.key, cmp) && AllAbove(b, m.key, cmp)
  {
    var all := a + [m] + b;
    forall i: nat, j: nat | i < j < |a| ensures Precedes(a, i, j, cmp) {
      assert Precedes(all, i, j, cmp);
    }
    forall i: nat, j: nat | i < j < |b| ensures Precedes(b, i, j, cmp) {
      assert Precedes(all, |a| + 1 + i, |a| + 1 + j, cmp);
    }
    forall i | 0 <= i < |a| ensures cmp(a[i].key, m.key) > 0 {
      assert Precedes(all, i, |a|, cmp);
    }
    forall i | 0 <= i < |b| ensures cmp(m.key, b[i].key) > 0 {
      assert Precedes(all, |a|, |a| + 1 + i, cmp);
    }
  }

  lemma SortedInsert(a: seq<Node>, m: Node, b: seq<Node>, cmp: Comparator)
    requires Sorted(a + b, cmp) && AllBelow(a, m.key, cmp) && AllAbove(b, m.key, cmp)
    ensures Sorted(a + [m] + b, cmp)
  {
    var all, before := a + [m] + b, a + b;
    forall i: nat, j: nat | i < j < |all| ensures Precedes(all, i, j, cmp) {
      if i != |a| && j != |a| {
        assert Precedes(before, if i < |a| then i else i - 1, if j < |a| then j else j - 1, cmp);
      }
    }
  }

  // ---------- rotations keep the traversal ----------

  lemma RotatedRightInorder(s: Shape)
    requires s.Branch? && s.left.Branch?
    ensures Inorder(RotatedRight(s)) == Inorder(s)
  {
    var c := s.left;
    assert (Inorder(c.left) + [c.node] + Inorder(c.right)) + [s.node] + Inorder(s.right)
        == Inorder(c.left) + [c.node] + (Inorder(c.right) + [s.node] + Inorder(s.right));
  }

  lemma RotatedLeftInorder(s: Shape)
    requires s.Branch? && s.right.Branch?
    ensures Inorder(RotatedLeft(s)) == Inorder(s)
  {
    var c := s.right;
    assert (Inorder(s.left) + [s.node] + Inorder(c.left)) + [c.node] + Inorder(c.right)
        == Inorder(s.left) + [s.node] + (Inorder(c.left) + [c.node] + Inorder(c.right));
  }

  lemma RebalancedInorder(s: Shape)
    requires s.Branch?
    ensures Inorder(Rebalanced(s)) == Inorder(s)
  {
    if BalanceFactor(s) < -1 {
      if BalanceFactor(s.right) > 0 {
        RotatedRightInorder(s.right);
        RotatedLeftInorder(s.(right := RotatedRight(s.right)));
      } else {
        RotatedLeftInorder(s);
      }
    } else if BalanceFactor(s) > 1 {
      if BalanceFactor(s.left) < 0 {
        RotatedLeftInorder(s.left);
        RotatedRightInorder(s.(left := RotatedLeft(s.left)));
      } else {
        RotatedRightInorder(s);
      }
    }
  }

  lemma SpliceLeft(a: seq<Node>, p: nat, n: Node, m: Node, b: seq<Node>)
    requires p <= |a|
    ensures (a[..p] + [n] + a[p..]) + [m] + b == (a + [m] + b)[..p] + [n] + (a + [m] + b)[p..]
  {
  }

  lemma SpliceRight(a: seq<Node>, m: Node, b: seq<Node>, p: nat, n: Node)
    requires p <= |b|
    ensures a + [m] + (b[..p] + [n] + b[p..])
         == (a + [m] + b)[..|a| + 1 + p] + [n] + (a + [m] + b)[|a| + 1 + p..]
  {
  }

  /** Inserting adds the node at the search position of the traversal, or changes nothing. */
  lemma {:induction false} InsertedInorder(s: Shape, n: Node, cmp: Comparator)
    ensures Found(s, n.key, cmp) ==> Inorder(Inserted(s, n, cmp)) == Inorder(s)
    ensures !Found(s, n.key, cmp) ==>
      var p := Position(s, n.key, cmp);
      Inorder(Inserted(s, n, cmp)) == Inorder(s)[..p] + [n] + Inorder(s)[p..]
    decreases s, 1
  {
    if s.Branch? {
      var c := cmp(s.node.key, n.key);
      if c < 0 {
        InsertedLeftInorder(s, n, cmp);
      } else if c > 0 {
        InsertedRightInorder(s, n, cmp);
      }
    }
  }

  lemma {:induction false} InsertedLeftInorder(s: Shape, n: Node, cmp: Comparator)
    requires s.Branch? && cmp(s.node.key, n.key) < 0
    ensures Found(s, n.key, cmp) ==> Inorder(Inserted(s, n, cmp)) == Inorder(s)
    ensures !Found(s, n.key, cmp) ==>
      var p := Position(s, n.key, cmp);
      Inorder(Inserted(s, n, cmp)) == Inorder(s)[..p] + [n] + Inorder(s)[p..]
    decreases s, 0
  {
    InsertedInorder(s.left, n, cmp);
    RebalancedInorder(Branch(Inserted(s.left, n, cmp), s.node, s.right));
    SpliceLeft(Inorder(s.left), Position(s.left, n.key, cmp), n, s.node, Inorder(s.right));
  }

  lemma {:induction false} InsertedRightInorder(s: Shape, n: Node, cmp: Comparator)
    requires s.Branch? && cmp(s.node.key, n.key) > 0
    ensures Found(s, n.key, cmp) ==> Inorder(Inserted(s, n, cmp)) == Inorder(s)
    ensures !Found(s, n.key, cmp) ==>
      var p := Position(s, n.key, cmp);
      Inorder(Inserted(s, n, cmp)) == Inorder(s)[..p] + [n] + Inorder(s)[p..]
    decreases s, 0
  {
    InsertedInorder(s.right, n, cmp);
    RebalancedInorder(Branch(s.left, s.node, Inserted(s.right, n, cmp)));
    SpliceRight(Inorder(s.left), s.node, Inorder(s.right), Position(s.right, n.key, cmp), n);
  }

  // ---------- balance ----------

  lemma RightHeavyRebalanced(s: Shape)
    requires s.Branch? && Balanced(s.left) && Balanced(s.right) && BalanceFactor(s) == -2
    ensures Balanced(Rebalanced(s))
    ensures Height(s) - 1 <= Height(Rebalanced(s)) <= Height(s)
  {
    var r := s.right;
    if BalanceFactor(r) > 0 {
      assert Rebalanced(s) ==
        Branch(Branch(s.left, s.node, r.left.left), r.left.node, Branch(r.left.right, r.node, r.right));
    } else {
      assert Rebalanced(s) == Branch(Branch(s.left, s.node, r.left), r.node, r.right);
    }
  }

  lemma LeftHeavyRebalanced(s: Shape)
    requires s.Branch? && Balanced(s.left) && Balanced(s.right) && BalanceFactor(s) == 2
    ensures Balanced(Rebalanced(s))
    ensures Height(s) - 1 <= Height(Rebalanced(s)) <= Height(s)
  {
    var l := s.left;
    if BalanceFactor(l) < 0 {
      assert Rebalanced(s) ==
        Branch(Branch(l.left, l.node, l.right.left), l.right.node, Branch(l.right.right, s.node, s.right));
    } else {
      assert Rebalanced(s) == Branch(l.left, l.node, Branch(l.right, s.node, s.right));
    }
  }

  lemma {:induction false} InsertedBalanced(s: Shape, n: Node, cmp: Comparator)
    requires Balanced(s)
    ensures Balanced(Inserted(s, n, cmp))
    ensures Height(s) <= Height(Inserted(s, n, cmp)) <= Height(s) + 1
    ensures Found(s, n.key, cmp) ==> Inserted(s, n, cmp) == s
  {
    match s
    case Leaf =>
    case Branch(l, m, r) =>
      var c := cmp(m.key, n.key);
      if c < 0 {
        InsertedBalanced(l, n, cmp);
        var t := Branch(Inserted(l, n, cmp), m, r);
        if BalanceFactor(t) == 2 {
          LeftHeavyRebalanced(t);
        }
      } else if c > 0 {
        InsertedBalanced(r, n, cmp);
        var t := Branch(l, m, Inserted(r, n, cmp));
        if BalanceFactor(t) == -2 {
          RightHeavyRebalanced(t);
        }
      }
  }

  /** The fewest nodes a balanced tree of height h can have. */
  function MinNodes(h: nat): nat {
    if h == 0 then 0 else if h == 1 then 1 else MinNodes(h - 1) + MinNodes(h - 2) + 1
  }

  lemma {:induction false} MinNodesMonotone(h: nat)
    ensures MinNodes(h) <= MinNodes(h + 1)
  {
    if h >= 2 {
      MinNodesMonotone(h - 1);
      MinNodesMonotone(h - 2);
    }
  }

  /** A balanced tree of height h has at least the Fibonacci-style minimum number of nodes. */
  lemma {:induction false} BalancedSize(s: Shape)
    requires Balanced(s)
    ensures |Inorder(s)| >= MinNodes(Height(s))
  {
    match s
    case Leaf =>
    case Branch(l, n, r) =>
      BalancedSize(l);
      BalancedSize(r);
      var h := Max(Height(l), Height(r));
      if h >= 1 {
        MinNodesMonotone(h - 1);
      }
  }

  // ---------- search ----------

  lemma {:induction false} SearchFinds(s: Shape, key: int, cmp: Comparator)
    requires Found(s, key, cmp)
    ensures Search(s, key, cmp).node in Inorder(s)
    ensures cmp(Search(s, key, cmp).node.key, key) == 0
  {
    var c := cmp(s.node.key, key);
    if c < 0 {
      SearchFinds(s.left, key, cmp);
    } else if c > 0 {
      SearchFinds(s.right, key, cmp);
    }
  }

  /** Everything before position p is smaller than the key, everything from it on larger. */
  ghost predicate SplitAt(nodes: seq<Node>, p: nat, key: int, cmp: Comparator)
    requires p <= |nodes|
  {
    AllBelow(nodes[..p], key, cmp) && AllAbove(nodes[p..], key, cmp)
  }

  lemma SplitLeft(a: seq<Node>, m: Node, b: seq<Node>, p: nat, key: int, cmp: Comparator)
    requires p <= |a| && SplitAt(a, p, key, cmp) && cmp(key, m.key) > 0 && AllAbove(b, key, cmp)
    ensures SplitAt(a + [m] + b, p, key, cmp)
  {
    var all := a + [m] + b;
    assert all[..p] == a[..p];
    assert all[p..] == a[p..] + [m] + b;
  }

  lemma SplitRight(a: seq<Node>, m: Node, b: seq<Node>, p: nat, key: int, cmp: Comparator)
    requires p <= |b| && AllBelow(a, key, cmp) && cmp(m.key, key) > 0 && SplitAt(b, p, key, cmp)
    ensures SplitAt(a + [m] + b, |a| + 1 + p, key, cmp)
  {
    var all := a + [m] + b;
    assert all[..|a| + 1 + p] == a + [m] + b[..p];
    assert all[|a| + 1 + p..] == b[p..];
  }

  lemma KeysAround(a: seq<Node>, m: Node, b: seq<Node>, keys: set<int>)
    requires KeysIn(a + [m] + b, keys)
    ensures KeysIn(a, keys) && m.key in keys && KeysIn(b, keys)
  {
    var all := a + [m] + b;
    assert all[|a|] == m;
    assert forall i :: 0 <= i < |a| ==> all[i] == a[i];
    assert forall i :: 0 <= i < |b| ==> all[|a| + 1 + i] == b[i];
  }

  /** Unless the search succeeds, its position splits the traversal around the key. */
  lemma {:induction false} PositionSplits(s: Shape, key: int, cmp: Comparator, keys: set<int>)
    requires TotalOrder(cmp, keys) && KeysIn(Inorder(s), keys) && key in keys
    requires Sorted(Inorder(s), cmp) && !Found(s, key, cmp)
    ensures SplitAt(Inorder(s), Position(s, key, cmp), key, cmp)
  {
    match s
    case Leaf =>
    case Branch(l, m, r) =>
      SortedAround(Inorder(l), m, Inorder(r), cmp);
      KeysAround(Inorder(l), m, Inorder(r), keys);
      if cmp(m.key, key) < 0 {
        PositionSplits(l, key, cmp, keys);
        Transitive(cmp, keys, key, m.key, m.key);
        AboveTransitive(Inorder(r), m.key, key, cmp, keys);
        SplitLeft(Inorder(l), m, Inorder(r), Position(l, key, cmp), key, cmp);
      } else {
        PositionSplits(r, key, cmp, keys);
        BelowTransitive(Inorder(l), m.key, key, cmp, keys);
        SplitRight(Inorder(l), m, Inorder(r), Position(r, key, cmp), key, cmp);
      }
  }

  /** A linear scan of the traversal for a node that compares equal to the key. */
  ghost predicate OnlyMatch(nodes: seq<Node>, n: Node, key: int, cmp: Comparator) {
    n in nodes && cmp(n.key, key) == 0 && forall m :: m in nodes && cmp(m.key, key) == 0 ==> m == n
  }

  ghost predicate NoMatch(nodes: seq<Node>, key: int, cmp: Comparator) {
    forall m :: m in nodes ==> cmp(m.key, key) != 0
  }

  lemma NeighboursNeverBothMatch(nodes: seq<Node>, i: nat, j: nat, key: int, cmp: Comparator)
    requires TotalOrder(cmp, Keys(nodes) + {key}) && Sorted(nodes, cmp) && i < |nodes| && j < |nodes|
    requires cmp(nodes[i].key, key) == 0 && cmp(nodes[j].key, key) == 0
    ensures i == j
  {
    assert i < j ==> Precedes(nodes, i, j, cmp);
    assert j < i ==> Precedes(nodes, j, i, cmp);
    var keys := Keys(nodes) + {key};
    Transitive(cmp, keys, nodes[i].key, nodes[j].key, key);
    Transitive(cmp, keys, nodes[j].key, nodes[i].key, key);
  }

  /** In a search tree the search succeeds exactly when some node compares equal to the key,
      and it returns the only such node. */
  lemma SearchComplete(s: Shape, key: int, cmp: Comparator)
    requires TotalOrder(cmp, Keys(Inorder(s)) + {key}) && Sorted(Inorder(s), cmp)
    ensures Found(s, key, cmp) ==> OnlyMatch(Inorder(s), Search(s, key, cmp).node, key, cmp)
    ensures !Found(s, key, cmp) ==> NoMatch(Inorder(s), key, cmp)
  {
    var L := Inorder(s);
    if Found(s, key, cmp) {
      SearchFinds(s, key, cmp);
      var n := Search(s, key, cmp).node;
      var i :| 0 <= i < |L| && L[i] == n;
      forall m | m in L && cmp(m.key, key) == 0 ensures m == n {
        var j :| 0 <= j < |L| && L[j] == m;
        NeighboursNeverBothMatch(L, i, j, key, cmp);
      }
    } else {
      var keys := Keys(L) + {key};
      PositionSplits(s, key, cmp, keys);
      var p := Position(s, key, cmp);
      forall m | m in L ensures cmp(m.key, key) != 0 {
        var j :| 0 <= j < |L| && L[j] == m;
        if j < p {
          assert L[..p][j] == m;
        } else {
          assert L[p..][j - p] == m;
          Transitive(cmp, keys, key, m.key, m.key);
        }
      }
    }
  }

  /** An insertion keeps the traversal strictly increasing. */
  lemma InsertedSorted(s: Shape, n: Node, cmp: Comparator)
    requires TotalOrder(cmp, Keys(Inorder(s)) + {n.key}) && Sorted(Inorder(s), cmp)
    ensures Sorted(Inorder(Inserted(s, n, cmp)), cmp)
  {
    InsertedInorder(s, n, cmp);
    if !Found(s, n.key, cmp) {
      PositionSplits(s, n.key, cmp, Keys(Inorder(s)) + {n.key});
      var p := Position(s, n.key, cmp);
      assert Inorder(s) == Inorder(s)[..p] + Inorder(s)[p..];
      SortedInsert(Inorder(s)[..p], n, Inorder(s)[p..], cmp);
    }
  }
}
