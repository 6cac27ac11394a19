/** The AVL operations on linked nodes, in place.

    Each one turns the tree that its nodes stand for into the result of the function of the
    same name in AvlTree. */
module AvlNodes {
  import opened AvlTree

  class AvlNode {
    var val: int
    var height: int
    var left: AvlNode?
    var right: AvlNode?
    /** The value the node stands for, and all the nodes it is made of. */
    ghost var tree: Tree
    ghost var repr: set<object>

    constructor (v: int)
      ensures Valid() && fresh(repr) && tree == Node(Leaf, v, 1, Leaf)
    {
      val, height := v, 1;
      left, right := null, null;
      tree, repr := Node(Leaf, v, 1, Leaf), {this};
    }

    ghost predicate Valid()
      reads this, repr
      decreases repr
    {
      && this in repr
      && (left != null ==> left in repr && left.repr <= repr && this !in left.repr && left.Valid())
      && (right != null ==> right in repr && right.repr <= repr && this !in right.repr && right.Valid())
      && ReprOf(left) !! ReprOf(right)
      && repr == {this} + ReprOf(left) + ReprOf(right)
      && tree == Node(TreeOf(left), val, height, TreeOf(right))
    }
  }

  ghost function TreeOf(n: AvlNode?): Tree
    reads n
  {
    if n == null then Leaf else n.tree
  }

  ghost function ReprOf(n: AvlNode?): set<object>
    reads n
  {
    if n == null then {} else n.repr
  }

  ghost predicate ValidOrNull(n: AvlNode?)
    reads n, ReprOf(n)
  {
    n != null ==> n in n.repr && n.Valid()
  }

  /** The node's links are in order, whatever its own height and ghost fields say. */
  ghost predicate Linked(n: AvlNode)
    reads n, n.left, n.right, ReprOf(n.left), ReprOf(n.right)
  {
    && ValidOrNull(n.left) && ValidOrNull(n.right)
    && n !in ReprOf(n.left) && n !in ReprOf(n.right) && ReprOf(n.left) !! ReprOf(n.right)
  }

  ghost function LinkedTree(n: AvlNode): Tree
    reads n, n.left, n.right
  {
    Node(TreeOf(n.left), n.val, n.height, TreeOf(n.right))
  }

  ghost function LinkedRepr(n: AvlNode): set<object>
    reads n, n.left, n.right
  {
    {n} + ReprOf(n.left) + ReprOf(n.right)
  }

  function Height(n: AvlNode?): (r: int)
    requires ValidOrNull(n)
    reads n, ReprOf(n)
    ensures r == H(TreeOf(n))
  {
    if n == null then 0 else n.height
  }

  function BalanceFactor(n: AvlNode?): (r: int)
    requires ValidOrNull(n)
    reads n, ReprOf(n)
    ensures r == Bf(TreeOf(n))
  {
    if n == null then 0 else Height(n.left) - Height(n.right)
  }

  lemma OpenNode(n: AvlNode)
    requires n.Valid()
    ensures Linked(n) && n.tree == LinkedTree(n) && n.repr == LinkedRepr(n)
  {
  }

  method UpdateHeight(n: AvlNode)
    requires Linked(n)
    modifies n
    ensures n in n.repr && n.Valid() && n.tree == AvlTree.UpdateHeight(old(LinkedTree(n))) &&
            n.repr == old(LinkedRepr(n))
    ensures n.left == old(n.left) && n.right == old(n.right) && n.val == old(n.val)
  {
    n.height := 1 + Max(Height(n.left), Height(n.right));
    n.tree, n.repr := LinkedTree(n), LinkedRepr(n);
  }

  method RotateRight(z: AvlNode) returns (y: AvlNode)
    requires Linked(z) && z.left != null
    modifies z, z.left
    ensures y in y.repr && y.Valid() && y.tree == AvlTree.RotateRight(old(LinkedTree(z))) &&
            y.repr == old(LinkedRepr(z))
  {
    hide AvlNode.Valid;
    y := z.left;
    OpenNode(y);
    var t3 := y.right;
    y.right := z;
    z.left := t3;
    UpdateHeight(z);
    UpdateHeight(y);
  }

  method RotateLeft(z: AvlNode) returns (y: AvlNode)
    requires Linked(z) && z.right != null
    modifies z, z.right
    ensures y in y.repr && y.Valid() && y.tree == AvlTree.RotateLeft(old(LinkedTree(z))) && y.repr == old(LinkedRepr(z))
  {
    hide AvlNode.Valid;
    y := z.right;
    OpenNode(y);
    var t2 := y.left;
    y.left := z;
    z.right := t2;
    UpdateHeight(z);
    UpdateHeight(y);
  }

  /** The two steps of the LR case. */
  method DoubleRight(node: AvlNode) returns (r: AvlNode)
    requires Linked(node) && node.left != null && node.left.tree.Node? && node.left.tree.right.Node?
    modifies LinkedRepr(node)
    ensures r in r.repr && r.Valid() && r.repr == old(LinkedRepr(node))
    ensures var t := old(LinkedTree(node));
            r.tree == AvlTree.RotateRight(t.(left := AvlTree.RotateLeft(t.left)))
  {
    hide AvlNode.Valid, AvlTree.RotateLeft, AvlTree.RotateRight;
    OpenNode(node.left);
    node.left := RotateLeft(node.left);
    r := RotateRight(node);
  }

  /** The two steps of the RL case. */
  method DoubleLeft(node: AvlNode) returns (r: AvlNode)
    requires Linked(node) && node.right != null && node.right.tree.Node? && node.right.tree.left.Node?
    modifies LinkedRepr(node)
    ensures r in r.repr && r.Valid() && r.repr == old(LinkedRepr(node))
    ensures var t := old(LinkedTree(node));
            r.tree == AvlTree.RotateLeft(t.(right := AvlTree.RotateRight(t.right)))
  {
    hide AvlNode.Valid, AvlTree.RotateLeft, AvlTree.RotateRight;
    OpenNode(node.right);
    node.right := RotateRight(node.right);
    r := RotateLeft(node);
  }

  /** The whole of a node whose own height may be out of date. */
  method Rebalance(node: AvlNode) returns (r: AvlNode)
    requires Linked(node) && SoundBelow(LinkedTree(node))
    modifies LinkedRepr(node)
    ensures r in r.repr && r.Valid() && r.tree == AvlTree.Rebalance(old(LinkedTree(node))) &&
            r.repr == old(LinkedRepr(node))
  {
    hide AvlNode.Valid, AvlTree.RotateLeft, AvlTree.RotateRight, Sound;
    ghost var t := LinkedTree(node);
    SoundHeight(t.left);
    SoundHeight(t.right);
    UpdateHeight(node);
    var balance := Height(node.left) - Height(node.right);
    if balance > 1 && BalanceFactor(node.left) >= 0 {
      r := RotateRight(node);
    } else if balance > 1 {
      SoundHeight(t.left.left);
      SoundHeight(t.left.right);
      r := DoubleRight(node);
    } else if balance < -1 && BalanceFactor(node.right) <= 0 {
      r := RotateLeft(node);
    } else if balance < -1 {
      SoundHeight(t.right.left);
      SoundHeight(t.right.right);
      r := DoubleLeft(node);
    } else {
      r := node;
    }
  }

  /** rebalance on a link that may be null; the source would dereference it. */
  method RebalanceOrNull(node: AvlNode?) returns (r: AvlNode?, ghost faulted: bool)
    requires ValidOrNull(node) && Sound(TreeOf(node))
    modifies ReprOf(node)
    ensures ValidOrNull(r) && ReprOf(r) == old(ReprOf(node)) && SoundBelow(old(TreeOf(node)))
    ensures TreeOf(r) == AvlTree.Rebalance(old(TreeOf(node)))
    ensures faulted <==> RebalanceAsWritten(old(TreeOf(node))).None?
  {
    SoundHeight(TreeOf(node));
    faulted := node == null;
    if node == null { return null, faulted; }
    OpenNode(node);
    hide AvlTree.Rebalance, Sound;
    r := Rebalance(node);
  }

  /** node->left = l, and rebalance. */
  method AttachLeft(node: AvlNode, l: AvlNode?) returns (r: AvlNode)
    requires ValidOrNull(l) && ValidOrNull(node.right)
    requires node !in ReprOf(l) && node !in ReprOf(node.right) && ReprOf(l) !! ReprOf(node.right)
    requires Sound(TreeOf(l)) && Sound(TreeOf(node.right))
    modifies {node} + ReprOf(l) + ReprOf(node.right)
    ensures r in r.repr && r.Valid() && r.repr == {node} + old(ReprOf(l)) + old(ReprOf(node.right))
    ensures r.tree == AvlTree.Rebalance(Node(old(TreeOf(l)), old(node.val), old(node.height), old(TreeOf(node.right))))
  {
    hide AvlNode.Valid, AvlTree.Rebalance, Sound;
    node.left := l;
    r := Rebalance(node);
  }

  /** node->right = t, and rebalance. */
  method AttachRight(node: AvlNode, t: AvlNode?) returns (r: AvlNode)
    requires ValidOrNull(t) && ValidOrNull(node.left)
    requires node !in ReprOf(t) && node !in ReprOf(node.left) && ReprOf(node.left) !! ReprOf(t)
    requires Sound(TreeOf(t)) && Sound(TreeOf(node.left))
    modifies {node} + ReprOf(t) + ReprOf(node.left)
    ensures r in r.repr && r.Valid() && r.repr == {node} + old(ReprOf(t)) + old(ReprOf(node.left))
    ensures r.tree == AvlTree.Rebalance(Node(old(TreeOf(node.left)), old(node.val), old(node.height), old(TreeOf(t))))
  {
    hide AvlNode.Valid, AvlTree.Rebalance, Sound;
    node.right := t;
    r := Rebalance(node);
  }

  method Insert(node: AvlNode?, val: int) returns (r: AvlNode)
    requires ValidOrNull(node) && Sound(TreeOf(node))
    modifies ReprOf(node)
    ensures r in r.repr && r.Valid() && fresh(r.repr - old(ReprOf(node)))
    ensures r.tree == AvlTree.Insert(old(TreeOf(node)), val)
    decreases TreeOf(node)
  {
    if node == null {
      r := new AvlNode(val);
      return;
    }
    hide AvlNode.Valid, AvlTree.Rebalance, Sound, AvlTree.Insert;
    OpenNode(node);
    InsertStep(node.tree, val);
    if val < node.val {
      var l := Insert(node.left, val);
      r := AttachLeft(node, l);
    } else if val > node.val {
      var t := Insert(node.right, val);
      r := AttachRight(node, t);
    } else {
      r := node;
    }
  }

  method FindMin(start: AvlNode) returns (node: AvlNode)
    requires start in start.repr && start.Valid()
    ensures node in start.repr && node.val == Min(start.tree)
  {
    node := start;
    while node.left != null
      invariant node in start.repr && node.repr <= start.repr && node.Valid() && Min(node.tree) == Min(start.tree)
      decreases node.tree
    {
      node := node.left;
    }
  }

  /** `faulted` tells whether the source would have dereferenced null on the way. */
  method Remove(node: AvlNode?, val: int) returns (r: AvlNode?, ghost faulted: bool)
    requires ValidOrNull(node) && Sound(TreeOf(node))
    modifies ReprOf(node)
    ensures ValidOrNull(r) && ReprOf(r) <= old(ReprOf(node))
    ensures TreeOf(r) == AvlTree.Remove(old(TreeOf(node)), val)
    ensures faulted <==> RemoveAsWritten(old(TreeOf(node)), val).None?
    decreases TreeOf(node), 1
  {
    if node == null { return null, false; }
    hide AvlNode.Valid, AvlTree.Rebalance, Sound, AvlTree.Remove, RemoveAsWritten;
    OpenNode(node);
    RemoveStep(node.tree, val);
    FaultStep(node.tree, val);
    if val < node.val {
      var l;
      l, faulted := Remove(node.left, val);
      r := AttachLeft(node, l);
    } else if val > node.val {
      var t;
      t, faulted := Remove(node.right, val);
      r := AttachRight(node, t);
    } else if node.left == null || node.right == null {
      r, faulted := RemoveSparse(node);
    } else {
      r, faulted := ReplaceBySuccessor(node);
    }
  }

  /** A node with at most one child gives way to that child. */
  method RemoveSparse(node: AvlNode) returns (r: AvlNode?, ghost faulted: bool)
    requires node in node.repr && node.Valid() && Sound(node.tree) && (node.left == null || node.right == null)
    modifies node.repr
    ensures ValidOrNull(r) && ReprOf(r) <= old(node.repr)
    ensures TreeOf(r) == AvlTree.Remove(old(node.tree), old(node.val))
    ensures faulted <==> Childless(old(node.tree))
  {
    hide AvlNode.Valid, AvlTree.Rebalance, Sound, AvlTree.Remove;
    OpenNode(node);
    RemoveStep(node.tree, node.val);
    if node.left != null { OpenNode(node.left); }
    if node.right != null { OpenNode(node.right); }
    var temp := if node.left != null then node.left else node.right;
    r, faulted := RebalanceOrNull(temp);
  }

  /** The key of a node with two children gives way to its successor's. */
  method ReplaceBySuccessor(node: AvlNode) returns (r: AvlNode, ghost faulted: bool)
    requires node in node.repr && node.Valid() && Sound(node.tree) && node.left != null && node.right != null
    modifies node.repr
    ensures r in r.repr && r.Valid() && r.repr <= old(node.repr)
    ensures r.tree == AvlTree.Remove(old(node.tree), old(node.val))
    ensures faulted <==> RemoveAsWritten(old(node.tree), old(node.val)).None?
    decreases node.tree, 0
  {
    hide AvlNode.Valid, AvlTree.Rebalance, Sound, AvlTree.Remove, RemoveAsWritten;
    OpenNode(node);
    OpenNode(node.left);
    OpenNode(node.right);
    RemoveStep(node.tree, node.val);
    FaultStep(node.tree, node.val);
    var successor := FindMin(node.right);
    node.val := successor.val;
    var t;
    t, faulted := Remove(node.right, successor.val);
    r := AttachRight(node, t);
  }

  /** Appends the keys in order. */
  method PushInorder(node: AvlNode?, v: seq<int>) returns (r: seq<int>)
    requires ValidOrNull(node)
    ensures r == v + AvlTree.Inorder(TreeOf(node))
    decreases TreeOf(node)
  {
    hide AvlNode.Valid;
    r := v;
    if node != null {
      OpenNode(node);
      r := PushInorder(node.left, r);
      r := r + [node.val];
      r := PushInorder(node.right, r);
    }
  }
}
