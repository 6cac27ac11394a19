/** AVL trees as values: what each operation makes of the tree that linked nodes stand for. */
module AvlTree {
  import opened Options

  /** `height` is what the node has stored, right or wrong. */
  datatype Tree = Leaf | Node(left: Tree, val: int, height: int, right: Tree)

  function Max(a: int, b: int): int {
    if a < b then b else a
  }

  function H(t: Tree): int {
    if t.Leaf? then 0 else t.height
  }

  function Bf(t: Tree): int {
    if t.Leaf? then 0 else H(t.left) - H(t.right)
  }

  /** Every stored height is right. */
  predicate Sound(t: Tree) {
    t.Node? ==> Sound(t.left) && Sound(t.right) && t.height == 1 + Max(H(t.left), H(t.right))
  }

  function UpdateHeight(t: Tree): (r: Tree)
    requires t.Node?
    ensures r.Node? && (Sound(t.left) && Sound(t.right) ==> Sound(r))
  {
    t.(height := 1 + Max(H(t.left), H(t.right)))
  }

  function RotateRight(z: Tree): (r: Tree)
    requires z.Node? && z.left.Node?
    ensures r.Node?
  {
    var y := z.left;
    UpdateHeight(y.(right := UpdateHeight(z.(left := y.right))))
  }

  function RotateLeft(z: Tree): (r: Tree)
    requires z.Node? && z.right.Node?
    ensures r.Node?
  {
    var y := z.right;
    UpdateHeight(y.(left := UpdateHeight(z.(right := y.left))))
  }

  ghost predicate SoundBelow(t: Tree) {
    t.Node? ==> Sound(t.left) && Sound(t.right)
  }

  lemma {:induction false} SoundHeight(t: Tree)
    requires Sound(t)
    ensures SoundBelow(t) && H(t) >= 0 && (t.Node? <==> H(t) > 0)
  {
    if t.Node? {
      SoundHeight(t.left);
      SoundHeight(t.right);
    }
  }

  /** rebalance, with the intended rebalance(nullptr) = nullptr. */
  function Rebalance(t: Tree): (r: Tree)
    requires SoundBelow(t)
    ensures Sound(r)
  {
    if t.Leaf? then Leaf
    else
      SoundHeight(t.left);
      SoundHeight(t.right);
      var n := UpdateHeight(t);
      var balance := Bf(n);
      if balance > 1 && Bf(n.left) >= 0 then RotateRight(n)
      else if balance > 1 then
        SoundHeight(n.left.left);
        SoundHeight(n.left.right);
        RotateRight(n.(left := RotateLeft(n.left)))
      else if balance < -1 && Bf(n.right) <= 0 then RotateLeft(n)
      else if balance < -1 then
        SoundHeight(n.right.left);
        SoundHeight(n.right.right);
        RotateLeft(n.(right := RotateRight(n.right)))
      else n
  }

  function Insert(t: Tree, val: int): (r: Tree)
    requires Sound(t)
    ensures Sound(r) && r.Node?
  {
    match t
    case Leaf => Node(Leaf, val, 1, Leaf)
    case Node(l, x, _, r) =>
      if val < x then Rebalance(t.(left := Insert(l, val)))
      else if val > x then Rebalance(t.(right := Insert(r, val)))
      else t
  }

  function Min(t: Tree): int
    requires t.Node?
  {
    if t.left.Leaf? then t.val else Min(t.left)
  }

  function Remove(t: Tree, val: int): (r: Tree)
    requires Sound(t)
    ensures Sound(r)
  {
    match t
    case Leaf => Leaf
    case Node(l, x, _, r) =>
      if val < x then Rebalance(t.(left := Remove(l, val)))
      else if val > x then Rebalance(t.(right := Remove(r, val)))
      else if l.Leaf? || r.Leaf? then
        SoundHeight(l);
        SoundHeight(r);
        Rebalance(if l.Node? then l else r)
      else Rebalance(t.(val := Min(r), right := Remove(r, Min(r))))
  }

  // ---------- remove as the code has it ----------

  /** rebalance dereferences its argument; None stands for a null dereference. */
  function RebalanceAsWritten(t: Tree): (r: Option<Tree>)
    requires SoundBelow(t)
    ensures r.Some? ==> Sound(r.value)
  {
    if t.Leaf? then None else Some(Rebalance(t))
  }

  function RemoveAsWritten(t: Tree, val: int): (r: Option<Tree>)
    requires Sound(t)
    ensures r.Some? ==> Sound(r.value)
  {
    match t
    case Leaf => Some(Leaf)
    case Node(l, x, _, r) =>
      if val < x then
        var l' := RemoveAsWritten(l, val);
        if l'.None? then None else RebalanceAsWritten(t.(left := l'.value))
      else if val > x then
        var r' := RemoveAsWritten(r, val);
        if r'.None? then None else RebalanceAsWritten(t.(right := r'.value))
      else if l.Leaf? || r.Leaf? then
        SoundHeight(l);
        SoundHeight(r);
        RebalanceAsWritten(if l.Node? then l else r)
      else
        var r' := RemoveAsWritten(r, Min(r));
        if r'.None? then None else RebalanceAsWritten(t.(val := Min(r), right := r'.value))
  }

  /** The subtree that a search for the key ends at. */
  function Found(t: Tree, val: int): Tree {
    if t.Leaf? || t.val == val then t else if val < t.val then Found(t.left, val) else Found(t.right, val)
  }

  function Leftmost(t: Tree): (m: Tree)
    requires t.Node?
    ensures m.Node? && m.left.Leaf? && m.val == Min(t)
  {
    if t.left.Leaf? then t else Leftmost(t.left)
  }

  predicate Childless(t: Tree) {
    t.Node? && t.left.Leaf? && t.right.Leaf?
  }

  /** The node that is taken out of the tree is the one with the key, or its successor if it
      has two children. */
  predicate TakesOutChildless(t: Tree, val: int) {
    var n := Found(t, val);
    n.Node? && Childless(if n.left.Leaf? || n.right.Leaf? then n else Leftmost(n.right))
  }

  // One step of each recursion, for the operations on linked nodes.

  lemma InsertStep(t: Tree, val: int)
    requires t.Node? && Sound(t)
    ensures Sound(t.left) && Sound(t.right)
    ensures val < t.val ==> Insert(t, val) == Rebalance(t.(left := Insert(t.left, val)))
    ensures val > t.val ==> Insert(t, val) == Rebalance(t.(right := Insert(t.right, val)))
    ensures val == t.val ==> Insert(t, val) == t
  {
  }

  lemma RemoveStep(t: Tree, val: int)
    requires t.Node? && Sound(t)
    ensures Sound(t.left) && Sound(t.right)
    ensures val < t.val ==> Remove(t, val) == Rebalance(t.(left := Remove(t.left, val)))
    ensures val > t.val ==> Remove(t, val) == Rebalance(t.(right := Remove(t.right, val)))
    ensures val == t.val && (t.left.Leaf? || t.right.Leaf?) ==>
              SoundBelow(t.left) && SoundBelow(t.right) &&
              Remove(t, val) == Rebalance(if t.left.Node? then t.left else t.right)
    ensures val == t.val && t.left.Node? && t.right.Node? ==>
              Remove(t, val) == Rebalance(t.(val := Min(t.right), right := Remove(t.right, Min(t.right))))
  {
    SoundHeight(t.left);
    SoundHeight(t.right);
  }

  /** When that recursion meets the null dereference. */
  lemma FaultStep(t: Tree, val: int)
    requires t.Node? && Sound(t)
    ensures Sound(t.left) && Sound(t.right)
    ensures RemoveAsWritten(t, val).None? <==>
            if val < t.val then RemoveAsWritten(t.left, val).None?
            else if val > t.val then RemoveAsWritten(t.right, val).None?
            else if t.left.Leaf? || t.right.Leaf? then Childless(t)
            else RemoveAsWritten(t.right, Min(t.right)).None?
  {
    hide Rebalance;
    SoundHeight(t.left);
    SoundHeight(t.right);
  }

  // ---------- Keys and search order ----------

  function Keys(t: Tree): set<int> {
    if t.Leaf? then {} else Keys(t.left) + {t.val} + Keys(t.right)
  }

  ghost predicate AllBelow(s: set<int>, x: int) {
    forall k :: k in s ==> k < x
  }

  ghost predicate AllAbove(s: set<int>, x: int) {
    forall k :: k in s ==> x < k
  }

  /** Strict search order. */
  ghost predicate Search(t: Tree) {
    t.Node? ==>
      && Search(t.left) && Search(t.right)
      && AllBelow(Keys(t.left), t.val) && AllAbove(Keys(t.right), t.val)
  }

  lemma Open(t: Tree)
    requires t.Node?
    ensures Keys(t) == Keys(t.left) + {t.val} + Keys(t.right)
    ensures Search(t) <==>
            Search(t.left) && Search(t.right) && AllBelow(Keys(t.left), t.val) && AllAbove(Keys(t.right), t.val)
  {
  }

  lemma Regroup(a: set<int>, y: int, b: set<int>, z: int, c: set<int>)
    ensures (a + {y} + b) + {z} + c == a + {y} + (b + {z} + c)
  {
  }

  /** A tree of five parts, as both rotations see it. */
  lemma FiveParts(a: set<int>, y: int, b: set<int>, z: int, c: set<int>)
    requires AllAbove(b, y) && AllBelow(b, z) && y < z
    ensures AllBelow(a, y) ==> AllBelow(a + {y} + b, z)
    ensures AllAbove(c, z) ==> AllAbove(b + {z} + c, y)
  {
  }

  lemma RotateRightKeeps(z: Tree)
    requires z.Node? && z.left.Node?
    ensures Keys(RotateRight(z)) == Keys(z)
    ensures Search(z) ==> Search(RotateRight(z))
  {
    hide AllAbove, AllBelow, Keys, Search;
    var y := z.left;
    var inner := UpdateHeight(z.(left := y.right));
    Open(z);
    Open(y);
    Open(inner);
    Open(RotateRight(z));
    var a, b, c := Keys(y.left), Keys(y.right), Keys(z.right);
    Regroup(a, y.val, b, z.val, c);
    if Search(z) {
      SplitBelow(a, y.val, b, z.val);
      FiveParts(a, y.val, b, z.val, c);
    }
  }

  lemma SplitBelow(a: set<int>, y: int, b: set<int>, z: int)
    requires AllBelow(a + {y} + b, z)
    ensures y < z && AllBelow(b, z)
  {
    assert y in a + {y} + b && b <= a + {y} + b;
  }

  lemma SplitAbove(b: set<int>, z: int, c: set<int>, y: int)
    requires AllAbove(b + {z} + c, y)
    ensures y < z && AllAbove(b, y)
  {
    assert z in b + {z} + c && b <= b + {z} + c;
  }

  lemma RotateLeftKeeps(z: Tree)
    requires z.Node? && z.right.Node?
    ensures Keys(RotateLeft(z)) == Keys(z)
    ensures Search(z) ==> Search(RotateLeft(z))
  {
    hide AllAbove, AllBelow, Keys, Search;
    var y := z.right;
    var inner := UpdateHeight(z.(right := y.left));
    Open(z);
    Open(y);
    Open(inner);
    Open(RotateLeft(z));
    var a, b, c := Keys(z.left), Keys(y.left), Keys(y.right);
    Regroup(a, z.val, b, y.val, c);
    if Search(z) {
      SplitAbove(b, y.val, c, z.val);
      FiveParts(a, z.val, b, y.val, c);
    }
  }

  lemma RebalanceKeeps(t: Tree)
    requires SoundBelow(t)
    ensures Keys(Rebalance(t)) == Keys(t)
    ensures Search(t) ==> Search(Rebalance(t))
  {
    hide AllAbove, AllBelow, Keys, Search, RotateLeft, RotateRight, Sound;
    if t.Node? {
      SoundHeight(t.left);
      SoundHeight(t.right);
      var n := UpdateHeight(t);
      Open(t);
      Open(n);
      if Bf(n) > 1 {
        if Bf(n.left) < 0 {
          SoundHeight(n.left.left);
          SoundHeight(n.left.right);
          RotateLeftKeeps(n.left);
          Open(n.(left := RotateLeft(n.left)));
          RotateRightKeeps(n.(left := RotateLeft(n.left)));
        } else {
          RotateRightKeeps(n);
        }
      } else if Bf(n) < -1 {
        if Bf(n.right) > 0 {
          SoundHeight(n.right.left);
          SoundHeight(n.right.right);
          RotateRightKeeps(n.right);
          Open(n.(right := RotateRight(n.right)));
          RotateLeftKeeps(n.(right := RotateRight(n.right)));
        } else {
          RotateLeftKeeps(n);
        }
      }
    }
  }

  /** insert adds exactly its key. */
  lemma {:induction false} InsertAdds(t: Tree, val: int)
    requires Sound(t) && Search(t)
    ensures Search(Insert(t, val)) && Keys(Insert(t, val)) == Keys(t) + {val}
  {
    hide Rebalance;
    if t.Node? {
      var l, r := t.left, t.right;
      if val < t.val {
        InsertAdds(l, val);
        RebalanceKeeps(t.(left := Insert(l, val)));
      } else if val > t.val {
        InsertAdds(r, val);
        RebalanceKeeps(t.(right := Insert(r, val)));
      }
    }
  }

  lemma {:induction false} MinIsLeast(t: Tree)
    requires t.Node? && Search(t)
    ensures Min(t) in Keys(t) && AllAbove(Keys(t) - {Min(t)}, Min(t))
  {
    Open(t);
    if t.left.Node? {
      MinIsLeast(t.left);
      assert Min(t) < t.val;
    }
    forall k | k in Keys(t) && k != Min(t)
      ensures Min(t) < k
    {
      if k in Keys(t.left) {
        assert k in Keys(t.left) - {Min(t)};
      }
    }
  }

  /** remove takes out exactly its key. */
  lemma {:induction false} RemoveTakes(t: Tree, val: int)
    requires Sound(t) && Search(t)
    ensures Search(Remove(t, val)) && Keys(Remove(t, val)) == Keys(t) - {val}
    decreases t
  {
    hide Rebalance;
    if t.Node? {
      var l, r := t.left, t.right;
      Open(t);
      SoundHeight(l);
      SoundHeight(r);
      if val < t.val {
        RemoveTakes(l, val);
        TakeLeft(Keys(l), t.val, Keys(r), val);
        Open(t.(left := Remove(l, val)));
        RebalanceKeeps(t.(left := Remove(l, val)));
      } else if val > t.val {
        RemoveTakes(r, val);
        TakeRight(Keys(l), t.val, Keys(r), val);
        Open(t.(right := Remove(r, val)));
        RebalanceKeeps(t.(right := Remove(r, val)));
      } else if l.Leaf? || r.Leaf? {
        RebalanceKeeps(if l.Node? then l else r);
        TakeMiddle(Keys(l), t.val, Keys(r));
      } else {
        MinIsLeast(r);
        RemoveTakes(r, Min(r));
        TakeMiddle(Keys(l), t.val, Keys(r));
        Open(t.(val := Min(r), right := Remove(r, Min(r))));
        RebalanceKeeps(t.(val := Min(r), right := Remove(r, Min(r))));
      }
    }
  }

  lemma TakeLeft(a: set<int>, x: int, b: set<int>, val: int)
    requires val < x && AllAbove(b, x)
    ensures (a - {val}) + {x} + b == a + {x} + b - {val}
  {
  }

  lemma TakeRight(a: set<int>, x: int, b: set<int>, val: int)
    requires val > x && AllBelow(a, x)
    ensures a + {x} + (b - {val}) == a + {x} + b - {val}
  {
  }

  lemma TakeMiddle(a: set<int>, x: int, b: set<int>)
    requires AllBelow(a, x) && AllAbove(b, x)
    ensures a + {x} + b - {x} == a + b
  {
  }

  // ---------- When remove dereferences null ----------

  lemma {:induction false} FoundIffKey(t: Tree, val: int)
    requires Search(t)
    ensures Found(t, val).Node? <==> val in Keys(t)
  {
    if t.Node? && val != t.val {
      FoundIffKey(if val < t.val then t.left else t.right, val);
    }
  }

  lemma {:induction false} FoundLeast(t: Tree)
    requires t.Node? && Search(t)
    ensures Found(t, Min(t)) == Leftmost(t)
  {
    if t.left.Node? {
      MinIsLeast(t.left);
      FoundLeast(t.left);
    }
  }

  /** As written, remove dereferences null exactly if the node it takes out has no child;
      in all other cases it does what is intended. */
  lemma {:induction false} RemoveFaultsExactly(t: Tree, val: int)
    requires Sound(t) && Search(t)
    ensures RemoveAsWritten(t, val) == if TakesOutChildless(t, val) then None else Some(Remove(t, val))
    decreases t
  {
    hide Rebalance, Search, Keys;
    if t.Node? {
      Open(t);
      SoundHeight(t.left);
      SoundHeight(t.right);
      if val != t.val {
        RemoveFaultsExactly(if val < t.val then t.left else t.right, val);
      } else if t.left.Node? && t.right.Node? {
        RemoveFaultsExactly(t.right, Min(t.right));
        FoundLeast(t.right);
      }
    }
  }

  /** The smallest case: taking the only key out of a tree. */
  lemma LastKeyFaults(k: int)
    ensures RemoveAsWritten(Insert(Leaf, k), k) == None
  {
  }

  // ---------- Balance ----------

  /** Stored heights are right and siblings differ in height by at most one. */
  predicate Balanced(t: Tree) {
    Sound(t) && (t.Node? ==> Balanced(t.left) && Balanced(t.right) && -1 <= Bf(t) <= 1)
  }

  lemma BalancedParts(t: Tree)
    requires t.Node? && Balanced(t)
    ensures Balanced(t.left) && Balanced(t.right) && -1 <= Bf(t) <= 1 && t.height == 1 + Max(H(t.left), H(t.right))
    ensures H(t.left) >= 0 && H(t.right) >= 0
  {
    SoundHeight(t.left);
    SoundHeight(t.right);
  }

  lemma BalancedNode(t: Tree)
    requires t.Node? && Balanced(t.left) && Balanced(t.right) && -1 <= Bf(t) <= 1
    ensures Balanced(UpdateHeight(t))
  {
  }

  lemma LeftLeft(z: Tree)
    requires z.Node? && z.left.Node? && Balanced(z.left) && Balanced(z.right)
    requires Bf(z) == 2 && Bf(z.left) >= 0
    ensures Balanced(RotateRight(z)) && H(z.left) <= H(RotateRight(z)) <= 1 + H(z.left)
  {
    hide Balanced, Sound;
    var y := z.left;
    BalancedParts(y);
    var inner := z.(left := y.right);
    BalancedNode(inner);
    BalancedNode(y.(right := UpdateHeight(inner)));
  }

  lemma RightRight(z: Tree)
    requires z.Node? && z.right.Node? && Balanced(z.left) && Balanced(z.right)
    requires Bf(z) == -2 && Bf(z.right) <= 0
    ensures Balanced(RotateLeft(z)) && H(z.right) <= H(RotateLeft(z)) <= 1 + H(z.right)
  {
    hide Balanced, Sound;
    var y := z.right;
    BalancedParts(y);
    var inner := z.(right := y.left);
    BalancedNode(inner);
    BalancedNode(y.(left := UpdateHeight(inner)));
  }

  lemma LeftRight(z: Tree)
    requires z.Node? && z.left.Node? && z.left.right.Node? && Balanced(z.left) && Balanced(z.right)
    requires Bf(z) == 2 && Bf(z.left) < 0
    ensures var r := RotateRight(z.(left := RotateLeft(z.left)));
            Balanced(r) && H(r) == H(z.left)
  {
    hide Balanced, Sound;
    var y, x := z.left, z.left.right;
    BalancedParts(y);
    BalancedParts(x);
    var a, b := y.(right := x.left), z.(left := x.right);
    BalancedNode(a);
    BalancedNode(b);
    BalancedNode(x.(left := UpdateHeight(a), right := UpdateHeight(b)));
  }

  lemma RightLeft(z: Tree)
    requires z.Node? && z.right.Node? && z.right.left.Node? && Balanced(z.left) && Balanced(z.right)
    requires Bf(z) == -2 && Bf(z.right) > 0
    ensures var r := RotateLeft(z.(right := RotateRight(z.right)));
            Balanced(r) && H(r) == H(z.right)
  {
    hide Balanced, Sound;
    var y, x := z.right, z.right.left;
    BalancedParts(y);
    BalancedParts(x);
    var a, b := z.(right := x.left), y.(left := x.right);
    BalancedNode(a);
    BalancedNode(b);
    BalancedNode(x.(left := UpdateHeight(a), right := UpdateHeight(b)));
  }

  /** One step out of balance is put right, at a height that differs by at most one. */
  lemma RebalanceBalances(t: Tree)
    requires t.Node? && Balanced(t.left) && Balanced(t.right) && -2 <= Bf(t) <= 2
    ensures Balanced(Rebalance(t))
    ensures Max(H(t.left), H(t.right)) <= H(Rebalance(t)) <= 1 + Max(H(t.left), H(t.right))
    ensures -1 <= Bf(t) <= 1 ==> H(Rebalance(t)) == 1 + Max(H(t.left), H(t.right))
  {
    SoundHeight(t.left);
    SoundHeight(t.right);
    var n := UpdateHeight(t);
    hide Balanced, Sound, RotateLeft, RotateRight;
    if Bf(n) > 1 {
      BalancedParts(n.left);
      SoundHeight(n.left.left);
      SoundHeight(n.left.right);
      if Bf(n.left) < 0 {
        LeftRight(n);
      } else {
        LeftLeft(n);
      }
    } else if Bf(n) < -1 {
      BalancedParts(n.right);
      SoundHeight(n.right.left);
      SoundHeight(n.right.right);
      if Bf(n.right) > 0 {
        RightLeft(n);
      } else {
        RightRight(n);
      }
    } else {
      BalancedNode(t);
    }
  }

  lemma {:induction false} InsertBalances(t: Tree, val: int)
    requires Balanced(t)
    ensures Balanced(Insert(t, val)) && H(t) <= H(Insert(t, val)) <= H(t) + 1
  {
    hide Rebalance;
    if t.Node? {
      BalancedParts(t);
      if val < t.val {
        InsertBalances(t.left, val);
        RebalanceBalances(t.(left := Insert(t.left, val)));
      } else if val > t.val {
        InsertBalances(t.right, val);
        RebalanceBalances(t.(right := Insert(t.right, val)));
      }
    }
  }

  lemma {:induction false} RemoveBalances(t: Tree, val: int)
    requires Balanced(t)
    ensures Balanced(Remove(t, val)) && H(t) - 1 <= H(Remove(t, val)) <= H(t)
    decreases t
  {
    hide Rebalance;
    if t.Node? {
      var l, r := t.left, t.right;
      BalancedParts(t);
      if val < t.val {
        RemoveBalances(l, val);
        RebalanceBalances(t.(left := Remove(l, val)));
      } else if val > t.val {
        RemoveBalances(r, val);
        RebalanceBalances(t.(right := Remove(r, val)));
      } else if l.Leaf? || r.Leaf? {
        RebalanceSettled(if l.Node? then l else r);
      } else {
        RemoveBalances(r, Min(r));
        RebalanceBalances(t.(val := Min(r), right := Remove(r, Min(r))));
      }
    }
  }

  lemma RebalanceSettled(t: Tree)
    requires Balanced(t)
    ensures SoundBelow(t) && Rebalance(t) == t
  {
    SoundHeight(t);
  }

  // ---------- Size ----------

  function Fib(n: nat): nat {
    if n < 2 then n else Fib(n - 1) + Fib(n - 2)
  }

  lemma BalancedHeight(t: Tree)
    requires Balanced(t)
    ensures H(t) >= 0
  {
    SoundHeight(t);
  }

  /** A tree of height h has at least Fib(h + 2) - 1 keys. */
  lemma {:induction false} FewestKeys(t: Tree)
    requires Balanced(t) && Search(t)
    ensures H(t) >= 0 && |Keys(t)| >= Fib(H(t) + 2) - 1
  {
    hide Balanced, Sound, Fib, Keys, Search, AllBelow, AllAbove;
    BalancedHeight(t);
    FibStep(0);
    if t.Node? {
      Open(t);
      BalancedParts(t);
      FewestKeys(t.left);
      FewestKeys(t.right);
      CountParts(Keys(t.left), t.val, Keys(t.right));
      FibOfSiblings(H(t.left), H(t.right));
    }
  }

  lemma CountParts(a: set<int>, x: int, b: set<int>)
    requires AllBelow(a, x) && AllAbove(b, x)
    ensures |a + {x} + b| == |a| + 1 + |b|
  {
    assert x !in a;
    forall k | k in b
      ensures k !in a && k != x
    {
    }
    assert |a + {x}| == |a| + 1 && (a + {x}) !! b;
  }

  lemma FibStep(n: nat)
    ensures Fib(n + 2) == Fib(n + 1) + Fib(n) && Fib(0) == 0 && Fib(1) == 1
  {
  }

  lemma FibOfSiblings(m: nat, n: nat)
    requires m - 1 <= n <= m + 1
    ensures Fib(m + 2) + Fib(n + 2) >= Fib(Max(m, n) + 3)
  {
    hide Fib;
    var k := if m < n then m else n;
    FibStep(k);
    FibStep(k + 1);
    FibStep(k + 2);
  }

  // ---------- Runs ----------

  datatype Operation = Add(key: int) | Drop(key: int)

  function Run(ops: seq<Operation>): (t: Tree)
    ensures Sound(t)
  {
    if ops == [] then Leaf
    else
      var before := Run(ops[..|ops| - 1]);
      match ops[|ops| - 1]
      case Add(k) => Insert(before, k)
      case Drop(k) => Remove(before, k)
  }

  /** The set that the same operations make. */
  function SetAfter(ops: seq<Operation>): set<int> {
    if ops == [] then {}
    else
      match ops[|ops| - 1]
      case Add(k) => SetAfter(ops[..|ops| - 1]) + {k}
      case Drop(k) => SetAfter(ops[..|ops| - 1]) - {k}
  }

  /** Every run keeps strict search order, right heights and balance, and is a finite set. */
  lemma {:induction false} RunIsAvl(ops: seq<Operation>)
    ensures Balanced(Run(ops)) && Search(Run(ops)) && Keys(Run(ops)) == SetAfter(ops)
    ensures H(Run(ops)) >= 0 && |SetAfter(ops)| >= Fib(H(Run(ops)) + 2) - 1
  {
    if ops != [] {
      var before := ops[..|ops| - 1];
      RunIsAvl(before);
      hide Insert, Remove, Balanced, Search, Keys;
      match ops[|ops| - 1] {
        case Add(k) =>
          InsertAdds(Run(before), k);
          InsertBalances(Run(before), k);
        case Drop(k) =>
          RemoveTakes(Run(before), k);
          RemoveBalances(Run(before), k);
      }
    }
    FewestKeys(Run(ops));
  }

  /** The same run with remove as it is written. */
  function RunAsWritten(ops: seq<Operation>): (r: Option<Tree>)
    ensures r.Some? ==> Sound(r.value)
  {
    if ops == [] then Some(Leaf)
    else
      var before := RunAsWritten(ops[..|ops| - 1]);
      if before.None? then None
      else
        match ops[|ops| - 1]
        case Add(k) => Some(Insert(before.value, k))
        case Drop(k) => RemoveAsWritten(before.value, k)
  }

  ghost predicate FaultsAt(ops: seq<Operation>, k: nat) {
    k < |ops| && ops[k].Drop? && TakesOutChildless(Run(ops[..k]), ops[k].key)
  }

  /** A run faults exactly if some removal in it takes out a childless node; every other run
      ends in the intended tree. */
  lemma {:induction false} RunFaultsExactly(ops: seq<Operation>)
    ensures RunAsWritten(ops) == if exists k: nat :: FaultsAt(ops, k) then None else Some(Run(ops))
  {
    hide Insert, Remove, RemoveAsWritten, TakesOutChildless, FaultsAt, Balanced, Search, Keys, Sound;
    if ops == [] {
      NoFaultYet();
    } else {
      var n := |ops| - 1;
      RunFaultsExactly(ops[..n]);
      RunIsAvl(ops[..n]);
      forall k: nat
        ensures FaultsAt(ops, k) <==> FaultsAt(ops[..n], k) || (k == n && FaultsAt(ops, n))
      {
        FaultsBefore(ops, k);
      }
      LastFault(ops);
      if ops[n].Drop? {
        RemoveFaultsExactly(Run(ops[..n]), ops[n].key);
      }
    }
  }

  lemma NoFaultYet()
    ensures forall k: nat :: !FaultsAt([], k)
  {
  }

  lemma FaultsBefore(ops: seq<Operation>, k: nat)
    requires ops != []
    ensures var n := |ops| - 1; FaultsAt(ops, k) <==> FaultsAt(ops[..n], k) || (k == n && FaultsAt(ops, n))
  {
    hide Run, TakesOutChildless;
    if k < |ops| - 1 {
      assert ops[..|ops| - 1][..k] == ops[..k];
    }
  }

  lemma LastFault(ops: seq<Operation>)
    requires ops != []
    ensures var n := |ops| - 1;
            FaultsAt(ops, n) <==> ops[n].Drop? && TakesOutChildless(Run(ops[..n]), ops[n].key)
  {
  }

  function Inorder(t: Tree): seq<int> {
    if t.Leaf? then [] else Inorder(t.left) + [t.val] + Inorder(t.right)
  }

  /** inorder lists the keys in ascending order, each once. */
  lemma {:induction false} InorderAscends(t: Tree)
    requires Search(t)
    ensures forall i, j :: 0 <= i < j < |Inorder(t)| ==> Inorder(t)[i] < Inorder(t)[j]
    ensures forall k :: k in Inorder(t) <==> k in Keys(t)
  {
    if t.Node? {
      InorderAscends(t.left);
      InorderAscends(t.right);
      var a, b := Inorder(t.left), Inorder(t.right);
      forall i | 0 <= i < |a|
        ensures a[i] < t.val
      {
        assert a[i] in Keys(t.left);
      }
      forall j | 0 <= j < |b|
        ensures t.val < b[j]
      {
        assert b[j] in Keys(t.right);
      }
      assert t.val in Inorder(t) by { assert Inorder(t)[|a|] == t.val; }
    }
  }
}
