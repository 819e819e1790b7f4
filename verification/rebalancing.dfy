/** rebalance and the four rotations.

    In the C code every single rotation ends by calling rebalance on the new
    subtree root, and rebalance calls the rotations, so the five functions are
    mutually recursive.  Termination is not evident from the shapes alone, so
    the recursion carries `fuel`: a call that finds the node out of balance
    with no fuel left returns it as it is.  `RebalanceFuel` is the amount the
    directory operations pass; `RebalanceRestores` shows it is enough for
    every node that insertion and deletion hand to rebalance. */
module Rebalancing {
  import opened AvlTree

  const RebalanceFuel: nat := 2

  /** rebalance: rotate when the balance factor leaves [-1, 1]. */
  function Rebalance(t: Tree, fuel: nat): (r: Tree)
    ensures InOrder(r) == InOrder(t)
    ensures t.Node? ==> r.Node?
    decreases fuel, 0
  {
    var balance := BalanceFactor(t);
    if balance > 1 && fuel > 0 then
      if BalanceFactor(t.left) >= 0 then RotateRight(t, fuel - 1)
      else RotateLeftThenRight(t, fuel - 1)
    else if balance < -1 && fuel > 0 then
      if BalanceFactor(t.right) <= 0 then RotateLeft(t, fuel - 1)
      else RotateRightThenLeft(t, fuel - 1)
    else t
  }

  /** rotateLeft: the right child becomes the subtree root. */
  function RotateLeft(t: Tree, fuel: nat): (r: Tree)
    requires t.Node? && t.right.Node?
    ensures r.Node? && InOrder(r) == InOrder(t)
    decreases fuel, 1
  {
    var p := t.right;
    var rotated := MakeNode(MakeNode(t.left, t.alias, t.ip, p.left), p.alias, p.ip, p.right);
    assert InOrder(rotated) == InOrder(t);
    Rebalance(rotated, fuel)
  }

  /** rotateRight: the left child becomes the subtree root. */
  function RotateRight(t: Tree, fuel: nat): (r: Tree)
    requires t.Node? && t.left.Node?
    ensures r.Node? && InOrder(r) == InOrder(t)
    decreases fuel, 1
  {
    var p := t.left;
    var rotated := MakeNode(p.left, p.alias, p.ip, MakeNode(p.right, t.alias, t.ip, t.right));
    assert InOrder(rotated) == InOrder(t);
    Rebalance(rotated, fuel)
  }

  /** rotateLeftThenRight. */
  function RotateLeftThenRight(t: Tree, fuel: nat): (r: Tree)
    requires t.Node? && t.left.Node? && t.left.right.Node?
    ensures r.Node? && InOrder(r) == InOrder(t)
    decreases fuel, 2
  {
    var l := RotateLeft(t.left, fuel);
    Rebalance(RotateRight(MakeNode(l, t.alias, t.ip, t.right), fuel), fuel)
  }

  /** rotateRightThenLeft. */
  function RotateRightThenLeft(t: Tree, fuel: nat): (r: Tree)
    requires t.Node? && t.right.Node? && t.right.left.Node?
    ensures r.Node? && InOrder(r) == InOrder(t)
    decreases fuel, 2
  {
    var r := RotateRight(t.right, fuel);
    Rebalance(RotateLeft(MakeNode(t.left, t.alias, t.ip, r), fuel), fuel)
  }

  /** A node already in balance comes back unchanged, on any fuel. */
  lemma RebalanceOfBalanced(t: Tree, fuel: nat)
    requires -1 <= BalanceFactor(t) <= 1
    ensures Rebalance(t, fuel) == t
  {
  }

  // ---------------------------------------------------------------------
  // The four cases insertion and deletion produce.  Throughout, the node's
  // children are AVL trees with correct heights and their heights differ by 2.

  /** Left-left: one right rotation, and its trailing rebalance finds nothing to do. */
  lemma LeftLeftCase(t: Tree, fuel: nat)
    requires t.Node? && IsAvl(t.left) && IsAvl(t.right)
    requires Height(t.left) == Height(t.right) + 2 && BalanceFactor(t.left) >= 0
    ensures RotateRight(t, fuel)
         == MakeNode(t.left.left, t.left.alias, t.left.ip, MakeNode(t.left.right, t.alias, t.ip, t.right))
    ensures IsAvl(RotateRight(t, fuel))
    ensures Height(t.left) <= Height(RotateRight(t, fuel)) <= Height(t.left) + 1
  {
    var p := t.left;
    AvlChildren(p);
    var w := MakeNode(p.right, t.alias, t.ip, t.right);
    AvlMakeNode(p.right, t.alias, t.ip, t.right);
    var v := MakeNode(p.left, p.alias, p.ip, w);
    AvlMakeNode(p.left, p.alias, p.ip, w);
    RebalanceOfBalanced(v, fuel);
  }

  /** Right-right: the mirror image. */
  lemma RightRightCase(t: Tree, fuel: nat)
    requires t.Node? && IsAvl(t.left) && IsAvl(t.right)
    requires Height(t.right) == Height(t.left) + 2 && BalanceFactor(t.right) <= 0
    ensures RotateLeft(t, fuel)
         == MakeNode(MakeNode(t.left, t.alias, t.ip, t.right.left), t.right.alias, t.right.ip, t.right.right)
    ensures IsAvl(RotateLeft(t, fuel))
    ensures Height(t.right) <= Height(RotateLeft(t, fuel)) <= Height(t.right) + 1
  {
    var p := t.right;
    AvlChildren(p);
    var w := MakeNode(t.left, t.alias, t.ip, p.left);
    AvlMakeNode(t.left, t.alias, t.ip, p.left);
    var v := MakeNode(w, p.alias, p.ip, p.right);
    AvlMakeNode(w, p.alias, p.ip, p.right);
    RebalanceOfBalanced(v, fuel);
  }

  /** The inner rotateLeft of the left-right case, on a child `l` = (a, x, (bl, b, br))
      whose right side is one taller.  When `bl` is the taller grandchild the
      trailing rebalance rotates straight back and `l` comes back unchanged. */
  lemma InnerRotateLeft(l: Tree, fuel: nat)
    requires l.Node? && IsAvl(l) && BalanceFactor(l) == -1
    requires fuel >= 1
    ensures l.right.Node?
    ensures Height(l.right.right) < Height(l.right.left) ==> RotateLeft(l, fuel) == l
    ensures Height(l.right.right) >= Height(l.right.left) ==>
      RotateLeft(l, fuel) == MakeNode(MakeNode(l.left, l.alias, l.ip, l.right.left), l.right.alias, l.right.ip, l.right.right)
  {
    AvlChildren(l);
    var b := l.right;
    AvlChildren(b);
    var t1 := MakeNode(MakeNode(l.left, l.alias, l.ip, b.left), b.alias, b.ip, b.right);
    if Height(b.right) < Height(b.left) {
      assert BalanceFactor(t1) == 2 && BalanceFactor(t1.left) == 0;
      assert MakeNode(b.left, b.alias, b.ip, b.right) == b;
      assert MakeNode(l.left, l.alias, l.ip, b) == l;
      assert RotateRight(t1, fuel - 1) == Rebalance(l, fuel - 1);
      RebalanceOfBalanced(l, fuel - 1);
    } else {
      RebalanceOfBalanced(t1, fuel);
    }
  }

  /** Mirror of `InnerRotateLeft` for the right-left case. */
  lemma InnerRotateRight(r: Tree, fuel: nat)
    requires r.Node? && IsAvl(r) && BalanceFactor(r) == 1
    requires fuel >= 1
    ensures r.left.Node?
    ensures Height(r.left.left) < Height(r.left.right) ==> RotateRight(r, fuel) == r
    ensures Height(r.left.left) >= Height(r.left.right) ==>
      RotateRight(r, fuel) == MakeNode(r.left.left, r.left.alias, r.left.ip, MakeNode(r.left.right, r.alias, r.ip, r.right))
  {
    AvlChildren(r);
    var b := r.left;
    AvlChildren(b);
    var t1 := MakeNode(b.left, b.alias, b.ip, MakeNode(b.right, r.alias, r.ip, r.right));
    if Height(b.left) < Height(b.right) {
      assert BalanceFactor(t1) == -2 && BalanceFactor(t1.right) == 0;
      assert MakeNode(b.left, b.alias, b.ip, b.right) == b;
      assert MakeNode(b, r.alias, r.ip, r.right) == r;
      assert RotateLeft(t1, fuel - 1) == Rebalance(r, fuel - 1);
      RebalanceOfBalanced(r, fuel - 1);
    } else {
      RebalanceOfBalanced(t1, fuel);
    }
  }

  /** The standard double-rotation result of the left-right case. */
  function LeftRightResult(t: Tree): Tree
    requires t.Node? && t.left.Node? && t.left.right.Node?
  {
    var l := t.left;
    var b := l.right;
    MakeNode(MakeNode(l.left, l.alias, l.ip, b.left), b.alias, b.ip, MakeNode(b.right, t.alias, t.ip, t.right))
  }

  /** The standard double-rotation result of the right-left case. */
  function RightLeftResult(t: Tree): Tree
    requires t.Node? && t.right.Node? && t.right.left.Node?
  {
    var r := t.right;
    var b := r.left;
    MakeNode(MakeNode(t.left, t.alias, t.ip, b.left), b.alias, b.ip, MakeNode(b.right, r.alias, r.ip, r.right))
  }

  /** Left-right: whichever route the nested rebalances take, the result is the
      textbook double rotation. */
  lemma LeftRightCase(t: Tree, fuel: nat)
    requires t.Node? && IsAvl(t.left) && IsAvl(t.right)
    requires Height(t.left) == Height(t.right) + 2 && BalanceFactor(t.left) < 0
    requires fuel >= 1
    ensures t.left.right.Node?
    ensures RotateLeftThenRight(t, fuel) == LeftRightResult(t)
    ensures IsAvl(LeftRightResult(t)) && Height(LeftRightResult(t)) == Height(t.left)
  {
    var l := t.left;
    InnerRotateLeft(l, fuel);
    AvlChildren(l);
    var b := l.right;
    AvlChildren(b);
    var v := LeftRightResult(t);
    AvlMakeNode(l.left, l.alias, l.ip, b.left);
    AvlMakeNode(b.right, t.alias, t.ip, t.right);
    AvlMakeNode(MakeNode(l.left, l.alias, l.ip, b.left), b.alias, b.ip, MakeNode(b.right, t.alias, t.ip, t.right));
    if Height(b.right) < Height(b.left) {
      // the inner rotation was undone; rotateRight now leaves the right side two taller
      var s := MakeNode(l.left, l.alias, l.ip, MakeNode(b, t.alias, t.ip, t.right));
      assert RotateRight(MakeNode(l, t.alias, t.ip, t.right), fuel) == Rebalance(s, fuel);
      assert BalanceFactor(s) == -2 && BalanceFactor(s.right) == 1;
      var u := MakeNode(b.left, b.alias, b.ip, MakeNode(b.right, t.alias, t.ip, t.right));
      assert RotateRight(s.right, fuel - 1) == Rebalance(u, fuel - 1);
      RebalanceOfBalanced(u, fuel - 1);
      assert RotateLeft(MakeNode(l.left, l.alias, l.ip, u), fuel - 1) == Rebalance(v, fuel - 1);
      RebalanceOfBalanced(v, fuel - 1);
      assert Rebalance(s, fuel) == v;
    } else {
      var t1 := MakeNode(MakeNode(l.left, l.alias, l.ip, b.left), b.alias, b.ip, b.right);
      assert RotateRight(MakeNode(t1, t.alias, t.ip, t.right), fuel) == Rebalance(v, fuel);
    }
    RebalanceOfBalanced(v, fuel);
  }

  /** Right-left: the mirror image. */
  lemma RightLeftCase(t: Tree, fuel: nat)
    requires t.Node? && IsAvl(t.left) && IsAvl(t.right)
    requires Height(t.right) == Height(t.left) + 2 && BalanceFactor(t.right) > 0
    requires fuel >= 1
    ensures t.right.left.Node?
    ensures RotateRightThenLeft(t, fuel) == RightLeftResult(t)
    ensures IsAvl(RightLeftResult(t)) && Height(RightLeftResult(t)) == Height(t.right)
  {
    var r := t.right;
    InnerRotateRight(r, fuel);
    AvlChildren(r);
    var b := r.left;
    AvlChildren(b);
    var v := RightLeftResult(t);
    AvlMakeNode(t.left, t.alias, t.ip, b.left);
    AvlMakeNode(b.right, r.alias, r.ip, r.right);
    AvlMakeNode(MakeNode(t.left, t.alias, t.ip, b.left), b.alias, b.ip, MakeNode(b.right, r.alias, r.ip, r.right));
    if Height(b.left) < Height(b.right) {
      var s := MakeNode(MakeNode(t.left, t.alias, t.ip, b), r.alias, r.ip, r.right);
      assert RotateLeft(MakeNode(t.left, t.alias, t.ip, r), fuel) == Rebalance(s, fuel);
      assert BalanceFactor(s) == 2 && BalanceFactor(s.left) == -1;
      var u := MakeNode(MakeNode(t.left, t.alias, t.ip, b.left), b.alias, b.ip, b.right);
      assert RotateLeft(s.left, fuel - 1) == Rebalance(u, fuel - 1);
      RebalanceOfBalanced(u, fuel - 1);
      assert RotateRight(MakeNode(u, r.alias, r.ip, r.right), fuel - 1) == Rebalance(v, fuel - 1);
      RebalanceOfBalanced(v, fuel - 1);
      assert Rebalance(s, fuel) == v;
    } else {
      var t1 := MakeNode(b.left, b.alias, b.ip, MakeNode(b.right, r.alias, r.ip, r.right));
      assert RotateLeft(MakeNode(t.left, t.alias, t.ip, t1), fuel) == Rebalance(v, fuel);
    }
    RebalanceOfBalanced(v, fuel);
  }

  /** rebalance restores the AVL invariant at a node whose children are AVL
      trees differing in height by at most 2, the only kind of node insertion
      and deletion pass to it.  A balanced node is returned untouched; otherwise
      the result has correct heights and grows by at most one level over the
      taller child.  The in-order entries never change (see `Rebalance`). */
  lemma RebalanceRestores(t: Tree, fuel: nat)
    requires t.Node? && IsAvl(t.left) && IsAvl(t.right)
    requires -2 <= BalanceFactor(t) <= 2
    requires fuel >= 2
    ensures -1 <= BalanceFactor(t) <= 1 ==> Rebalance(t, fuel) == t
    ensures IsAvl(UpdateHeight(Rebalance(t, fuel)))
    ensures t.height == 1 + Max(Height(t.left), Height(t.right)) ==> IsAvl(Rebalance(t, fuel))
    ensures Max(Height(t.left), Height(t.right)) <= Height(UpdateHeight(Rebalance(t, fuel)))
                                                 <= 1 + Max(Height(t.left), Height(t.right))
  {
    var bf := BalanceFactor(t);
    if bf == 2 {
      if BalanceFactor(t.left) >= 0 {
        LeftLeftCase(t, fuel - 1);
        UpdateHeightOfCorrect(Rebalance(t, fuel));
      } else {
        LeftRightCase(t, fuel - 1);
        UpdateHeightOfCorrect(Rebalance(t, fuel));
      }
    } else if bf == -2 {
      if BalanceFactor(t.right) <= 0 {
        RightRightCase(t, fuel - 1);
        UpdateHeightOfCorrect(Rebalance(t, fuel));
      } else {
        RightLeftCase(t, fuel - 1);
        UpdateHeightOfCorrect(Rebalance(t, fuel));
      }
    } else {
      RebalanceOfBalanced(t, fuel);
    }
  }
}
