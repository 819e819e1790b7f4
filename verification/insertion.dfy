/** insert: recursive descent by alias, then rebalance and a height refresh on
    the way back up.  An alias that is already present matches neither strict
    comparison, so that call changes nothing. */
module Insertion {
  import opened CStrings
  import opened AvlTree
  import opened Rebalancing

  function Insert(t: Tree, a: string, ip: string): (r: Tree)
    ensures r.Node?
    ensures Aliases(r) == Aliases(t) + {a}
    ensures Entries(t) <= Entries(r) <= Entries(t) + {Entry(a, ip)}
    ensures a !in Aliases(t) ==> Entries(r) == Entries(t) + {Entry(a, ip)}
    decreases t
  {
    if t.Leaf? then MakeNode(Leaf, a, ip, Leaf)
    else if Cmp(a, t.alias) < 0 then
      var n := Node(Insert(t.left, a, ip), t.alias, t.ip, t.height, t.right);
      EntriesOfNode(t);
      EntriesOfNode(n);
      UpdateHeight(Rebalance(n, RebalanceFuel))
    else if Cmp(a, t.alias) > 0 then
      var n := Node(t.left, t.alias, t.ip, t.height, Insert(t.right, a, ip));
      EntriesOfNode(t);
      EntriesOfNode(n);
      UpdateHeight(Rebalance(n, RebalanceFuel))
    else
      CmpZeroIffEqual(a, t.alias);
      UpdateHeight(Rebalance(t, RebalanceFuel))
  }

  /** What insert promises on an AVL search tree (see `InsertKeepsAvl`). */
  ghost predicate InsertOk(t: Tree, a: string, ip: string) {
    var r := Insert(t, a, ip);
    && IsAvl(r) && IsBst(r)
    && Height(t) <= Height(r) <= Height(t) + 1
    && (a in Aliases(t) ==> r == t)
  }

  /** Rebuilding a node over a subtree that grew by at most one level. */
  lemma RebuildAfterGrowth(n: Tree, before: Tree)
    requires n.Node? && before.Node? && IsAvl(before)
    requires n.alias == before.alias && n.ip == before.ip
    requires IsAvl(n.left) && IsAvl(n.right)
    requires (n.right == before.right && Height(before.left) <= Height(n.left) <= Height(before.left) + 1)
          || (n.left == before.left && Height(before.right) <= Height(n.right) <= Height(before.right) + 1)
    ensures IsAvl(UpdateHeight(Rebalance(n, RebalanceFuel)))
    ensures Height(before) <= Height(UpdateHeight(Rebalance(n, RebalanceFuel))) <= Height(before) + 1
    ensures InOrder(UpdateHeight(Rebalance(n, RebalanceFuel))) == InOrder(n)
  {
    AvlChildren(before);
    RebalanceRestores(n, RebalanceFuel);
  }

  /** One level of the descent into the left subtree. */
  lemma InsertLeftStep(t: Tree, a: string, ip: string)
    requires t.Node? && IsAvl(t) && IsBst(t) && Cmp(a, t.alias) < 0
    requires InsertOk(t.left, a, ip)
    ensures InsertOk(t, a, ip)
  {
    var l := Insert(t.left, a, ip);
    var n := Node(l, t.alias, t.ip, t.height, t.right);
    var r := UpdateHeight(Rebalance(n, RebalanceFuel));
    assert Insert(t, a, ip) == r;
    AvlChildren(t);
    RebuildAfterGrowth(n, t);
    assert IsBst(r) by {
      BstNode(t);
      BstNode(n);
      assert AllBelow(l, t.alias);
    }
    if a in Aliases(t) {
      InsertSameLeft(t, a, ip);
    }
  }

  lemma InsertSameLeft(t: Tree, a: string, ip: string)
    requires t.Node? && IsAvl(t) && IsBst(t) && Cmp(a, t.alias) < 0
    requires InsertOk(t.left, a, ip)
    requires a in Aliases(t)
    ensures Insert(t, a, ip) == t
  {
    EntriesOfNode(t);
    BstNode(t);
    LessTrichotomy(a, t.alias);
    assert a !in Aliases(t.right);
    assert a in Aliases(t.left);
    AvlChildren(t);
    RebalanceOfBalanced(t, RebalanceFuel);
    UpdateHeightOfCorrect(t);
  }

  /** One level of the descent into the right subtree. */
  lemma InsertRightStep(t: Tree, a: string, ip: string)
    requires t.Node? && IsAvl(t) && IsBst(t) && Cmp(a, t.alias) > 0
    requires InsertOk(t.right, a, ip)
    ensures InsertOk(t, a, ip)
  {
    var rt := Insert(t.right, a, ip);
    var n := Node(t.left, t.alias, t.ip, t.height, rt);
    var r := UpdateHeight(Rebalance(n, RebalanceFuel));
    CmpPositiveIsLess(a, t.alias);
    assert Insert(t, a, ip) == r;
    AvlChildren(t);
    RebuildAfterGrowth(n, t);
    assert IsBst(r) by {
      BstNode(t);
      BstNode(n);
      assert AllAbove(rt, t.alias);
    }
    if a in Aliases(t) {
      InsertSameRight(t, a, ip);
    }
  }

  lemma InsertSameRight(t: Tree, a: string, ip: string)
    requires t.Node? && IsAvl(t) && IsBst(t) && Cmp(a, t.alias) > 0
    requires InsertOk(t.right, a, ip)
    requires a in Aliases(t)
    ensures Insert(t, a, ip) == t
  {
    EntriesOfNode(t);
    BstNode(t);
    CmpPositiveIsLess(a, t.alias);
    LessTrichotomy(t.alias, a);
    assert a !in Aliases(t.left);
    assert a in Aliases(t.right);
    AvlChildren(t);
    RebalanceOfBalanced(t, RebalanceFuel);
    UpdateHeightOfCorrect(t);
  }

  /** On an AVL search tree, insert keeps both invariants, grows the height by
      at most one, and leaves the tree exactly as it was when the alias is
      already present. */
  lemma {:induction false} InsertKeepsAvl(t: Tree, a: string, ip: string)
    requires IsAvl(t) && IsBst(t)
    ensures IsAvl(Insert(t, a, ip)) && IsBst(Insert(t, a, ip))
    ensures Height(t) <= Height(Insert(t, a, ip)) <= Height(t) + 1
    ensures a in Aliases(t) ==> Insert(t, a, ip) == t
    decreases t
  {
    if t.Node? {
      AvlChildren(t);
      BstNode(t);
      if Cmp(a, t.alias) < 0 {
        InsertKeepsAvl(t.left, a, ip);
        InsertLeftStep(t, a, ip);
      } else if Cmp(a, t.alias) > 0 {
        InsertKeepsAvl(t.right, a, ip);
        InsertRightStep(t, a, ip);
      } else {
        CmpZeroIffEqual(a, t.alias);
        RebalanceOfBalanced(t, RebalanceFuel);
        UpdateHeightOfCorrect(t);
        EntriesOfNode(t);
      }
    }
  }

  /** insert of a fresh alias into an AVL search tree: an AVL search tree
      holding the old entries plus the new one. */
  lemma InsertFresh(t: Tree, a: string, ip: string)
    requires IsAvl(t) && IsBst(t) && a !in Aliases(t)
    ensures IsAvl(Insert(t, a, ip)) && IsBst(Insert(t, a, ip))
    ensures Entries(Insert(t, a, ip)) == Entries(t) + {Entry(a, ip)}
  {
    InsertKeepsAvl(t, a, ip);
  }
}
