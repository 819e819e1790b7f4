/** deleteNode: descent by alias; a node with at most one child is replaced by
    that child (the C copies the child over the node), a node with two children
    takes the alias and address of its in-order successor, which is then
    deleted from the right subtree.  Each node on the way back is given a fresh
    height and rebalanced. */
module Deletion {
  import opened CStrings
  import opened AvlTree
  import opened Rebalancing

  /** The in-order successor search: follow left children to the end. */
  function MinEntry(t: Tree): (e: Entry)
    requires t.Node?
    ensures e == InOrder(t)[0]
    decreases t
  {
    if t.left.Leaf? then Entry(t.alias, t.ip) else MinEntry(t.left)
  }

  /** A sequence of entries without those whose alias is `a`, order kept. */
  function RemoveAlias(s: seq<Entry>, a: string): (r: seq<Entry>)
    ensures forall e :: e in r <==> e in s && e.alias != a
    decreases |s|
  {
    if |s| == 0 then []
    else (if s[0].alias == a then [] else [s[0]]) + RemoveAlias(s[1..], a)
  }

  function Delete(t: Tree, a: string): (r: Tree)
    ensures Entries(r) <= Entries(t)
    ensures Aliases(r) <= Aliases(t)
    ensures a !in Aliases(t) ==> InOrder(r) == InOrder(t)
    decreases t
  {
    if t.Leaf? then Leaf
    else if Cmp(a, t.alias) < 0 then
      var n := UpdateHeight(Node(Delete(t.left, a), t.alias, t.ip, t.height, t.right));
      EntriesOfNode(t);
      EntriesOfNode(n);
      Rebalance(n, RebalanceFuel)
    else if Cmp(a, t.alias) > 0 then
      var n := UpdateHeight(Node(t.left, t.alias, t.ip, t.height, Delete(t.right, a)));
      EntriesOfNode(t);
      EntriesOfNode(n);
      Rebalance(n, RebalanceFuel)
    else
      CmpZeroIffEqual(a, t.alias);
      EntriesOfNode(t);
      if t.left.Leaf? || t.right.Leaf? then
        var child := if t.left.Node? then t.left else t.right;
        if child.Leaf? then Leaf else Rebalance(UpdateHeight(child), RebalanceFuel)
      else
        var s := MinEntry(t.right);
        assert s in InOrder(t.right);
        var n := UpdateHeight(Node(t.left, s.alias, s.ip, t.height, Delete(t.right, s.alias)));
        EntriesOfNode(n);
        Rebalance(n, RebalanceFuel)
  }

  // ---------------------------------------------------------------------
  // Facts about RemoveAlias

  lemma {:induction false} RemoveAliasAppend(x: seq<Entry>, y: seq<Entry>, a: string)
    ensures RemoveAlias(x + y, a) == RemoveAlias(x, a) + RemoveAlias(y, a)
    decreases |x|
  {
    if |x| == 0 {
      assert x + y == y;
    } else {
      assert (x + y)[1..] == x[1..] + y;
      RemoveAliasAppend(x[1..], y, a);
    }
  }

  lemma {:induction false} RemoveAliasAbsent(x: seq<Entry>, a: string)
    requires forall e :: e in x ==> e.alias != a
    ensures RemoveAlias(x, a) == x
    decreases |x|
  {
    if |x| > 0 {
      assert x[0] in x;
      RemoveAliasAbsent(x[1..], a);
      assert x == [x[0]] + x[1..];
    }
  }

  /** In a sorted sequence the first alias occurs only at the front. */
  lemma RemoveFirstOfSorted(x: seq<Entry>)
    requires Sorted(x) && |x| > 0
    ensures RemoveAlias(x, x[0].alias) == x[1..]
  {
    forall e | e in x[1..] ensures e.alias != x[0].alias {
      var i :| 0 <= i < |x| - 1 && x[1..][i] == e;
      assert Less(x[0].alias, x[i + 1].alias);
      LessIrreflexive(x[0].alias);
    }
    RemoveAliasAbsent(x[1..], x[0].alias);
  }

  lemma RemoveAliasOne(e: Entry, a: string)
    ensures RemoveAlias([e], a) == if e.alias == a then [] else [e]
  {
    assert [e][1..] == [];
  }

  /** Removal from `x + [e] + y` when `y` holds no entry with that alias. */
  lemma RemoveAliasKeepRight(x: seq<Entry>, e: Entry, y: seq<Entry>, a: string)
    requires forall f :: f in y ==> f.alias != a
    ensures RemoveAlias(x + [e] + y, a) == RemoveAlias(x, a) + RemoveAlias([e], a) + y
  {
    RemoveAliasAbsent(y, a);
    RemoveAliasAppend(x + [e], y, a);
    RemoveAliasAppend(x, [e], a);
  }

  /** Removal from `x + [e] + y` when `x` holds no entry with that alias. */
  lemma RemoveAliasKeepLeft(x: seq<Entry>, e: Entry, y: seq<Entry>, a: string)
    requires forall f :: f in x ==> f.alias != a
    ensures RemoveAlias(x + [e] + y, a) == x + RemoveAlias([e], a) + RemoveAlias(y, a)
  {
    RemoveAliasAbsent(x, a);
    RemoveAliasAppend(x + [e], y, a);
    RemoveAliasAppend(x, [e], a);
  }

  /** A subtree entirely below or above `k` holds no entry with alias `k`. */
  lemma SeparatedAvoids(t: Tree, k: string)
    requires AllBelow(t, k) || AllAbove(t, k)
    ensures forall f :: f in InOrder(t) ==> f.alias != k
  {
    LessIrreflexive(k);
    forall f | f in InOrder(t) ensures f.alias != k {
      assert f.alias in Aliases(t);
    }
  }

  /** Removal of the middle entry's alias when neither side holds it. */
  lemma RemoveAliasMiddle(x: seq<Entry>, e: Entry, y: seq<Entry>)
    requires forall f :: f in x ==> f.alias != e.alias
    requires forall f :: f in y ==> f.alias != e.alias
    ensures RemoveAlias(x + [e] + y, e.alias) == x + y
  {
    RemoveAliasKeepRight(x, e, y, e.alias);
    RemoveAliasAbsent(x, e.alias);
    RemoveAliasOne(e, e.alias);
  }

  /** Removing the node's own alias from a search tree leaves both subtrees whole. */
  lemma RemoveOwnAlias(t: Tree)
    requires t.Node? && IsBst(t)
    ensures RemoveAlias(InOrder(t), t.alias) == InOrder(t.left) + InOrder(t.right)
  {
    BstNode(t);
    SeparatedAvoids(t.left, t.alias);
    SeparatedAvoids(t.right, t.alias);
    RemoveAliasMiddle(InOrder(t.left), Entry(t.alias, t.ip), InOrder(t.right));
  }

  // ---------------------------------------------------------------------
  // Deletion keeps the invariants

  /** What deleteNode promises on an AVL search tree (see `DeleteKeepsAvl`). */
  ghost predicate DeleteOk(t: Tree, a: string) {
    var r := Delete(t, a);
    && IsAvl(r) && IsBst(r)
    && InOrder(r) == RemoveAlias(InOrder(t), a)
    && Height(t) - 1 <= Height(r) <= Height(t)
  }

  /** Rebuilding a node over a subtree that shrank by at most one level. */
  lemma RebuildAfterShrink(n: Tree, before: Tree)
    requires n.Node? && before.Node? && IsAvl(before)
    requires IsAvl(n.left) && IsAvl(n.right)
    requires n.height == 1 + Max(Height(n.left), Height(n.right))
    requires (n.right == before.right && Height(before.left) - 1 <= Height(n.left) <= Height(before.left))
          || (n.left == before.left && Height(before.right) - 1 <= Height(n.right) <= Height(before.right))
    ensures IsAvl(Rebalance(n, RebalanceFuel))
    ensures Height(before) - 1 <= Height(Rebalance(n, RebalanceFuel)) <= Height(before)
  {
    AvlChildren(before);
    RebalanceRestores(n, RebalanceFuel);
    UpdateHeightOfCorrect(Rebalance(n, RebalanceFuel));
  }

  lemma DeleteLeftStep(t: Tree, a: string)
    requires t.Node? && IsAvl(t) && IsBst(t) && Cmp(a, t.alias) < 0
    requires DeleteOk(t.left, a)
    ensures DeleteOk(t, a)
  {
    var l := Delete(t.left, a);
    var n := UpdateHeight(Node(l, t.alias, t.ip, t.height, t.right));
    assert Delete(t, a) == Rebalance(n, RebalanceFuel);
    AvlChildren(t);
    RebuildAfterShrink(n, t);
    BstNode(t);
    assert IsBst(n) by {
      BstNode(n);
      assert AllBelow(l, t.alias);
    }
    assert InOrder(n) == RemoveAlias(InOrder(t), a) by {
      LessIrreflexive(a);
      LessTrichotomy(a, t.alias);
      assert forall f :: f in InOrder(t.right) ==> f.alias != a by {
        forall f | f in InOrder(t.right) ensures f.alias != a {
          assert f.alias in Aliases(t.right);
          LessTransitive(a, t.alias, f.alias);
        }
      }
      RemoveAliasKeepRight(InOrder(t.left), Entry(t.alias, t.ip), InOrder(t.right), a);
      RemoveAliasOne(Entry(t.alias, t.ip), a);
    }
  }

  lemma DeleteRightStep(t: Tree, a: string)
    requires t.Node? && IsAvl(t) && IsBst(t) && Cmp(a, t.alias) > 0
    requires DeleteOk(t.right, a)
    ensures DeleteOk(t, a)
  {
    var rt := Delete(t.right, a);
    var n := UpdateHeight(Node(t.left, t.alias, t.ip, t.height, rt));
    CmpPositiveIsLess(a, t.alias);
    assert Delete(t, a) == Rebalance(n, RebalanceFuel);
    AvlChildren(t);
    RebuildAfterShrink(n, t);
    BstNode(t);
    assert IsBst(n) by {
      BstNode(n);
      assert AllAbove(rt, t.alias);
    }
    assert InOrder(n) == RemoveAlias(InOrder(t), a) by {
      LessIrreflexive(a);
      LessTrichotomy(t.alias, a);
      assert forall f :: f in InOrder(t.left) ==> f.alias != a by {
        forall f | f in InOrder(t.left) ensures f.alias != a {
          assert f.alias in Aliases(t.left);
          LessTransitive(f.alias, t.alias, a);
        }
      }
      RemoveAliasKeepLeft(InOrder(t.left), Entry(t.alias, t.ip), InOrder(t.right), a);
      RemoveAliasOne(Entry(t.alias, t.ip), a);
    }
  }

  /** The matching node has at most one child: the child takes its place. */
  lemma DeleteHereSpliced(t: Tree)
    requires t.Node? && IsAvl(t) && IsBst(t)
    requires t.left.Leaf? || t.right.Leaf?
    ensures DeleteOk(t, t.alias)
  {
    CmpZeroIffEqual(t.alias, t.alias);
    RemoveOwnAlias(t);
    AvlChildren(t);
    BstNode(t);
    var child := if t.left.Node? then t.left else t.right;
    if child.Node? {
      AvlChildren(child);
      UpdateHeightOfCorrect(child);
      RebalanceOfBalanced(child, RebalanceFuel);
    }
  }

  /** Dropping one entry keeps a sorted sequence sorted. */
  lemma SortedDropMiddle(x: seq<Entry>, e: Entry, y: seq<Entry>)
    requires Sorted(x + [e] + y)
    ensures Sorted(x + y)
  {
    var s, u := x + [e] + y, x + y;
    forall i, j | 0 <= i < j < |u| ensures Less(u[i].alias, u[j].alias) {
      var i' := if i < |x| then i else i + 1;
      var j' := if j < |x| then j else j + 1;
      assert u[i] == s[i'] && u[j] == s[j'];
    }
  }

  /** Deleting the alias of a node with two children refills that node from
      the minimum of its right subtree and deletes the minimum there. */
  lemma DeleteRefillsFromSuccessor(t: Tree)
    requires t.Node? && t.left.Node? && t.right.Node?
    ensures var s := MinEntry(t.right);
      Delete(t, t.alias)
      == Rebalance(UpdateHeight(Node(t.left, s.alias, s.ip, t.height, Delete(t.right, s.alias))), RebalanceFuel)
  {
    CmpZeroIffEqual(t.alias, t.alias);
  }

  /** The refilled node holds every entry but the deleted one, in order. */
  lemma RefilledOrder(t: Tree, rt: Tree)
    requires t.Node? && IsBst(t) && t.right.Node?
    requires InOrder(rt) == InOrder(t.right)[1..]
    ensures var s := MinEntry(t.right);
      var n := Node(t.left, s.alias, s.ip, t.height, rt);
      && IsBst(n) && InOrder(n) == RemoveAlias(InOrder(t), t.alias)
  {
    var s := MinEntry(t.right);
    var xl, xr := InOrder(t.left), InOrder(t.right);
    var n := Node(t.left, s.alias, s.ip, t.height, rt);
    assert InOrder(n) == xl + xr by {
      assert xr == [s] + xr[1..];
    }
    RemoveOwnAlias(t);
    SortedDropMiddle(xl, Entry(t.alias, t.ip), xr);
  }

  /** The refilled node, rebalanced: AVL, at most one level lower. */
  lemma RefilledHeights(t: Tree, rt: Tree)
    requires t.Node? && IsAvl(t) && t.right.Node?
    requires IsAvl(rt) && Height(t.right) - 1 <= Height(rt) <= Height(t.right)
    ensures var s := MinEntry(t.right);
      var n := UpdateHeight(Node(t.left, s.alias, s.ip, t.height, rt));
      && IsAvl(Rebalance(n, RebalanceFuel))
      && Height(t) - 1 <= Height(Rebalance(n, RebalanceFuel)) <= Height(t)
  {
    var s := MinEntry(t.right);
    var n := UpdateHeight(Node(t.left, s.alias, s.ip, t.height, rt));
    AvlChildren(t);
    RebuildAfterShrink(n, t);
  }

  /** The matching node has two children. */
  lemma DeleteHereSuccessor(t: Tree)
    requires t.Node? && IsAvl(t) && IsBst(t)
    requires t.left.Node? && t.right.Node?
    requires DeleteOk(t.right, MinEntry(t.right).alias)
    ensures DeleteOk(t, t.alias)
  {
    var s := MinEntry(t.right);
    var rt := Delete(t.right, s.alias);
    DeleteRefillsFromSuccessor(t);
    BstNode(t);
    RemoveFirstOfSorted(InOrder(t.right));
    RefilledOrder(t, rt);
    RefilledHeights(t, rt);
  }

  /** On an AVL search tree, deleteNode keeps both invariants, removes exactly
      the entry with that alias (nothing, when it is absent) without disturbing
      the order of the rest, and lowers the height by at most one. */
  lemma {:induction false} DeleteKeepsAvl(t: Tree, a: string)
    requires IsAvl(t) && IsBst(t)
    ensures IsAvl(Delete(t, a)) && IsBst(Delete(t, a))
    ensures InOrder(Delete(t, a)) == RemoveAlias(InOrder(t), a)
    ensures Height(t) - 1 <= Height(Delete(t, a)) <= Height(t)
    decreases t
  {
    if t.Node? {
      AvlChildren(t);
      BstNode(t);
      if Cmp(a, t.alias) < 0 {
        DeleteKeepsAvl(t.left, a);
        DeleteLeftStep(t, a);
      } else if Cmp(a, t.alias) > 0 {
        DeleteKeepsAvl(t.right, a);
        DeleteRightStep(t, a);
      } else {
        CmpZeroIffEqual(a, t.alias);
        if t.left.Leaf? || t.right.Leaf? {
          DeleteHereSpliced(t);
        } else {
          DeleteKeepsAvl(t.right, MinEntry(t.right).alias);
          DeleteHereSuccessor(t);
        }
      }
    }
  }

  /** Entry-set view: the old entries minus the one with that alias. */
  lemma DeleteEntries(t: Tree, a: string)
    requires IsAvl(t) && IsBst(t)
    ensures Entries(Delete(t, a)) == set e | e in Entries(t) && e.alias != a
    ensures Aliases(Delete(t, a)) == Aliases(t) - {a}
  {
    DeleteKeepsAvl(t, a);
    var r := Delete(t, a);
    forall e | e in Entries(r) ensures e in Entries(t) && e.alias != a {
      assert e in InOrder(r);
    }
    forall e | e in Entries(t) && e.alias != a ensures e in Entries(r) {
      assert e in InOrder(t);
      assert e in InOrder(r);
    }
    forall b | b in Aliases(r) ensures b in Aliases(t) && b != a {
      var e :| e in InOrder(r) && e.alias == b;
    }
    forall b | b in Aliases(t) && b != a ensures b in Aliases(r) {
      var e :| e in InOrder(t) && e.alias == b;
      assert e in InOrder(r);
    }
  }

  /** With two children the node is refilled from the in-order successor: the
      minimum of the right subtree is the entry that follows the deleted one. */
  lemma SuccessorFollowsDeleted(t: Tree)
    requires t.Node? && t.right.Node?
    ensures MinEntry(t.right) == InOrder(t)[|InOrder(t.left)| + 1]
  {
  }
}
