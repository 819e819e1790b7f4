/** The directory's tree: an AVL tree keyed by alias whose nodes also carry a
    dotted-quad address.  Heights are stored in the nodes, as in the C struct;
    the parent back-pointer is not part of the model. */
module AvlTree {
  import opened CStrings

  /** One directory record. */
  datatype Entry = Entry(alias: string, ip: string)

  datatype Tree =
    | Leaf
    | Node(left: Tree, alias: string, ip: string, height: nat, right: Tree)

  function Max(a: int, b: int): int {
    if a > b then a else b
  }

  /** getHeight: the stored height, 0 for an absent child. */
  function Height(t: Tree): nat {
    if t.Leaf? then 0 else t.height
  }

  /** getBalanceFactor: stored left height minus stored right height, 0 for an absent node. */
  function BalanceFactor(t: Tree): int {
    if t.Leaf? then 0 else Height(t.left) - Height(t.right)
  }

  /** A node whose height has just been refreshed by updateHeight. */
  function MakeNode(l: Tree, a: string, ip: string, r: Tree): Tree {
    Node(l, a, ip, 1 + Max(Height(l), Height(r)), r)
  }

  /** updateHeight: only the height field changes; it becomes one more than the
      taller child, an absent child counting as 0. */
  function UpdateHeight(t: Tree): (r: Tree)
    ensures t.Leaf? ==> r == Leaf
    ensures InOrder(r) == InOrder(t)
    ensures t.Node? ==> r.Node? && r.left == t.left && r.right == t.right
                        && r.alias == t.alias && r.ip == t.ip
    ensures t.Node? ==> r.height > Height(t.left) && r.height > Height(t.right)
    ensures t.Node? ==> r.height == Height(t.left) + 1 || r.height == Height(t.right) + 1
  {
    if t.Leaf? then Leaf else MakeNode(t.left, t.alias, t.ip, t.right)
  }

  /** A fresh node with no children has height 1. */
  lemma FreshLeafHasHeightOne(a: string, ip: string, h: nat)
    ensures UpdateHeight(Node(Leaf, a, ip, h, Leaf)).height == 1
  {
  }

  // ---------------------------------------------------------------------
  // Views of a tree

  /** Entries in alias order (left, self, right). */
  function InOrder(t: Tree): seq<Entry> {
    if t.Leaf? then [] else InOrder(t.left) + [Entry(t.alias, t.ip)] + InOrder(t.right)
  }

  /** Entries in the order of a pre-order walk (self, left, right). */
  function PreOrder(t: Tree): seq<Entry> {
    if t.Leaf? then [] else [Entry(t.alias, t.ip)] + PreOrder(t.left) + PreOrder(t.right)
  }

  function Entries(t: Tree): set<Entry> {
    set e | e in InOrder(t)
  }

  function Aliases(t: Tree): set<string> {
    set e | e in InOrder(t) :: e.alias
  }

  /** Both walks visit the same entries, each as often. */
  lemma {:induction false} PreOrderPermutesInOrder(t: Tree)
    ensures multiset(PreOrder(t)) == multiset(InOrder(t))
  {
    if t.Node? {
      PreOrderPermutesInOrder(t.left);
      PreOrderPermutesInOrder(t.right);
    }
  }

  // ---------------------------------------------------------------------
  // Invariants

  /** Aliases strictly increase under strcmp. */
  ghost predicate Sorted(s: seq<Entry>) {
    forall i, j :: 0 <= i < j < |s| ==> Less(s[i].alias, s[j].alias)
  }

  /** The search-tree order: the in-order walk is strictly sorted by alias. */
  ghost predicate IsBst(t: Tree) {
    Sorted(InOrder(t))
  }

  /** Every stored height is one more than the taller child's. */
  ghost predicate HeightsCorrect(t: Tree) {
    t.Leaf? || (HeightsCorrect(t.left) && HeightsCorrect(t.right)
                && t.height == 1 + Max(Height(t.left), Height(t.right)))
  }

  /** Every node's balance factor is in [-1, 1]. */
  ghost predicate Balanced(t: Tree) {
    t.Leaf? || (Balanced(t.left) && Balanced(t.right) && -1 <= BalanceFactor(t) <= 1)
  }

  ghost predicate IsAvl(t: Tree) {
    HeightsCorrect(t) && Balanced(t)
  }

  /** The number of nodes on the longest downward path, read off the shape alone. */
  function Depth(t: Tree): nat {
    if t.Leaf? then 0 else 1 + Max(Depth(t.left), Depth(t.right))
  }

  /** With correct stored heights, getHeight is the depth of the subtree. */
  lemma {:induction false} HeightIsDepth(t: Tree)
    requires HeightsCorrect(t)
    ensures Height(t) == Depth(t)
  {
    if t.Node? {
      HeightIsDepth(t.left);
      HeightIsDepth(t.right);
    }
  }

  /** ... and getBalanceFactor is the difference of the children's depths. */
  lemma BalanceFactorIsDepthDifference(t: Tree)
    requires t.Node? && HeightsCorrect(t)
    ensures BalanceFactor(t) == Depth(t.left) - Depth(t.right)
  {
    HeightIsDepth(t.left);
    HeightIsDepth(t.right);
  }

  ghost predicate AllBelow(t: Tree, k: string) {
    forall a :: a in Aliases(t) ==> Less(a, k)
  }

  ghost predicate AllAbove(t: Tree, k: string) {
    forall a :: a in Aliases(t) ==> Less(k, a)
  }

  /** The AVL invariant, node by node. */
  lemma AvlMakeNode(l: Tree, a: string, ip: string, r: Tree)
    ensures IsAvl(MakeNode(l, a, ip, r)) <==> IsAvl(l) && IsAvl(r) && -1 <= Height(l) - Height(r) <= 1
  {
  }

  lemma AvlChildren(t: Tree)
    requires t.Node? && IsAvl(t)
    ensures IsAvl(t.left) && IsAvl(t.right)
    ensures t == MakeNode(t.left, t.alias, t.ip, t.right)
    ensures -1 <= BalanceFactor(t) <= 1
  {
  }

  /** Refreshing a correct height changes nothing. */
  lemma UpdateHeightOfCorrect(t: Tree)
    requires HeightsCorrect(t)
    ensures UpdateHeight(t) == t
  {
  }

  lemma {:induction false} EntriesOfNode(t: Tree)
    requires t.Node?
    ensures Entries(t) == Entries(t.left) + {Entry(t.alias, t.ip)} + Entries(t.right)
    ensures Aliases(t) == Aliases(t.left) + {t.alias} + Aliases(t.right)
  {
  }

  /** The in-order sequence is sorted iff both halves are and the middle key separates them. */
  lemma SortedSplit(a: seq<Entry>, x: Entry, b: seq<Entry>)
    ensures Sorted(a + [x] + b) <==>
      && Sorted(a) && Sorted(b)
      && (forall e :: e in a ==> Less(e.alias, x.alias))
      && (forall e :: e in b ==> Less(x.alias, e.alias))
  {
    var s := a + [x] + b;
    if Sorted(s) {
      assert forall i :: 0 <= i < |a| ==> s[i] == a[i];
      assert forall i :: 0 <= i < |b| ==> s[|a| + 1 + i] == b[i];
      assert s[|a|] == x;
      forall i, j | 0 <= i < j < |b| ensures Less(b[i].alias, b[j].alias) {
        assert s[|a| + 1 + i] == b[i] && s[|a| + 1 + j] == b[j];
      }
      forall e | e in b ensures Less(x.alias, e.alias) {
        var i :| 0 <= i < |b| && b[i] == e;
        assert s[|a| + 1 + i] == e;
      }
      forall e | e in a ensures Less(e.alias, x.alias) {
        var i :| 0 <= i < |a| && a[i] == e;
        assert s[i] == e;
      }
    }
    if && Sorted(a) && Sorted(b)
       && (forall e :: e in a ==> Less(e.alias, x.alias))
       && (forall e :: e in b ==> Less(x.alias, e.alias))
    {
      forall i, j | 0 <= i < j < |s| ensures Less(s[i].alias, s[j].alias) {
        if j < |a| {
          assert s[i] == a[i] && s[j] == a[j];
        } else if i < |a| && j == |a| {
          assert s[i] == a[i] && s[i] in a;
        } else if i < |a| {
          assert s[i] == a[i] && s[i] in a;
          assert s[j] == b[j - |a| - 1] && s[j] in b;
          LessTransitive(s[i].alias, x.alias, s[j].alias);
        } else if i == |a| {
          assert s[j] == b[j - |a| - 1] && s[j] in b;
        } else {
          assert s[i] == b[i - |a| - 1] && s[j] == b[j - |a| - 1];
        }
      }
    }
  }

  /** The search-tree order, node by node. */
  lemma BstNode(t: Tree)
    requires t.Node?
    ensures IsBst(t) <==>
      IsBst(t.left) && IsBst(t.right) && AllBelow(t.left, t.alias) && AllAbove(t.right, t.alias)
  {
    SortedSplit(InOrder(t.left), Entry(t.alias, t.ip), InOrder(t.right));
    if AllBelow(t.left, t.alias) {
      forall e | e in InOrder(t.left) ensures Less(e.alias, t.alias) {
        assert e.alias in Aliases(t.left);
      }
    }
    if AllAbove(t.right, t.alias) {
      forall e | e in InOrder(t.right) ensures Less(t.alias, e.alias) {
        assert e.alias in Aliases(t.right);
      }
    }
  }

  /** In a search tree an alias names at most one entry. */
  lemma BstAliasesUnique(t: Tree, e: Entry, f: Entry)
    requires IsBst(t)
    requires e in Entries(t) && f in Entries(t) && e.alias == f.alias
    ensures e == f
  {
    var s := InOrder(t);
    var i :| 0 <= i < |s| && s[i] == e;
    var j :| 0 <= j < |s| && s[j] == f;
    LessIrreflexive(e.alias);
  }
}
