/** Alias lookup (findNodeByAlias and the loop in lookUpAddress) and the
    in-place address overwrite of updateAddress. */
module Lookup {
  import opened Wrappers
  import opened CStrings
  import opened AvlTree

  /** findNodeByAlias: the node holding that alias, or None for NULL. */
  function FindByAlias(t: Tree, a: string): (r: Option<Tree>)
    ensures r.Some? ==> r.value.Node? && r.value.alias == a && Entry(a, r.value.ip) in Entries(t)
    decreases t
  {
    if t.Leaf? then None
    else if Cmp(t.alias, a) == 0 then
      CmpZeroIffEqual(t.alias, a);
      EntriesOfNode(t);
      Some(t)
    else
      EntriesOfNode(t);
      if Cmp(a, t.alias) < 0 then FindByAlias(t.left, a) else FindByAlias(t.right, a)
  }

  /** In a search tree the descent misses nothing: a node is found exactly
      when the alias is present. */
  lemma {:induction false} FindByAliasComplete(t: Tree, a: string)
    requires IsBst(t)
    ensures FindByAlias(t, a).Some? <==> a in Aliases(t)
    decreases t
  {
    if t.Node? {
      BstNode(t);
      EntriesOfNode(t);
      CmpZeroIffEqual(t.alias, a);
      LessTrichotomy(a, t.alias);
      CmpPositiveIsLess(a, t.alias);
      if Cmp(t.alias, a) != 0 {
        if Cmp(a, t.alias) < 0 {
          FindByAliasComplete(t.left, a);
        } else {
          FindByAliasComplete(t.right, a);
        }
      }
    }
  }

  /** The address lookup loop of lookUpAddress. */
  method LookUpAddress(t: Tree, a: string) returns (ip: Option<string>)
    ensures ip.Some? ==> Entry(a, ip.value) in Entries(t)
    ensures IsBst(t) ==> (ip.Some? <==> a in Aliases(t))
  {
    var current := t;
    while current.Node?
      invariant Entries(current) <= Entries(t)
      invariant IsBst(t) ==> IsBst(current) && (a in Aliases(t) <==> a in Aliases(current))
      decreases current
    {
      EntriesOfNode(current);
      if Cmp(a, current.alias) == 0 {
        CmpZeroIffEqual(a, current.alias);
        return Some(current.ip);
      } else if Cmp(a, current.alias) < 0 {
        if IsBst(t) {
          BstNode(current);
          LessTrichotomy(a, current.alias);
        }
        current := current.left;
      } else {
        if IsBst(t) {
          BstNode(current);
          CmpPositiveIsLess(a, current.alias);
          LessTrichotomy(current.alias, a);
        }
        current := current.right;
      }
    }
    return None;
  }

  /** The address step of updateAddress: `strcpy(node->ip, newIP)` on the node
      findNodeByAlias returns; nothing else in the tree changes. */
  function SetAddress(t: Tree, a: string, ip: string): (r: Tree)
    ensures Height(r) == Height(t) && BalanceFactor(r) == BalanceFactor(t)
    ensures HeightsCorrect(r) == HeightsCorrect(t) && Balanced(r) == Balanced(t)
    ensures |InOrder(r)| == |InOrder(t)|
    ensures forall i :: 0 <= i < |InOrder(t)| ==> InOrder(r)[i].alias == InOrder(t)[i].alias
    decreases t
  {
    if t.Leaf? then Leaf
    else if Cmp(t.alias, a) == 0 then t.(ip := ip)
    else if Cmp(a, t.alias) < 0 then t.(left := SetAddress(t.left, a, ip))
    else t.(right := SetAddress(t.right, a, ip))
  }

  /** The entries with alias `a` given address `ip`. */
  function ReplaceIp(s: seq<Entry>, a: string, ip: string): (r: seq<Entry>)
    ensures |r| == |s|
    ensures forall i :: 0 <= i < |s| ==> r[i] == if s[i].alias == a then Entry(a, ip) else s[i]
  {
    seq(|s|, i requires 0 <= i < |s| => if s[i].alias == a then Entry(a, ip) else s[i])
  }

  /** A search tree keeps its order when an address changes. */
  lemma SetAddressKeepsOrder(t: Tree, a: string, ip: string)
    requires IsBst(t)
    ensures IsBst(SetAddress(t, a, ip))
  {
    var s, u := InOrder(t), InOrder(SetAddress(t, a, ip));
    forall i, j | 0 <= i < j < |u| ensures Less(u[i].alias, u[j].alias) {
      assert u[i].alias == s[i].alias && u[j].alias == s[j].alias;
    }
  }

  /** In a search tree the overwrite reaches exactly the entry with that alias. */
  lemma {:induction false} SetAddressEntries(t: Tree, a: string, ip: string)
    requires IsBst(t)
    ensures InOrder(SetAddress(t, a, ip)) == ReplaceIp(InOrder(t), a, ip)
    decreases t
  {
    if t.Node? {
      BstNode(t);
      CmpZeroIffEqual(t.alias, a);
      LessTrichotomy(a, t.alias);
      CmpPositiveIsLess(a, t.alias);
      var xl, e, xr := InOrder(t.left), Entry(t.alias, t.ip), InOrder(t.right);
      if Cmp(t.alias, a) == 0 {
        SeparatedNoAlias(t.left, a);
        SeparatedNoAlias(t.right, a);
        ReplaceIpAbsent(xl, a, ip);
        ReplaceIpAbsent(xr, a, ip);
        ReplaceIpAppend(xl, [e], xr, a, ip);
      } else if Cmp(a, t.alias) < 0 {
        SetAddressEntries(t.left, a, ip);
        SeparatedNoAliasAbove(t.right, t.alias, a);
        ReplaceIpAbsent(xr, a, ip);
        ReplaceIpAppend(xl, [e], xr, a, ip);
      } else {
        SetAddressEntries(t.right, a, ip);
        SeparatedNoAliasBelow(t.left, t.alias, a);
        ReplaceIpAbsent(xl, a, ip);
        ReplaceIpAppend(xl, [e], xr, a, ip);
      }
    }
  }

  /** The records after replacing the address of alias `a`. */
  lemma ReplaceIpMembers(s: seq<Entry>, a: string, ip: string, e: Entry)
    ensures e in ReplaceIp(s, a, ip) ==> e == Entry(a, ip) || (e in s && e.alias != a)
    ensures e in s && e.alias != a ==> e in ReplaceIp(s, a, ip)
    ensures e in s && e.alias == a ==> Entry(a, ip) in ReplaceIp(s, a, ip)
  {
    var r := ReplaceIp(s, a, ip);
    if e in r {
      var i :| 0 <= i < |r| && r[i] == e;
    }
    if e in s {
      var i :| 0 <= i < |s| && s[i] == e;
      assert r[i] in r;
    }
  }

  /** The overwrite keeps every alias where it was. */
  lemma SetAddressAliases(t: Tree, a: string, ip: string)
    ensures Aliases(SetAddress(t, a, ip)) == Aliases(t)
  {
    var u := SetAddress(t, a, ip);
    forall x | x in Aliases(u) ensures x in Aliases(t) {
      var e :| e in InOrder(u) && e.alias == x;
      var i :| 0 <= i < |InOrder(u)| && InOrder(u)[i] == e;
      assert InOrder(t)[i] in InOrder(t);
    }
    forall x | x in Aliases(t) ensures x in Aliases(u) {
      var e :| e in InOrder(t) && e.alias == x;
      var i :| 0 <= i < |InOrder(t)| && InOrder(t)[i] == e;
      assert InOrder(u)[i] in InOrder(u);
    }
  }

  lemma ReplaceIpAbsent(s: seq<Entry>, a: string, ip: string)
    requires forall e :: e in s ==> e.alias != a
    ensures ReplaceIp(s, a, ip) == s
  {
    forall i | 0 <= i < |s| ensures ReplaceIp(s, a, ip)[i] == s[i] {
      assert s[i] in s;
    }
  }

  lemma ReplaceIpAppend(x: seq<Entry>, y: seq<Entry>, z: seq<Entry>, a: string, ip: string)
    ensures ReplaceIp(x + y + z, a, ip) == ReplaceIp(x, a, ip) + ReplaceIp(y, a, ip) + ReplaceIp(z, a, ip)
  {
  }

  lemma SeparatedNoAlias(t: Tree, k: string)
    requires AllBelow(t, k) || AllAbove(t, k)
    ensures forall e :: e in InOrder(t) ==> e.alias != k
  {
    LessIrreflexive(k);
    forall e | e in InOrder(t) ensures e.alias != k {
      assert e.alias in Aliases(t);
    }
  }

  lemma SeparatedNoAliasAbove(t: Tree, k: string, a: string)
    requires AllAbove(t, k) && Less(a, k)
    ensures forall e :: e in InOrder(t) ==> e.alias != a
  {
    LessIrreflexive(a);
    forall e | e in InOrder(t) ensures e.alias != a {
      assert e.alias in Aliases(t);
      LessTransitive(a, k, e.alias);
    }
  }

  lemma SeparatedNoAliasBelow(t: Tree, k: string, a: string)
    requires AllBelow(t, k) && Less(k, a)
    ensures forall e :: e in InOrder(t) ==> e.alias != a
  {
    LessIrreflexive(a);
    forall e | e in InOrder(t) ensures e.alias != a {
      assert e.alias in Aliases(t);
      LessTransitive(e.alias, k, a);
    }
  }
}
