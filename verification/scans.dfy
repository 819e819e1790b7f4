/** Whole-tree scans that ignore the alias order: the duplicate check and the
    address-prefix listing behind displayAliasesForLocation. */
module Scans {
  import opened Wrappers
  import opened CStrings
  import opened Validation
  import opened AvlTree

  /** An entry collides with a candidate address (exact) or alias (ignoring
      ASCII case); an absent candidate collides with nothing. */
  predicate Collides(e: Entry, ip: Option<string>, alias: Option<string>) {
    || (ip.Some? && e.ip == ip.value)
    || (alias.Some? && ToLower(e.alias) == ToLower(alias.value))
  }

  /** isDuplicate: the NULL arguments of the C are `None`. */
  function IsDuplicate(t: Tree, ip: Option<string>, alias: Option<string>): (r: bool)
    ensures r <==> exists e :: e in Entries(t) && Collides(e, ip, alias)
    decreases t
  {
    if t.Leaf? then false
    else
      EntriesOfNode(t);
      var here := Entry(t.alias, t.ip);
      if ip.Some? && Cmp(t.ip, ip.value) == 0 then
        CmpZeroIffEqual(t.ip, ip.value);
        assert Collides(here, ip, alias);
        true
      else if alias.Some? && EqualsIgnoreCase(t.alias, alias.value) then
        EqualsIgnoreCaseIff(t.alias, alias.value);
        assert Collides(here, ip, alias);
        true
      else
        CmpZeroIffEqual(t.ip, if ip.Some? then ip.value else "");
        EqualsIgnoreCaseIff(t.alias, if alias.Some? then alias.value else "");
        assert !Collides(here, ip, alias);
        IsDuplicate(t.left, ip, alias) || IsDuplicate(t.right, ip, alias)
  }

  /** displayAliasesForLocationHelper as written: the entries printed, in the
      order printed (self, then left subtree, then right subtree). Whether the
      list is empty is the `found` flag. */
  function PrefixScan(t: Tree, p: string): (r: seq<Entry>)
    ensures forall e :: e in r <==> e in Entries(t) && p <= e.ip
    decreases t
  {
    if t.Leaf? then []
    else
      EntriesOfNode(t);
      MatchesPrefixIff(t.ip, p);
      (if MatchesPrefix(t.ip, p) then [Entry(t.alias, t.ip)] else [])
        + PrefixScan(t.left, p) + PrefixScan(t.right, p)
  }

  /** The entries of `s` whose address starts with `p`, in the order of `s`. */
  function SelectPrefix(s: seq<Entry>, p: string): (r: seq<Entry>)
    ensures |r| <= |s|
    decreases |s|
  {
    if |s| == 0 then []
    else (if p <= s[0].ip then [s[0]] else []) + SelectPrefix(s[1..], p)
  }

  lemma {:induction false} SelectPrefixAppend(a: seq<Entry>, b: seq<Entry>, p: string)
    ensures SelectPrefix(a + b, p) == SelectPrefix(a, p) + SelectPrefix(b, p)
    decreases |a|
  {
    if |a| == 0 {
      assert a + b == b;
    } else {
      assert (a + b)[1..] == a[1..] + b;
      SelectPrefixAppend(a[1..], b, p);
    }
  }

  /** The scan lists the matching entries in pre-order, not in alias order. */
  lemma {:induction false} PrefixScanIsPreOrder(t: Tree, p: string)
    ensures PrefixScan(t, p) == SelectPrefix(PreOrder(t), p)
    decreases t
  {
    if t.Node? {
      var e := Entry(t.alias, t.ip);
      PrefixScanIsPreOrder(t.left, p);
      PrefixScanIsPreOrder(t.right, p);
      MatchesPrefixIff(t.ip, p);
      SelectPrefixAppend([e] + PreOrder(t.left), PreOrder(t.right), p);
      SelectPrefixAppend([e], PreOrder(t.left), p);
      assert SelectPrefix([e], p) == if p <= t.ip then [e] else [] by {
        assert [e][1..] == [];
      }
    }
  }

  /** The scan with the intended octet-wise match: the prefix followed by a
      dot, so "10.1" no longer matches "10.100.0.1". */
  function OctetPrefixScan(t: Tree, p: string): (r: seq<Entry>)
    ensures forall e :: e in r <==> e in Entries(t) && p + "." <= e.ip
    decreases t
  {
    if t.Leaf? then []
    else
      EntriesOfNode(t);
      MatchesPrefixIff(t.ip, p + ".");
      (if MatchesPrefix(t.ip, p + ".") then [Entry(t.alias, t.ip)] else [])
        + OctetPrefixScan(t.left, p) + OctetPrefixScan(t.right, p)
  }

  /** Digits followed by a dot are a prefix of digits followed by a dot only
      when the digit runs are the same. */
  lemma DigitsDotPrefix(x: string, r: string, u: string, w: string)
    requires AllDigits(x) && AllDigits(u)
    ensures x + "." + r <= u + "." + w <==> x == u && r <= w
  {
    var a, b := x + "." + r, u + "." + w;
    if |x| < |u| {
      assert a[|x|] == '.' && b[|x|] == u[|x|];
    } else if |x| > |u| {
      assert b[|u|] == '.' && a[|u|] == x[|u|];
    } else {
      var k := |x| + 1;
      if a <= b {
        assert x == a[..|x|] && u == b[..|x|];
        assert r == a[k..] && w == b[k..];
        assert r == b[k..|a|];
      }
      if x == u && r <= w {
        assert b[..|a|] == x + "." + w[..|r|];
      }
    }
  }

  /** The corrected match compares whole octets: against a dotted quad, the
      prefix "x.y" matches exactly when x and y are its first two octet texts. */
  lemma OctetPrefixMatchesFirstOctets(ip: string, ds: seq<string>, x: string, y: string)
    requires IsDottedQuad(ip, ds)
    requires AllDigits(x) && AllDigits(y)
    ensures x + "." + y + "." <= ip <==> x == ds[0] && y == ds[1]
  {
    JoinDotsFour(ds);
    var w := ds[2] + "." + ds[3];
    assert ip == ds[0] + "." + (ds[1] + "." + w);
    assert x + "." + y + "." == x + "." + (y + "." + "");
    DigitsDotPrefix(x, y + "." + "", ds[0], ds[1] + "." + w);
    DigitsDotPrefix(y, "", ds[1], w);
  }

  /** "x.y" is a textual prefix of "x.yz…" but not an octet prefix of it
      when z starts with a digit. */
  lemma LongerOctetMatchesTextually(x: string, y: string, z: string, w: string)
    requires |z| > 0 && AllDigits(z)
    ensures x + "." + y <= x + "." + y + z + w
    ensures !(x + "." + y + "." <= x + "." + y + z + w)
  {
    var p, ip := x + "." + y, x + "." + y + z + w;
    assert ip == p + (z + w);
    assert ip[|p|] == z[0];
    assert (p + ".")[|p|] == '.';
  }

  /** The scan as written also lists addresses whose second octet merely
      starts with the prefix's second octet ("10.1" lists "10.100.0.1"); the
      corrected scan does not. */
  lemma PrefixScanOverMatches(t: Tree, a: string, x: string, y: string, z: string, w: string)
    requires Entry(a, x + "." + y + z + w) in Entries(t)
    requires |z| > 0 && AllDigits(z)
    ensures Entry(a, x + "." + y + z + w) in PrefixScan(t, x + "." + y)
    ensures Entry(a, x + "." + y + z + w) !in OctetPrefixScan(t, x + "." + y)
  {
    LongerOctetMatchesTextually(x, y, z, w);
  }
}
